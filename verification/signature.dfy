/** The signature pads (`initSignature`, script.js:216-234) and the blank test
    of `getSignatureDataURL` (script.js:236-247). A pad is a white RGBA canvas
    that strokes are drawn on while the mouse button or finger is down; a pad with no pixel
    darker than near-white in any colour channel counts as unsigned. */
module Signature {
  import opened Wrappers

  type Byte = b: int | 0 <= b < 256

  /** A position on the pad, in canvas units. */
  datatype Point = Point(x: int, y: int)

  /** Pixel k of an RGBA buffer is ink when its red, green or blue byte is
      below 250; the alpha byte is not looked at. */
  predicate Inked(px: seq<Byte>, k: nat)
    requires 4 * k + 3 < |px|
  {
    px[4 * k] < 250 || px[4 * k + 1] < 250 || px[4 * k + 2] < 250
  }

  /** No pixel of the buffer is ink. */
  predicate Blank(px: seq<Byte>) {
    forall k: nat :: k < |px| / 4 ==> !Inked(px, k)
  }

  /** What `getSignatureDataURL` gives for a pad showing `px`: nothing for a
      blank pad, otherwise the image (its encoding as a PNG data URL is not
      part of this model, so the image is its pixels). */
  function SignatureOf(px: seq<Byte>): (r: Option<seq<Byte>>)
    ensures r.None? <==> Blank(px)
    ensures r.Some? ==> r.value == px
  {
    if Blank(px) then None else Some(px)
  }

  /** A canvas filled with `#fff` is blank, so it gives no signature. */
  lemma WhiteIsBlank(px: seq<Byte>)
    requires forall i :: 0 <= i < |px| ==> px[i] == 255
    ensures Blank(px) && SignatureOf(px) == None
  {
  }

  /** A buffer with one black pixel is not blank. */
  lemma InkIsSeen(px: seq<Byte>, k: nat)
    requires 4 * k + 3 < |px| && px[4 * k] == 0
    ensures !Blank(px)
  {
    assert Inked(px, k);
    assert k < |px| / 4;
  }

  class SignaturePad {
    const width: nat
    const height: nat
    /** The canvas: four bytes (red, green, blue, alpha) per pixel, row by row. */
    const pixels: array<Byte>
    /** The flag the mouse and touch listeners toggle. */
    var drawing: bool
    /** The strokes drawn so far, each the list of points it went through. */
    var strokes: seq<seq<Point>>

    predicate Valid()
      reads this
    {
      width >= 1 && height >= 1 &&
      pixels.Length == 4 * (width * height) && (drawing ==> strokes != [])
    }

    /** `ctx.fillStyle='#fff'; ctx.fillRect(...)`: every byte of every pixel
        becomes 255. */
    method FillWhite()
      modifies pixels
      ensures forall i :: 0 <= i < pixels.Length ==> pixels[i] == 255
    {
      forall i | 0 <= i < pixels.Length {
        pixels[i] := 255;
      }
    }

    /** A new pad, filled white (script.js:219), with no stroke and not drawing. */
    constructor (w: nat, h: nat)
      requires w >= 1 && h >= 1
      ensures Valid() && width == w && height == h && fresh(pixels)
      ensures !drawing && strokes == []
      ensures forall i :: 0 <= i < pixels.Length ==> pixels[i] == 255
    {
      width, height := w, h;
      pixels := new Byte[4 * (w * h)];
      drawing, strokes := false, [];
      new;
      FillWhite();
    }

    /** `mousedown`/`touchstart`: a new stroke begins at `p` and drawing starts. */
    method PenDown(p: Point)
      requires Valid()
      modifies this
      ensures Valid() && drawing && strokes == old(strokes) + [[p]]
    {
      drawing := true;
      strokes := strokes + [[p]];
    }

    /** `mousemove`/`touchmove`: only while drawing, the current stroke is
        extended to `p` and the pixels it covers, `ink` (the rasteriser's
        choice, not modelled), are painted black. */
    method PenMove(p: Point, ink: set<nat>)
      requires Valid()
      modifies this, pixels
      ensures Valid() && drawing == old(drawing)
      ensures !old(drawing) ==> strokes == old(strokes) && pixels[..] == old(pixels[..])
      ensures old(drawing) ==>
        strokes == old(strokes)[..|old(strokes)| - 1] + [old(strokes)[|old(strokes)| - 1] + [p]]
      ensures old(drawing) ==> forall i :: 0 <= i < pixels.Length ==>
        pixels[i] == (if i / 4 in ink then (if i % 4 == 3 then 255 else 0) else old(pixels[i]))
    {
      if !drawing {
        return;
      }
      strokes := strokes[..|strokes| - 1] + [strokes[|strokes| - 1] + [p]];
      forall i | 0 <= i < pixels.Length && i / 4 in ink {
        pixels[i] := if i % 4 == 3 then 255 else 0;
      }
    }

    /** `mouseup`/`touchend`: drawing stops. */
    method PenUp()
      requires Valid()
      modifies this
      ensures Valid() && !drawing && strokes == old(strokes)
    {
      drawing := false;
    }

    /** The clear button (script.js:233): the canvas is filled white again;
        the drawing flag and the strokes are left as they are. */
    method Clear()
      requires Valid()
      modifies pixels
      ensures Valid() && Blank(pixels[..])
      ensures forall i :: 0 <= i < pixels.Length ==> pixels[i] == 255
      ensures drawing == old(drawing) && strokes == old(strokes)
    {
      FillWhite();
      WhiteIsBlank(pixels[..]);
    }

    /** The scan of `getSignatureDataURL`: four bytes at a time, stopping at
        the first ink pixel; no ink means no signature. */
    method Capture() returns (img: Option<seq<Byte>>)
      requires Valid()
      ensures img == SignatureOf(pixels[..])
    {
      var has := false;
      var i := 0;
      while i < pixels.Length
        invariant i % 4 == 0 && i <= pixels.Length && !has
        invariant forall k: nat :: k < i / 4 ==> !Inked(pixels[..], k)
      {
        if pixels[i] < 250 || pixels[i + 1] < 250 || pixels[i + 2] < 250 {
          has := true;
          break;
        }
        i := i + 4;
      }
      if !has {
        return None;
      }
      assert Inked(pixels[..], i / 4);
      return Some(pixels[..]);
    }
  }
}
