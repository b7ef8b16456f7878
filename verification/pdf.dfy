/** What `exportPDF` hands to the PDF library (script.js:285-349): the
    courier's lines, the total under them, the note line, the two signature
    images and the file name. */
module PdfExport {
  import opened Wrappers
  import opened Text
  import opened Partition
  import opened Signature

  /** The document as it is assembled: title courier, date text, note line
      (present only for a non-empty note), table body, total, and the
      signature images that are embedded when the pads are not blank. */
  datatype PdfDoc = PdfDoc(courier: string, date: string, note: Option<string>, body: seq<Line>,
                           total: nat, courierSignature: Option<seq<Byte>>,
                           receiverSignature: Option<seq<Byte>>, fileName: string)

  /** `if(manifestNote.value)`: an empty note writes no note line. */
  function NoteLine(note: string): Option<string> {
    if note == "" then None else Some(note)
  }

  // ---------------------------------------------------------------- file name

  /** `s.replace(/\s+/g, '_')`: every maximal run of whitespace becomes one `_`. */
  function UnderscoreRuns(s: string): (r: string)
    ensures |r| <= |s| && NoWhitespace(r)
    decreases |s|
  {
    if s == [] then []
    else if IsWhitespace(s[0]) then "_" + UnderscoreRuns(s[LeadingSpace(s)..])
    else [s[0]] + UnderscoreRuns(s[1..])
  }

  /** Text without whitespace is left as it is. */
  lemma {:induction false} UnderscoreRunsPlain(s: string)
    requires NoWhitespace(s)
    ensures UnderscoreRuns(s) == s
  {
    if s != [] {
      UnderscoreRunsPlain(s[1..]);
      assert [s[0]] + s[1..] == s;
    }
  }

  /** Replacing twice is replacing once. */
  lemma UnderscoreRunsIdempotent(s: string)
    ensures UnderscoreRuns(UnderscoreRuns(s)) == UnderscoreRuns(s)
  {
    UnderscoreRunsPlain(UnderscoreRuns(s));
  }

  /** A word followed by a run of whitespace and more text: the word is kept,
      the run becomes a single `_`. */
  lemma {:induction false} UnderscoreRunsStep(word: string, run: string, t: string)
    requires NoWhitespace(word)
    requires run != [] && forall i :: 0 <= i < |run| ==> IsWhitespace(run[i])
    requires t == [] || !IsWhitespace(t[0])
    ensures UnderscoreRuns(word + run + t) == word + "_" + UnderscoreRuns(t)
  {
    var s := word + run + t;
    if word == [] {
      assert s == run + t;
      assert LeadingSpace(s) == |run| by {
        assert forall i :: 0 <= i < |run| ==> IsWhitespace(s[i]);
        LeadingSpaceOf(s, |run|);
      }
      assert s[|run|..] == t;
    } else {
      assert s[1..] == word[1..] + run + t;
      UnderscoreRunsStep(word[1..], run, t);
      assert [word[0]] + word[1..] == word;
    }
  }

  /** The leading run is exactly the prefix of whitespace that stops at a
      non-whitespace character or at the end. */
  lemma {:induction false} LeadingSpaceOf(s: string, n: nat)
    requires n <= |s|
    requires forall i :: 0 <= i < n ==> IsWhitespace(s[i])
    requires n == |s| || !IsWhitespace(s[n])
    ensures LeadingSpace(s) == n
  {
    if n > 0 {
      LeadingSpaceOf(s[1..], n - 1);
    }
  }

  /** A name made of words separated by single spaces has its spaces replaced
      by `_`: "Ulug'bek Nuriyev" gives "Ulug'bek_Nuriyev". */
  lemma {:induction false} UnderscoreWords(words: seq<string>)
    requires forall i :: 0 <= i < |words| ==> words[i] != [] && NoWhitespace(words[i])
    ensures UnderscoreRuns(Join(words, ' ')) == Join(words, '_')
  {
    if |words| == 1 {
      UnderscoreRunsPlain(words[0]);
    } else if |words| > 1 {
      var t := Join(words[1..], ' ');
      assert t[0] == words[1][0] by { JoinHead(words[1..], ' '); }
      UnderscoreRunsStep(words[0], " ", t);
      UnderscoreWords(words[1..]);
    }
  }

  lemma JoinHead(words: seq<string>, d: char)
    requires |words| >= 1 && words[0] != []
    ensures Join(words, d) != [] && Join(words, d)[0] == words[0][0]
  {
  }

  /** The name the PDF is saved under (script.js:349): "manifest_", the
      courier with whitespace runs replaced, "_", the first ten characters
      of the ISO timestamp (its date), ".pdf". */
  function FileName(courier: string, isoNow: string): (f: string)
    ensures 14 <= |f| <= 24 + |courier|
    ensures f[..9] == "manifest_" && f[|f| - 4..] == ".pdf"
  {
    var c, d := UnderscoreRuns(courier), Take(isoNow, 10);
    assert "manifest_" + c + "_" + d + ".pdf" == "manifest_" + (c + "_" + d + ".pdf");
    "manifest_" + c + "_" + d + ".pdf"
  }

  lemma NoWhitespaceConcat(a: string, b: string)
    requires NoWhitespace(a) && NoWhitespace(b)
    ensures NoWhitespace(a + b)
  {
    forall i | 0 <= i < |a + b| ensures !IsWhitespace((a + b)[i]) {
      if i >= |a| {
        assert (a + b)[i] == b[i - |a|];
      }
    }
  }

  /** The file name has no whitespace when the timestamp has none: the
      courier's whitespace runs are all replaced. */
  lemma FileNameNoWhitespace(courier: string, isoNow: string)
    requires NoWhitespace(isoNow)
    ensures NoWhitespace(FileName(courier, isoNow))
  {
    var c, d := UnderscoreRuns(courier), Take(isoNow, 10);
    assert NoWhitespace(d) by {
      forall i | 0 <= i < |d| ensures !IsWhitespace(d[i]) {
        assert d[i] == isoNow[i];
      }
    }
    NoWhitespaceConcat("manifest_", c);
    NoWhitespaceConcat("manifest_" + c, "_");
    NoWhitespaceConcat("manifest_" + c + "_", d);
    NoWhitespaceConcat("manifest_" + c + "_" + d, ".pdf");
  }
}
