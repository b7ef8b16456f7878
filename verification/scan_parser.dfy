/** The scan-line parser of `handleAddScans` (script.js:88-116): how a block
    of scanned or pasted text is cut into lines, how a line is cut into
    pieces, and how the pieces become a package record. */
module ScanParser {
  import opened Wrappers
  import opened Text

  /** A package record as a scan line yields it; the courier is attached by
      the session when the row is added. */
  datatype Entry = Entry(id: string, name: string, phone: string, addr: string, amount: nat)

  /** `parts.map(p => p.trim())`. */
  function TrimAll(parts: seq<string>): seq<string> {
    seq(|parts|, i requires 0 <= i < |parts| => Trim(parts[i]))
  }

  // ---------------------------------------------------------------- lines

  /** A piece of a `\n` split, without the `\r` of a `\r\n` line end. */
  function DropCR(p: string): (r: string)
    ensures r == p || (p == r + ['\r'])
  {
    if p != [] && p[|p| - 1] == '\r' then p[..|p| - 1] else p
  }

  function DropCRs(parts: seq<string>): seq<string> {
    seq(|parts|, i requires 0 <= i < |parts| => DropCR(parts[i]))
  }

  /** The `\r?\n` split of `raw.split(/\r?\n/)`, except that a `\r` ending
      the last piece is dropped too; the trim that follows removes it anyway. */
  function SplitLines(raw: string): seq<string> {
    DropCRs(Split(raw, '\n'))
  }

  /** `.filter(Boolean)` on strings: the non-empty ones, in order. */
  function NonEmpty(parts: seq<string>): (r: seq<string>)
    ensures |r| <= |parts|
  {
    if parts == [] then []
    else (if parts[0] != [] then [parts[0]] else []) + NonEmpty(parts[1..])
  }

  /** The kept strings are non-empty members of the list. */
  lemma {:induction false} NonEmptyIn(parts: seq<string>)
    ensures forall i :: 0 <= i < |NonEmpty(parts)| ==> NonEmpty(parts)[i] != [] && NonEmpty(parts)[i] in parts
  {
    if parts != [] {
      NonEmptyIn(parts[1..]);
    }
  }

  /** The filter works piece by piece: a non-empty piece is kept, an empty
      one dropped, and the kept pieces of a concatenation are those of its
      parts in order. */
  lemma {:induction false} NonEmptyConcat(a: seq<string>, b: seq<string>)
    ensures NonEmpty(a + b) == NonEmpty(a) + NonEmpty(b)
  {
    if a == [] {
      assert a + b == b;
    } else {
      var ab := a + b;
      assert ab[0] == a[0] && ab[1..] == a[1..] + b;
      var h := if a[0] != [] then [a[0]] else [];
      assert NonEmpty(ab) == h + NonEmpty(a[1..] + b);
      assert NonEmpty(a) == h + NonEmpty(a[1..]);
      NonEmptyConcat(a[1..], b);
    }
  }

  lemma NonEmptyOne(p: string)
    ensures NonEmpty([p]) == if p != [] then [p] else []
  {
    assert [p][1..] == [];
  }

  /** A list with no empty string is kept whole. */
  lemma {:induction false} NonEmptyAll(parts: seq<string>)
    requires forall i :: 0 <= i < |parts| ==> parts[i] != []
    ensures NonEmpty(parts) == parts
  {
    if parts != [] {
      NonEmptyAll(parts[1..]);
      assert [parts[0]] + parts[1..] == parts;
    }
  }

  /** The lines `handleAddScans` parses (script.js:93): the trimmed pieces of
      the `\r?\n` split that are not blank, so never more lines than that
      split has pieces (Text.SplitCount: line feeds plus one). */
  function ScanLines(raw: string): (lines: seq<string>)
    ensures |lines| <= |Split(raw, '\n')|
  {
    NonEmpty(TrimAll(SplitLines(raw)))
  }

  lemma DropCRKeepsAbsent(p: string, c: char)
    requires c !in p
    ensures c !in DropCR(p)
  {
  }

  /** Every scan line is non-empty, already trimmed and holds no line feed. */
  lemma ScanLinesShape(raw: string)
    ensures forall i :: 0 <= i < |ScanLines(raw)| ==>
      var line := ScanLines(raw)[i];
      line != [] && Trim(line) == line && '\n' !in line
  {
    var pieces := Split(raw, '\n');
    var trimmed := TrimAll(SplitLines(raw));
    SplitPieces(raw, '\n');
    NonEmptyIn(trimmed);
    forall i | 0 <= i < |ScanLines(raw)|
      ensures var line := ScanLines(raw)[i]; line != [] && Trim(line) == line && '\n' !in line
    {
      var line := ScanLines(raw)[i];
      var j :| 0 <= j < |trimmed| && trimmed[j] == line;
      LineShape(pieces[j]);
    }
  }

  /** Non-blank, trimmed lines without line feeds, joined by line feeds, are
      exactly the scan lines of the text: one per line, in input order. */
  lemma ScanLinesOfLines(lines: seq<string>)
    requires |lines| >= 1
    requires forall i :: 0 <= i < |lines| ==> lines[i] != [] && Trim(lines[i]) == lines[i] && '\n' !in lines[i]
    ensures ScanLines(Join(lines, '\n')) == lines
  {
    var raw := Join(lines, '\n');
    SplitJoin(lines, '\n');
    assert SplitLines(raw) == DropCRs(lines);
    TrimmedLinesKept(lines);
    NonEmptyAll(lines);
  }

  /** Neither dropping a final `\r` nor trimming changes non-blank trimmed lines. */
  lemma TrimmedLinesKept(lines: seq<string>)
    requires forall i :: 0 <= i < |lines| ==> lines[i] != [] && Trim(lines[i]) == lines[i]
    ensures DropCRs(lines) == lines && TrimAll(lines) == lines
  {
    forall i | 0 <= i < |lines| ensures DropCRs(lines)[i] == lines[i] {
      TrimmedKeepsCR(lines[i]);
    }
  }

  /** A non-blank trimmed line does not end in `\r`, so no `\r` is dropped. */
  lemma TrimmedKeepsCR(l: string)
    requires l != [] && Trim(l) == l
    ensures DropCR(l) == l
  {
    assert !IsWhitespace(Trim(l)[|l| - 1]);
  }

  /** One trimmed piece of the line split is its own trim and has no line feed. */
  lemma LineShape(piece: string)
    requires '\n' !in piece
    ensures var line := Trim(DropCR(piece)); Trim(line) == line && '\n' !in line
  {
    DropCRKeepsAbsent(piece, '\n');
    TrimTrim(DropCR(piece), '\n');
  }

  /** Text that is non-empty after trimming (the only text `handleAddScans`
      goes on to parse) has at least one scan line. */
  lemma ScanLinesNonEmpty(raw: string)
    requires raw != [] && Trim(raw) == raw
    ensures |ScanLines(raw)| >= 1
  {
    var pieces := Split(raw, '\n');
    assert raw[0] != '\n';
    assert pieces[0] != [] && pieces[0][0] == raw[0];
    var first := DropCR(pieces[0]);
    assert first != [] && first[0] == raw[0];
    assert Trim(first) != [];
    assert TrimAll(SplitLines(raw))[0] != [];
  }

  // ---------------------------------------------------------------- one line

  /** How `handleAddScans` cuts one line into trimmed pieces (script.js:96-102):
      on `|` when that gives more than one piece; otherwise on a tab if there
      is one, else on `;` if there is one, else on `,` if that gives at least
      five pieces; otherwise the line stays whole. */
  function Pieces(line: string): (parts: seq<string>)
    ensures |parts| >= 1
  {
    var parts := TrimAll(Split(line, '|'));
    if |parts| == 1 then
      if '\t' in line then TrimAll(Split(line, '\t'))
      else if ';' in line then TrimAll(Split(line, ';'))
      else if |Split(line, ',')| >= 5 then TrimAll(Split(line, ','))
      else parts
    else parts
  }

  /** The delimiter rule stated on the characters of the line: `|` if the
      line has one, else a tab, else `;`, else `,` if it occurs at least four
      times; no delimiter otherwise. */
  function Delimiter(line: string): Option<char> {
    if '|' in line then Some('|')
    else if '\t' in line then Some('\t')
    else if ';' in line then Some(';')
    else if multiset(line)[','] >= 4 then Some(',')
    else None
  }

  /** The pieces are the trimmed split on the delimiter the rule picks, and
      the whole trimmed line when it picks none. */
  lemma {:induction false} PiecesByDelimiter(line: string)
    ensures Pieces(line) == match Delimiter(line)
      case Some(d) => TrimAll(Split(line, d))
      case None => [Trim(line)]
  {
    var parts := TrimAll(Split(line, '|'));
    SplitCount(line, '|');
    if '|' in line {
      assert multiset(line)['|'] >= 1;
      assert |parts| >= 2;
    } else {
      assert multiset(line)['|'] == 0;
      SplitWithout(line, '|');
      assert parts == [Trim(line)];
      if '\t' !in line && ';' !in line {
        SplitCount(line, ',');
      }
    }
  }

  /** `parts[i] || ''`: a missing piece reads as the empty string. */
  function Field(parts: seq<string>, i: nat): string {
    if i < |parts| then parts[i] else ""
  }

  /** `parts[4] ? Number(parts[4].replace(/[^\d]/g,'')) : 0`. */
  function AmountField(parts: seq<string>): nat {
    if |parts| > 4 && parts[4] != "" then DecimalValue(Digits(parts[4])) else 0
  }

  /** The record built from the pieces of a line (script.js:103-110): the
      first five pieces fill id, name, phone, address and amount; a missing
      piece leaves its field empty or the amount 0, and pieces after the
      fifth are ignored. */
  function EntryOf(parts: seq<string>): (e: Entry)
    ensures |parts| >= 1 ==> e.id == parts[0]
    ensures |parts| < 2 ==> e.name == ""
    ensures |parts| < 3 ==> e.phone == ""
    ensures |parts| < 4 ==> e.addr == ""
    ensures |parts| < 5 ==> e.amount == 0
    ensures |parts| > 5 ==> e == EntryOf(parts[..5])
  {
    Entry(Field(parts, 0), Field(parts, 1), Field(parts, 2), Field(parts, 3), AmountField(parts))
  }

  /** The record one scan line yields. */
  function ParseLine(line: string): Entry {
    EntryOf(Pieces(line))
  }

  /** The records of a batch of lines, in line order. */
  function ParseLines(lines: seq<string>): seq<Entry> {
    seq(|lines|, k requires 0 <= k < |lines| => ParseLine(lines[k]))
  }

  /** The amount is the number the digits of the fifth piece spell, so a
      missing or empty fifth piece, or one without digits, gives 0. */
  lemma AmountIsDigitsOfFifth(parts: seq<string>)
    ensures EntryOf(parts).amount == DecimalValue(Digits(Field(parts, 4)))
    ensures Digits(Field(parts, 4)) == [] ==> EntryOf(parts).amount == 0
  {
  }

  /** A line with no delimiter becomes a record holding only its id. */
  lemma UndelimitedLine(line: string)
    requires Delimiter(line).None?
    ensures ParseLine(line) == Entry(Trim(line), "", "", "", 0)
  {
    PiecesByDelimiter(line);
  }

  /** A line assembled from fields with the delimiter the rule picks for it is
      parsed back into those fields, trimmed; pieces beyond the fifth are
      ignored and missing ones are empty. */
  lemma JoinedLine(fields: seq<string>, d: char)
    requires |fields| >= 1
    requires forall i :: 0 <= i < |fields| ==> d !in fields[i]
    requires Delimiter(Join(fields, d)) == Some(d)
    ensures var parts := TrimAll(fields);
      ParseLine(Join(fields, d)) ==
        Entry(Field(parts, 0), Field(parts, 1), Field(parts, 2), Field(parts, 3),
              DecimalValue(Digits(Field(parts, 4))))
  {
    var line := Join(fields, d);
    var parts := TrimAll(fields);
    assert Pieces(line) == parts by {
      PiecesByDelimiter(line);
      SplitJoin(fields, d);
    }
    AmountIsDigitsOfFifth(parts);
  }

  /** The primary format `id|name|phone|addr|amount`: five pipe-free fields
      joined by `|` parse into the five trimmed fields, the amount reduced to
      its digits. */
  lemma PipeLine(id: string, name: string, phone: string, addr: string, amount: string)
    requires '|' !in id && '|' !in name && '|' !in phone && '|' !in addr && '|' !in amount
    ensures ParseLine(Join([id, name, phone, addr, amount], '|')) ==
      Entry(Trim(id), Trim(name), Trim(phone), Trim(addr), DecimalValue(Digits(Trim(amount))))
  {
    PipeFields([id, name, phone, addr, amount]);
  }

  /** `PipeLine` over a sequence of five fields. */
  lemma PipeFields(fields: seq<string>)
    requires |fields| == 5
    requires forall i :: 0 <= i < 5 ==> '|' !in fields[i]
    ensures ParseLine(Join(fields, '|')) ==
      Entry(Trim(fields[0]), Trim(fields[1]), Trim(fields[2]), Trim(fields[3]),
            DecimalValue(Digits(Trim(fields[4]))))
  {
    var line := Join(fields, '|');
    assert Delimiter(line) == Some('|') by {
      assert line == fields[0] + ['|'] + Join(fields[1..], '|');
      assert line[|fields[0]|] == '|';
    }
    JoinedLine(fields, '|');
  }
}
