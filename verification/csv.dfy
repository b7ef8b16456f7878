/** The table `exportCSV` writes (script.js:197-210): a header record and one
    record per manifest row, every field wrapped in double quotes with inner
    quotes doubled, fields joined by `,` and records by a line feed. A reader
    for that format shows that the encoding loses nothing. */
module Csv {
  import opened Wrappers
  import opened Text
  import opened Rows

  /** The header record (script.js:198). */
  const Header: seq<string> := ["№", "ID", "Получатель", "Телефон", "Адрес", "Сумма", "Курьер"]

  /** The record of the row at position i: its 1-based position, then the
      texts of its id, name, phone, address, amount and courier cells. */
  function Record(i: nat, r: Row): seq<string> {
    [NatToString(i + 1), r.id, r.name, r.phone, r.addr, r.sum, r.courier]
  }

  /** The records `exportCSV` collects: the header, then one per row. */
  function Table(rows: seq<Row>): seq<seq<string>> {
    [Header] + seq(|rows|, i requires 0 <= i < |rows| => Record(i, rows[i]))
  }

  /** The `forEach` that pushes one record per row (script.js:199-209). */
  method BuildTable(rows: seq<Row>) returns (t: seq<seq<string>>)
    ensures |t| == |rows| + 1 && t[0] == Header
    ensures forall i :: 0 <= i < |rows| ==> t[i + 1] == Record(i, rows[i])
  {
    t := [Header];
    for i := 0 to |rows|
      invariant |t| == i + 1 && t[0] == Header
      invariant forall j :: 0 <= j < i ==> t[j + 1] == Record(j, rows[j])
    {
      t := t + [Record(i, rows[i])];
    }
  }

  /** A table with the header first and the record of row i at i + 1 is
      the table of the rows. */
  lemma TableIs(t: seq<seq<string>>, rows: seq<Row>)
    requires |t| == |rows| + 1 && t[0] == Header
    requires forall i :: 0 <= i < |rows| ==> t[i + 1] == Record(i, rows[i])
    ensures t == Table(rows)
  {
  }

  // ---------------------------------------------------------------- writing

  /** `String(c).replace(/"/g, '""')`. */
  function Doubled(c: string): string {
    if c == [] then [] else (if c[0] == '"' then "\"\"" else [c[0]]) + Doubled(c[1..])
  }

  /** One field: the cell between double quotes, inner quotes doubled. */
  function Quote(c: string): string {
    "\"" + Doubled(c) + "\""
  }

  /** Quoting adds exactly the two outer quotes and one more quote for each
      quote inside the cell; every other character is kept. */
  lemma {:induction false} QuoteLength(c: string)
    ensures var q := Quote(c);
      && |q| == |c| + multiset(c)['"'] + 2 && q[0] == '"' && q[|q| - 1] == '"'
      && multiset(q)['"'] == 2 * multiset(c)['"'] + 2
  {
    DoubledCounts(c);
  }

  lemma {:induction false} DoubledCounts(c: string)
    ensures |Doubled(c)| == |c| + multiset(c)['"']
    ensures multiset(Doubled(c))['"'] == 2 * multiset(c)['"']
  {
    if c != [] {
      DoubledCounts(c[1..]);
      assert c == [c[0]] + c[1..];
      assert multiset(c) == multiset([c[0]]) + multiset(c[1..]);
      var h := if c[0] == '"' then "\"\"" else [c[0]];
      assert Doubled(c) == h + Doubled(c[1..]);
      assert multiset(Doubled(c)) == multiset(h) + multiset(Doubled(c[1..]));
    }
  }

  function QuoteAll(fields: seq<string>): (r: seq<string>)
    ensures |r| == |fields|
    ensures forall i :: 0 <= i < |r| ==> r[i] == Quote(fields[i])
  {
    if fields == [] then [] else [Quote(fields[0])] + QuoteAll(fields[1..])
  }

  /** One line: the quoted fields joined by `,`. */
  function EncodeRecord(fields: seq<string>): string {
    Join(QuoteAll(fields), ',')
  }

  function EncodeAll(table: seq<seq<string>>): (r: seq<string>)
    ensures |r| == |table|
  {
    if table == [] then [] else [EncodeRecord(table[0])] + EncodeAll(table[1..])
  }

  /** The file text: the lines joined by a line feed. */
  function Encode(table: seq<seq<string>>): string {
    Join(EncodeAll(table), '\n')
  }

  // ---------------------------------------------------------------- reading

  /** Reads the inside of a quoted field, just after its opening quote: a
      doubled quote stands for one quote, a single quote closes the field.
      Gives the field and what follows the closing quote; None when the field
      is never closed. */
  function ReadQuoted(s: string): (r: Option<(string, string)>)
    ensures r.Some? ==> |r.value.1| < |s|
  {
    if s == [] then None
    else if s[0] == '"' then
      if |s| >= 2 && s[1] == '"' then
        match ReadQuoted(s[2..])
        case None => None
        case Some((c, rest)) => Some(("\"" + c, rest))
      else Some(([], s[1..]))
    else
      match ReadQuoted(s[1..])
      case None => None
      case Some((c, rest)) => Some(([s[0]] + c, rest))
  }

  /** Reads one record: quoted fields separated by `,`, up to the first
      character after a field that is not a `,`. */
  function ReadRecord(s: string): (r: Option<(seq<string>, string)>)
    ensures r.Some? ==> |r.value.1| < |s|
    decreases |s|
  {
    if s == [] || s[0] != '"' then None
    else
      match ReadQuoted(s[1..])
      case None => None
      case Some((c, rest)) =>
        if rest != [] && rest[0] == ',' then
          match ReadRecord(rest[1..])
          case None => None
          case Some((cs, rest')) => Some(([c] + cs, rest'))
        else Some(([c], rest))
  }

  /** Reads the whole text: records separated by a line feed. */
  function ReadTable(s: string): Option<seq<seq<string>>>
    decreases |s|
  {
    match ReadRecord(s)
    case None => None
    case Some((rec, rest)) =>
      if rest == [] then Some([rec])
      else if rest[0] != '\n' then None
      else
        match ReadTable(rest[1..])
        case None => None
        case Some(recs) => Some([rec] + recs)
  }

  // ---------------------------------------------------------------- round trip

  /** A doubled cell followed by a closing quote reads back as the cell,
      provided the closing quote is not itself followed by a quote. */
  lemma {:induction false} ReadDoubled(c: string, t: string)
    requires t == [] || t[0] != '"'
    ensures ReadQuoted(Doubled(c) + "\"" + t) == Some((c, t))
  {
    var s := Doubled(c) + "\"" + t;
    if c == [] {
      assert s == "\"" + t;
      assert s[1..] == t;
    } else {
      ReadDoubled(c[1..], t);
      var s' := Doubled(c[1..]) + "\"" + t;
      if c[0] == '"' {
        assert s == "\"\"" + s';
        assert s[2..] == s';
      } else {
        assert s == [c[0]] + s';
        assert s[1..] == s';
      }
      assert [c[0]] + c[1..] == c;
    }
  }

  /** A quoted field followed by text that does not start with a quote reads
      back as the cell. */
  lemma ReadQuote(c: string, t: string)
    requires t == [] || t[0] != '"'
    ensures ReadRecord(Quote(c) + t) ==
      if t != [] && t[0] == ',' then
        match ReadRecord(t[1..])
        case None => None
        case Some((cs, rest)) => Some(([c] + cs, rest))
      else Some(([c], t))
  {
    var s := Quote(c) + t;
    assert s[1..] == Doubled(c) + "\"" + t;
    ReadDoubled(c, t);
  }

  lemma EncodeRecordCons(fields: seq<string>)
    requires |fields| >= 2
    ensures EncodeRecord(fields) == Quote(fields[0]) + [','] + EncodeRecord(fields[1..])
  {
    assert QuoteAll(fields)[1..] == QuoteAll(fields[1..]);
  }

  lemma EncodeCons(table: seq<seq<string>>)
    requires |table| >= 2
    ensures Encode(table) == EncodeRecord(table[0]) + ['\n'] + Encode(table[1..])
  {
    assert EncodeAll(table)[1..] == EncodeAll(table[1..]);
  }

  /** An encoded record followed by nothing or a line feed reads back as its
      fields. */
  lemma {:induction false} ReadEncodedRecord(fields: seq<string>, t: string)
    requires |fields| >= 1
    requires t == [] || t[0] == '\n'
    ensures ReadRecord(EncodeRecord(fields) + t) == Some((fields, t))
  {
    if |fields| == 1 {
      assert EncodeRecord(fields) == Quote(fields[0]);
      ReadQuote(fields[0], t);
      assert [fields[0]] == fields;
    } else {
      var rest := EncodeRecord(fields[1..]) + t;
      EncodeRecordCons(fields);
      assert EncodeRecord(fields) + t == Quote(fields[0]) + ([','] + rest);
      ReadQuote(fields[0], [','] + rest);
      assert ([','] + rest)[1..] == rest;
      ReadEncodedRecord(fields[1..], t);
      assert [fields[0]] + fields[1..] == fields;
    }
  }

  /** Reading the encoded text gives the table back: every cell is recovered
      exactly, whatever quotes, commas or line feeds it holds. */
  lemma {:induction false} CsvRoundTrip(table: seq<seq<string>>)
    requires |table| >= 1
    requires forall i :: 0 <= i < |table| ==> |table[i]| >= 1
    ensures ReadTable(Encode(table)) == Some(table)
  {
    if |table| == 1 {
      assert Encode(table) == EncodeRecord(table[0]) + [];
      ReadEncodedRecord(table[0], []);
      assert [table[0]] == table;
    } else {
      var t := ['\n'] + Encode(table[1..]);
      EncodeCons(table);
      assert Encode(table) == EncodeRecord(table[0]) + t;
      ReadEncodedRecord(table[0], t);
      assert t[1..] == Encode(table[1..]);
      CsvRoundTrip(table[1..]);
      assert [table[0]] + table[1..] == table;
    }
  }

  /** Every record of the exported table has the seven fields of the header,
      the first being the record's position below the header. */
  lemma TableShape(rows: seq<Row>)
    ensures var t := Table(rows);
      && |t| == |rows| + 1 && t[0] == Header
      && (forall j :: 0 <= j < |t| ==> |t[j]| == 7)
      && (forall j :: 1 <= j < |t| ==> t[j][0] == NatToString(j))
  {
    var t := Table(rows);
    assert forall j :: 1 <= j < |t| ==> t[j] == Record(j - 1, rows[j - 1]);
  }

  /** The exported text reads back as exactly the exported records. */
  lemma ExportRoundTrip(rows: seq<Row>)
    ensures ReadTable(Encode(Table(rows))) == Some(Table(rows))
  {
    TableShape(rows);
    CsvRoundTrip(Table(rows));
  }
}
