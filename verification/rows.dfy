/** The rows of the manifest table as the session keeps them (the `tbody`
    of script.js), the totals over them, and the row-level effect of adding,
    editing and deleting. */
module Rows {
  import opened Text
  import opened Cells
  import opened ScanParser

  /** One row of the manifest table, as the texts its cells show: the index
      cell, the four editable text cells, the amount cell and the courier
      cell. */
  datatype Row = Row(index: nat, id: string, name: string, phone: string, addr: string,
                     sum: string, courier: string)

  /** The editable cells of a row (their `data-col` names). */
  datatype Column = Id | Name | Phone | Addr | Sum

  /** The text an editable cell of the row shows. */
  function Cell(r: Row, col: Column): string {
    match col
    case Id => r.id
    case Name => r.name
    case Phone => r.phone
    case Addr => r.addr
    case Sum => r.sum
  }

  /** What an amount cell adds to a total:
      `Number(text.replace(/[^\d]/g,'') || 0)` (script.js:183). */
  function CellAmount(sum: string): nat {
    DecimalValue(Digits(sum))
  }

  /** The sum `recalcTotals` accumulates over all rows (script.js:180-185). */
  function TotalOf(rows: seq<Row>): (t: nat)
    ensures forall j :: 0 <= j < |rows| ==> CellAmount(rows[j].sum) <= t
  {
    if rows == [] then 0 else TotalOf(rows[..|rows| - 1]) + CellAmount(rows[|rows| - 1].sum)
  }

  /** The index cell of the row at position j holds j + 1. */
  predicate Numbered(rows: seq<Row>) {
    forall j :: 0 <= j < |rows| ==> rows[j].index == j + 1
  }

  /** Every amount cell holds a numeral, as `addRow` and `sanitizeNumber` write it. */
  predicate AmountsWritten(rows: seq<Row>) {
    forall j :: 0 <= j < |rows| ==> IsNumeral(rows[j].sum)
  }

  // ---------------------------------------------------------------- adding

  /** The row `addRow` appends (script.js:139-151): the index cell takes the
      incremented counter and the amount cell shows `String(amount)`. The
      other texts are written into the markup through `escapeHtml`, which
      decodes back to the same text (Cells.EscapeRoundTrip); the cells are
      modelled as holding those texts. */
  function NewRow(index: nat, e: Entry, courier: string): (r: Row)
    ensures r.index == index && r.courier == courier
    ensures r.id == e.id && r.name == e.name && r.phone == e.phone && r.addr == e.addr
    ensures IsNumeral(r.sum) && CellAmount(r.sum) == e.amount
  {
    var sum := NatToString(e.amount);
    DigitsOfDigits(sum);
    NatToStringValue(e.amount);
    Row(index, e.id, e.name, e.phone, e.addr, sum, courier)
  }

  /** The rows a batch of records appends after `base` existing rows: one
      per record, in order, numbered on from `base`, all for `courier`. */
  function NewRows(base: nat, entries: seq<Entry>, courier: string): (r: seq<Row>)
    ensures |r| == |entries|
  {
    if entries == [] then []
    else NewRows(base, entries[..|entries| - 1], courier)
         + [NewRow(base + |entries|, entries[|entries| - 1], courier)]
  }

  /** One more record adds its row, numbered after the others, at the end. */
  lemma NewRowsSnoc(base: nat, entries: seq<Entry>, e: Entry, courier: string)
    ensures NewRows(base, entries + [e], courier) ==
      NewRows(base, entries, courier) + [NewRow(base + |entries| + 1, e, courier)]
  {
    assert (entries + [e])[..|entries|] == entries;
  }

  /** Row k of a batch is the row of record k, numbered base + k + 1. */
  lemma {:induction false} NewRowsAt(base: nat, entries: seq<Entry>, courier: string, k: nat)
    requires k < |entries|
    ensures NewRows(base, entries, courier)[k] == NewRow(base + k + 1, entries[k], courier)
  {
    var front := entries[..|entries| - 1];
    var rows := NewRows(base, entries, courier);
    assert rows == NewRows(base, front, courier) + [NewRow(base + |entries|, entries[|entries| - 1], courier)];
    if k < |front| {
      NewRowsAt(base, front, courier, k);
      assert rows[k] == NewRows(base, front, courier)[k];
    }
  }

  // ---------------------------------------------------------------- editing and deleting

  /** A row after an edit of one of its cells: text cells take the text as
      typed; the amount cell is rewritten with `sanitizeNumber` by the input
      listener (script.js:153-158). The index and courier cells are never
      edited, every other cell keeps its text, a text cell shows the text as
      typed, and an amount edit leaves a numeral worth what the digits of the
      typed text spell. */
  function Edited(r: Row, col: Column, text: string): (e: Row)
    ensures e.index == r.index && e.courier == r.courier
    ensures forall c :: c != col ==> Cell(e, c) == Cell(r, c)
    ensures col != Sum ==> Cell(e, col) == text
    ensures col == Sum ==> IsNumeral(e.sum) && CellAmount(e.sum) == CellAmount(text)
  {
    match col
    case Id => r.(id := text)
    case Name => r.(name := text)
    case Phone => r.(phone := text)
    case Addr => r.(addr := text)
    case Sum =>
      SanitizedCell(text);
      r.(sum := SanitizeNumber(text))
  }

  /** An amount cell rewritten by `sanitizeNumber` holds a numeral worth what
      the typed text adds to a total. */
  lemma SanitizedCell(text: string)
    ensures IsNumeral(SanitizeNumber(text)) && CellAmount(SanitizeNumber(text)) == CellAmount(text)
  {
    SanitizeKeepsValue(text);
    DigitsOfDigits(SanitizeNumber(text));
  }

  /** The rows without the one at `pos` (`tr.remove()`). */
  function Without(rows: seq<Row>, pos: nat): seq<Row>
    requires pos < |rows|
  {
    rows[..pos] + rows[pos + 1..]
  }

  /** The rows after `rebuildIndices`: each index cell rewritten with its
      1-based position, nothing else touched. */
  function Renumbered(rows: seq<Row>): seq<Row> {
    seq(|rows|, j requires 0 <= j < |rows| => rows[j].(index := j + 1))
  }

  /** Deleting the row at `pos` and renumbering leaves rows numbered 1..n-1
      in their previous order: the rows before `pos` are untouched, the rows
      after it move up one place and take their new position as index. */
  lemma DeleteRenumbers(rows: seq<Row>, pos: nat)
    requires Numbered(rows) && pos < |rows|
    ensures var r := Renumbered(Without(rows, pos));
      && |r| == |rows| - 1 && Numbered(r)
      && (forall j :: 0 <= j < pos ==> r[j] == rows[j])
      && (forall j :: pos <= j < |r| ==> r[j] == rows[j + 1].(index := j + 1))
  {
  }

  // ---------------------------------------------------------------- totals

  lemma TotalSnoc(rows: seq<Row>, r: Row)
    ensures TotalOf(rows + [r]) == TotalOf(rows) + CellAmount(r.sum)
  {
    assert (rows + [r])[..|rows|] == rows;
  }

  /** The total of two runs of rows is the sum of their totals. */
  lemma {:induction false} TotalConcat(a: seq<Row>, b: seq<Row>)
    ensures TotalOf(a + b) == TotalOf(a) + TotalOf(b)
    decreases |b|
  {
    if b == [] {
      assert a + b == a;
    } else {
      var front := b[..|b| - 1];
      var last := b[|b| - 1];
      TotalConcat(a, front);
      assert b == front + [last];
      TotalSnoc(front, last);
      assert a + b == (a + front) + [last];
      TotalSnoc(a + front, last);
    }
  }

  /** Deleting a row lowers the total by exactly that row's amount. */
  lemma {:induction false} TotalWithout(rows: seq<Row>, pos: nat)
    requires pos < |rows|
    ensures TotalOf(Without(rows, pos)) + CellAmount(rows[pos].sum) == TotalOf(rows)
  {
    var front, last := rows[..|rows| - 1], rows[|rows| - 1];
    if pos == |rows| - 1 {
      assert Without(rows, pos) == front;
    } else {
      TotalWithout(front, pos);
      assert Without(rows, pos) == Without(front, pos) + [last];
      TotalSnoc(Without(front, pos), last);
    }
  }

  /** Rewriting index cells does not change the total. */
  lemma {:induction false} TotalRenumbered(rows: seq<Row>)
    ensures TotalOf(Renumbered(rows)) == TotalOf(rows)
  {
    if rows != [] {
      var front := rows[..|rows| - 1];
      TotalRenumbered(front);
      assert Renumbered(rows)[..|rows| - 1] == Renumbered(front);
    }
  }

  /** Replacing one row changes the total by the difference of the two amounts. */
  lemma TotalUpdate(rows: seq<Row>, pos: nat, r: Row)
    requires pos < |rows|
    ensures TotalOf(rows[pos := r]) + CellAmount(rows[pos].sum) == TotalOf(rows) + CellAmount(r.sum)
  {
    TotalWithout(rows, pos);
    TotalWithout(rows[pos := r], pos);
    assert Without(rows[pos := r], pos) == Without(rows, pos);
  }
}
