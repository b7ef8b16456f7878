/** The courier partition shared by `printManifestForSelectedCourier`
    (script.js:250-267) and `exportPDF` (script.js:285-302): the rows whose
    courier cell equals the selected courier, in table order. The print view
    renumbers them 1..k; the PDF keeps each row's own index cell. */
module Partition {
  import opened Rows

  /** One line of the courier's table: its number cell and the five texts it
      copies from the row. */
  datatype Line = Line(no: nat, id: string, name: string, phone: string, addr: string, sum: string)

  function LineOf(no: nat, r: Row): Line {
    Line(no, r.id, r.name, r.phone, r.addr, r.sum)
  }

  // ---------------------------------------------------------------- the partition

  /** The rows whose courier cell is exactly `c`, in table order. */
  function Filter(rows: seq<Row>, c: string): (r: seq<Row>)
    ensures |r| <= |rows|
    ensures forall i :: 0 <= i < |r| ==> r[i].courier == c
  {
    if rows == [] then []
    else Filter(rows[..|rows| - 1], c) + (if rows[|rows| - 1].courier == c then [rows[|rows| - 1]] else [])
  }

  /** The positions of those rows in the table. */
  function Kept(rows: seq<Row>, c: string): seq<nat> {
    if rows == [] then []
    else Kept(rows[..|rows| - 1], c) + (if rows[|rows| - 1].courier == c then [|rows| - 1] else [])
  }

  /** The rows of the other couriers, in table order. */
  function Others(rows: seq<Row>, c: string): (r: seq<Row>)
    ensures forall i :: 0 <= i < |r| ==> r[i].courier != c
  {
    if rows == [] then []
    else Others(rows[..|rows| - 1], c) + (if rows[|rows| - 1].courier != c then [rows[|rows| - 1]] else [])
  }

  /** The partition is an in-order subsequence: its k-th row is the row at
      the k-th kept position, and the positions increase strictly. */
  lemma {:induction false} KeptOrder(rows: seq<Row>, c: string)
    ensures var f, k := Filter(rows, c), Kept(rows, c);
      && |k| == |f|
      && (forall i :: 0 <= i < |k| ==> k[i] < |rows| && f[i] == rows[k[i]])
      && (forall i, j :: 0 <= i < j < |k| ==> k[i] < k[j])
  {
    if rows != [] {
      var front := rows[..|rows| - 1];
      KeptOrder(front, c);
      var k0, f0 := Kept(front, c), Filter(front, c);
      forall i | 0 <= i < |k0| ensures k0[i] < |front| && rows[k0[i]] == f0[i] {
        assert front[k0[i]] == rows[k0[i]];
      }
    }
  }

  /** A position is kept exactly when the courier of its row is `c`. */
  lemma {:induction false} KeptPositions(rows: seq<Row>, c: string)
    ensures forall p :: 0 <= p < |rows| ==> (rows[p].courier == c <==> p in Kept(rows, c))
  {
    if rows != [] {
      var front := rows[..|rows| - 1];
      KeptPositions(front, c);
      KeptOrder(front, c);
      var k0 := Kept(front, c);
      var k := Kept(rows, c);
      assert k == k0 + (if rows[|rows| - 1].courier == c then [|rows| - 1] else []);
      assert |rows| - 1 !in k0;
      forall p | 0 <= p < |front| ensures rows[p].courier == c <==> p in k {
        assert rows[p] == front[p];
        assert p in k0 <==> p in k;
      }
    }
  }

  // ---------------------------------------------------------------- print and PDF lines

  /** The lines the print view collects: the kept rows numbered 1..k in the
      order they are met (`no: rows.length+1`, script.js:258), so the
      numbers run 1..k without gaps. */
  function PrintLines(rows: seq<Row>, c: string): (lines: seq<Line>)
    ensures |lines| <= |rows|
    ensures forall i :: 0 <= i < |lines| ==> lines[i].no == i + 1
  {
    if rows == [] then []
    else
      var lines := PrintLines(rows[..|rows| - 1], c);
      var r := rows[|rows| - 1];
      lines + (if r.courier == c then [LineOf(|lines| + 1, r)] else [])
  }

  /** The lines the PDF body collects: the kept rows, each keeping the number
      of its own index cell (`tr.cells[0]`, script.js:293); on a numbered
      table every such number is a position of the whole manifest. */
  function PdfLines(rows: seq<Row>, c: string): (lines: seq<Line>)
    ensures |lines| <= |rows|
    ensures Numbered(rows) ==> forall i :: 0 <= i < |lines| ==> 1 <= lines[i].no <= |rows|
  {
    if rows == [] then []
    else
      var r := rows[|rows| - 1];
      PdfLines(rows[..|rows| - 1], c) + (if r.courier == c then [LineOf(r.index, r)] else [])
  }

  /** Print line i is kept row i numbered i + 1. */
  lemma {:induction false} PrintLinesSpec(rows: seq<Row>, c: string)
    ensures var f := Filter(rows, c);
      |PrintLines(rows, c)| == |f| &&
      forall i :: 0 <= i < |f| ==> PrintLines(rows, c)[i] == LineOf(i + 1, f[i])
  {
    if rows != [] {
      PrintLinesSpec(rows[..|rows| - 1], c);
    }
  }

  /** PDF line i is kept row i numbered with its own index. */
  lemma {:induction false} PdfLinesSpec(rows: seq<Row>, c: string)
    ensures var f := Filter(rows, c);
      |PdfLines(rows, c)| == |f| &&
      forall i :: 0 <= i < |f| ==> PdfLines(rows, c)[i] == LineOf(f[i].index, f[i])
  {
    if rows != [] {
      PdfLinesSpec(rows[..|rows| - 1], c);
    }
  }

  /** The two views hold the same rows in the same order and differ only in
      the number column: print counts 1..k, while on a numbered table the PDF
      shows each row's position in the whole manifest. */
  lemma PrintVersusPdf(rows: seq<Row>, c: string)
    requires Numbered(rows)
    ensures var p, d, k := PrintLines(rows, c), PdfLines(rows, c), Kept(rows, c);
      && |p| == |d| == |k|
      && (forall i :: 0 <= i < |p| ==> p[i] == d[i].(no := i + 1))
      && (forall i :: 0 <= i < |d| ==> d[i].no == k[i] + 1)
  {
    PrintLinesSpec(rows, c);
    PdfLinesSpec(rows, c);
    KeptOrder(rows, c);
  }

  /** The partition is empty exactly when no row belongs to `c`. */
  lemma EmptyPartition(rows: seq<Row>, c: string)
    ensures Filter(rows, c) == [] <==> forall j :: 0 <= j < |rows| ==> rows[j].courier != c
  {
    KeptOrder(rows, c);
    KeptPositions(rows, c);
    if Filter(rows, c) != [] {
      var k := Kept(rows, c);
      assert rows[k[0]].courier == c;
    }
  }

  // ---------------------------------------------------------------- totals

  /** The sum the PDF writes under its table (script.js:331-332): the amounts
      of its lines' sum texts. */
  function LinesTotal(lines: seq<Line>): nat {
    if lines == [] then 0 else LinesTotal(lines[..|lines| - 1]) + CellAmount(lines[|lines| - 1].sum)
  }

  lemma LinesTotalSnoc(lines: seq<Line>, l: Line)
    ensures LinesTotal(lines + [l]) == LinesTotal(lines) + CellAmount(l.sum)
  {
    assert (lines + [l])[..|lines|] == lines;
  }

  /** The PDF total is the total of the courier's rows. */
  lemma {:induction false} PdfTotal(rows: seq<Row>, c: string)
    ensures LinesTotal(PdfLines(rows, c)) == TotalOf(Filter(rows, c))
  {
    if rows != [] {
      var front, r := rows[..|rows| - 1], rows[|rows| - 1];
      PdfTotal(front, c);
      if r.courier == c {
        LinesTotalSnoc(PdfLines(front, c), LineOf(r.index, r));
        TotalSnoc(Filter(front, c), r);
      } else {
        assert PdfLines(rows, c) == PdfLines(front, c);
        assert Filter(rows, c) == Filter(front, c);
      }
    }
  }

  /** The courier's total and the other couriers' total add up to the
      manifest total, so the PDF total never exceeds the manifest total. */
  lemma {:induction false} CourierTotalSplit(rows: seq<Row>, c: string)
    ensures TotalOf(Filter(rows, c)) + TotalOf(Others(rows, c)) == TotalOf(rows)
    ensures LinesTotal(PdfLines(rows, c)) <= TotalOf(rows)
  {
    if rows != [] {
      var front, r := rows[..|rows| - 1], rows[|rows| - 1];
      CourierTotalSplit(front, c);
      if r.courier == c {
        TotalSnoc(Filter(front, c), r);
        assert Others(rows, c) == Others(front, c);
      } else {
        TotalSnoc(Others(front, c), r);
        assert Filter(rows, c) == Filter(front, c);
      }
    }
    PdfTotal(rows, c);
  }

  // ---------------------------------------------------------------- the loops

  /** The `forEach` of `printManifestForSelectedCourier` that pushes the
      selected courier's rows numbered from 1 (script.js:252-265). */
  method CollectPrintLines(rows: seq<Row>, c: string) returns (lines: seq<Line>)
    ensures |lines| == |Filter(rows, c)|
    ensures forall i :: 0 <= i < |lines| ==> lines[i] == LineOf(i + 1, Filter(rows, c)[i])
  {
    lines := [];
    for i := 0 to |rows|
      invariant lines == PrintLines(rows[..i], c)
    {
      assert rows[..i + 1][..i] == rows[..i];
      if rows[i].courier == c {
        lines := lines + [LineOf(|lines| + 1, rows[i])];
      }
    }
    assert rows[..|rows|] == rows;
    PrintLinesSpec(rows, c);
  }

  /** The `forEach` of `exportPDF` that pushes the selected courier's rows
      with their index cells (script.js:288-301). */
  method CollectPdfLines(rows: seq<Row>, c: string) returns (body: seq<Line>)
    ensures |body| == |Filter(rows, c)|
    ensures forall i :: 0 <= i < |body| ==> body[i] == LineOf(Filter(rows, c)[i].index, Filter(rows, c)[i])
  {
    body := [];
    for i := 0 to |rows|
      invariant body == PdfLines(rows[..i], c)
    {
      assert rows[..i + 1][..i] == rows[..i];
      if rows[i].courier == c {
        body := body + [LineOf(rows[i].index, rows[i])];
      }
    }
    assert rows[..|rows|] == rows;
    PdfLinesSpec(rows, c);
  }

  /** The `forEach` that adds up the PDF total (script.js:331-332). */
  method SumLines(body: seq<Line>) returns (total: nat)
    ensures total == LinesTotal(body)
  {
    total := 0;
    for i := 0 to |body|
      invariant total == LinesTotal(body[..i])
    {
      assert body[..i + 1][..i] == body[..i];
      total := total + CellAmount(body[i].sum);
    }
    assert body[..|body|] == body;
  }
}
