/** The manifest session of script.js: the rows of the table (`tbody`), the
    `rowCount` counter, the selected courier, the scanner text and the total
    on display, with the operations the page's buttons and listeners run on
    them. */
module Session {
  import opened Wrappers
  import opened Text
  import opened ScanParser
  import opened Rows
  import opened Partition
  import opened Csv
  import opened PdfExport
  import opened Signature

  /** The couriers the page offers (script.js:2-9). */
  const Couriers: seq<string> := ["Ulug'bek Nuriyev", "Ulug'bek Jurabayev", "Otabek Saydullayev",
                                  "Dilshod Tadjibayev", "Muzaffar Aliyev", "Nomonjon"]

  /** The alerts on which an operation gives up without changing anything. */
  datatype Notice = EmptyScannerInput | NoCourierSelected | MissingId | NothingForCourier

  /** What the print view is filled with: the meta line's courier, date and
      note, and the courier's lines numbered 1..k. */
  datatype PrintView = PrintView(courier: string, date: string, note: Option<string>, lines: seq<Line>)

  /** Every new row of a batch belongs to the courier, is numbered on from
      the rows before it and holds the record of its scan line; a non-blank
      scanner text gives at least one row. */
  lemma BatchRows(base: nat, raw: string, c: string)
    requires Trim(raw) != []
    ensures var lines := ScanLines(Trim(raw));
      var added := NewRows(base, ParseLines(lines), c);
      && |added| == |lines| >= 1
      && forall j :: 0 <= j < |added| ==>
           var e := ParseLine(lines[j]);
           && added[j].index == base + j + 1 && added[j].courier == c
           && added[j].id == e.id && added[j].name == e.name
           && added[j].phone == e.phone && added[j].addr == e.addr
           && CellAmount(added[j].sum) == e.amount
  {
    var t := Trim(raw);
    TrimTrim(raw, ' ');
    ScanLinesNonEmpty(t);
    var lines := ScanLines(t);
    forall j | 0 <= j < |lines| ensures NewRows(base, ParseLines(lines), c)[j] ==
      NewRow(base + j + 1, ParseLine(lines[j]), c)
    {
      NewRowsAt(base, ParseLines(lines), c, j);
    }
  }

  class Session {
    /** The rows of the table, top to bottom. */
    var rows: seq<Row>
    /** `rowCount`: the number the next added row is given, less one. */
    var rowCount: nat
    /** `selectedCourier`; `null` before the courier list is rendered. */
    var selected: Option<string>
    /** The text of the scanner box. */
    var scanner: string
    /** The total on display (before locale formatting). */
    var total: nat

    /** The counter matches the rows, which are numbered 1..n and whose
        amount cells hold numerals. */
    predicate Indexed()
      reads this
    {
      rowCount == |rows| && Numbered(rows) && AmountsWritten(rows)
    }

    /** Between operations the total on display is the total of the rows. */
    predicate Valid()
      reads this
    {
      Indexed() && total == TotalOf(rows)
    }

    /** `!selectedCourier` is false: a courier with a non-empty name is selected. */
    predicate HasCourier()
      reads this
    {
      selected.Some? && selected.value != ""
    }

    /** The script's state when it starts (script.js:23-25). */
    constructor ()
      ensures Valid() && rows == [] && rowCount == 0 && selected == None && scanner == [] && total == 0
    {
      rows, rowCount, selected, scanner, total := [], 0, None, [], 0;
    }

    /** `selectCourier` (script.js:68-75). */
    method SelectCourier(name: string)
      modifies this`selected
      ensures selected == Some(name)
    {
      selected := Some(name);
    }

    /** `renderCouriers` selects the first courier by default (script.js:63). */
    method RenderCouriers()
      modifies this`selected
      ensures selected == Some(Couriers[0]) && HasCourier()
    {
      SelectCourier(Couriers[0]);
    }

    /** Typing or scanning into the scanner box. */
    method SetScanner(text: string)
      modifies this`scanner
      ensures scanner == text
    {
      scanner := text;
    }

    /** The scanner's clear button (script.js:35). */
    method ClearScanner()
      modifies this`scanner
      ensures scanner == []
    {
      scanner := [];
    }

    // ---------------------------------------------------------------- adding

    /** `addRow` (script.js:139-164): the counter goes up and a row carrying
        it is appended. The total is not recomputed here. */
    method AddRow(e: Entry, courier: string)
      requires Indexed()
      modifies this`rows, this`rowCount
      ensures Indexed()
      ensures rowCount == old(rowCount) + 1
      ensures rows == old(rows) + [NewRow(old(rowCount) + 1, e, courier)]
    {
      rowCount := rowCount + 1;
      rows := rows + [NewRow(rowCount, e, courier)];
    }

    /** `recalcTotals` (script.js:180-188): the sum of the amount cells. */
    method RecalcTotals()
      modifies this`total
      ensures total == TotalOf(rows)
    {
      var sum := 0;
      for i := 0 to |rows|
        invariant sum == TotalOf(rows[..i])
      {
        assert rows[..i + 1][..i] == rows[..i];
        sum := sum + CellAmount(rows[i].sum);
      }
      assert rows[..|rows|] == rows;
      total := sum;
    }

    /** The `lines.forEach(... addRow(obj))` of `handleAddScans`
        (script.js:94-113): one row per record, in order. */
    method AppendRows(entries: seq<Entry>, c: string)
      requires Indexed()
      modifies this`rows, this`rowCount
      ensures Indexed()
      ensures rows == old(rows) + NewRows(|old(rows)|, entries, c)
    {
      ghost var base := |rows|;
      for k := 0 to |entries|
        invariant Indexed()
        invariant rows == old(rows) + NewRows(base, entries[..k], c)
      {
        var prev := NewRows(base, entries[..k], c);
        var r := NewRow(base + k + 1, entries[k], c);
        NewRowsSnoc(base, entries[..k], entries[k], c);
        assert entries[..k + 1] == entries[..k] + [entries[k]];
        assert NewRows(base, entries[..k + 1], c) == prev + [r];
        AddRow(entries[k], c);
        assert old(rows) + prev + [r] == old(rows) + (prev + [r]);
      }
      assert entries[..|entries|] == entries;
    }

    /** `handleAddScans` (script.js:88-116). Blank scanner text, then a
        missing courier, abort with nothing changed; otherwise one row per
        scan line is appended for the selected courier, the scanner is
        emptied and the total recomputed. */
    method AddScans() returns (notice: Option<Notice>)
      requires Valid()
      modifies this`rows, this`rowCount, this`scanner, this`total
      ensures Valid()
      ensures Trim(old(scanner)) == [] ==>
        notice == Some(EmptyScannerInput) && rows == old(rows) && scanner == old(scanner)
      ensures Trim(old(scanner)) != [] && !old(HasCourier()) ==>
        notice == Some(NoCourierSelected) && rows == old(rows) && scanner == old(scanner)
      ensures Trim(old(scanner)) != [] && old(HasCourier()) ==>
        && notice.None? && scanner == []
        && rows == old(rows) + NewRows(|old(rows)|, ParseLines(ScanLines(Trim(old(scanner)))), old(selected).value)
    {
      var raw := Trim(scanner);
      if raw == [] {
        return Some(EmptyScannerInput);
      }
      if !HasCourier() {
        return Some(NoCourierSelected);
      }
      AppendRows(ParseLines(ScanLines(raw)), selected.value);
      scanner := [];
      RecalcTotals();
      notice := None;
    }

    /** `handleQuickAdd` (script.js:119-136): no courier, then an id that is
        blank after trimming, abort with nothing changed; otherwise one row
        with the trimmed texts and the amount is appended for the selected
        courier and the total recomputed. */
    method QuickAdd(id: string, name: string, phone: string, addr: string, amount: nat)
      returns (notice: Option<Notice>)
      requires Valid()
      modifies this`rows, this`rowCount, this`total
      ensures Valid()
      ensures !old(HasCourier()) ==> notice == Some(NoCourierSelected) && rows == old(rows)
      ensures old(HasCourier()) && Trim(id) == [] ==> notice == Some(MissingId) && rows == old(rows)
      ensures old(HasCourier()) && Trim(id) != [] ==>
        && notice.None?
        && rows == old(rows) + [NewRow(|old(rows)| + 1, Entry(Trim(id), Trim(name), Trim(phone), Trim(addr), amount), old(selected).value)]
    {
      if !HasCourier() {
        return Some(NoCourierSelected);
      }
      var tid := Trim(id);
      if tid == [] {
        return Some(MissingId);
      }
      AddRow(Entry(tid, Trim(name), Trim(phone), Trim(addr), amount), selected.value);
      RecalcTotals();
      notice := None;
    }

    // ---------------------------------------------------------------- editing and deleting

    /** Editing a cell of the row at `pos`: the amount cell is rewritten with
        `sanitizeNumber` and the total recomputed (script.js:153-158); any
        other cell just holds the new text, and no amount changes. */
    method EditCell(pos: nat, col: Column, text: string)
      requires Valid() && pos < |rows|
      modifies this`rows, this`total
      ensures Valid()
      ensures rows == old(rows)[pos := Edited(old(rows)[pos], col, text)]
    {
      var r := Edited(rows[pos], col, text);
      rows := rows[pos := r];
      if col == Sum {
        RecalcTotals();
      } else {
        TotalUpdate(old(rows), pos, r);
      }
    }

    /** `rebuildIndices` (script.js:171-177): the counter restarts and each row
        is numbered with its position. */
    method RebuildIndices()
      modifies this`rows, this`rowCount
      ensures rows == Renumbered(old(rows)) && rowCount == |rows|
    {
      rowCount := 0;
      var i := 0;
      while i < |rows|
        invariant 0 <= i <= |rows| && rowCount == i && |rows| == |old(rows)|
        invariant forall j :: 0 <= j < i ==> rows[j] == old(rows)[j].(index := j + 1)
        invariant forall j :: i <= j < |rows| ==> rows[j] == old(rows)[j]
      {
        rowCount := rowCount + 1;
        rows := rows[i := rows[i].(index := rowCount)];
        i := i + 1;
      }
    }

    /** The delete button (script.js:160-162): the row goes, the others are
        renumbered and the total recomputed, which drops by the deleted
        row's amount. */
    method Delete(pos: nat)
      requires Valid() && pos < |rows|
      modifies this`rows, this`rowCount, this`total
      ensures Valid()
      ensures rows == Renumbered(Without(old(rows), pos))
      ensures total + CellAmount(old(rows)[pos].sum) == old(total)
    {
      var gone := rows[pos];
      rows := Without(rows, pos);
      RebuildIndices();
      DeleteRenumbers(old(rows), pos);
      RecalcTotals();
      TotalWithout(old(rows), pos);
      TotalRenumbered(Without(old(rows), pos));
    }

    /** `clearTable` (script.js:191-194): unless the confirmation is declined,
        the table is emptied, the counter reset and the total recomputed. */
    method ClearTable(confirmed: bool)
      requires Valid()
      modifies this`rows, this`rowCount, this`total
      ensures Valid()
      ensures confirmed ==> rows == [] && rowCount == 0 && total == 0
      ensures !confirmed ==> rows == old(rows)
    {
      if !confirmed {
        return;
      }
      rows, rowCount := [], 0;
      RecalcTotals();
    }

    // ---------------------------------------------------------------- output

    /** `exportCSV` (script.js:197-213): the text of "manifest.csv", which
        reads back as the header and one record per row. */
    method ExportCsv() returns (fileName: string, text: string)
      ensures fileName == "manifest.csv"
      ensures text == Encode(Table(rows)) && ReadTable(text) == Some(Table(rows))
    {
      var t := BuildTable(rows);
      TableIs(t, rows);
      ExportRoundTrip(rows);
      text := Encode(t);
      fileName := "manifest.csv";
    }

    /** `printManifestForSelectedCourier` (script.js:250-282): no courier, or
        no row for it, gives nothing to print; otherwise the view lists the
        courier's rows in table order numbered 1..k. */
    method Print(date: string, note: string) returns (r: Result<PrintView, Notice>)
      ensures !HasCourier() ==> r == Failure(NoCourierSelected)
      ensures HasCourier() && Filter(rows, selected.value) == [] ==> r == Failure(NothingForCourier)
      ensures HasCourier() && Filter(rows, selected.value) != [] ==>
        var f := Filter(rows, selected.value);
        && r.Success? && r.value.courier == selected.value && r.value.date == date
        && r.value.note == NoteLine(note) && |r.value.lines| == |f|
        && forall i :: 0 <= i < |f| ==> r.value.lines[i] == LineOf(i + 1, f[i])
    {
      if !HasCourier() {
        return Failure(NoCourierSelected);
      }
      var c := selected.value;
      var lines := CollectPrintLines(rows, c);
      if |lines| == 0 {
        return Failure(NothingForCourier);
      }
      return Success(PrintView(c, date, NoteLine(note), lines));
    }

    /** `exportPDF` (script.js:285-349): no courier, or no row for it, gives
        no document; otherwise the body lists the courier's rows in table
        order with their own index, the total is theirs, each signature is
        embedded when its pad is not blank, and the file is named after the
        courier and the date. */
    method ExportPdf(date: string, note: string, isoNow: string,
                     courierPad: SignaturePad, receiverPad: SignaturePad)
      returns (r: Result<PdfDoc, Notice>)
      requires courierPad.Valid() && receiverPad.Valid()
      ensures !HasCourier() ==> r == Failure(NoCourierSelected)
      ensures HasCourier() && Filter(rows, selected.value) == [] ==> r == Failure(NothingForCourier)
      ensures HasCourier() && Filter(rows, selected.value) != [] ==>
        var c := selected.value;
        var f := Filter(rows, c);
        && r.Success? && r.value.courier == c && r.value.date == date && r.value.note == NoteLine(note)
        && |r.value.body| == |f|
        && (forall i :: 0 <= i < |f| ==> r.value.body[i] == LineOf(f[i].index, f[i]))
        && r.value.total == TotalOf(f)
        && r.value.courierSignature == SignatureOf(courierPad.pixels[..])
        && r.value.receiverSignature == SignatureOf(receiverPad.pixels[..])
        && r.value.fileName == FileName(c, isoNow)
    {
      if !HasCourier() {
        return Failure(NoCourierSelected);
      }
      var c := selected.value;
      var body := CollectPdfLines(rows, c);
      if |body| == 0 {
        return Failure(NothingForCourier);
      }
      var sum := SumLines(body);
      PdfLinesSpec(rows, c);
      assert body == PdfLines(rows, c);
      PdfTotal(rows, c);
      var sc := courierPad.Capture();
      var sr := receiverPad.Capture();
      return Success(PdfDoc(c, date, NoteLine(note), body, sum, sc, sr, FileName(c, isoNow)));
    }
  }
}
