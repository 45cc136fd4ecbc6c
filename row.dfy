/** `generateExcel`: the position-to-mark map, the single data row (four
    metadata columns and one column per ballot position), the header that
    orders those columns, and the file name of the workbook. */
module Row {
  import opened Tally
  import opened Decimal
  import opened Form
  import opened FileName

  /** The last record of `data` resolved to position `p` sits at index `k`. */
  ghost predicate LastAt(data: seq<Resolved>, p: int, k: int) {
    0 <= k < |data| && data[k].posicion == At(p) &&
    forall k' :: k < k' < |data| ==> data[k'].posicion != At(p)
  }

  /** The map `processedData.forEach` fills: each resolved record sets its
      position to its mark, unresolved records set nothing. */
  function MarksOf(data: seq<Resolved>): map<int, Value>
  {
    if data == [] then map[]
    else
      var last := data[|data| - 1];
      var m := MarksOf(data[..|data| - 1]);
      if last.posicion.At? then m[last.posicion.p := last.marcas] else m
  }

  /** A position has a mark exactly when some record resolved to it, so an
      unresolved record never contributes one. */
  lemma {:induction false} MarksKeys(data: seq<Resolved>, p: int)
    ensures p in MarksOf(data) <==> exists k :: 0 <= k < |data| && data[k].posicion == At(p)
  {
    if data != [] {
      var init := data[..|data| - 1];
      MarksKeys(init, p);
      assert forall k :: 0 <= k < |init| ==> init[k] == data[k];
    }
  }

  /** Of several records sharing a position, the mark of the last one is
      kept. */
  lemma {:induction false} MarksLastWins(data: seq<Resolved>, p: int, k: int)
    requires LastAt(data, p, k)
    ensures p in MarksOf(data) && MarksOf(data)[p] == data[k].marcas
  {
    var init := data[..|data| - 1];
    if k < |data| - 1 {
      assert data[|data| - 1].posicion != At(p);
      assert LastAt(init, p, k);
      MarksLastWins(init, p, k);
    }
  }

  /** The `forEach` loop that fills `marksByPosition`. */
  method CollectMarks(data: seq<Resolved>) returns (marks: map<int, Value>)
    ensures marks == MarksOf(data)
  {
    marks := map[];
    var i := 0;
    while i < |data|
      invariant 0 <= i <= |data|
      invariant marks == MarksOf(data[..i])
    {
      assert data[..i + 1][..i] == data[..i];
      var item := data[i];
      if item.posicion != NoEncontrado {
        marks := marks[item.posicion.p := item.marcas];
      }
      i := i + 1;
    }
    assert data[..|data|] == data;
  }

  /** `Math.max(...candidatesData.map(c => c.position))` over a non-empty
      reference list. */
  function MaxPosition(refs: seq<Candidate>): (m: int)
    requires refs != []
    ensures exists k :: 0 <= k < |refs| && refs[k].position == m
    ensures forall k :: 0 <= k < |refs| ==> refs[k].position <= m
  {
    if |refs| == 1 then refs[0].position
    else
      var m := MaxPosition(refs[1..]);
      assert forall k :: 1 <= k < |refs| ==> refs[k] == refs[1..][k - 1];
      if refs[0].position < m then m else refs[0].position
  }

  /** How many position columns the loop `for (i = 1; i <= maxPosition; i++)`
      and `Array.from({length: maxPosition})` produce. An empty reference list
      makes `Math.max` return -Infinity, which produces none. Every candidate's
      position has a column, and the last column is some candidate's
      position. */
  function PositionColumns(refs: seq<Candidate>): (n: nat)
    ensures forall k :: 0 <= k < |refs| ==> refs[k].position <= n
    ensures n == 0 || exists k :: 0 <= k < |refs| && refs[k].position == n
  {
    if refs == [] then 0 else if MaxPosition(refs) < 0 then 0 else MaxPosition(refs)
  }

  /** Column `i` exists exactly when some candidate's position is at least
      `i`. */
  lemma PositionColumnsCover(refs: seq<Candidate>, i: int)
    ensures 1 <= i <= PositionColumns(refs) <==> exists k :: 0 <= k < |refs| && 1 <= i <= refs[k].position
  {
    var n := PositionColumns(refs);
    if 1 <= i <= n {
      var k :| 0 <= k < |refs| && refs[k].position == n;
      assert 1 <= i <= refs[k].position;
    }
  }

  const FixedLabels: seq<string> := ["No. Acta", "CENTRO DE VOTACION", "COLONIA", "TERRITORIO"]

  /** The `header` option of `json_to_sheet`: the four metadata labels, then
      "1" up to the number of positions. */
  function Header(n: nat): (h: seq<string>)
    ensures |h| == |FixedLabels| + n
    ensures h[..|FixedLabels|] == FixedLabels
    ensures forall k :: |FixedLabels| <= k < |h| ==> h[k] == NatToString(k - |FixedLabels| + 1)
  {
    if n == 0 then FixedLabels else Header(n - 1) + [NatToString(n)]
  }

  /** A metadata label starts with a letter, so it is never the numeral of a
      position. */
  lemma FixedLabelNotNumeral(i: int, m: nat)
    requires 0 <= i < |FixedLabels|
    ensures FixedLabels[i] != NatToString(m)
  {
    var s := NatToString(m);
    assert IsDigit(s[0]);
    assert !IsDigit(FixedLabels[i][0]) by {
      assert FixedLabels[0][0] == 'N' && FixedLabels[1][0] == 'C';
      assert FixedLabels[2][0] == 'C' && FixedLabels[3][0] == 'T';
    }
  }

  lemma FixedLabelsDistinct(i: int, j: int)
    requires 0 <= i < j < |FixedLabels|
    ensures FixedLabels[i] != FixedLabels[j]
  {
  }

  /** No label occurs twice in the header, so every column of the sheet is
      a distinct key of the row. */
  lemma HeaderDistinct(n: nat)
    ensures forall i, j :: 0 <= i < j < |Header(n)| ==> Header(n)[i] != Header(n)[j]
  {
    var h := Header(n);
    var d := |FixedLabels|;
    forall i, j | 0 <= i < j < |h|
      ensures h[i] != h[j]
    {
      if j < d {
        FixedLabelsDistinct(i, j);
      } else if i < d {
        assert h[j] == NatToString(j - d + 1);
        assert h[i] == FixedLabels[i];
        FixedLabelNotNumeral(i, j - d + 1);
      } else if h[i] == h[j] {
        assert h[i] == NatToString(i - d + 1) && h[j] == NatToString(j - d + 1);
        NatToStringInjective(i - d + 1, j - d + 1);
      }
    }
  }

  /** `marksByPosition.get(i) || '0'`: a missing or falsy mark reads as the
      string '0'. */
  function Cell(marks: map<int, Value>, i: int): Value {
    if i in marks && !Falsy(marks[i]) then marks[i] else Str("0")
  }

  /** The values of the position columns 1..n, in order. */
  function PositionCells(marks: map<int, Value>, n: nat): (r: seq<Value>)
    ensures |r| == n
    ensures forall k :: 0 <= k < n ==> r[k] == Cell(marks, k + 1)
  {
    if n == 0 then [] else PositionCells(marks, n - 1) + [Cell(marks, n)]
  }

  /** The metadata part of `rowData`, copied verbatim from the form. */
  function FixedRow(f: FormData): map<string, Value> {
    map["No. Acta" := Str(f.jrv), "CENTRO DE VOTACION" := Str(f.centro),
        "COLONIA" := Str(f.colonia), "TERRITORIO" := Str(f.territory)]
  }

  /** `rowData` after the position loop has run for `1..n`. */
  function RowData(f: FormData, marks: map<int, Value>, n: nat): map<string, Value>
  {
    if n == 0 then FixedRow(f) else RowData(f, marks, n - 1)[NatToString(n) := Cell(marks, n)]
  }

  /** The row has exactly the header's labels as keys. */
  lemma {:induction false} RowDataKeys(f: FormData, marks: map<int, Value>, n: nat)
    ensures forall c :: c in RowData(f, marks, n) <==> c in Header(n)
  {
    if n > 0 {
      RowDataKeys(f, marks, n - 1);
      assert Header(n) == Header(n - 1) + [NatToString(n)];
    }
  }

  /** The metadata columns hold the form fields, whatever positions follow. */
  lemma {:induction false} RowDataMetadata(f: FormData, marks: map<int, Value>, n: nat)
    ensures "No. Acta" in RowData(f, marks, n) && RowData(f, marks, n)["No. Acta"] == Str(f.jrv)
    ensures "CENTRO DE VOTACION" in RowData(f, marks, n) && RowData(f, marks, n)["CENTRO DE VOTACION"] == Str(f.centro)
    ensures "COLONIA" in RowData(f, marks, n) && RowData(f, marks, n)["COLONIA"] == Str(f.colonia)
    ensures "TERRITORIO" in RowData(f, marks, n) && RowData(f, marks, n)["TERRITORIO"] == Str(f.territory)
  {
    if n > 0 {
      RowDataMetadata(f, marks, n - 1);
      FixedLabelNotNumeral(0, n);
      FixedLabelNotNumeral(1, n);
      FixedLabelNotNumeral(2, n);
      FixedLabelNotNumeral(3, n);
    }
  }

  /** Column `i` holds the mark of position `i`, or '0'; a later position
      never overwrites it. */
  lemma {:induction false} RowDataPosition(f: FormData, marks: map<int, Value>, n: nat, i: int)
    requires 1 <= i <= n
    ensures NatToString(i) in RowData(f, marks, n)
    ensures RowData(f, marks, n)[NatToString(i)] == Cell(marks, i)
  {
    if i < n {
      RowDataPosition(f, marks, n - 1, i);
      if NatToString(i) == NatToString(n) {
        NatToStringInjective(i, n);
      }
    }
  }

  /** The loop `for (let i = 1; i <= maxPosition; i++)` that adds the
      position columns to the metadata columns. */
  method BuildRow(f: FormData, marks: map<int, Value>, n: nat) returns (row: map<string, Value>)
    ensures row == RowData(f, marks, n)
  {
    row := FixedRow(f);
    var i := 1;
    while i <= n
      invariant 1 <= i <= n + 1
      invariant row == RowData(f, marks, i - 1)
    {
      row := row[NatToString(i) := Cell(marks, i)];
      i := i + 1;
    }
  }

  /** The data row `json_to_sheet` writes: the row's values read in header
      order. */
  function SheetRow(header: seq<string>, row: map<string, Value>): seq<Value>
    requires forall c :: c in header ==> c in row
  {
    seq(|header|, k requires 0 <= k < |header| => row[header[k]])
  }

  /** Under the four metadata labels the row holds jrv, centro, colonia and
      territory. */
  lemma {:induction false} SheetRowMetadata(f: FormData, marks: map<int, Value>, n: nat)
    requires forall c :: c in Header(n) ==> c in RowData(f, marks, n)
    ensures SheetRow(Header(n), RowData(f, marks, n))[..4] == [Str(f.jrv), Str(f.centro), Str(f.colonia), Str(f.territory)]
  {
    RowDataMetadata(f, marks, n);
    var header := Header(n);
    assert header[..4] == FixedLabels;
    assert forall k :: 0 <= k < 4 ==> header[k] == FixedLabels[k];
  }

  /** Under the labels "1".."n" the row holds the cell of each position. */
  lemma {:induction false} SheetRowPositions(f: FormData, marks: map<int, Value>, n: nat)
    requires forall c :: c in Header(n) ==> c in RowData(f, marks, n)
    ensures SheetRow(Header(n), RowData(f, marks, n))[4..] == PositionCells(marks, n)
  {
    var header := Header(n);
    var cells := SheetRow(header, RowData(f, marks, n));
    forall k | 0 <= k < n
      ensures cells[4..][k] == PositionCells(marks, n)[k]
    {
      RowDataPosition(f, marks, n, k + 1);
      assert header[4 + k] == NatToString(k + 1);
    }
  }

  /** The values written under the header: jrv, centro, colonia and
      territory, then for each position 1..n its mark or '0'. */
  lemma {:induction false} SheetRowContents(f: FormData, marks: map<int, Value>, n: nat)
    ensures forall c :: c in Header(n) ==> c in RowData(f, marks, n)
    ensures SheetRow(Header(n), RowData(f, marks, n)) ==
      [Str(f.jrv), Str(f.centro), Str(f.colonia), Str(f.territory)] + PositionCells(marks, n)
  {
    RowDataKeys(f, marks, n);
    SheetRowMetadata(f, marks, n);
    SheetRowPositions(f, marks, n);
    var cells := SheetRow(Header(n), RowData(f, marks, n));
    assert cells == cells[..4] + cells[4..];
  }

  /** The single sheet 'Resultados' of the workbook and its file name. */
  datatype Workbook = Workbook(sheetName: string, header: seq<string>, cells: seq<Value>, filename: string)

  /** `generateExcel(processedData, formData)`, up to the hand-off to the
      workbook writer: the header has one label per column, no label twice,
      and the data row under it holds jrv, centro, colonia, territory, then
      for each position 1..maxPosition the last mark recorded for it, or
      '0'. */
  method GenerateExcel(processed: seq<Resolved>, refs: seq<Candidate>, f: FormData) returns (wb: Workbook)
    ensures wb.sheetName == "Resultados"
    ensures wb.header == Header(PositionColumns(refs))
    ensures forall i, j :: 0 <= i < j < |wb.header| ==> wb.header[i] != wb.header[j]
    ensures wb.cells == [Str(f.jrv), Str(f.centro), Str(f.colonia), Str(f.territory)] +
      PositionCells(MarksOf(processed), PositionColumns(refs))
    ensures wb.filename == ExcelFileName(f)
  {
    var marks := CollectMarks(processed);
    var n := PositionColumns(refs);
    var row := BuildRow(f, marks, n);
    var header := Header(n);
    SheetRowContents(f, marks, n);
    HeaderDistinct(n);
    wb := Workbook("Resultados", header, SheetRow(header, row), ExcelFileName(f));
  }

  /** A position no record resolved to reads '0'. */
  lemma {:induction false} UnreferencedPositionReadsZero(data: seq<Resolved>, i: int)
    requires forall k :: 0 <= k < |data| ==> data[k].posicion != At(i)
    ensures Cell(MarksOf(data), i) == Str("0")
  {
    MarksKeys(data, i);
  }

  /** A position reads the mark of the last record resolved to it, unless
      that mark is falsy, in which case it reads '0'. */
  lemma {:induction false} PositionReadsLastMark(data: seq<Resolved>, i: int, k: int)
    requires LastAt(data, i, k)
    ensures Cell(MarksOf(data), i) == if Falsy(data[k].marcas) then Str("0") else data[k].marcas
  {
    MarksLastWins(data, i, k);
  }
}
