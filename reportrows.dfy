/** The row extractor of the consultant-by-folder page
    (`extract_rows` in pull_consultant_by_folder.py).

    It takes a decoded Salesforce report export and turns it into a list of
    flat records, one per report row, plus the list of column headers. The
    decoded JSON is modelled by typed records whose fields are the keys the
    extractor reads; every key the code reads with `d[key]` is an `Option`,
    so that a missing key gives the `KeyError` the code raises. JSON objects
    are `Dict`s (insertion-ordered pairs), because the order of
    `detailColumnInfo` and of `factMap` decides the output. */
module ReportRows {
  import opened Wrappers
  import opened OrderedDict
  import opened PyText

  /** One cell of a report row; `caption` is its `label` key (a reserved
      word in Dafny), the display text. */
  datatype Cell = Cell(caption: Option<string>)

  datatype ReportRow = ReportRow(dataCells: Option<seq<Cell>>)

  /** One `factMap` entry: a group of rows. */
  datatype Group = Group(rows: Option<seq<ReportRow>>)

  /** One `detailColumnInfo` entry: the metadata of a column, of which the
      extractor reads only the `label` key, here `caption`. */
  datatype ColumnInfo = ColumnInfo(caption: Option<string>)

  datatype Metadata = Metadata(detailColumnInfo: Option<Dict<ColumnInfo>>)

  /** The decoded report document. */
  datatype Payload = Payload(reportExtendedMetadata: Option<Metadata>, factMap: Option<Dict<Group>>)

  /** The exceptions `extract_rows` can raise: a missing key, or a cell index
      past the last column header. */
  datatype Error = KeyError(key: string) | IndexError

  /** An output row: column header to display value. */
  type Record = Dict<string>

  /** What `extract_rows` returns: the rows and the column headers. */
  datatype Extraction = Extraction(rows: seq<Record>, headers: seq<string>)

  /** The HTML parser's answer for a label: the text of the first `a`
      element in it, or `None` when there is none. */
  type AnchorText = string -> Option<string>

  /** The `factMap` key of the grand-total group, which is skipped. */
  const TotalsKey := "T!T"

  /** The literal whose presence marks a label as holding a link. */
  const LinkMarker := "<a href="

  /** Combines the result of a first part with the result of the part that
      follows it: the first error raised wins, otherwise the outputs are
      concatenated in order. */
  function Then<T>(first: Result<seq<T>, Error>, next: Result<seq<T>, Error>): Result<seq<T>, Error>
  {
    match first
    case Err(e) => Err(e)
    case Ok(a) =>
      match next
      case Err(e) => Err(e)
      case Ok(b) => Ok(a + b)
  }

  lemma ThenAssociative<T>(a: Result<seq<T>, Error>, b: Result<seq<T>, Error>, c: Result<seq<T>, Error>)
    ensures Then(Then(a, b), c) == Then(a, Then(b, c))
  {
    if a.Ok? && b.Ok? && c.Ok? {
      assert (a.value + b.value) + c.value == a.value + (b.value + c.value);
    }
  }

  // ---------------------------------------------------------------------
  // Column headers
  // ---------------------------------------------------------------------

  /** `[value['label'] for value in columns_info.values()]`: the label of
      every column entry, one per entry, in the entries' order; a `KeyError`
      when some entry has no label. */
  function ColumnHeaders(info: Dict<ColumnInfo>): (r: Result<seq<string>, Error>)
    ensures r.Ok? <==> forall i :: 0 <= i < |info| ==> info[i].1.caption.Some?
    ensures r.Ok? ==> |r.value| == |info|
                      && forall i :: 0 <= i < |info| ==> r.value[i] == info[i].1.caption.value
    ensures r.Err? ==> r.error == KeyError("label")
    decreases |info|
  {
    if info == [] then Ok([])
    else
      var last := |info| - 1;
      match ColumnHeaders(info[..last])
      case Err(e) => Err(e)
      case Ok(hs) =>
        match info[last].1.caption
        case None => Err(KeyError("label"))
        case Some(l) => Ok(hs + [l])
  }

  // ---------------------------------------------------------------------
  // Cells and rows
  // ---------------------------------------------------------------------

  /** `cell.get("label", "")`. */
  function Label(cell: Cell): string
  {
    match cell.caption
    case None => ""
    case Some(l) => l
  }

  /** The display value of one cell: its label (empty when it has none),
      replaced by the trimmed link text when the label holds a link whose
      anchor has text. So a value is either the label as it stands or a
      string trimmed at both ends, and a label without the link marker is
      never changed. */
  function CellValue(cell: Cell, anchor: AnchorText): (v: string)
    ensures cell.caption.None? ==> v == ""
    ensures !Contains(Label(cell), LinkMarker) ==> v == Label(cell)
    ensures v == Label(cell) || Trimmed(v)
  {
    var raw := Label(cell);
    if Contains(raw, LinkMarker) then
      match anchor(raw)
      case Some(text) => if text != "" then Strip(text) else raw
      case None => raw
    else
      raw
  }

  /** The record built from a row's cells: the i-th cell is stored under the
      i-th header, later cells overwriting earlier ones that share a header.
      A row with more cells than there are headers raises `IndexError`. */
  function RowRecord(headers: seq<string>, cells: seq<Cell>, anchor: AnchorText): (r: Result<Record, Error>)
    ensures r.Ok? <==> |cells| <= |headers|
    ensures r.Err? ==> r.error == IndexError
    decreases |cells|
  {
    if cells == [] then Ok([])
    else
      var i := |cells| - 1;
      match RowRecord(headers, cells[..i], anchor)
      case Err(e) => Err(e)
      case Ok(d) =>
        if i < |headers| then Ok(Set(d, headers[i], CellValue(cells[i], anchor)))
        else Err(IndexError)
  }

  /** A row that the extractor accepts given `width` column headers. */
  predicate RowFits(row: ReportRow, width: nat)
  {
    row.dataCells.Some? && |row.dataCells.value| <= width
  }

  /** The records of one group's rows, in row order. */
  function GroupRecords(headers: seq<string>, rows: seq<ReportRow>, anchor: AnchorText): (r: Result<seq<Record>, Error>)
    ensures r.Ok? <==> forall k :: 0 <= k < |rows| ==> RowFits(rows[k], |headers|)
    ensures r.Ok? ==> |r.value| == |rows|
                      && forall k :: 0 <= k < |rows| ==>
                           r.value[k] == RowRecord(headers, rows[k].dataCells.value, anchor).value
    decreases |rows|
  {
    if rows == [] then Ok([])
    else
      var k := |rows| - 1;
      var prev := GroupRecords(headers, rows[..k], anchor);
      ThenRowRecords(headers, rows[..k], rows[k], anchor, prev);
      assert rows[..k] + [rows[k]] == rows;
      Then(prev, RowResult(headers, rows[k], anchor))
  }

  /** One step of `GroupRecords`: when `prev` holds the records of `front`,
      adding the result of one more row gives the records of both. */
  lemma ThenRowRecords(headers: seq<string>, front: seq<ReportRow>, row: ReportRow, anchor: AnchorText,
                       prev: Result<seq<Record>, Error>)
    requires prev.Ok? <==> forall k :: 0 <= k < |front| ==> RowFits(front[k], |headers|)
    requires prev.Ok? ==> |prev.value| == |front|
                          && forall k :: 0 <= k < |front| ==>
                               prev.value[k] == RowRecord(headers, front[k].dataCells.value, anchor).value
    ensures var r := Then(prev, RowResult(headers, row, anchor));
            var rows := front + [row];
            && (r.Ok? <==> forall k :: 0 <= k < |rows| ==> RowFits(rows[k], |headers|))
            && (r.Ok? ==> |r.value| == |rows|
                          && forall k :: 0 <= k < |rows| ==>
                               r.value[k] == RowRecord(headers, rows[k].dataCells.value, anchor).value)
  {
    var rows := front + [row];
    assert forall k :: 0 <= k < |front| ==> rows[k] == front[k];
    assert rows[|front|] == row;
  }

  /** The one-element result for a single row. */
  function RowResult(headers: seq<string>, row: ReportRow, anchor: AnchorText): (r: Result<seq<Record>, Error>)
    ensures r.Ok? <==> RowFits(row, |headers|)
    ensures r.Ok? ==> r.value == [RowRecord(headers, row.dataCells.value, anchor).value]
  {
    match row.dataCells
    case None => Err(KeyError("dataCells"))
    case Some(cells) =>
      match RowRecord(headers, cells, anchor)
      case Err(e) => Err(e)
      case Ok(d) => Ok([d])
  }

  // ---------------------------------------------------------------------
  // Groups
  // ---------------------------------------------------------------------

  /** A `factMap` entry that the extractor accepts: the totals group always,
      any other group when it has rows that all fit. */
  predicate GroupFits(entry: (string, Group), width: nat)
  {
    entry.0 == TotalsKey
    || (entry.1.rows.Some? && forall k :: 0 <= k < |entry.1.rows.value| ==> RowFits(entry.1.rows.value[k], width))
  }

  /** The records one `factMap` entry contributes: none for the totals
      group, whose rows are never looked at; the group's rows otherwise. */
  function EntryRecords(headers: seq<string>, entry: (string, Group), anchor: AnchorText): (r: Result<seq<Record>, Error>)
    ensures r.Ok? <==> GroupFits(entry, |headers|)
  {
    if entry.0 == TotalsKey then Ok([])
    else
      match entry.1.rows
      case None => Err(KeyError("rows"))
      case Some(rows) => GroupRecords(headers, rows, anchor)
  }

  /** The records of all groups, group after group, in the map's order. */
  function FactRecords(headers: seq<string>, groups: Dict<Group>, anchor: AnchorText): (r: Result<seq<Record>, Error>)
    ensures r.Ok? <==> forall g :: 0 <= g < |groups| ==> GroupFits(groups[g], |headers|)
    decreases |groups|
  {
    if groups == [] then Ok([])
    else
      var g := |groups| - 1;
      Then(FactRecords(headers, groups[..g], anchor), EntryRecords(headers, groups[g], anchor))
  }

  // ---------------------------------------------------------------------
  // The whole extraction
  // ---------------------------------------------------------------------

  /** Every key the extractor reads is present, every label of a column is
      present, and every row of every group but the totals group has its
      cells, no more of them than there are columns. */
  ghost predicate Conforms(data: Payload)
  {
    && data.reportExtendedMetadata.Some?
    && data.reportExtendedMetadata.value.detailColumnInfo.Some?
    && var info := data.reportExtendedMetadata.value.detailColumnInfo.value;
    && (forall i :: 0 <= i < |info| ==> info[i].1.caption.Some?)
    && data.factMap.Some?
    && forall g :: 0 <= g < |data.factMap.value| ==> GroupFits(data.factMap.value[g], |info|)
  }

  /** `extract_rows(data)`. It succeeds exactly on conforming payloads; the
      headers are then the column labels in `detailColumnInfo` order,
      whatever `factMap` holds; a payload without its metadata fails on that
      key before anything else is read. */
  function Extract(data: Payload, anchor: AnchorText): (r: Result<Extraction, Error>)
    ensures r.Ok? <==> Conforms(data)
    ensures r.Ok? ==>
              var info := data.reportExtendedMetadata.value.detailColumnInfo.value;
              |r.value.headers| == |info|
              && forall i :: 0 <= i < |info| ==> r.value.headers[i] == info[i].1.caption.value
    ensures data.reportExtendedMetadata.None? ==> r == Err(KeyError("reportExtendedMetadata"))
  {
    match data.reportExtendedMetadata
    case None => Err(KeyError("reportExtendedMetadata"))
    case Some(meta) =>
      match meta.detailColumnInfo
      case None => Err(KeyError("detailColumnInfo"))
      case Some(info) =>
        match ColumnHeaders(info)
        case Err(e) => Err(e)
        case Ok(headers) =>
          match data.factMap
          case None => Err(KeyError("factMap"))
          case Some(factMap) =>
            match FactRecords(headers, factMap, anchor)
            case Err(e) => Err(e)
            case Ok(rows) => Ok(Extraction(rows, headers))
  }

  /** `extract_rows` as the source runs it: a loop over the groups that
      appends each group's records to the output as it goes and stops at
      the first exception. */
  method ExtractRows(data: Payload, anchor: AnchorText) returns (r: Result<Extraction, Error>)
    ensures r == Extract(data, anchor)
  {
    if data.reportExtendedMetadata.None? {
      return Err(KeyError("reportExtendedMetadata"));
    }
    if data.reportExtendedMetadata.value.detailColumnInfo.None? {
      return Err(KeyError("detailColumnInfo"));
    }
    var columnsInfo := data.reportExtendedMetadata.value.detailColumnInfo.value;
    var headers := ColumnHeaders(columnsInfo);
    if headers.Err? {
      return Err(headers.error);
    }
    var columnHeaders := headers.value;
    var extracted: seq<Record> := [];
    if data.factMap.None? {
      return Err(KeyError("factMap"));
    }
    var factMap := data.factMap.value;
    for g := 0 to |factMap|
      invariant FactRecords(columnHeaders, factMap[..g], anchor) == Ok(extracted)
    {
      assert factMap[..g + 1][..g] == factMap[..g];
      var (key, group) := factMap[g];
      if key == TotalsKey {
        assert extracted + [] == extracted;
        continue;
      }
      if group.rows.None? {
        FactRecordsFail(columnHeaders, factMap, g + 1, anchor);
        return Err(KeyError("rows"));
      }
      var next := AppendGroupRows(columnHeaders, group.rows.value, anchor, extracted);
      assert FactRecords(columnHeaders, factMap[..g + 1], anchor) == next;
      if next.Err? {
        FactRecordsFail(columnHeaders, factMap, g + 1, anchor);
        return Err(next.error);
      }
      extracted := next.value;
    }
    assert factMap[..|factMap|] == factMap;
    return Ok(Extraction(extracted, columnHeaders));
  }

  /** The loop over one group's rows: appends the record of each row to
      `extracted`, stopping at the first row that raises. */
  method AppendGroupRows(headers: seq<string>, rows: seq<ReportRow>, anchor: AnchorText, extracted: seq<Record>)
    returns (r: Result<seq<Record>, Error>)
    ensures r == Then(Ok(extracted), GroupRecords(headers, rows, anchor))
  {
    var out := extracted;
    for k := 0 to |rows|
      invariant GroupRecords(headers, rows[..k], anchor).Ok?
      invariant out == extracted + GroupRecords(headers, rows[..k], anchor).value
    {
      assert rows[..k + 1][..k] == rows[..k];
      var row := rows[k];
      if row.dataCells.None? {
        GroupRecordsFail(headers, rows, k + 1, anchor);
        return Err(KeyError("dataCells"));
      }
      var rowData := BuildRowData(headers, row.dataCells.value, anchor);
      if rowData.Err? {
        GroupRecordsFail(headers, rows, k + 1, anchor);
        return Err(rowData.error);
      }
      out := out + [rowData.value];
    }
    assert rows[..|rows|] == rows;
    return Ok(out);
  }

  /** The loop over one row's cells: stores each cell's value under the
      header at the cell's position, raising `IndexError` at the first cell
      past the last header. */
  method BuildRowData(headers: seq<string>, cells: seq<Cell>, anchor: AnchorText) returns (r: Result<Record, Error>)
    ensures r == RowRecord(headers, cells, anchor)
  {
    var rowData: Record := [];
    for i := 0 to |cells|
      invariant RowRecord(headers, cells[..i], anchor) == Ok(rowData)
    {
      assert cells[..i + 1][..i] == cells[..i];
      if i >= |headers| {
        return Err(IndexError);
      }
      var columnName := headers[i];
      var cellValue := match cells[i].caption case None => "" case Some(l) => l;
      if Contains(cellValue, LinkMarker) {
        var link := anchor(cellValue);
        if link.Some? && link.value != "" {
          cellValue := Strip(link.value);
        }
      }
      rowData := Set(rowData, columnName, cellValue);
    }
    assert cells[..|cells|] == cells;
    return Ok(rowData);
  }

  // ---------------------------------------------------------------------
  // Composition: group order, then row order
  // ---------------------------------------------------------------------

  /** Extracting rows `a + b` is extracting `a`, then `b`. */
  lemma {:induction false} GroupRecordsAppend(headers: seq<string>, a: seq<ReportRow>, b: seq<ReportRow>, anchor: AnchorText)
    ensures GroupRecords(headers, a + b, anchor)
            == Then(GroupRecords(headers, a, anchor), GroupRecords(headers, b, anchor))
    decreases |b|
  {
    if b == [] {
      assert a + b == a;
      if GroupRecords(headers, a, anchor).Ok? {
        assert GroupRecords(headers, a, anchor).value + [] == GroupRecords(headers, a, anchor).value;
      }
    } else {
      var k := |b| - 1;
      assert (a + b)[..|a + b| - 1] == a + b[..k];
      assert (a + b)[|a + b| - 1] == b[k];
      GroupRecordsAppend(headers, a, b[..k], anchor);
      ThenAssociative(GroupRecords(headers, a, anchor), GroupRecords(headers, b[..k], anchor),
                      RowResult(headers, b[k], anchor));
    }
  }

  /** Extracting groups `a + b` is extracting `a`, then `b`: the output
      lists the rows group by group in the map's order. */
  lemma {:induction false} FactRecordsAppend(headers: seq<string>, a: Dict<Group>, b: Dict<Group>, anchor: AnchorText)
    ensures FactRecords(headers, a + b, anchor)
            == Then(FactRecords(headers, a, anchor), FactRecords(headers, b, anchor))
    decreases |b|
  {
    if b == [] {
      assert a + b == a;
      if FactRecords(headers, a, anchor).Ok? {
        assert FactRecords(headers, a, anchor).value + [] == FactRecords(headers, a, anchor).value;
      }
    } else {
      var g := |b| - 1;
      assert (a + b)[..|a + b| - 1] == a + b[..g];
      assert (a + b)[|a + b| - 1] == b[g];
      FactRecordsAppend(headers, a, b[..g], anchor);
      ThenAssociative(FactRecords(headers, a, anchor), FactRecords(headers, b[..g], anchor),
                      EntryRecords(headers, b[g], anchor));
    }
  }

  /** An error raised by the first `n` rows is the error of the whole group. */
  lemma GroupRecordsFail(headers: seq<string>, rows: seq<ReportRow>, n: nat, anchor: AnchorText)
    requires n <= |rows| && GroupRecords(headers, rows[..n], anchor).Err?
    ensures GroupRecords(headers, rows, anchor) == GroupRecords(headers, rows[..n], anchor)
  {
    assert rows[..n] + rows[n..] == rows;
    GroupRecordsAppend(headers, rows[..n], rows[n..], anchor);
  }

  /** An error raised by the first `n` groups is the error of the whole map. */
  lemma FactRecordsFail(headers: seq<string>, groups: Dict<Group>, n: nat, anchor: AnchorText)
    requires n <= |groups| && FactRecords(headers, groups[..n], anchor).Err?
    ensures FactRecords(headers, groups, anchor) == FactRecords(headers, groups[..n], anchor)
  {
    assert groups[..n] + groups[n..] == groups;
    FactRecordsAppend(headers, groups[..n], groups[n..], anchor);
  }

  // ---------------------------------------------------------------------
  // The totals group
  // ---------------------------------------------------------------------

  /** The map without its totals entries. */
  function WithoutTotals(groups: Dict<Group>): (r: Dict<Group>)
    ensures forall g :: 0 <= g < |r| ==> r[g].0 != TotalsKey
    decreases |groups|
  {
    if groups == [] then []
    else
      var g := |groups| - 1;
      if groups[g].0 == TotalsKey then WithoutTotals(groups[..g])
      else WithoutTotals(groups[..g]) + [groups[g]]
  }

  /** Filtering drops exactly the totals entries: every other entry is kept. */
  lemma {:induction false} WithoutTotalsMembers(groups: Dict<Group>)
    ensures forall e :: e in WithoutTotals(groups) <==> e in groups && e.0 != TotalsKey
    decreases |groups|
  {
    if groups != [] {
      var g := |groups| - 1;
      WithoutTotalsMembers(groups[..g]);
      assert groups == groups[..g] + [groups[g]];
    }
  }

  /** Filtering keeps the order of the remaining entries: filtering
      `a + b` is filtering `a`, then `b`. */
  lemma {:induction false} WithoutTotalsAppend(a: Dict<Group>, b: Dict<Group>)
    ensures WithoutTotals(a + b) == WithoutTotals(a) + WithoutTotals(b)
    decreases |b|
  {
    if b == [] {
      assert a + b == a;
    } else {
      var k := |b| - 1;
      var ab := a + b;
      WithoutTotalsAppend(a, b[..k]);
      assert ab[..|a| + k] == a + b[..k];
      assert ab[|a| + k] == b[k];
      var front := WithoutTotals(a) + WithoutTotals(b[..k]);
      if b[k].0 == TotalsKey {
        assert WithoutTotals(ab) == front;
        assert WithoutTotals(b) == WithoutTotals(b[..k]);
      } else {
        assert WithoutTotals(ab) == front + [b[k]];
        assert WithoutTotals(b) == WithoutTotals(b[..k]) + [b[k]];
        assert front + [b[k]] == WithoutTotals(a) + (WithoutTotals(b[..k]) + [b[k]]);
      }
    }
  }

  /** The totals group has no influence at all: the extraction of a map is
      the extraction of the same map with its totals entries removed, so no
      row of the totals group reaches the output and it can raise nothing. */
  lemma {:induction false} TotalsIgnored(headers: seq<string>, groups: Dict<Group>, anchor: AnchorText)
    ensures FactRecords(headers, groups, anchor) == FactRecords(headers, WithoutTotals(groups), anchor)
    decreases |groups|
  {
    if groups != [] {
      var g := |groups| - 1;
      TotalsIgnored(headers, groups[..g], anchor);
      var rest := WithoutTotals(groups[..g]);
      if groups[g].0 == TotalsKey {
        var p := FactRecords(headers, groups[..g], anchor);
        if p.Ok? { assert p.value + [] == p.value; }
      } else {
        assert (rest + [groups[g]])[..|rest|] == rest;
      }
    }
  }

  /** The number of rows in the groups other than the totals group. */
  function DataRowCount(groups: Dict<Group>): nat
    decreases |groups|
  {
    if groups == [] then 0
    else
      var g := |groups| - 1;
      var here := if groups[g].0 == TotalsKey || groups[g].1.rows.None? then 0
                  else |groups[g].1.rows.value|;
      DataRowCount(groups[..g]) + here
  }

  /** A successful extraction has one output row per row of the non-totals
      groups. */
  lemma {:induction false} FactRecordsCount(headers: seq<string>, groups: Dict<Group>, anchor: AnchorText)
    requires FactRecords(headers, groups, anchor).Ok?
    ensures |FactRecords(headers, groups, anchor).value| == DataRowCount(groups)
    decreases |groups|
  {
    if groups != [] {
      var g := |groups| - 1;
      FactRecordsCount(headers, groups[..g], anchor);
    }
  }

  /** The same for the whole payload. */
  lemma ExtractCount(data: Payload, anchor: AnchorText)
    requires Extract(data, anchor).Ok?
    ensures |Extract(data, anchor).value.rows| == DataRowCount(data.factMap.value)
  {
    var info := data.reportExtendedMetadata.value.detailColumnInfo.value;
    FactRecordsCount(ColumnHeaders(info).value, data.factMap.value, anchor);
  }

  // ---------------------------------------------------------------------
  // Records and cell values
  // ---------------------------------------------------------------------

  /** The headers at positions `0..n-1`. */
  ghost function HeadersBefore(headers: seq<string>, n: nat): set<string>
    requires n <= |headers|
  {
    set i | 0 <= i < n :: headers[i]
  }

  lemma HeadersBeforeNext(headers: seq<string>, n: nat)
    requires n < |headers|
    ensures HeadersBefore(headers, n + 1) == HeadersBefore(headers, n) + {headers[n]}
  {
    assert headers[n] in HeadersBefore(headers, n + 1);
  }

  /** Cell `i` is the last of the first `n` cells aligned with its header. */
  ghost predicate LastForHeader(headers: seq<string>, n: nat, i: int)
    requires n <= |headers|
  {
    0 <= i < n && forall j :: i < j < n ==> headers[j] != headers[i]
  }

  /** The record of a row that fits has as keys exactly the headers at its
      cells' positions, each once, and under each header the value of the
      last cell aligned with it. */
  lemma {:induction false} RowRecordFields(headers: seq<string>, cells: seq<Cell>, anchor: AnchorText)
    requires |cells| <= |headers|
    ensures var d := RowRecord(headers, cells, anchor).value;
            && DistinctKeys(d)
            && KeySet(d) == HeadersBefore(headers, |cells|)
            && forall i :: LastForHeader(headers, |cells|, i) ==>
                 Get(d, headers[i]) == Some(CellValue(cells[i], anchor))
    decreases |cells|
  {
    if cells != [] {
      var n := |cells| - 1;
      RowRecordFields(headers, cells[..n], anchor);
      HeadersBeforeNext(headers, n);
      var d := RowRecord(headers, cells[..n], anchor).value;
      var r := RowRecord(headers, cells, anchor).value;
      assert r == Set(d, headers[n], CellValue(cells[n], anchor));
      SetDistinct(d, headers[n], CellValue(cells[n], anchor));
      forall i | LastForHeader(headers, |cells|, i)
        ensures Get(r, headers[i]) == Some(CellValue(cells[i], anchor))
      {
        if i < n {
          assert headers[n] != headers[i];
          assert LastForHeader(headers, n, i);
          assert Get(d, headers[i]) == Some(CellValue(cells[..n][i], anchor));
          assert cells[..n][i] == cells[i];
          assert Get(r, headers[i]) == Get(d, headers[i]);
        } else {
          assert i == n;
        }
      }
    }
  }

  /** The four outcomes for a cell value: a missing label gives the empty
      string; a label without the link marker is kept; a label with the
      marker becomes the trimmed anchor text when the anchor has text, and is
      kept otherwise. */
  lemma CellValueCases(cell: Cell, anchor: AnchorText)
    ensures cell.caption.None? ==> CellValue(cell, anchor) == ""
    ensures cell.caption.Some? && (forall i :: !OccursAt(cell.caption.value, LinkMarker, i))
            ==> CellValue(cell, anchor) == cell.caption.value
    ensures cell.caption.Some? && (exists i :: OccursAt(cell.caption.value, LinkMarker, i))
            ==> var link := anchor(cell.caption.value);
                CellValue(cell, anchor)
                == if link.Some? && link.value != "" then Strip(link.value) else cell.caption.value
  {
  }

  /** A rewritten cell value is the anchor text with whitespace cut from both
      ends: a contiguous part of that text with no whitespace at either end. */
  lemma RewrittenValueTrimmed(cell: Cell, anchor: AnchorText)
    requires cell.caption.Some? && Contains(cell.caption.value, LinkMarker)
    requires anchor(cell.caption.value).Some? && anchor(cell.caption.value).value != ""
    ensures Trimmed(CellValue(cell, anchor))
    ensures exists lo :: SpaceFramed(anchor(cell.caption.value).value, CellValue(cell, anchor), lo)
  {
  }

  /** A link whose anchor has no text stays in the output as markup. */
  lemma LinkWithoutTextKept()
    ensures var markup := "<a href=\"https://example.com\"></a>";
            var value := CellValue(Cell(Some(markup)), _ => Some(""));
            value == markup && Contains(value, LinkMarker)
  {
    var markup := "<a href=\"https://example.com\"></a>";
    assert LinkMarker <= markup;
  }
}
