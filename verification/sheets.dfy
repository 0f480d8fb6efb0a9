/** The worksheet helpers: finding a header or the end of the data in a row or column of
    cells, cutting the root-data table out of a sheet, extracting one dictionary per data
    row, and picking the root sheets of a workbook. A sheet is a sequence of rows of cell
    values, the first row being the header. */
module Sheets {
  import opened Values

  type Sheet = seq<seq<Value>>

  /** `get_index_by_value`: the index of the first cell equal to `v`, or nothing when no
      cell is. */
  function IndexByValue(cells: seq<Value>, v: Value): (r: Option<nat>)
    ensures r.None? <==> v !in cells
    ensures r.Some? ==> r.value < |cells| && cells[r.value] == v
    ensures r.Some? ==> forall j :: 0 <= j < r.value ==> cells[j] != v
  {
    if |cells| == 0 then None
    else if cells[0] == v then Some(0)
    else
      match IndexByValue(cells[1..], v)
      case None => None
      case Some(i) => Some(i + 1)
  }

  /** `get_index_at_null`: the index of the first falsy cell, or nothing when every cell
      is truthy. */
  function IndexAtNull(cells: seq<Value>): (r: Option<nat>)
    ensures r.None? <==> forall j :: 0 <= j < |cells| ==> Truthy(cells[j])
    ensures r.Some? ==> r.value < |cells| && !Truthy(cells[r.value])
    ensures r.Some? ==> forall j :: 0 <= j < r.value ==> Truthy(cells[j])
  {
    if |cells| == 0 then None
    else if !Truthy(cells[0]) then Some(0)
    else
      match IndexAtNull(cells[1..])
      case None => None
      case Some(i) => Some(i + 1)
  }

  /** Python's `not index` on the helpers' result: true for `False` and also for index 0. */
  predicate NotIndex(o: Option<nat>) {
    o.None? || o.value == 0
  }

  /** The header row; a sheet without rows has an empty header. */
  function Header(sheet: Sheet): seq<Value> {
    if |sheet| == 0 then [] else sheet[0]
  }

  /** The first column of the sheet. */
  function Column0(sheet: Sheet): (col: seq<Value>)
    ensures |col| == |sheet|
    ensures forall i :: 0 <= i < |sheet| ==> col[i] == CellAt(sheet[i], 0)
  {
    seq(|sheet|, i requires 0 <= i < |sheet| => CellAt(sheet[i], 0))
  }

  /** The cells of `row` under the headers `keys`, in the order of `keys`. */
  function Project(row: seq<Value>, header: seq<Value>, keys: seq<string>): (r: seq<Value>)
    requires forall j :: 0 <= j < |keys| ==> Str(keys[j]) in header
    ensures |r| == |keys|
    ensures forall j :: 0 <= j < |keys| ==> r[j] == CellAt(row, IndexByValue(header, Str(keys[j])).value)
  {
    seq(|keys|, j requires 0 <= j < |keys| => CellAt(row, IndexByValue(header, Str(keys[j])).value))
  }

  /** Every key is found in `header` at an index that `not index` does not reject. */
  predicate HeadersTruthyFound(header: seq<Value>, keys: seq<string>) {
    forall j :: 0 <= j < |keys| ==> !NotIndex(IndexByValue(header, Str(keys[j])))
  }

  /** Every key is found somewhere in `header`. */
  predicate HeadersFound(header: seq<Value>, keys: seq<string>) {
    forall j :: 0 <= j < |keys| ==> Str(keys[j]) in header
  }

  /** The table both versions of `build_root_data_table` cut out once the headers are
      found: the rows above the first falsy cell of column 0, each projected onto `keys`. */
  function TableAbove(sheet: Sheet, keys: seq<string>, endof: nat): (t: seq<seq<Value>>)
    requires HeadersFound(Header(sheet), keys)
    requires endof <= |sheet|
    ensures |t| == endof
    ensures forall i :: 0 <= i < endof ==> t[i] == Project(sheet[i], Header(sheet), keys)
  {
    seq(endof, i requires 0 <= i < endof => Project(sheet[i], Header(sheet), keys))
  }

  /** `build_root_data_table` as written: the header row and the data rows above the first
      empty cell of column 0, projected onto `keys`. Because it tests `not index`, a key
      whose header sits in column 0 counts as missing, and so does an empty column-0
      header cell as the end of the data. */
  function BuildRootDataTable(sheet: Sheet, keys: seq<string>): (r: Option<seq<seq<Value>>>)
    ensures r.Some? <==>
              && HeadersTruthyFound(Header(sheet), keys)
              && !NotIndex(IndexAtNull(Column0(sheet)))
    ensures r.Some? ==> r.value == TableAbove(sheet, keys, IndexAtNull(Column0(sheet)).value)
  {
    var header := Header(sheet);
    if !HeadersTruthyFound(header, keys) then None
    else
      var endof := IndexAtNull(Column0(sheet));
      if NotIndex(endof) then None
      else Some(TableAbove(sheet, keys, endof.value))
  }

  /** The root-data table as `build_root_data_table` means to cut it: a key is missing only
      when no header cell holds it, wherever the header sits. */
  function BuildRootDataTableCorrected(sheet: Sheet, keys: seq<string>): (r: Option<seq<seq<Value>>>)
    ensures r.Some? <==> HeadersFound(Header(sheet), keys) && !NotIndex(IndexAtNull(Column0(sheet)))
    ensures r.Some? ==> r.value == TableAbove(sheet, keys, IndexAtNull(Column0(sheet)).value)
  {
    if !HeadersFound(Header(sheet), keys) then None
    else
      var endof := IndexAtNull(Column0(sheet));
      if NotIndex(endof) then None
      else Some(TableAbove(sheet, keys, endof.value))
  }

  /** The table's first row is the keys themselves and every later row has a truthy
      column-0 cell; the table is the same as the corrected one whenever the as-written one
      succeeds. */
  lemma RootDataTableShape(sheet: Sheet, keys: seq<string>)
    requires BuildRootDataTableCorrected(sheet, keys).Some?
    ensures var t := BuildRootDataTableCorrected(sheet, keys).value;
            && |t| > 0
            && (forall j :: 0 <= j < |keys| ==> t[0][j] == Str(keys[j]))
            && (forall i :: 0 <= i < |t| ==> Truthy(CellAt(sheet[i], 0)))
    ensures BuildRootDataTable(sheet, keys).Some? ==>
              BuildRootDataTable(sheet, keys) == BuildRootDataTableCorrected(sheet, keys)
  {
    var t := BuildRootDataTableCorrected(sheet, keys).value;
    var endof := IndexAtNull(Column0(sheet)).value;
    assert |sheet| > 0;
    forall j | 0 <= j < |keys| ensures t[0][j] == Str(keys[j]) {
      var c := IndexByValue(Header(sheet), Str(keys[j])).value;
      assert t[0] == Project(sheet[0], Header(sheet), keys);
      assert CellAt(sheet[0], c) == Header(sheet)[c];
    }
    forall i | 0 <= i < |t| ensures Truthy(CellAt(sheet[i], 0)) {
      assert Column0(sheet)[i] == CellAt(sheet[i], 0);
    }
  }

  /** The discrepancy: a sheet whose column-0 header is one of the keys is refused as
      written, although every key is in the header and the data ends below the header,
      and the corrected version cuts the table out of it. */
  lemma ColumnZeroHeaderRejected(name: string, cell: string)
    requires name != "" && cell != ""
    ensures var sheet := [[Str(name)], [Str(cell)], [Empty]];
            && BuildRootDataTable(sheet, [name]).None?
            && BuildRootDataTableCorrected(sheet, [name]) == Some([[Str(name)], [Str(cell)]])
  {
    var sheet := [[Str(name)], [Str(cell)], [Empty]];
    var keys := [name];
    assert IndexByValue(Header(sheet), Str(name)) == Some(0);
    assert HeadersFound(Header(sheet), keys);
    var col := Column0(sheet);
    assert col == [Str(name), Str(cell), Empty];
    assert col[1..] == [Str(cell), Empty] && col[1..][1..] == [Empty];
    assert Truthy(Str(name)) && Truthy(Str(cell)) && !Truthy(Empty);
    assert IndexAtNull(col[1..][1..]) == Some(0);
    assert IndexAtNull(col) == Some(2);
    var t := BuildRootDataTableCorrected(sheet, keys).value;
    assert t[0] == Project(sheet[0], Header(sheet), keys) == [Str(name)];
    assert t[1] == Project(sheet[1], Header(sheet), keys) == [Str(cell)];
    assert |t| == 2;
    assert t == [[Str(name)], [Str(cell)]];
  }

  /** The `DataError` that `build_data_from_fields` raises; which key was missing is not kept. */
  datatype DataError = MissingHeader | NoDataEnd

  /** The dictionary of one data row: each key mapped to the row's cell under its header. */
  function RowDict(row: seq<Value>, header: seq<Value>, keys: set<string>): (d: map<string, Value>)
    requires forall k :: k in keys ==> Str(k) in header
    ensures d.Keys == keys
    ensures forall k :: k in keys ==> d[k] == CellAt(row, IndexByValue(header, Str(k)).value)
  {
    map k | k in keys :: CellAt(row, IndexByValue(header, Str(k)).value)
  }

  /** `build_data_from_fields`: one dictionary per row between the header and the last row,
      keyed by the required attributes' raw names. A key counts as found at any index,
      column 0 included; a sheet of at most one row has no data end. */
  function BuildDataFromFields(sheet: Sheet, required: map<string, string>): (r: Result<seq<map<string, Value>>, DataError>)
    ensures r == Failure(MissingHeader) <==> exists k :: k in required && Str(k) !in Header(sheet)
    ensures r == Failure(NoDataEnd) <==>
              (forall k :: k in required ==> Str(k) in Header(sheet)) && |sheet| <= 1
    ensures r.Success? ==>
              && |sheet| >= 2
              && |r.value| == |sheet| - 2
              && forall i :: 0 <= i < |r.value| ==>
                   && r.value[i].Keys == required.Keys
                   && forall k :: k in required ==>
                        r.value[i][k] == CellAt(sheet[i + 1], IndexByValue(Header(sheet), Str(k)).value)
  {
    var header := Header(sheet);
    if exists k :: k in required && Str(k) !in header then Failure(MissingHeader)
    else if |sheet| <= 1 then Failure(NoDataEnd)
    else Success(seq(|sheet| - 2, i requires 0 <= i < |sheet| - 2 => RowDict(sheet[i + 1], header, required.Keys)))
  }

  /** Whether `s` ends with `suffix` (`str.endswith`). */
  predicate EndsWith(s: string, suffix: string) {
    |suffix| <= |s| && s[|s| - |suffix|..] == suffix
  }

  const RootSheetSuffix: string := "Root Synth"

  /** `get_root_sheets`: the sheet names ending in "Root Synth", in workbook order. */
  function RootSheets(names: seq<string>): (r: seq<string>)
    ensures forall x :: x in r <==> x in names && EndsWith(x, RootSheetSuffix)
    ensures Picks(r, names, IsRootSheet)
    decreases |names|
  {
    if |names| == 0 then []
    else
      var prefix := names[..|names| - 1];
      var last := names[|names| - 1];
      assert names == prefix + [last];
      var rest := RootSheets(prefix);
      PicksStep(rest, names, IsRootSheet);
      if IsRootSheet(last) then rest + [last] else rest
  }

  /** A sheet holding root data: its name ends in "Root Synth". */
  predicate IsRootSheet(name: string) {
    EndsWith(name, RootSheetSuffix)
  }
}
