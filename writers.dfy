/**
 `to_csv` and `to_xlsx`. Instead of writing files, each returns the writes it
 would perform: the CSV writer a list of (target path, table) events in the
 order they happen, the Excel writer the workbook with its target path and
 its sheets in the order they are added.
 */
module Writers {
  import opened EcLabData
  import opened PosixPath
  import opened OutputNames
  import Decimal
  import opened Extraction

  /** One `DataFrame.to_csv(target, float_format='%.15f', index=False)` call. */
  datatype CsvWrite = CsvWrite(target: string, table: Table)

  /** One sheet of a workbook; `name` None is the default sheet name of `DataFrame.to_excel`. */
  datatype Sheet = Sheet(name: Option<string>, table: Table)

  datatype Workbook = Workbook(target: string, sheets: seq<Sheet>)

  /** Python truthiness of an optional path: given and not the empty string. */
  predicate Truthy(p: Option<string>)
  {
    p.Some? && p.value != ""
  }

  /** `f'_{i:02d}.csv'`. */
  function IndexedCsv(i: nat): string
  {
    IndexedSuffix(i, ".csv")
  }

  /** `_construct_path(base, f'_{i:02d}.csv')`. */
  function IndexedCsvPath(base: string, i: nat): string
  {
    ConstructPath(base, IndexedCsv(i))
  }

  /**
   The target of a single table or of a workbook: the path given for the
   output unless it `is None`, then the input path with its extension
   replaced by `ext`.
   */
  function GivenOrDerived(path: string, given: Option<string>, ext: string): (r: string)
    requires Sep !in ext
    ensures given.Some? ==> r == given.value
    ensures given.None? ==> Split(r) == (Split(path).0, Stem(path) + ext)
  {
    if given.None? then
      ConstructPathParts(path, ext);
      ConstructPath(path, ext)
    else given.value
  }

  /** The files table i (1-based) of a list goes to, in the order `to_csv` writes them:
      `csv_path` with the indexed suffix when it is truthy, then the input path with it. */
  function TableTargets(path: string, csvPath: Option<string>, i: nat): (r: seq<string>)
    ensures |r| == if Truthy(csvPath) then 2 else 1
  {
    (if Truthy(csvPath) then [IndexedCsvPath(csvPath.value, i)] else []) + [IndexedCsvPath(path, i)]
  }

  /** The files of one table: two with a truthy `csv_path`, one otherwise, the input
      path's file last. */
  lemma TableTargetsAt(path: string, csvPath: Option<string>, i: nat)
    ensures var tt := TableTargets(path, csvPath, i);
      if Truthy(csvPath)
      then |tt| == 2 && tt[0] == IndexedCsvPath(csvPath.value, i) && tt[1] == IndexedCsvPath(path, i)
      else |tt| == 1 && tt[0] == IndexedCsvPath(path, i)
  {
    hide IndexedCsvPath;
    var own := IndexedCsvPath(path, i);
    if Truthy(csvPath) {
      var other := IndexedCsvPath(csvPath.value, i);
      assert TableTargets(path, csvPath, i) == [other] + [own];
    } else {
      assert TableTargets(path, csvPath, i) == [] + [own];
    }
  }

  /** One write of `t` to each of `targets`, in order. */
  function WritesTo(targets: seq<string>, t: Table): (w: seq<CsvWrite>)
    ensures |w| == |targets|
    ensures forall j :: 0 <= j < |targets| ==> w[j] == CsvWrite(targets[j], t)
  {
    if targets == [] then [] else [CsvWrite(targets[0], t)] + WritesTo(targets[1..], t)
  }

  lemma WritesToAppend(targets: seq<string>, last: string, t: Table)
    ensures WritesTo(targets + [last], t) == WritesTo(targets, t) + [CsvWrite(last, t)]
  {
  }

  lemma WritesToOne(target: string, t: Table)
    ensures WritesTo([target], t) == [CsvWrite(target, t)]
  {
  }

  /** The writes for a list of tables, table by table in list order, table i (1-based)
      going to `targets(i)`. */
  function ListWrites(targets: nat -> seq<string>, ts: seq<Table>): seq<CsvWrite>
  {
    if ts == [] then []
    else ListWrites(targets, ts[..|ts| - 1]) + WritesTo(targets(|ts|), ts[|ts| - 1])
  }

  /** When every table goes to `width` files, write number `width * k + j` is table k
      (0-based) going to its j-th file. */
  lemma {:induction false} ListWritesAt(targets: nat -> seq<string>, ts: seq<Table>, width: nat, k: nat, j: nat)
    requires forall i :: |targets(i)| == width
    requires k < |ts| && j < width
    ensures |ListWrites(targets, ts)| == width * |ts|
    ensures width * k + j < width * |ts|
    ensures ListWrites(targets, ts)[width * k + j] == CsvWrite(targets(k + 1)[j], ts[k])
  {
    var n := |ts| - 1;
    var init := ts[..n];
    var p := ListWrites(targets, init);
    assert ListWrites(targets, ts) == p + WritesTo(targets(|ts|), ts[n]);
    ListWritesLength(targets, init, width);
    assert width * |ts| == width * n + width;
    if k < n {
      ListWritesAt(targets, init, width, k, j);
      assert init[k] == ts[k];
    } else {
      assert width * k + j == |p| + j;
    }
  }

  lemma {:induction false} ListWritesLength(targets: nat -> seq<string>, ts: seq<Table>, width: nat)
    requires forall i :: |targets(i)| == width
    ensures |ListWrites(targets, ts)| == width * |ts|
  {
    if ts != [] {
      ListWritesLength(targets, ts[..|ts| - 1], width);
      assert width * |ts| == width * (|ts| - 1) + width;
    }
  }

  /** The `targets` argument of `ListWrites` for `to_csv(path, csv_path)`. */
  function CsvTargets(path: string, csvPath: Option<string>): nat -> seq<string>
  {
    (i: nat) => TableTargets(path, csvPath, i)
  }

  /**
   Where each write of a list sits: with a truthy `csv_path` there are 2n
   writes, table k (0-based) going first to `csv_path` and then to the input
   path, each with the suffix `_NN.csv` for NN = k + 1.
   */
  lemma DualListWritesAt(path: string, csvPath: Option<string>, ts: seq<Table>, k: nat)
    requires Truthy(csvPath)
    requires k < |ts|
    ensures var w := ListWrites(CsvTargets(path, csvPath), ts);
      |w| == 2 * |ts| &&
      w[2 * k] == CsvWrite(IndexedCsvPath(csvPath.value, k + 1), ts[k]) &&
      w[2 * k + 1] == CsvWrite(IndexedCsvPath(path, k + 1), ts[k])
  {
    hide IndexedCsvPath;
    var targets := CsvTargets(path, csvPath);
    forall i: nat
      ensures |targets(i)| == 2
    {
      TableTargetsAt(path, csvPath, i);
    }
    TableTargetsAt(path, csvPath, k + 1);
    ListWritesAt(targets, ts, 2, k, 0);
    ListWritesAt(targets, ts, 2, k, 1);
  }

  /** Otherwise there are n writes, table k (0-based) going to the input path with the
      suffix for index k + 1. */
  lemma SingleListWritesAt(path: string, csvPath: Option<string>, ts: seq<Table>, k: nat)
    requires !Truthy(csvPath)
    requires k < |ts|
    ensures var w := ListWrites(CsvTargets(path, csvPath), ts);
      |w| == |ts| && w[k] == CsvWrite(IndexedCsvPath(path, k + 1), ts[k])
  {
    hide IndexedCsvPath;
    var targets := CsvTargets(path, csvPath);
    forall i: nat
      ensures |targets(i)| == 1
    {
      TableTargetsAt(path, csvPath, i);
    }
    TableTargetsAt(path, csvPath, k + 1);
    ListWritesAt(targets, ts, 1, k, 0);
  }

  /**
   The writes `to_csv` performs for the frames `to_df` returned: a single
   table is written once, a list as `ListWrites` says.
   */
  predicate IsCsvPlan(path: string, csvPath: Option<string>, frames: Frames, writes: seq<CsvWrite>)
  {
    match frames
    case Single(t) => writes == [CsvWrite(GivenOrDerived(path, csvPath, ".csv"), t)]
    case Many(ts) => writes == ListWrites(CsvTargets(path, csvPath), ts)
  }

  /** `to_csv(path, csv_path)`: an error from `to_df` is raised before anything is
      written; otherwise the writes are those of the plan. */
  method ToCsv(path: string, csvPath: Option<string>, parsers: Parsers) returns (r: Result<seq<CsvWrite>, Error>)
    ensures r.Err? <==> Extract(path, parsers).Err?
    ensures r.Err? ==> r.error == Extract(path, parsers).error
    ensures r.Ok? ==> IsCsvPlan(path, csvPath, Extract(path, parsers).value, r.value)
  {
    var df := ToDf(path, parsers);
    if df.Err? {
      return Err(df.error);
    }
    var writes: seq<CsvWrite>;
    match df.value {
      case Single(t) =>
        var target: string;
        if csvPath.None? {
          target := ConstructPath(path, ".csv");
        } else {
          target := csvPath.value;
        }
        writes := [CsvWrite(target, t)];
      case Many(ts) =>
        writes := WriteTables(path, csvPath, ts);
    }
    return Ok(writes);
  }

  /** The loop of `to_csv` over a list of tables. */
  method WriteTables(path: string, csvPath: Option<string>, ts: seq<Table>) returns (writes: seq<CsvWrite>)
    ensures writes == ListWrites(CsvTargets(path, csvPath), ts)
  {
    writes := [];
    for i := 0 to |ts|
      invariant writes == ListWrites(CsvTargets(path, csvPath), ts[..i])
    {
      assert ts[..i + 1][..i] == ts[..i];
      var group := WriteTable(path, csvPath, i + 1, ts[i]);
      writes := writes + group;
    }
    assert ts[..|ts|] == ts;
  }

  /** One iteration of that loop: table i (1-based) written to `csv_path` when it is
      truthy, then to the input path, each with the suffix `_NN.csv`. */
  method WriteTable(path: string, csvPath: Option<string>, i: nat, t: Table) returns (writes: seq<CsvWrite>)
    ensures writes == WritesTo(TableTargets(path, csvPath, i), t)
  {
    hide IndexedCsvPath;
    writes := [];
    if Truthy(csvPath) {
      writes := writes + [CsvWrite(IndexedCsvPath(csvPath.value, i), t)];
    }
    writes := writes + [CsvWrite(IndexedCsvPath(path, i), t)];
    assert writes == WritesTo(TableTargets(path, csvPath, i), t) by {
      ghost var first: seq<string> := if Truthy(csvPath) then [IndexedCsvPath(csvPath.value, i)] else [];
      WritesToAppend(first, IndexedCsvPath(path, i), t);
      if Truthy(csvPath) {
        WritesToOne(first[0], t);
      }
    }
  }

  /** In list mode the files derived from the input path are all different, and so are
      those derived from `csv_path`: no table overwrites another. */
  lemma CsvTargetsDistinct(path: string, csvPath: Option<string>, ts: seq<Table>, k: nat, l: nat)
    requires k < l < |ts|
    ensures var w := ListWrites(CsvTargets(path, csvPath), ts);
      if Truthy(csvPath) then
        |w| == 2 * |ts| &&
        w[2 * k + 1].target != w[2 * l + 1].target &&
        w[2 * k].target != w[2 * l].target
      else
        |w| == |ts| && w[k].target != w[l].target
  {
    hide IndexedCsvPath;
    hide ListWrites;
    var w := ListWrites(CsvTargets(path, csvPath), ts);
    IndexedCsvPathsDistinct(path, k + 1, l + 1);
    if Truthy(csvPath) {
      DualListWritesAt(path, csvPath, ts, k);
      DualListWritesAt(path, csvPath, ts, l);
      IndexedCsvPathsDistinct(csvPath.value, k + 1, l + 1);
      assert w[2 * k].target == IndexedCsvPath(csvPath.value, k + 1);
      assert w[2 * l].target == IndexedCsvPath(csvPath.value, l + 1);
      assert w[2 * k + 1].target == IndexedCsvPath(path, k + 1);
      assert w[2 * l + 1].target == IndexedCsvPath(path, l + 1);
    } else {
      SingleListWritesAt(path, csvPath, ts, k);
      SingleListWritesAt(path, csvPath, ts, l);
      assert w[k].target == IndexedCsvPath(path, k + 1);
      assert w[l].target == IndexedCsvPath(path, l + 1);
    }
  }

  /** The indexed CSV files derived from one base path differ for distinct indices. */
  lemma IndexedCsvPathsDistinct(base: string, i: nat, j: nat)
    requires i != j
    ensures IndexedCsvPath(base, i) != IndexedCsvPath(base, j)
  {
    assert Sep !in ".csv";
    IndexedPathsDistinct(base, i, j, ".csv");
  }

  /** When `csv_path` is the input path itself, every table of a list is written twice to the same file. */
  lemma DualWriteSameFile(path: string, ts: seq<Table>, k: nat)
    requires path != ""
    requires k < |ts|
    ensures var w := ListWrites(CsvTargets(path, Some(path)), ts);
      |w| == 2 * |ts| && w[2 * k] == w[2 * k + 1]
  {
    hide IndexedCsvPath;
    DualListWritesAt(path, Some(path), ts, k);
  }

  /**
   `csv_path=""` is tested with `is None` for one table and by truthiness for
   several: one table is written to the empty path, while a list ignores it
   and writes only the files derived from the input path.
   */
  lemma EmptyCsvPath(path: string, t: Table, ts: seq<Table>)
    ensures GivenOrDerived(path, Some(""), ".csv") == ""
    ensures var w := ListWrites(CsvTargets(path, Some("")), ts);
      |w| == |ts| && forall k :: 0 <= k < |ts| ==> w[k].target == IndexedCsvPath(path, k + 1)
  {
    hide IndexedCsvPath;
    forall k | 0 <= k < |ts|
      ensures |ListWrites(CsvTargets(path, Some("")), ts)| == |ts|
      ensures ListWrites(CsvTargets(path, Some("")), ts)[k].target == IndexedCsvPath(path, k + 1)
    {
      SingleListWritesAt(path, Some(""), ts, k);
    }
    if ts == [] {
      assert ListWrites(CsvTargets(path, Some("")), ts) == [];
    }
  }

  /** The workbook `to_xlsx` writes: one default sheet for a single table, one sheet per
      table of a list, named by its 1-based index padded to two digits, in list order. */
  predicate IsWorkbook(path: string, xlsxPath: Option<string>, frames: Frames, wb: Workbook)
  {
    && wb.target == GivenOrDerived(path, xlsxPath, ".xlsx")
    && match frames
       case Single(t) => wb.sheets == [Sheet(None, t)]
       case Many(ts) => IndexedSheets(ts, wb.sheets)
  }

  /** One sheet per table of a list, named by its 1-based index padded to two digits. */
  predicate IndexedSheets(ts: seq<Table>, sheets: seq<Sheet>)
  {
    |sheets| == |ts| &&
    forall k :: 0 <= k < |ts| ==> sheets[k] == Sheet(Some(Decimal.Pad2(k + 1)), ts[k])
  }

  /** `to_xlsx(path, xlsx_path)`: an error from `to_df` is raised before the workbook
      is opened; otherwise the workbook is the one described above. */
  method ToXlsx(path: string, xlsxPath: Option<string>, parsers: Parsers) returns (r: Result<Workbook, Error>)
    ensures r.Err? <==> Extract(path, parsers).Err?
    ensures r.Err? ==> r.error == Extract(path, parsers).error
    ensures r.Ok? ==> IsWorkbook(path, xlsxPath, Extract(path, parsers).value, r.value)
  {
    var df := ToDf(path, parsers);
    if df.Err? {
      return Err(df.error);
    }
    var target: string;
    if xlsxPath.None? {
      target := ConstructPath(path, ".xlsx");
    } else {
      target := xlsxPath.value;
    }
    match df.value
    case Single(t) =>
      return Ok(Workbook(target, [Sheet(None, t)]));
    case Many(ts) =>
      var sheets := AddSheets(ts);
      return Ok(Workbook(target, sheets));
  }

  /** The loop of `to_xlsx` over a list of tables: one sheet per table, named `f'{i:02d}'`
      for its 1-based index i. */
  method AddSheets(ts: seq<Table>) returns (sheets: seq<Sheet>)
    ensures IndexedSheets(ts, sheets)
  {
    sheets := [];
    for i := 0 to |ts|
      invariant |sheets| == i
      invariant forall k :: 0 <= k < i ==> sheets[k] == Sheet(Some(Decimal.Pad2(k + 1)), ts[k])
    {
      sheets := sheets + [Sheet(Some(Decimal.Pad2(i + 1)), ts[i])];
    }
  }

  /** Sheet names of a list are pairwise distinct, and for at most 99 tables they also
      sort in the order the sheets were added. */
  lemma SheetNamesOrdered(ts: seq<Table>, sheets: seq<Sheet>, k: nat, l: nat)
    requires IndexedSheets(ts, sheets)
    requires k < l < |ts|
    ensures sheets[k].name != sheets[l].name
    ensures |ts| <= 99 ==> Decimal.StrLess(sheets[k].name.value, sheets[l].name.value)
  {
    hide Decimal.Pad2;
    var a, b := Decimal.Pad2(k + 1), Decimal.Pad2(l + 1);
    assert sheets[k].name == Some(a) && sheets[l].name == Some(b);
    if a == b {
      Decimal.Pad2Injective(k + 1, l + 1);
    }
    if |ts| <= 99 {
      Decimal.Pad2Ordered(k + 1, l + 1);
    }
  }

  /**
   A settings file of three techniques whose second has no data gives a
   workbook of exactly two sheets, "01" for the first technique's table and
   "02" for the third's.
   */
  lemma SkippedTechniqueWorkbook(m1: MptFile, m3: MptFile, sheets: seq<Sheet>)
    requires IndexedSheets([Table(m1.datapoints), Table(m3.datapoints)], sheets)
    ensures SettingsTables([
      Technique(Some(TechniqueData(Some(m1), None))),
      Technique(None),
      Technique(Some(TechniqueData(Some(m3), None)))]) == Ok([Table(m1.datapoints), Table(m3.datapoints)])
    ensures |sheets| == 2
    ensures sheets[0] == Sheet(Some("01"), Table(m1.datapoints))
    ensures sheets[1] == Sheet(Some("02"), Table(m3.datapoints))
  {
    var t1 := Technique(Some(TechniqueData(Some(m1), None)));
    var t2 := Technique(None);
    var t3 := Technique(Some(TechniqueData(Some(m3), None)));
    assert [t1][..0] == [];
    var empty: seq<Table> := [];
    assert empty + [Table(m1.datapoints)] == [Table(m1.datapoints)];
    assert SettingsTables([t1]) == Ok([Table(m1.datapoints)]);
    assert [t1, t2][..1] == [t1];
    assert SettingsTables([t1, t2]) == Ok([Table(m1.datapoints)]);
    assert [t1, t2, t3][..2] == [t1, t2];
    assert [Table(m1.datapoints)] + [Table(m3.datapoints)] == [Table(m1.datapoints), Table(m3.datapoints)];
    assert Decimal.Pad2(1) == "01";
    assert Decimal.Pad2(2) == "02";
  }
}
