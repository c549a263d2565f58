/**
 `to_df`: turning a parse result into one table (`.mpt`, `.mpr`) or an
 ordered list of tables (`.mps`).
 */
module Extraction {
  import opened EcLabData
  import opened Dispatch

  /** `mpr[1]['data']['datapoints']`: the rows of the module at index 1. */
  function BinaryTable(modules: seq<Module>): (r: Result<Table, Error>)
    ensures r.Ok? <==> |modules| >= 2 && modules[1].datapoints.Some?
    ensures r.Ok? ==> r.value.rows == modules[1].datapoints.value
    ensures r.Err? ==> r.error == MissingDataModule
  {
    if |modules| < 2 || modules[1].datapoints.None? then Err(MissingDataModule)
    else Ok(Table(modules[1].datapoints.value))
  }

  /** A technique yields a table when it has data with an `mpt` or an `mpr` entry. */
  predicate Contributes(t: Technique)
  {
    t.data.Some? && (t.data.value.mpt.Some? || t.data.value.mpr.Some?)
  }

  /**
   One pass of the loop over techniques: no table without `data`, the
   `mpt` entry's table when there is one, otherwise the `mpr` entry's,
   otherwise no table.
   */
  function TechniqueTable(t: Technique): (r: Result<Option<Table>, Error>)
    ensures r == Ok(None) <==> !Contributes(t)
    ensures r.Ok? && r.value.Some? && t.data.value.mpt.Some? ==>
      r.value.value.rows == t.data.value.mpt.value.datapoints
    ensures r.Err? ==> Contributes(t) && t.data.value.mpt.None? && r == Err(MissingDataModule)
  {
    if t.data.None? then Ok(None)
    else if t.data.value.mpt.Some? then Ok(Some(Table(t.data.value.mpt.value.datapoints)))
    else if t.data.value.mpr.Some? then
      match BinaryTable(t.data.value.mpr.value)
      case Err(e) => Err(e)
      case Ok(tb) => Ok(Some(tb))
    else Ok(None)
  }

  /** The list the loop builds, appending each technique's table in turn; the first
      failing lookup aborts the whole call. */
  function SettingsTables(ts: seq<Technique>): (r: Result<seq<Table>, Error>)
    ensures r.Ok? ==> |r.value| <= |ts|
    ensures r.Err? ==> r.error == MissingDataModule
  {
    if ts == [] then Ok([])
    else
      match SettingsTables(ts[..|ts| - 1])
      case Err(e) => Err(e)
      case Ok(acc) =>
        match TechniqueTable(ts[|ts| - 1])
        case Err(e) => Err(e)
        case Ok(None) => Ok(acc)
        case Ok(Some(tb)) => Ok(acc + [tb])
  }

  /** The positions of the contributing techniques, in increasing order. */
  function ContributingIndices(ts: seq<Technique>): (idx: seq<nat>)
    ensures |idx| <= |ts|
    ensures forall k :: 0 <= k < |idx| ==> idx[k] < |ts| && Contributes(ts[idx[k]])
    ensures forall k, l :: 0 <= k < l < |idx| ==> idx[k] < idx[l]
    ensures forall j :: 0 <= j < |ts| && Contributes(ts[j]) ==> j in idx
  {
    if ts == [] then []
    else
      var prev := ContributingIndices(ts[..|ts| - 1]);
      assert forall k :: 0 <= k < |prev| ==> ts[..|ts| - 1][prev[k]] == ts[prev[k]];
      if Contributes(ts[|ts| - 1]) then prev + [|ts| - 1] else prev
  }

  /** The settings branch never fails by way of data (absent or without entries)
      and only the `mpr` entry's missing module can make it fail. */
  lemma TechniqueTableSpec(t: Technique)
    ensures TechniqueTable(t) == Ok(None) <==> !Contributes(t)
    ensures TechniqueTable(t).Err? <==>
      Contributes(t) && t.data.value.mpt.None? && BinaryTable(t.data.value.mpr.value).Err?
  {
  }

  /**
   The settings branch fails exactly when some technique's lookup fails;
   otherwise it holds one table per contributing technique, in declaration
   order, each the table that technique yields.
   */
  lemma SettingsTablesSpec(ts: seq<Technique>)
    ensures SettingsTables(ts).Ok? <==> forall j :: 0 <= j < |ts| ==> TechniqueTable(ts[j]).Ok?
    ensures SettingsTables(ts).Err? ==> SettingsTables(ts).error == MissingDataModule
    ensures SettingsTables(ts).Ok? ==>
      var tabs, idx := SettingsTables(ts).value, ContributingIndices(ts);
      |tabs| == |idx| &&
      forall k :: 0 <= k < |tabs| ==> TechniqueTable(ts[idx[k]]) == Ok(Some(tabs[k]))
  {
    SettingsTablesOutcome(ts);
    if SettingsTables(ts).Ok? {
      SettingsTablesContents(ts);
    }
  }

  lemma {:induction false} SettingsTablesOutcome(ts: seq<Technique>)
    ensures SettingsTables(ts).Ok? <==> forall j :: 0 <= j < |ts| ==> TechniqueTable(ts[j]).Ok?
    ensures SettingsTables(ts).Err? ==> SettingsTables(ts).error == MissingDataModule
  {
    if ts != [] {
      var n := |ts| - 1;
      var init := ts[..n];
      SettingsTablesOutcome(init);
      assert forall j :: 0 <= j < n ==> init[j] == ts[j];
      TechniqueTableSpec(ts[n]);
    }
  }

  lemma {:induction false} SettingsTablesContents(ts: seq<Technique>)
    requires SettingsTables(ts).Ok?
    ensures var tabs, idx := SettingsTables(ts).value, ContributingIndices(ts);
      |tabs| == |idx| &&
      forall k :: 0 <= k < |tabs| ==> TechniqueTable(ts[idx[k]]) == Ok(Some(tabs[k]))
  {
    if ts != [] {
      var n := |ts| - 1;
      var init := ts[..n];
      assert SettingsTables(init).Ok?;
      SettingsTablesContents(init);
      var acc, prevIdx := SettingsTables(init).value, ContributingIndices(init);
      var tabs, idx := SettingsTables(ts).value, ContributingIndices(ts);
      assert forall k :: 0 <= k < |prevIdx| ==> init[prevIdx[k]] == ts[prevIdx[k]];
      TechniqueTableSpec(ts[n]);
      var last := TechniqueTable(ts[n]);
      if Contributes(ts[n]) {
        assert last.Ok? && last.value.Some?;
        assert SettingsTables(ts) == Ok(acc + [last.value.value]);
        assert idx == prevIdx + [n];
        forall k | 0 <= k < |tabs|
          ensures TechniqueTable(ts[idx[k]]) == Ok(Some(tabs[k]))
        {
          if k < |acc| {
            assert idx[k] == prevIdx[k] && tabs[k] == acc[k];
          }
        }
      } else {
        assert last == Ok(None);
        assert SettingsTables(ts) == Ok(acc);
        assert idx == prevIdx;
      }
    }
  }

  /** The number of contributing techniques before position `j`. */
  function CountBefore(ts: seq<Technique>, j: nat): nat
    requires j <= |ts|
  {
    |ContributingIndices(ts[..j])|
  }

  lemma {:induction false} ContributingIndicesPrefix(ts: seq<Technique>, j: nat)
    requires j < |ts|
    requires Contributes(ts[j])
    ensures CountBefore(ts, j) < |ContributingIndices(ts)|
    ensures ContributingIndices(ts)[CountBefore(ts, j)] == j
    decreases |ts|
  {
    var n := |ts| - 1;
    if j == n {
      assert ts[..n] == ts[..j];
    } else {
      assert ts[..n][..j] == ts[..j];
      ContributingIndicesPrefix(ts[..n], j);
    }
  }

  /**
   Where a technique's table ends up: the technique at position `j`, if it
   contributes, gives the table at the position that counts the contributing
   techniques before it; the table is built from the `mpt` entry when there
   is one, even if an `mpr` entry exists, and from module 1 of the `mpr`
   entry otherwise.
   */
  lemma TableOfTechnique(ts: seq<Technique>, j: nat)
    requires j < |ts|
    requires SettingsTables(ts).Ok?
    requires Contributes(ts[j])
    ensures var tabs, k, d := SettingsTables(ts).value, CountBefore(ts, j), ts[j].data.value;
      k < |tabs| &&
      (d.mpt.Some? ==> tabs[k] == Table(d.mpt.value.datapoints)) &&
      (d.mpt.None? ==> BinaryTable(d.mpr.value) == Ok(tabs[k]))
  {
    SettingsTablesSpec(ts);
    ContributingIndicesPrefix(ts, j);
  }

  /** The spec of `to_df` as a whole. */
  function Extract(path: string, parsers: Parsers): (r: Result<Frames, Error>)
    ensures Route(path).Err? ==> r == Err(UnrecognizedExtension(Extension(path)))
    ensures r.Ok? ==> (r.value.Many? <==> Route(path) == Ok(SettingsFormat))
    ensures r.Err? && Route(path).Ok? ==> r.error == MissingDataModule
  {
    match Route(path)
    case Err(e) => Err(e)
    case Ok(TextFormat) => Ok(Single(Table(parsers.mpt(path).datapoints)))
    case Ok(BinaryFormat) =>
      (match BinaryTable(parsers.mpr(path))
       case Err(e) => Err(e)
       case Ok(t) => Ok(Single(t)))
    case Ok(SettingsFormat) =>
      (match SettingsTables(parsers.mpsWithData(path).techniques)
       case Err(e) => Err(e)
       case Ok(tabs) => Ok(Many(tabs)))
  }

  /**
   What `to_df` returns for each kind of input: an unrecognised extension is
   a `ValueError` naming it; a text file gives one table of its datapoints; a
   binary file one table of module 1's datapoints; a settings file, loaded
   with its data, a list of tables no longer than its list of techniques.
   */
  lemma ExtractSpec(path: string, parsers: Parsers)
    ensures Route(path).Err? ==> Extract(path, parsers) == Err(UnrecognizedExtension(Extension(path)))
    ensures Route(path) == Ok(TextFormat) ==>
      Extract(path, parsers) == Ok(Single(Table(parsers.mpt(path).datapoints)))
    ensures Route(path) == Ok(BinaryFormat) ==>
      var mods := parsers.mpr(path);
      if |mods| >= 2 && mods[1].datapoints.Some?
      then Extract(path, parsers) == Ok(Single(Table(mods[1].datapoints.value)))
      else Extract(path, parsers) == Err(MissingDataModule)
    ensures Route(path) == Ok(SettingsFormat) ==>
      var ts := parsers.mpsWithData(path).techniques;
      (Extract(path, parsers).Ok? ==>
         Extract(path, parsers).value.Many? &&
         |Extract(path, parsers).value.tables| == |ContributingIndices(ts)| <= |ts|) &&
      (Extract(path, parsers).Err? ==> Extract(path, parsers).error == MissingDataModule)
  {
    RouteExact(path);
    if Route(path) == Ok(SettingsFormat) {
      SettingsTablesSpec(parsers.mpsWithData(path).techniques);
    }
  }

  /**
   A settings file of three techniques, the first without data, the second
   with both an `mpt` and an `mpr` entry and the third with an `mpr` entry
   only, gives exactly two tables: the second technique's text table (not its
   binary one) and the third technique's binary table.
   */
  lemma ThreeTechniquesExample(m: MptFile, both: seq<Module>, binary: seq<Module>, rows: seq<Record>)
    requires |binary| >= 2 && binary[1].datapoints == Some(rows)
    ensures SettingsTables([
      Technique(None),
      Technique(Some(TechniqueData(Some(m), Some(both)))),
      Technique(Some(TechniqueData(None, Some(binary))))]) == Ok([Table(m.datapoints), Table(rows)])
  {
    var t0 := Technique(None);
    var t1 := Technique(Some(TechniqueData(Some(m), Some(both))));
    var t2 := Technique(Some(TechniqueData(None, Some(binary))));
    assert [t0][..0] == [];
    assert SettingsTables([t0]) == Ok([]);
    assert [t0, t1][..1] == [t0];
    assert TechniqueTable(t1) == Ok(Some(Table(m.datapoints)));
    assert [t0, t1][|[t0, t1]| - 1] == t1;
    var empty: seq<Table> := [];
    assert empty + [Table(m.datapoints)] == [Table(m.datapoints)];
    assert SettingsTables([t0, t1]) == Ok([Table(m.datapoints)]);
    assert [t0, t1, t2][..2] == [t0, t1];
    assert [Table(m.datapoints)] + [Table(rows)] == [Table(m.datapoints), Table(rows)];
  }

  /** The loop of the settings branch: walk the techniques in order, skip those
      without data, and append the `mpt` table in preference to the `mpr` one. */
  method CollectTables(ts: seq<Technique>) returns (r: Result<seq<Table>, Error>)
    ensures r == SettingsTables(ts)
  {
    var df: seq<Table> := [];
    for i := 0 to |ts|
      invariant SettingsTables(ts[..i]) == Ok(df)
    {
      assert ts[..i + 1][..i] == ts[..i];
      var technique := ts[i];
      if technique.data.None? {
        continue;
      }
      var data := technique.data.value;
      if data.mpt.Some? {
        df := df + [Table(data.mpt.value.datapoints)];
      } else if data.mpr.Some? {
        var mpr := data.mpr.value;
        if |mpr| < 2 || mpr[1].datapoints.None? {
          PropagatesError(ts, i + 1);
          return Err(MissingDataModule);
        }
        df := df + [Table(mpr[1].datapoints.value)];
      }
    }
    assert ts[..|ts|] == ts;
    return Ok(df);
  }

  /** Once a prefix of the techniques fails, the whole list fails with the same error. */
  lemma {:induction false} PropagatesError(ts: seq<Technique>, i: nat)
    requires i <= |ts|
    requires SettingsTables(ts[..i]).Err?
    ensures SettingsTables(ts) == SettingsTables(ts[..i])
    decreases |ts| - i
  {
    if i < |ts| {
      assert ts[..i + 1][..i] == ts[..i];
      PropagatesError(ts, i + 1);
    } else {
      assert ts[..i] == ts;
    }
  }

  /** `to_df(path)`: dispatch on the extension and build the table or tables. */
  method ToDf(path: string, parsers: Parsers) returns (r: Result<Frames, Error>)
    ensures r == Extract(path, parsers)
  {
    var ext := Extension(path);
    if ext == ".mpt" {
      var mpt := parsers.mpt(path);
      r := Ok(Single(Table(mpt.datapoints)));
    } else if ext == ".mpr" {
      var mpr := parsers.mpr(path);
      if |mpr| < 2 || mpr[1].datapoints.None? {
        return Err(MissingDataModule);
      }
      r := Ok(Single(Table(mpr[1].datapoints.value)));
    } else if ext == ".mps" {
      var mps := parsers.mpsWithData(path);
      var tables := CollectTables(mps.techniques);
      if tables.Err? {
        return Err(tables.error);
      }
      r := Ok(Many(tables.value));
    } else {
      r := Err(UnrecognizedExtension(ext));
    }
  }
}
