/** Run settings: which tables hold the import (`connect_and_check`),
    which middle-table dialect is in use, how the boundary constraint of
    the extract is chosen (`make_bounds_constr`), and the keyword
    settings of `ModuleSettings`. The database catalogue and the
    contents of the boundary files are parameters. */
module Settings {
  import opened Wrappers
  import opened Text
  import Regions

  // ---------------------------------------------------------------------
  // Table autodetection

  /** A row of the catalogue queries: geometry tables come with their
      geometry column and SRID, plain tables without. */
  datatype CatalogRow = CatalogRow(name: string, schema: string, size: int, geom: Option<(string, int)>)

  /** What is kept for a detected table: its qualified name, its size,
      and for a geometry table its geometry column and SRID. */
  datatype TableInfo = TableInfo(name: string, size: int, geom: Option<(string, int)>)

  type Tables = map<string, TableInfo>

  const GeomEndings: seq<string> := ["_point", "_line", "_polygon"]
  const PlainEndings: seq<string> := ["_ways", "_rels"]
  const AllEndings: seq<string> := GeomEndings + PlainEndings

  /** The ending a table name is filed under: the last of the candidate
      endings it ends with (geometry endings for geometry rows, the
      others for plain rows). */
  function EndingOf(name: string, endings: seq<string>): (r: Option<string>)
    ensures r.Some? ==> r.value in endings && EndsWith(name, r.value)
    ensures r.None? <==> forall k :: 0 <= k < |endings| ==> !EndsWith(name, endings[k])
    decreases |endings|
  {
    if |endings| == 0 then None
    else
      var e := endings[|endings| - 1];
      if EndsWith(name, e) then Some(e)
      else
        var r := EndingOf(name, endings[..|endings| - 1]);
        assert forall k :: 0 <= k < |endings| - 1 ==> endings[..|endings| - 1][k] == endings[k];
        r
  }

  function RowEnding(row: CatalogRow): Option<string> {
    EndingOf(row.name, if row.geom.Some? then GeomEndings else PlainEndings)
  }

  function InfoOf(row: CatalogRow): TableInfo {
    TableInfo(row.schema + "." + row.name, row.size, row.geom)
  }

  /** A catalogue row as the loop sees it: the ending it is filed
      under, if any, and what would be kept for it. */
  function Keyed(rows: seq<CatalogRow>): (r: seq<(Option<string>, TableInfo)>)
    ensures |r| == |rows|
    ensures forall k :: 0 <= k < |rows| ==> r[k] == (RowEnding(rows[k]), InfoOf(rows[k]))
  {
    seq(|rows|, k requires 0 <= k < |rows| => (RowEnding(rows[k]), InfoOf(rows[k])))
  }

  /** One step of the detection loop: a row replaces the table kept for
      its ending unless the kept one is strictly bigger. */
  function DetectStep(tables: Tables, item: (Option<string>, TableInfo)): (r: Tables)
    ensures item.0.None? ==> r == tables
    ensures item.0.Some? && item.0.value in tables && tables[item.0.value].size > item.1.size ==> r == tables
    ensures item.0.Some? && !(item.0.value in tables && tables[item.0.value].size > item.1.size) ==> r == tables[item.0.value := item.1]
  {
    match item.0
    case None => tables
    case Some(e) =>
      if e in tables && tables[e].size > item.1.size then tables
      else tables[e := item.1]
  }

  /** The tables the loop keeps after the given rows, in order. */
  function DetectKeyed(items: seq<(Option<string>, TableInfo)>): (r: Tables)
    decreases |items|
  {
    if |items| == 0 then map[] else DetectStep(DetectKeyed(items[..|items| - 1]), items[|items| - 1])
  }

  /** The `self.tables` the loop builds from the catalogue rows. */
  function Detect(rows: seq<CatalogRow>): Tables {
    DetectKeyed(Keyed(rows))
  }

  /** Item `j` is what ending `e` is filed under in the end: it matches
      `e`, no matching item is bigger, and every later matching item is
      smaller. */
  predicate Winner(items: seq<(Option<string>, TableInfo)>, e: string, j: int) {
    0 <= j < |items| && items[j].0 == Some(e)
    && (forall k :: 0 <= k < |items| && items[k].0 == Some(e) ==> items[k].1.size <= items[j].1.size)
    && (forall k :: j < k < |items| && items[k].0 == Some(e) ==> items[k].1.size < items[j].1.size)
  }

  /** The detected table of an ending is the last of the biggest
      matching rows. */
  lemma {:induction false} DetectPicksBiggest(items: seq<(Option<string>, TableInfo)>, e: string)
    requires e in DetectKeyed(items)
    ensures exists j :: Winner(items, e, j) && DetectKeyed(items)[e] == items[j].1
    decreases |items|
  {
    var n := |items| - 1;
    var pre := items[..n];
    var item := items[n];
    if item.0 == Some(e) && !(e in DetectKeyed(pre) && DetectKeyed(pre)[e].size > item.1.size) {
      LastRowWins(items, e);
    } else {
      assert DetectKeyed(items)[e] == DetectKeyed(pre)[e];
      DetectPicksBiggest(pre, e);
      var j :| Winner(pre, e, j) && DetectKeyed(pre)[e] == pre[j].1;
      WinnerKept(items, e, j);
    }
  }

  /** A last row that is at least as big as the kept table takes its place. */
  lemma LastRowWins(items: seq<(Option<string>, TableInfo)>, e: string)
    requires |items| > 0
    requires items[|items| - 1].0 == Some(e)
    requires !(e in DetectKeyed(items[..|items| - 1]) && DetectKeyed(items[..|items| - 1])[e].size > items[|items| - 1].1.size)
    ensures Winner(items, e, |items| - 1) && DetectKeyed(items)[e] == items[|items| - 1].1
    decreases |items|, 0
  {
    var n := |items| - 1;
    var pre := items[..n];
    var item := items[n];
    forall k | 0 <= k < n && items[k].0 == Some(e) ensures items[k].1.size <= item.1.size {
      assert pre[k] == items[k];
      if e in DetectKeyed(pre) {
        DetectPicksBiggest(pre, e);
        var j :| Winner(pre, e, j) && DetectKeyed(pre)[e] == pre[j].1;
      } else {
        DetectAbsent(pre, e, k);
      }
    }
  }

  /** A row that stays the winner when a smaller or unrelated row follows. */
  lemma WinnerKept(items: seq<(Option<string>, TableInfo)>, e: string, j: int)
    requires |items| > 0 && Winner(items[..|items| - 1], e, j)
    requires items[|items| - 1].0 == Some(e) ==> items[|items| - 1].1.size < items[j].1.size
    ensures Winner(items, e, j) && items[..|items| - 1][j] == items[j]
  {
    var n := |items| - 1;
    var pre := items[..n];
    assert pre[j] == items[j];
    forall k | 0 <= k < n ensures pre[k] == items[k] { }
  }

  /** An ending no row matches is not detected. */
  lemma {:induction false} DetectAbsent(items: seq<(Option<string>, TableInfo)>, e: string, k: int)
    requires e !in DetectKeyed(items) && 0 <= k < |items|
    ensures items[k].0 != Some(e)
    decreases |items|
  {
    var n := |items| - 1;
    var pre := items[..n];
    if k < n {
      assert e !in DetectKeyed(pre);
      assert pre[k] == items[k];
      DetectAbsent(pre, e, k);
    }
  }

  /** On catalogue rows: each detected ending holds `schema.name` of the
      last of its biggest rows, and an ending no row is filed under is
      not detected. */
  lemma DetectRows(rows: seq<CatalogRow>, e: string)
    ensures e in Detect(rows) ==> exists j :: (Winner(Keyed(rows), e, j) && Detect(rows)[e] == InfoOf(rows[j])
      && Detect(rows)[e].name == rows[j].schema + "." + rows[j].name)
    ensures e !in Detect(rows) ==> forall k :: 0 <= k < |rows| ==> RowEnding(rows[k]) != Some(e)
  {
    if e in Detect(rows) {
      DetectPicksBiggest(Keyed(rows), e);
    } else {
      forall k | 0 <= k < |rows| ensures RowEnding(rows[k]) != Some(e) {
        DetectAbsent(Keyed(rows), e, k);
      }
    }
  }

  /** `EndingOf` only files geometry rows under geometry endings. */
  lemma EndingKinds(row: CatalogRow)
    ensures RowEnding(row).Some? && row.geom.Some? ==> RowEnding(row).value in GeomEndings
    ensures RowEnding(row).Some? && row.geom.None? ==> RowEnding(row).value in PlainEndings
  {
  }

  /** `assert key in self.tables` for the five endings. */
  function CheckTables(tables: Tables): (r: Result<Tables>)
    ensures r.Success? <==> forall k :: 0 <= k < |AllEndings| ==> AllEndings[k] in tables
    ensures r.Success? ==> r.value == tables
    ensures r.Failure? ==> r.error.AssertionFailed?
  {
    if forall k :: 0 <= k < |AllEndings| ==> AllEndings[k] in tables then Success(tables)
    else Failure(AssertionFailed("Could not autodetect which tables contain the data"))
  }

  /** The middle-table dialect from the number of `jsonb` and `_text`
      columns of the relations table: jsonb when there are exactly two
      jsonb columns, which then must come with no text-array column;
      otherwise exactly two text-array columns are required. */
  function Dialect(jsonbColumns: nat, textColumns: nat): (r: Result<bool>)
    ensures r == Success(true) <==> jsonbColumns == 2 && textColumns == 0
    ensures r == Success(false) <==> jsonbColumns != 2 && textColumns == 2
    ensures r.Failure? ==> r.error.AssertionFailed?
  {
    var jsonb := jsonbColumns == 2;
    if jsonb then
      if textColumns == 0 then Success(true) else Failure(AssertionFailed("Could not decide which middle db schema is used"))
    else
      if textColumns == 2 then Success(false) else Failure(AssertionFailed("Could not decide which middle db schema is used"))
  }

  // ---------------------------------------------------------------------
  // Boundary constraint

  /** The boundary options as given: at most one is used as the area,
      and a box may narrow it. */
  datatype Bounds = Bounds(geojson: Option<string>, relId: Option<int>, iso: Option<string>, box: Option<string>)

  /** The area a constraint intersects with. */
  datatype Area =
    | GeoJsonArea(text: string, srid: int)                  // the geojson file's stripped text, transformed to the table's SRID
    | RelationArea(polygonTable: string, geomColumn: string, osmId: int)  // the polygon row of a relation, stored with a negative id
    | BoxArea(corners: seq<string>, srid: int)               // lon_from, lat_from, lon_to, lat_to in EPSG:4326

  /** `ST_Intersects(col, area)`, possibly AND-combined with a box. */
  datatype Constraint = Intersects(column: string, area: Area) | And(left: Constraint, right: Constraint)

  /** The boundary files' contents: the geojson file and `regions.csv`. */
  datatype Files = Files(geojson: string, regions: string)

  predicate DetectedTables(tables: Tables) {
    "_point" in tables && "_line" in tables && "_polygon" in tables && "_ways" in tables && "_rels" in tables
    && tables["_point"].geom.Some? && tables["_line"].geom.Some? && tables["_polygon"].geom.Some?
  }

  /** `int(osm_rel_id)` of the ISO code's `regions.csv` row. */
  function IsoRelId(regions: string, iso: string): (r: Result<int>)
    ensures r.Success? ==> Regions.Lookup(regions, iso).Success? && ParseInt(Regions.Lookup(regions, iso).value.1) == Some(r.value)
    ensures Regions.Lookup(regions, iso).Failure? ==> r == Failure(Regions.Lookup(regions, iso).error)
  {
    match Regions.Lookup(regions, iso)
    case Failure(e) => Failure(e)
    case Success((_, osmId)) =>
      match ParseInt(osmId)
      case None => Failure(ValueError("invalid literal for int()"))
      case Some(i) => Success(i)
  }

  /** The relation id named by `--rel-id` or, failing that, by the ISO
      code's `regions.csv` row. */
  function RelIdOf(b: Bounds, files: Files): (r: Option<Result<int>>)
    ensures b.relId.Some? ==> r == Some(Success(b.relId.value))
    ensures b.relId.None? && b.iso.None? ==> r.None?
    ensures b.relId.None? && b.iso.Some? ==> r == Some(IsoRelId(files.regions, b.iso.value))
  {
    if b.relId.Some? then Some(Success(b.relId.value))
    else if b.iso.Some? then Some(IsoRelId(files.regions, b.iso.value))
    else None
  }

  /** The area chosen before any box: the geojson text when one is
      given, else the relation `rel` names (from `--rel-id` or the ISO
      code); `None` when neither is given. */
  function BaseConstraint(b: Bounds, rel: Option<Result<int>>, tables: Tables, tableKey: string, geojson: string): (r: Result<Option<Constraint>>)
    requires DetectedTables(tables) && tableKey in tables && tables[tableKey].geom.Some?
    ensures b.geojson.Some? ==> r == Success(Some(Intersects(tables[tableKey].geom.value.0, GeoJsonArea(Strip(geojson), tables[tableKey].geom.value.1))))
    ensures b.geojson.None? && rel.None? ==> r == Success(None)
    ensures b.geojson.None? && rel.Some? && rel.value.Failure? ==> r == Failure(rel.value.error)
    ensures b.geojson.None? && rel.Some? && rel.value.Success? ==> r == RelationConstraint(tables, tableKey, rel.value.value)
  {
    var (column, srid) := tables[tableKey].geom.value;
    if b.geojson.Some? then Success(Some(Intersects(column, GeoJsonArea(Strip(geojson), srid))))
    else if rel.None? then Success(None)
    else if rel.value.Failure? then Failure(rel.value.error)
    else RelationConstraint(tables, tableKey, rel.value.value)
  }

  /** The constraint naming a relation's polygon, whose row is stored
      under the negated relation id; the two tables must share an SRID. */
  function RelationConstraint(tables: Tables, tableKey: string, relId: int): (r: Result<Option<Constraint>>)
    requires DetectedTables(tables) && tableKey in tables && tables[tableKey].geom.Some?
    ensures r.Success? <==> tables[tableKey].geom.value.1 == tables["_polygon"].geom.value.1
    ensures r.Success? ==> r.value == Some(Intersects(tables[tableKey].geom.value.0, RelationArea(tables["_polygon"].name, tables["_polygon"].geom.value.0, -relId)))
    ensures r.Success? ==> -r.value.value.area.osmId == relId
  {
    var (column, srid) := tables[tableKey].geom.value;
    var (polyColumn, polySrid) := tables["_polygon"].geom.value;
    if srid != polySrid then Failure(AssertionFailed("Unsupported cross-table different geometry SRIDs"))
    else Success(Some(Intersects(column, RelationArea(tables["_polygon"].name, polyColumn, -relId))))
  }

  /** `make_bounds_constr(table_key)`: the constraint and the table's
      qualified name. A box is used alone only when no other form was
      given and is AND-combined otherwise; no form at all is an error. */
  function MakeBoundsConstr(b: Bounds, tables: Tables, tableKey: string, files: Files): (r: Result<(Constraint, string)>)
    requires DetectedTables(tables) && tableKey in tables && tables[tableKey].geom.Some?
    ensures r.Success? ==> r.value.1 == tables[tableKey].name
    ensures b.geojson.None? && b.relId.None? && b.iso.None? && b.box.None? ==> r == Failure(NoBoundaryProvided)
    ensures b.box.None? ==> (r.Success? <==> BaseConstraint(b, RelIdOf(b, files), tables, tableKey, files.geojson).Success? && BaseConstraint(b, RelIdOf(b, files), tables, tableKey, files.geojson).value.Some?)
    ensures b.box.None? && r.Success? ==> Some(r.value.0) == BaseConstraint(b, RelIdOf(b, files), tables, tableKey, files.geojson).value
    ensures r.Success? ==> BaseConstraint(b, RelIdOf(b, files), tables, tableKey, files.geojson).Success?
    ensures r.Success? && b.box.Some? && BaseConstraint(b, RelIdOf(b, files), tables, tableKey, files.geojson).Success? ==> (
      var boxPart := Intersects(tables[tableKey].geom.value.0, BoxArea(Split(b.box.value, ','), tables[tableKey].geom.value.1));
      match BaseConstraint(b, RelIdOf(b, files), tables, tableKey, files.geojson).value
      case None => r.value.0 == boxPart
      case Some(c) => r.value.0 == And(c, boxPart))
  {
    var base :- BaseConstraint(b, RelIdOf(b, files), tables, tableKey, files.geojson);
    var (column, srid) := tables[tableKey].geom.value;
    var constr :-
      if b.box.Some? then
        var corners := Split(b.box.value, ',');
        if |corners| != 4 then Failure(ValueError("expected four box corners"))
        else
          var boxPart := Intersects(column, BoxArea(corners, srid));
          Success(Some(if base.None? then boxPart else And(base.value, boxPart)))
      else Success(base);
    if constr.None? then Failure(NoBoundaryProvided)
    else Success((constr.value, tables[tableKey].name))
  }

  /** Whether the bounds name a relation through the ISO code alone: no
      geojson file and no `--rel-id`. */
  predicate IsoOnly(b: Bounds) {
    b.geojson.None? && b.relId.None? && b.iso.Some?
  }

  /** `make_bounds_constr` as written, with `has_suggested_out_filename`
      as `suggested` and the flag after the call as the second
      component. The ISO branch logs through the bare name `l`, which
      settings.py never defines (only `log.l`), so the first ISO lookup
      that finds a row raises NameError just after setting the flag; the
      no-boundary branch also raises NameError before its `exit(1)`. */
  function MakeBoundsConstrAsWritten(b: Bounds, tables: Tables, tableKey: string, files: Files, suggested: bool): (r: (Result<(Constraint, string)>, bool))
    requires DetectedTables(tables) && tableKey in tables && tables[tableKey].geom.Some?
    ensures r.1 <==> suggested || (IsoOnly(b) && Regions.Lookup(files.regions, b.iso.value).Success?)
    ensures IsoOnly(b) && !suggested && Regions.Lookup(files.regions, b.iso.value).Success? ==> r.0 == Failure(NameError("l"))
    ensures MakeBoundsConstr(b, tables, tableKey, files) == Failure(NoBoundaryProvided) ==> r.0 == Failure(NameError("l"))
    ensures r.0.Success? ==> r.0 == MakeBoundsConstr(b, tables, tableKey, files)
    ensures (suggested || !IsoOnly(b)) && MakeBoundsConstr(b, tables, tableKey, files) != Failure(NoBoundaryProvided) ==> r.0 == MakeBoundsConstr(b, tables, tableKey, files)
  {
    var found := IsoOnly(b) && Regions.Lookup(files.regions, b.iso.value).Success?;
    if found && !suggested then (Failure(NameError("l")), true)
    else
      var c := MakeBoundsConstr(b, tables, tableKey, files);
      (if c == Failure(NoBoundaryProvided) then Failure(NameError("l")) else c, suggested || found)
  }

  /** The program exports through `make_bounds_constr('_point')` first:
      with bounds given by an ISO code found in `regions.csv`, that call
      raises NameError. */
  lemma IsoFirstCallFails(b: Bounds, tables: Tables, files: Files)
    requires DetectedTables(tables) && IsoOnly(b)
    requires Regions.Lookup(files.regions, b.iso.value).Success?
    ensures MakeBoundsConstrAsWritten(b, tables, "_point", files, false).0 == Failure(NameError("l"))
  {
  }

  /** The intended function builds the relation's constraint for the
      same bounds whenever the row's id is a number and the SRIDs agree. */
  lemma {:induction false} IsoBuildsConstraint(b: Bounds, tables: Tables, tableKey: string, files: Files)
    requires DetectedTables(tables) && tableKey in tables && tables[tableKey].geom.Some? && IsoOnly(b) && b.box.None?
    requires Regions.Lookup(files.regions, b.iso.value).Success?
    requires ParseInt(Regions.Lookup(files.regions, b.iso.value).value.1).Some?
    requires tables[tableKey].geom.value.1 == tables["_polygon"].geom.value.1
    ensures MakeBoundsConstr(b, tables, tableKey, files).Success?
    ensures MakeBoundsConstr(b, tables, tableKey, files).value.0.area.osmId == -ParseInt(Regions.Lookup(files.regions, b.iso.value).value.1).value
  {
    var rel := RelIdOf(b, files);
    var id := IsoRelId(files.regions, b.iso.value);
    assert id == Success(ParseInt(Regions.Lookup(files.regions, b.iso.value).value.1).value);
    var base := BaseConstraint(b, rel, tables, tableKey, files.geojson);
    assert base == RelationConstraint(tables, tableKey, id.value);
  }

  // ---------------------------------------------------------------------
  // ModuleSettings

  /** A setting's value. */
  datatype Setting = Unset | Flag(b: bool) | Text(s: string) | Number(i: int)

  /** The known settings and their defaults, in declaration order. */
  const Known: seq<(string, Setting)> := [
    ("debug", Flag(false)), ("debug_xml", Flag(false)), ("bounds_geojson", Unset),
    ("bounds_rel_id", Unset), ("bounds_iso", Unset), ("bounds_box", Unset),
    ("get_lonlat_binary", Unset), ("nodes_file", Unset), ("out_file", Unset),
    ("access", Unset), ("postgres_dsn", Unset), ("has_suggested_out_filename", Flag(false))]

  function KnownKeys(): (r: set<string>)
    ensures forall k :: 0 <= k < |Known| ==> Known[k].0 in r
  {
    set k | 0 <= k < |Known| :: Known[k].0
  }

  /** The value given last for `key` among the keyword arguments. */
  function Given(kwargs: seq<(string, Setting)>, key: string): (r: Option<Setting>)
    ensures r.Some? <==> exists k :: 0 <= k < |kwargs| && kwargs[k].0 == key
    decreases |kwargs|
  {
    if |kwargs| == 0 then None
    else
      var last := kwargs[|kwargs| - 1];
      if last.0 == key then Some(last.1)
      else
        var r := Given(kwargs[..|kwargs| - 1], key);
        assert forall k :: 0 <= k < |kwargs| - 1 ==> kwargs[..|kwargs| - 1][k] == kwargs[k];
        r
  }

  /** `ModuleSettings(**kwargs)`: unknown keywords are ignored, a known
      one keeps the value given, and every known one not given gets its
      default. */
  function ModuleSettings(kwargs: seq<(string, Setting)>): (r: map<string, Setting>)
    ensures r.Keys == KnownKeys()
    ensures forall k :: 0 <= k < |Known| ==> r[Known[k].0] == (if Given(kwargs, Known[k].0).Some? then Given(kwargs, Known[k].0).value else Known[k].1)
  {
    map k | k in KnownKeys() :: if Given(kwargs, k).Some? then Given(kwargs, k).value else DefaultOf(k)
  }

  function DefaultOf(key: string): (r: Setting)
    ensures forall k :: 0 <= k < |Known| && Known[k].0 == key ==> r == Known[k].1
  {
    if key == "debug" || key == "debug_xml" || key == "has_suggested_out_filename" then Flag(false) else Unset
  }

  /** The settings as keyword arguments again. */
  function AsKwargs(m: map<string, Setting>): (r: seq<(string, Setting)>)
    requires m.Keys == KnownKeys()
    ensures |r| == |Known|
    ensures forall k :: 0 <= k < |Known| ==> r[k] == (Known[k].0, m[Known[k].0])
  {
    seq(|Known|, k requires 0 <= k < |Known| => (Known[k].0, m[Known[k].0]))
  }

  /** Passing the settings back in gives the same settings: nothing is
      lost or reset to a default. */
  lemma ModuleSettingsFixpoint(kwargs: seq<(string, Setting)>)
    ensures ModuleSettings(AsKwargs(ModuleSettings(kwargs))) == ModuleSettings(kwargs)
  {
    var m := ModuleSettings(kwargs);
    var again := AsKwargs(m);
    forall key | key in KnownKeys() ensures Given(again, key) == Some(m[key]) {
      GivenKnown(again, m, key);
    }
  }

  lemma GivenKnown(kw: seq<(string, Setting)>, m: map<string, Setting>, key: string)
    requires key in KnownKeys() && m.Keys == KnownKeys()
    requires |kw| == |Known|
    requires forall k :: 0 <= k < |Known| ==> kw[k] == (Known[k].0, m[Known[k].0])
    ensures Given(kw, key) == Some(m[key])
  {
    GivenAny(kw, key, m[key]);
  }

  /** When every entry for `key` carries the same value, that value is
      the one given. */
  lemma {:induction false} GivenAny(kw: seq<(string, Setting)>, key: string, v: Setting)
    requires exists k :: 0 <= k < |kw| && kw[k].0 == key
    requires forall k :: 0 <= k < |kw| && kw[k].0 == key ==> kw[k].1 == v
    ensures Given(kw, key) == Some(v)
    decreases |kw|
  {
    var n := |kw| - 1;
    if kw[n].0 != key {
      var pre := kw[..n];
      var k :| 0 <= k < |kw| && kw[k].0 == key;
      assert pre[k] == kw[k];
      forall k' | 0 <= k' < |pre| && pre[k'].0 == key ensures pre[k'].1 == v { assert pre[k'] == kw[k']; }
      GivenAny(pre, key, v);
    }
  }
}
