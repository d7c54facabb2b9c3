/** The earlier single-file generation of the program (`pgsql2osm.py` at
    the top of the repository), where it differs from the package: the
    slice-based `g_query_ids`, the tag merge into the row of the old
    `way_to_xml`/`rel_to_xml`, the two-source `create_ways` and
    `create_relations` without a `done` check, and the space-separated
    request to the coordinate helper. Its `regions_lookup`, `g_batches`
    and adaptive controller are the same code as the package's and are
    modelled once, in `Regions`, `Serializer` and `Controller`. */
module Legacy {
  import opened Wrappers
  import opened Text
  import opened IdStore
  import opened Members
  import opened Tags
  import opened Elements
  import opened QueryText
  import Fallback
  import Serializer

  // ---------------------------------------------------------------------
  // g_query_ids
  // ---------------------------------------------------------------------

  /** `for i in range(0, len(ids), step): ids[i:i+step]`. A step of 0 makes
      `range` raise; a negative step gives an empty range. */
  function Slices(ids: seq<int>, step: int): (r: Result<seq<seq<int>>>)
    ensures r.Failure? <==> step == 0
    ensures r.Failure? ==> r.error.ValueError?
    ensures step < 0 ==> r == Success([])
  {
    if step == 0 then Failure(ValueError("range() arg 3 must not be zero"))
    else if step < 0 then Success([])
    else Success(SlicesFrom(ids, 0, step))
  }

  /** The slices from index `i` on. */
  function SlicesFrom(ids: seq<int>, i: nat, step: nat): seq<seq<int>>
    requires step > 0
    decreases |ids| - i
  {
    if i >= |ids| then []
    else [ids[i..if i + step <= |ids| then i + step else |ids|]] + SlicesFrom(ids, i + step, step)
  }

  /** Slicing gives the chunks of the package's buffered reading: at most
      `step` ids each, no empty one, and together the ids in order. */
  lemma SlicesAreChunks(ids: seq<int>, step: int)
    requires step > 0
    ensures Slices(ids, step) == Success(Chunks(ids, step))
    ensures Concat(Slices(ids, step).value) == ids
  {
    SlicesFromChunks(ids, 0, step);
    assert ids[0..] == ids;
    ChunksCover(ids, step);
  }

  lemma {:induction false} SlicesFromChunks(ids: seq<int>, i: nat, step: nat)
    requires step > 0 && i <= |ids|
    ensures SlicesFrom(ids, i, step) == Chunks(ids[i..], step)
    decreases |ids| - i
  {
    if i < |ids| {
      if i + step < |ids| {
        SlicesFromChunks(ids, i + step, step);
        assert ids[i..][..step] == ids[i..i + step];
        assert ids[i..][step..] == ids[i + step..];
      } else {
        assert SlicesFrom(ids, i + step, step) == [];
        assert ids[i..|ids|] == ids[i..];
      }
    }
  }

  /** `f'{init_query} {id_col} IN ('`: `' WHERE'` is appended to a query
      without one, and no `AND` is ever inserted. */
  function LegacyHead(query: string, idCol: string): string {
    (if Find(query, "WHERE") < 0 then query + " WHERE" else query) + " " + idCol + " IN ("
  }

  function LegacyStatement(query: string, idCol: string, chunk: seq<int>): string {
    LegacyHead(query, idCol) + IdList(chunk) + ");"
  }

  /** Each legacy statement names exactly its chunk's ids, in order. */
  lemma LegacyStatementRoundTrip(query: string, idCol: string, chunk: seq<int>)
    requires |chunk| > 0
    ensures IdsOfStatement(LegacyHead(query, idCol), LegacyStatement(query, idCol, chunk)) == Some(chunk)
  {
    ListRoundTrip(LegacyHead(query, idCol), chunk);
  }

  /** On a query that already has a `WHERE` clause, the id condition is
      appended with no connective, where the package inserts `AND`. */
  lemma LegacyOmitsAnd(query: string, idCol: string, chunk: seq<int>)
    requires Contains(query, "WHERE")
    ensures LegacyStatement(query, idCol, chunk) == query + " " + idCol + " IN (" + IdList(chunk) + ");"
    ensures Statement(query, idCol, chunk) == query + " AND " + idCol + " IN (" + IdList(chunk) + ");"
  {
  }

  // ---------------------------------------------------------------------
  // Tag merge and elements
  // ---------------------------------------------------------------------

  /** The legacy merge: inside one `try`, `json_tags` is popped and its
      entries written into the row, then `json_tags2` likewise; the
      `KeyError` of a missing column ends the `try`. So without
      `json_tags` the row is left as it is, `json_tags2` included. */
  function LegacyMerge(row: Dict): (r: Result<Dict>)
    ensures !HasKey(row, "json_tags") ==> r == Success(row)
    ensures Lookup(row, "json_tags").Some? && !Lookup(row, "json_tags").value.Object? ==> r.Failure?
    ensures r.Failure? ==> r.error.TypeError?
  {
    match Pop(row, "json_tags")
    case None => Success(row)
    case Some((t1, rest)) =>
      if !t1.Object? then Failure(TypeError("json_tags is not a mapping"))
      else MergeSecond(Merge(rest, t1.entries))
  }

  /** The second half of the legacy merge, on the row with `json_tags`
      already merged in: `json_tags2`, when present, is popped and merged
      over the rest. */
  function MergeSecond(row1: Dict): (r: Result<Dict>)
    ensures r.Success? <==> !(Lookup(row1, "json_tags2").Some? && !Lookup(row1, "json_tags2").value.Object?)
    ensures r.Failure? ==> r.error.TypeError?
  {
    match Pop(row1, "json_tags2")
    case None => Success(row1)
    case Some((t2, rest2)) =>
      if !t2.Object? then Failure(TypeError("json_tags2 is not a mapping"))
      else Success(Merge(rest2, t2.entries))
  }

  /** After the second half, `json_tags2` wins over the row, and the
      column itself is gone. */
  lemma MergeSecondLookup(row1: Dict, k: string)
    requires MergeSecond(row1).Success?
    requires forall v :: Lookup(row1, "json_tags2") == Some(v) && v.Object? ==> UniqueKeys(v.entries)
    ensures Lookup(MergeSecond(row1).value, k) ==
      var t2 := Lookup(row1, "json_tags2");
      if t2.Some? && Lookup(t2.value.entries, k).Some? then Lookup(t2.value.entries, k)
      else if t2.Some? && k == "json_tags2" then None
      else Lookup(row1, k)
  {
    match Pop(row1, "json_tags2")
    case None =>
    case Some((t2, rest2)) =>
      assert Lookup(rest2, k) == if k == "json_tags2" then None else Lookup(row1, k);
  }

  /** The value key `k` has in the row after the legacy merge, when the
      row has `json_tags`: `json_tags2` wins over `json_tags`, which wins
      over the row's columns. */
  function LegacyTag(row: Dict, k: string): Option<Value>
    requires Lookup(row, "json_tags").Some? && Lookup(row, "json_tags").value.Object?
  {
    var t1 := Lookup(row, "json_tags").value.entries;
    var t2 := Lookup(row, "json_tags2");
    if t2.Some? && t2.value.Object? && Lookup(t2.value.entries, k).Some? then Lookup(t2.value.entries, k)
    else if k == "json_tags2" then None
    else if Lookup(t1, k).Some? then Lookup(t1, k)
    else if k == "json_tags" then None
    else Lookup(row, k)
  }

  /** A row with both tag columns (and no tag named like the second
      column) merges with the precedence of `LegacyTag`. */
  lemma LegacyMergePrecedence(row: Dict, k: string)
    requires Lookup(row, "json_tags").Some? && Lookup(row, "json_tags").value.Object?
    requires UniqueKeys(Lookup(row, "json_tags").value.entries) && !HasKey(Lookup(row, "json_tags").value.entries, "json_tags2")
    requires forall v :: Lookup(row, "json_tags2") == Some(v) ==> v.Object? && UniqueKeys(v.entries)
    ensures LegacyMerge(row).Success?
    ensures Lookup(LegacyMerge(row).value, k) == LegacyTag(row, k)
  {
    var t1 := Lookup(row, "json_tags").value.entries;
    var rest := Pop(row, "json_tags").value.1;
    var row1 := Merge(rest, t1);
    assert LegacyMerge(row) == MergeSecond(row1);
    assert Lookup(row1, "json_tags2") == Lookup(row, "json_tags2");
    assert Lookup(row1, k) == if Lookup(t1, k).Some? then Lookup(t1, k) else if k == "json_tags" then None else Lookup(row, k);
    MergeSecondLookup(row1, k);
  }

  /** The old `way_to_xml` after the merge, on the merged row `d`: the
      `id` attribute and the `nodes` list are read from it, and every
      other key of it becomes a tag. */
  function LegacyWayOf(d: Dict): (r: Result<Element>)
    ensures !HasKey(d, "id") ==> r == Failure(KeyError("id"))
    ensures r.Success? ==> r.value.WayEl? && Some(r.value.id) == Lookup(d, "id")
    ensures r.Success? && HasKey(d, "nodes") ==> Lookup(d, "nodes") == Some(IdArray(r.value.nds))
    ensures r.Success? && !HasKey(d, "nodes") ==> r.value.nds == []
    ensures HasKey(d, "id") && HasKey(d, "nodes") && !Lookup(d, "nodes").value.IdArray? ==> r.Failure?
    ensures r.Success? ==> forall k :: Lookup(r.value.tags, k) == if k == "nodes" || k == "id" then None else Lookup(d, k)
  {
    match Lookup(d, "id")
    case None => Failure(KeyError("id"))
    case Some(id) =>
      match Lookup(d, "nodes")
      case None => Success(WayEl(id, [], Filter(d, {"nodes", "id"}, false)))
      case Some(v) =>
        if v.IdArray? then Success(WayEl(id, v.ids, Filter(d, {"nodes", "id"}, false)))
        else Failure(TypeError("nodes is not an id list"))
  }

  /** The old `way_to_xml`: the tags are merged into the row first, and
      the way is built from the merged row. */
  function LegacyWayToXml(row: Dict): (r: Result<Element>)
    ensures LegacyMerge(row).Failure? ==> r.Failure?
    ensures LegacyMerge(row).Success? ==> r == LegacyWayOf(LegacyMerge(row).value)
  {
    var d :- LegacyMerge(row);
    LegacyWayOf(d)
  }

  /** A tag named `id` replaces the way's id: the way is written under the
      tag's value, not under its own id. */
  lemma LegacyWayIdFromTag(row: Dict, v: Value)
    requires Lookup(row, "json_tags").Some? && Lookup(row, "json_tags").value.Object?
    requires UniqueKeys(Lookup(row, "json_tags").value.entries) && !HasKey(Lookup(row, "json_tags").value.entries, "json_tags2")
    requires !HasKey(row, "json_tags2")
    requires Lookup(Lookup(row, "json_tags").value.entries, "id") == Some(v)
    requires LegacyWayToXml(row).Success?
    ensures LegacyWayToXml(row).value.id == v
  {
    LegacyMergePrecedence(row, "id");
  }

  /** Without `json_tags`, `json_tags2` is not merged: the column itself is
      written as a tag, and none of its entries is. */
  lemma LegacyKeepsTagColumn(row: Dict, t2: Value, k: string)
    requires !HasKey(row, "json_tags") && Lookup(row, "json_tags2") == Some(t2)
    requires LegacyWayToXml(row).Success?
    requires !HasKey(row, k)
    ensures Lookup(LegacyWayToXml(row).value.tags, "json_tags2") == Some(t2)
    ensures Lookup(LegacyWayToXml(row).value.tags, k).None?
  {
  }

  /** The old member decoding of the `text[]` form: pairs are read until
      fewer than two tokens remain (a lone trailing token is dropped); an
      unknown type letter raises a `KeyError` that ends the member loop,
      keeping the members read so far; an empty token raises. */
  function LegacyTextMembers(items: seq<string>): (r: Result<seq<XmlMember>>)
    ensures r.Success? ==> |r.value| <= |items| / 2
    decreases |items|
  {
    if |items| < 2 then Success([])
    else if |items[0]| == 0 then Failure(IndexError)
    else
      match KindOfLetter(items[0][0])
      case None => Success([])
      case Some(k) =>
        var rest :- LegacyTextMembers(items[2..]);
        Success([XmlMember(k, items[0][1..], items[1])] + rest)
  }

  /** The old member decoding of the jsonb form: an unknown `type` ends
      the member loop, keeping the members read so far. */
  function LegacyJsonbMembers(objs: seq<JMember>): (r: seq<XmlMember>)
    ensures |r| <= |objs|
  {
    if |objs| == 0 then []
    else
      match KindOfJsonbType(objs[0].typ)
      case None => []
      case Some(k) => [XmlMember(k, IntToString(objs[0].ref), objs[0].role)] + LegacyJsonbMembers(objs[1..])
  }

  /** On a member list the package decodes, the old decoding gives the
      same `<member>` elements. */
  lemma {:induction false} LegacyTextAgrees(items: seq<string>)
    requires DecodeLegacy(items).Success?
    ensures LegacyTextMembers(items) == DecodeLegacy(items)
    decreases |items|
  {
    if |items| >= 2 {
      var ps := Pairs(items);
      assert ps[0] == (items[0], items[1]);
      PairsTail(items);
      assert DecodeLegacy(items) == DecodePairs(ps);
      assert |items[0]| > 0 && KindOfLetter(items[0][0]).Some?;
      assert DecodeLegacy(items[2..]) == DecodePairs(ps[1..]);
      LegacyTextAgrees(items[2..]);
    }
  }

  lemma {:induction false} LegacyJsonbAgrees(objs: seq<JMember>)
    requires DecodeJsonb(objs).Success?
    ensures Success(LegacyJsonbMembers(objs)) == DecodeJsonb(objs)
    decreases |objs|
  {
    if |objs| > 0 {
      assert KindOfJsonbType(objs[0].typ).Some?;
      LegacyJsonbAgrees(objs[1..]);
    }
  }

  /** A member list stored in either form yields the `<member>` elements
      of the original members. */
  lemma LegacyMembersRoundTrip(ms: seq<Member>)
    ensures LegacyTextMembers(EncodeLegacy(ms)) == Success(seq(|ms|, j requires 0 <= j < |ms| => ToXml(ms[j])))
    ensures LegacyJsonbMembers(EncodeJsonb(ms)) == seq(|ms|, j requires 0 <= j < |ms| => ToXml(ms[j]))
  {
    DecodeEncodeLegacy(ms);
    DecodeEncodeJsonb(ms);
    LegacyTextAgrees(EncodeLegacy(ms));
    LegacyJsonbAgrees(EncodeJsonb(ms));
  }

  /** The members of a merged row in the dialect's form. The other form
      never occurs, the dialect being read from the schema. */
  function LegacyMembers(v: Value, jsonb: bool): (r: Result<seq<XmlMember>>)
    ensures jsonb && v.MemberObjects? ==> r == Success(LegacyJsonbMembers(v.objs))
    ensures !jsonb && v.TextArray? ==> r == LegacyTextMembers(v.items)
  {
    if jsonb && v.MemberObjects? then Success(LegacyJsonbMembers(v.objs))
    else if !jsonb && v.TextArray? then LegacyTextMembers(v.items)
    else Failure(TypeError("members is not in the dialect's form"))
  }

  /** The old `rel_to_xml` after the merge, on the merged row `d` and the
      id read before it: `members` is popped and decoded, and every other
      key of the row except `nodes` and `id` becomes a tag, column values
      included. */
  function LegacyRelOf(id: Value, d: Dict, jsonb: bool): (r: Result<Element>)
    ensures r.Success? ==> r.value.RelationEl? && r.value.id == id
    ensures r.Success? ==> forall k :: Lookup(r.value.tags, k) == (if k == "nodes" || k == "id" || k == "members" then None else Lookup(d, k))
    ensures !HasKey(d, "members") ==> r.Success? && r.value.members == []
    ensures HasKey(d, "members") ==> (r.Success? <==> LegacyMembers(Lookup(d, "members").value, jsonb).Success?)
    ensures HasKey(d, "members") && r.Success? ==> LegacyMembers(Lookup(d, "members").value, jsonb) == Success(r.value.members)
  {
    match Pop(d, "members")
    case None => Success(RelationEl(id, [], Filter(d, {"nodes", "id"}, false)))
    case Some((v, rest)) =>
      var members :- LegacyMembers(v, jsonb);
      Success(RelationEl(id, members, Filter(rest, {"nodes", "id"}, false)))
  }

  /** The old `rel_to_xml`: the id attribute is read from the row as
      given, before the tags are merged into it. */
  function LegacyRelToXml(row: Dict, jsonb: bool): (r: Result<Element>)
    ensures !HasKey(row, "id") ==> r == Failure(KeyError("id"))
    ensures HasKey(row, "id") && LegacyMerge(row).Failure? ==> r.Failure?
    ensures HasKey(row, "id") && LegacyMerge(row).Success? ==>
      r == LegacyRelOf(Lookup(row, "id").value, LegacyMerge(row).value, jsonb)
  {
    match Lookup(row, "id")
    case None => Failure(KeyError("id"))
    case Some(id) =>
      var d :- LegacyMerge(row);
      LegacyRelOf(id, d, jsonb)
  }

  // ---------------------------------------------------------------------
  // Two-source create_ways / create_relations
  // ---------------------------------------------------------------------

  datatype LegacyBuilder = LegacyWay | LegacyRel(jsonb: bool)

  /** A row's element, and the id the loop records afterwards: the
      builders merge the tags into the row itself, so the recorded
      `row_dict['id']` is the merged row's. */
  function LegacyBuild(b: LegacyBuilder, row: Dict): (r: Result<(Element, Value)>)
    ensures r.Success? ==> LegacyMerge(row).Success? && Some(r.value.1) == Lookup(LegacyMerge(row).value, "id")
    ensures r.Success? && b.LegacyWay? ==> LegacyWayToXml(row) == Success(r.value.0)
    ensures r.Success? && b.LegacyRel? ==> LegacyRelToXml(row, b.jsonb) == Success(r.value.0)
  {
    match b
    case LegacyWay =>
      var d :- LegacyMerge(row);
      var el :- LegacyWayOf(d);
      Success((el, el.id))
    case LegacyRel(jsonb) =>
      match Lookup(row, "id")
      case None => Failure(KeyError("id"))
      case Some(id) =>
        var d :- LegacyMerge(row);
        var el :- LegacyRelOf(id, d, jsonb);
        match Lookup(d, "id")
        case None => Failure(KeyError("id"))
        case Some(rid) => Success((el, rid))
  }

  /** The outcomes of a loop over built rows: the elements and recorded
      ids of all of them, or the first failure. */
  function Collect(built: seq<Result<(Element, Value)>>): (r: Result<(seq<Element>, seq<Value>)>)
    ensures r.Success? <==> forall j :: 0 <= j < |built| ==> built[j].Success?
    ensures r.Success? ==> |r.value.0| == |built| && |r.value.1| == |built|
    ensures r.Success? ==> forall j :: 0 <= j < |built| ==> built[j] == Success((r.value.0[j], r.value.1[j]))
    decreases |built|
  {
    if |built| == 0 then Success(([], []))
    else
      var e :- built[0];
      var rest :- Collect(built[1..]);
      assert forall j :: 1 <= j < |built| ==> built[j] == built[1..][j - 1];
      Success(([e.0] + rest.0, [e.1] + rest.1))
  }

  /** One loop without a `done` check: every row is built and written.
      `build` is the loop's builder, `LegacyBuild` of one kind. */
  function Emit(build: Dict -> Result<(Element, Value)>, rows: seq<Dict>): (r: Result<(seq<Element>, seq<Value>)>)
    ensures r.Success? ==> |r.value.0| == |rows| && |r.value.1| == |rows|
    ensures r.Success? ==> forall j :: 0 <= j < |rows| ==> build(rows[j]) == Success((r.value.0[j], r.value.1[j]))
    ensures r.Failure? ==> exists j :: 0 <= j < |rows| && build(rows[j]).Failure?
  {
    Collect(seq(|rows|, j requires 0 <= j < |rows| => build(rows[j])))
  }

  /** The listed ids no written row recorded. */
  function Missing(ids: seq<int>, recorded: seq<Value>): set<int> {
    set i | i in ids && Int(i) !in recorded
  }

  /** The old `create_ways(c, ids)` / `create_relations(c, ids)`: the
      first table is read for all ids (negated for the relations), and the
      second for the ids no first-table row recorded. No row is checked
      against the ids already written. The builders are `LegacyBuild` of
      the kind: `LegacyWay` for both tables of the ways, `LegacyRel` for
      both of the relations. */
  function LegacyCreate(build1: Dict -> Result<(Element, Value)>, first: Serializer.Table, negated: bool, step1: nat,
                        build2: Dict -> Result<(Element, Value)>, second: Serializer.Table, step2: nat,
                        ids: seq<int>, order: set<int> -> seq<int>): (r: Result<seq<Element>>)
    requires step1 > 0 && step2 > 0
    ensures r.Success? ==> |r.value| >= |RowsFor(first.rows, if negated then Serializer.Negate(ids) else ids)|
  {
    var rows1 := Serializer.Query(first, if negated then Serializer.Negate(ids) else ids, step1);
    var p :- Emit(build1, rows1);
    var rows2 := Serializer.Query(second, order(Missing(ids, p.1)), step2);
    var q :- Emit(build2, rows2);
    Success(p.0 + q.0)
  }

  /** A first table holding two rows for one id (a relation's polygon
      stored in two parts, say) makes the element written twice. */
  lemma LegacyWritesTwice(build: Dict -> Result<(Element, Value)>, first: Serializer.Table, negated: bool, step1: nat,
                          second: Serializer.Table, step2: nat,
                          k: int, row: seq<Option<Value>>, e: Element, order: set<int> -> seq<int>)
    requires step1 > 0 && step2 > 0
    requires Serializer.Listing(order)
    requires first.rows == map[(if negated then -k else k) := [row, row]]
    requires build(RowDict(first.columns, row)) == Success((e, Int(k)))
    ensures LegacyCreate(build, first, negated, step1, build, second, step2, [k], order) == Success([e, e])
  {
    var key := if negated then -k else k;
    var d := RowDict(first.columns, row);
    NegateOne(k, negated);
    TwoRows(first, key, row, step1);
    EmitTwice(build, d, e, Int(k));
    NothingMissing(k);
    EmptyListing(order);
    EmitNothing(build, second, step2);
    CreateOfParts(build, first, negated, step1, build, second, step2, [k], order, [e, e], [Int(k), Int(k)], [], []);
    assert [e, e] + [] == [e, e];
  }

  /** `LegacyCreate` from the outcomes of its two loops. */
  lemma CreateOfParts(build1: Dict -> Result<(Element, Value)>, first: Serializer.Table, negated: bool, step1: nat,
                      build2: Dict -> Result<(Element, Value)>, second: Serializer.Table, step2: nat,
                      ids: seq<int>, order: set<int> -> seq<int>,
                      es1: seq<Element>, rec1: seq<Value>, es2: seq<Element>, rec2: seq<Value>)
    requires step1 > 0 && step2 > 0
    requires Emit(build1, Serializer.Query(first, if negated then Serializer.Negate(ids) else ids, step1)) == Success((es1, rec1))
    requires Emit(build2, Serializer.Query(second, order(Missing(ids, rec1)), step2)) == Success((es2, rec2))
    ensures LegacyCreate(build1, first, negated, step1, build2, second, step2, ids, order) == Success(es1 + es2)
  {
  }

  lemma NegateOne(k: int, negated: bool)
    ensures (if negated then Serializer.Negate([k]) else [k]) == [if negated then -k else k]
  {
  }

  lemma NothingMissing(k: int)
    ensures Missing([k], [Int(k), Int(k)]) == {}
  {
  }

  lemma EmitNothing(build: Dict -> Result<(Element, Value)>, t: Serializer.Table, step: nat)
    requires step > 0
    ensures Emit(build, Serializer.Query(t, [], step)) == Success(([], []))
  {
    var rows := Serializer.Query(t, [], step);
    assert rows == [];
    var built := seq(|rows|, j requires 0 <= j < |rows| => build(rows[j]));
    assert |built| == 0;
    assert Collect(built) == Success(([], []));
  }

  lemma TwoRows(t: Serializer.Table, key: int, row: seq<Option<Value>>, step: nat)
    requires step > 0
    requires t.rows == map[key := [row, row]]
    ensures Serializer.Query(t, [key], step) == [RowDict(t.columns, row), RowDict(t.columns, row)]
  {
    assert RowsFor(t.rows, [key]) == [row, row] + RowsFor(t.rows, []);
  }

  lemma EmitTwice(build: Dict -> Result<(Element, Value)>, d: Dict, e: Element, id: Value)
    requires build(d) == Success((e, id))
    ensures Emit(build, [d, d]) == Success(([e, e], [id, id]))
  {
    var x := build(d);
    assert seq(2, j requires 0 <= j < 2 => build([d, d][j])) == [x, x];
    CollectTwice(x, e, id);
  }

  lemma CollectTwice(x: Result<(Element, Value)>, e: Element, id: Value)
    requires x == Success((e, id))
    ensures Collect([x, x]) == Success(([e, e], [id, id]))
  {
    var one: seq<Result<(Element, Value)>> := [x];
    assert one[1..] == [];
    assert Collect(one[1..]) == Success(([], []));
    assert Collect(one).value.0 == [e] && Collect(one).value.1 == [id];
    var two := Collect([x, x]).value;
    assert two.0 == [e, e] && two.1 == [id, id];
    assert [x, x][1..] == one;
  }

  lemma EmptyListing(order: set<int> -> seq<int>)
    requires Serializer.Listing(order)
    ensures order({}) == []
  {
    var o := order({});
    assert IsListing(o, {});
    ElemsEmpty(o);
  }

  lemma ElemsEmpty(s: seq<int>)
    ensures Elems(s) == {} ==> s == []
  {
    if |s| > 0 {
      assert s[0] in Elems(s);
    }
  }

  // ---------------------------------------------------------------------
  // Coordinate helper request
  // ---------------------------------------------------------------------

  /** `' '.join(map(str, osm_ids))`, with nothing after the last id. */
  function LegacyRequest(ids: seq<int>): string {
    Join(seq(|ids|, j requires 0 <= j < |ids| => IntToString(ids[j])), ' ')
  }

  lemma {:induction false} TokenWhole(s: string)
    requires forall k :: 0 <= k < |s| ==> !IsSpace(s[k])
    ensures Fallback.TokenLength(s) == |s|
    decreases |s|
  {
    if |s| > 0 {
      TokenWhole(s[1..]);
    }
  }

  /** The helper's reader never handles the last id of a legacy request:
      reading it ends the input, and the loop stops on end of file. */
  lemma {:induction false} LegacyRequestDropsLast(ids: seq<int>)
    requires |ids| > 0
    ensures Fallback.ReaderIds(LegacyRequest(ids)) == ids[..|ids| - 1]
    decreases |ids|
  {
    if |ids| == 1 {
      var s := IntToString(ids[0]);
      assert forall k :: 0 <= k < |s| ==> IsDigit(s[k]) || s[k] == '-';
      assert LegacyRequest(ids) == s;
      TokenWhole(s);
    } else {
      var rest := " " + LegacyRequest(ids[1..]);
      LegacyRequestCons(ids);
      Fallback.ReadOne(ids[0], rest);
      assert rest[1..] == LegacyRequest(ids[1..]);
      LegacyRequestDropsLast(ids[1..]);
      DropLastCons(ids);
    }
  }

  /** A request of two or more ids is the first id, a space, and the
      request of the rest. */
  lemma LegacyRequestCons(ids: seq<int>)
    requires |ids| >= 2
    ensures LegacyRequest(ids) == IntToString(ids[0]) + (" " + LegacyRequest(ids[1..]))
  {
    var parts := seq(|ids|, j requires 0 <= j < |ids| => IntToString(ids[j]));
    assert parts[1..] == seq(|ids| - 1, j requires 0 <= j < |ids| - 1 => IntToString(ids[1..][j]));
  }

  lemma DropLastCons(xs: seq<int>)
    requires |xs| >= 2
    ensures [xs[0]] + xs[1..][..|xs| - 2] == xs[..|xs| - 1]
  {
    assert forall j :: 1 <= j < |xs| - 1 ==> ([xs[0]] + xs[1..][..|xs| - 2])[j] == xs[j];
  }

  /** One batch's exchange with a faithful helper: a line comes back for
      every id of the batch the flat-nodes file places, except the id
      listed last, which is never looked up. */
  lemma LegacyBatchLosesLast(batch: set<int>, order: set<int> -> seq<int>, helper: string -> string, coords: map<int, (string, string)>)
    requires Serializer.Listing(order) && Serializer.FaithfulHelper(helper, coords)
    requires batch != {}
    ensures |order(batch)| > 0
    ensures Fallback.ParseResponse(helper(LegacyRequest(order(batch)))).Success?
    ensures Serializer.KeyIds(Serializer.ReplyKeys(Fallback.ParseResponse(helper(LegacyRequest(order(batch)))).value))
      == Elems(order(batch)[..|order(batch)| - 1]) * coords.Keys
    ensures order(batch)[|order(batch)| - 1] in batch
    ensures order(batch)[|order(batch)| - 1] !in Elems(order(batch)[..|order(batch)| - 1])
  {
    var ids := order(batch);
    assert IsListing(ids, batch);
    assert ids[|ids| - 1] in Elems(ids);
    LegacyExchange(ids, helper, coords);
  }

  /** A legacy request answered by a faithful helper: the replies are
      those for every id but the last. */
  lemma LegacyExchange(ids: seq<int>, helper: string -> string, coords: map<int, (string, string)>)
    requires Serializer.FaithfulHelper(helper, coords) && |ids| > 0
    ensures Fallback.ParseResponse(helper(LegacyRequest(ids))).Success?
    ensures Serializer.KeyIds(Serializer.ReplyKeys(Fallback.ParseResponse(helper(LegacyRequest(ids))).value))
      == Elems(ids[..|ids| - 1]) * coords.Keys
  {
    var read := ids[..|ids| - 1];
    LegacyRequestDropsLast(ids);
    var rs := Serializer.Replies(read, coords);
    assert helper(LegacyRequest(ids)) == Fallback.Response(rs);
    Serializer.RepliesPlain(read, coords);
    Fallback.ResponseRoundTrip(rs);
    Serializer.ReplyIds(read, coords);
  }
}
