/** The write phase (`create_nodes`, `create_ways`, `create_relations`):
    the ids of each kind are looked up in several tables in turn, each row
    becomes an element, and the `done_ids` role makes sure an id found in
    more than one table is written once. The tables are maps from the
    queried id to the raw rows the backend returns for it. */
module Serializer {
  import opened Wrappers
  import opened Text
  import opened IdStore
  import opened Members
  import opened Tags
  import opened Elements
  import opened QueryText
  import Fallback

  /** A table as the queries see it: the selected columns, and the raw
      rows (a NULL as `None`) under each value of the queried id column. */
  datatype Table = Table(columns: seq<string>, rows: map<int, seq<seq<Option<Value>>>>)

  /** `g_from_cursor`: each raw row as a dict without its NULL columns. */
  function Dicts(columns: seq<string>, raws: seq<seq<Option<Value>>>): (r: seq<Dict>)
    ensures |r| == |raws|
  {
    seq(|raws|, j requires 0 <= j < |raws| => RowDict(columns, raws[j]))
  }

  /** `g_query_ids(c, query, ids, id_col, step)` on a table: the rows of one
      `IN (...)` statement per chunk, in order. */
  function Query(t: Table, ids: seq<int>, step: nat): (r: seq<Dict>)
    requires step > 0
    ensures forall j :: 0 <= j < |r| ==> UniqueKeys(r[j])
    ensures r == Dicts(t.columns, RowsFor(t.rows, ids))
  {
    ChunkingKeepsRows(t.rows, ids, step);
    Dicts(t.columns, ChunkedRows(t.rows, Chunks(ids, step)))
  }

  /** `tags = row.pop('json_tags') if 'json_tags' in row else {}`: the row
      without the tag column, and the tags. */
  function PopTags(row: Dict): (r: Result<(Dict, Dict)>)
    ensures r.Success? <==> forall v :: Lookup(row, "json_tags") == Some(v) ==> v.Object?
    ensures r.Success? ==> !HasKey(r.value.0, "json_tags")
    ensures r.Success? ==> forall k :: k != "json_tags" ==> Lookup(r.value.0, k) == Lookup(row, k)
    ensures r.Success? ==> r.value.1 == if HasKey(row, "json_tags") then Lookup(row, "json_tags").value.entries else []
  {
    match Pop(row, "json_tags")
    case None => Success((row, []))
    case Some((v, rest)) =>
      if v.Object? then Success((rest, v.entries)) else Failure(TypeError("json_tags is not a mapping"))
  }

  /** How the rows of one query become elements. */
  datatype Builder =
    | PointRow                  // `_point` rows (create_nodes)
    | WayJoinRow                // `_polygon` or `_line` joined with `_ways`
    | WayRow                    // `_ways` rows
    | RelJoinRow(jsonb: bool)   // `_polygon` joined with `_rels`
    | RelLineRow(jsonb: bool, rels: map<int, (Option<Value>, Option<Value>)>)
                                // `_line` rows, completed by a query on `_rels` per row
    | RelRow(jsonb: bool)       // `_rels` rows

  /** The second query of the `_line` relations: `json_tags2, members` of
      `_rels` for the row's id. No row (`fetchone()` is `None`), NULL tags
      or NULL members fail. */
  function RelsRow(rels: map<int, (Option<Value>, Option<Value>)>, id: Value): (r: Result<(Dict, Value)>)
    ensures r.Success? <==> id.Int? && id.i in rels && rels[id.i].0.Some? && rels[id.i].0.value.Object? && rels[id.i].1.Some?
    ensures r.Success? ==> r.value == (rels[id.i].0.value.entries, rels[id.i].1.value)
  {
    if !id.Int? || id.i !in rels then Failure(TypeError("cannot unpack None"))
    else
      match rels[id.i]
      case (Some(Object(tags2)), Some(members)) => Success((tags2, members))
      case _ => Failure(TypeError("json_tags2 or members is None"))
  }

  /** The loop body after the `done_ids` check: the element a row becomes.
      The rounding of `lat`/`lon` to ten decimals is left out: the values
      are kept as the backend returns them. */
  function Build(b: Builder, row: Dict): (r: Result<Element>)
    requires UniqueKeys(row)
    ensures r.Success? ==> ElementKind(r.value) == KindOf(b)
    ensures (b.WayJoinRow? || b.WayRow?) && r.Success? ==> r.value.WayEl? && Some(r.value.id) == Lookup(row, "id")
    ensures (b.RelJoinRow? || b.RelLineRow? || b.RelRow?) && r.Success? ==> r.value.RelationEl? && Some(r.value.id) == Lookup(row, "id")
    ensures b.PointRow? ==> (r.Success? <==> PopTags(row).Success? && HasKey(row, "id") && HasKey(row, "lat") && HasKey(row, "lon"))
    ensures b.PointRow? && r.Success? ==> r.value.NodeEl? && Lookup(r.value.attrs, "id") == Some(IdAttr(Lookup(row, "id").value))
  {
    if b.PointRow? then BuildNode(row)
    else if b.WayJoinRow? || b.WayRow? then BuildWay(row, b.WayJoinRow?)
    else if b.RelLineRow? then BuildRelLine(b.jsonb, b.rels, row)
    else BuildRel(row, b.jsonb, b.RelJoinRow?)
  }

  /** A point row: its tag column popped, then `node_to_xml`, which needs
      `lat` and `lon`. */
  function BuildNode(row: Dict): (r: Result<Element>)
    requires UniqueKeys(row)
    ensures r.Success? <==> PopTags(row).Success? && HasKey(row, "id") && HasKey(row, "lat") && HasKey(row, "lon")
    ensures r.Success? ==> r.value.NodeEl? && ElementKind(r.value) == Node
    ensures r.Success? ==> Lookup(r.value.attrs, "id") == Some(IdAttr(Lookup(row, "id").value))
    ensures r.Success? ==> Lookup(r.value.attrs, "lat") == Lookup(row, "lat") && Lookup(r.value.attrs, "lon") == Lookup(row, "lon")
  {
    var p :- PopTags(row);
    assert Lookup(p.0, "lat") == Lookup(row, "lat") && Lookup(p.0, "lon") == Lookup(row, "lon") && Lookup(p.0, "id") == Lookup(row, "id");
    if !HasKey(p.0, "lat") then Failure(KeyError("lat"))
    else if !HasKey(p.0, "lon") then Failure(KeyError("lon"))
    else NodeToXml(p.0, p.1)
  }

  /** A way row, joined (two tag columns collapsed) or not (one popped). */
  function BuildWay(row: Dict, joined: bool): (r: Result<Element>)
    requires UniqueKeys(row)
    ensures r.Success? ==> r.value.WayEl? && ElementKind(r.value) == Way && Some(r.value.id) == Lookup(row, "id")
  {
    match SplitTags(row, joined)
    case Failure(e) => Failure(e)
    case Success(p) => WayToXml(p.0, p.1)
  }

  /** The row without its tag columns, and the tags: two columns
      collapsed for a joined row, one popped otherwise. */
  function SplitTags(row: Dict, joined: bool): (r: Result<(Dict, Dict)>)
    requires UniqueKeys(row)
    ensures r.Success? ==> Lookup(r.value.0, "id") == Lookup(row, "id")
  {
    if joined then CollapseTags(row) else PopTags(row)
  }

  /** A relation row, joined (two tag columns collapsed) or plain (one
      popped). */
  function BuildRel(row: Dict, jsonb: bool, joined: bool): (r: Result<Element>)
    requires UniqueKeys(row)
    ensures r.Success? ==> r.value.RelationEl? && ElementKind(r.value) == Relation && Some(r.value.id) == Lookup(row, "id")
  {
    match SplitTags(row, joined)
    case Failure(e) => Failure(e)
    case Success(p) =>
      var r := RelToXml(p.0, p.1, jsonb);
      assert r.Success? ==> r.value.RelationEl? && Some(r.value.id) == Lookup(p.0, "id");
      r
  }

  /** A relation line row: the relation's `json_tags2` and `members` are
      looked up in `rels` by the row's id and merged in. */
  function BuildRelLine(jsonb: bool, rels: map<int, (Option<Value>, Option<Value>)>, row: Dict): (r: Result<Element>)
    requires UniqueKeys(row)
    ensures r.Success? ==> r.value.RelationEl? && ElementKind(r.value) == Relation && Some(r.value.id) == Lookup(row, "id")
  {
    var p :- PopTags(row);
    assert Lookup(p.0, "id") == Lookup(row, "id");
    var q :- RelsRow(rels, if HasKey(p.0, "id") then Lookup(p.0, "id").value else Text(""));
    var row' := Put(p.0, "members", q.1);
    assert Lookup(row', "id") == Lookup(row, "id");
    RelToXml(row', Merge(p.1, q.0), jsonb)
  }

  /** The value tag `k` gets on an element built from a joined row: the
      `_ways` or `_rels` tags (`json_tags2`) win over the `_polygon` or
      `_line` tags (`json_tags`), which win over the row's other columns;
      attributes and the tag columns themselves are never tags. */
  function JoinedTag(row: Dict, attrKeys: set<string>, k: string): Option<Value> {
    var t1 := Lookup(row, "json_tags");
    var t2 := Lookup(row, "json_tags2");
    if t2.Some? && t2.value.Object? && Lookup(t2.value.entries, k).Some? then Lookup(t2.value.entries, k)
    else if t1.Some? && t1.value.Object? && Lookup(t1.value.entries, k).Some? then Lookup(t1.value.entries, k)
    else if k in attrKeys || k == "json_tags" || k == "json_tags2" then None
    else Lookup(row, k)
  }

  /** The attributes of the element a joined row becomes. */
  function JoinAttrs(b: Builder): set<string> {
    if b.WayJoinRow? then {"id", "nodes"} else {"id", "members"}
  }

  /** On an element built from a joined row, every tag has the value the
      precedence `json_tags2` over `json_tags` over columns gives it. */
  lemma JoinedTags(b: Builder, row: Dict, k: string)
    requires b.WayJoinRow? || b.RelJoinRow?
    requires UniqueKeys(row) && Build(b, row).Success?
    requires forall v :: Lookup(row, "json_tags2") == Some(v) && v.Object? ==> UniqueKeys(v.entries)
    ensures Lookup(Build(b, row).value.tags, k) == JoinedTag(row, JoinAttrs(b), k)
  {
    var p := CollapseTags(row).value;
    if b.WayJoinRow? {
      assert Build(b, row) == BuildWay(row, true) == WayToXml(p.0, p.1);
    } else {
      assert Build(b, row) == BuildRel(row, b.jsonb, true) == RelToXml(p.0, p.1, b.jsonb);
    }
    CollapsedTag(row, JoinAttrs(b), k);
  }

  /** `rel_to_xml` as written, on a joined relation row, keeps only the
      tag columns' tags, `json_tags2` over `json_tags`: the precedence of
      `JoinedTag` with no column ever a tag, as if `k` were an attribute. */
  lemma JoinedRelTagsAsWritten(row: Dict, jsonb: bool, k: string)
    requires UniqueKeys(row) && CollapseTags(row).Success?
    requires forall v :: Lookup(row, "json_tags2") == Some(v) && v.Object? ==> UniqueKeys(v.entries)
    requires RelToXmlAsWritten(CollapseTags(row).value.0, CollapseTags(row).value.1, jsonb).Success?
    ensures Lookup(RelToXmlAsWritten(CollapseTags(row).value.0, CollapseTags(row).value.1, jsonb).value.tags, k) == JoinedTag(row, {k}, k)
  {
    CollapsedTag(row, {k}, k);
  }

  /** Collapsing the tag columns and then emitting gives the precedence
      of `JoinedTag`. */
  lemma CollapsedTag(row: Dict, attrKeys: set<string>, k: string)
    requires UniqueKeys(row) && CollapseTags(row).Success?
    requires forall v :: Lookup(row, "json_tags2") == Some(v) && v.Object? ==> UniqueKeys(v.entries)
    ensures EmittedTag(CollapseTags(row).value.1, CollapseTags(row).value.0, attrKeys, k) == JoinedTag(row, attrKeys, k)
  {
    var p := CollapseTags(row).value;
    var t1 := Lookup(row, "json_tags");
    var t2 := Lookup(row, "json_tags2");
    var a := Lookup(p.1, k);
    assert a ==
      if t2.Some? && Lookup(t2.value.entries, k).Some? then Lookup(t2.value.entries, k)
      else if t1.Some? then Lookup(t1.value.entries, k)
      else None;
    var c := if k in attrKeys then None else Lookup(p.0, k);
    assert c == if k in attrKeys || k == "json_tags" || k == "json_tags2" then None else Lookup(row, k) by {
      if k != "json_tags" && k != "json_tags2" {
        assert Lookup(p.0, k) == Lookup(row, k);
      } else {
        assert !HasKey(p.0, k);
      }
    }
    assert EmittedTag(p.1, p.0, attrKeys, k) == if a.Some? then a else c;
  }

  /** `row_dict['id']`. */
  function IdKey(row: Dict): (r: Result<Value>)
    ensures r.Success? <==> HasKey(row, "id")
    ensures r.Success? ==> Lookup(row, "id") == Some(r.value)
    ensures r.Failure? ==> r.error == KeyError("id")
  {
    match Lookup(row, "id")
    case None => Failure(KeyError("id"))
    case Some(v) => Success(v)
  }

  function RowKeys(rows: seq<Dict>): (r: seq<Result<Value>>)
    ensures |r| == |rows|
  {
    seq(|rows|, j requires 0 <= j < |rows| => IdKey(rows[j]))
  }

  /** The integer ids among the keys. */
  function KeyIds(keys: seq<Result<Value>>): set<int> {
    if |keys| == 0 then {}
    else
      (match keys[0] case Success(Int(i)) => {i} case _ => {})
      + KeyIds(keys[1..])
  }

  /** One loop of a `create_*` generator. `keys[j]` is the id of item `j`
      (or the error reading it raises) and `built[j]` the element the item
      becomes. An item whose id is already in `done` is skipped; any other
      is built, and then its id is added to `done`, which rejects an id
      that is not a positive integer. Returns the elements and their ids in
      the order they are written. */
  function ScanRows(keys: seq<Result<Value>>, built: seq<Result<Element>>, done: set<int>): (r: Result<(seq<Element>, seq<int>)>)
    requires |built| == |keys|
    ensures r.Success? ==> |r.value.0| == |r.value.1|
    ensures r.Success? ==> Distinct(r.value.1) && Elems(r.value.1) !! done
    ensures r.Success? ==> Elems(r.value.1) == KeyIds(keys) - done
    ensures r.Success? ==> forall j :: 0 <= j < |r.value.1| ==> r.value.1[j] > 0
    ensures |keys| > 0 && keys[0].Failure? ==> r == Failure(keys[0].error)
    decreases |keys|
  {
    if |keys| == 0 then Success(([], []))
    else
      var id :- keys[0];
      if id.Int? && id.i in done then ScanRows(keys[1..], built[1..], done)
      else
        var el :- built[0];
        if !id.Int? then Failure(TypeError("id is not an integer"))
        else if id.i <= 0 then Failure(InvalidId(id.i))
        else
          var rest :- ScanRows(keys[1..], built[1..], done + {id.i});
          ElemsCons([id.i] + rest.1);
          assert ([id.i] + rest.1)[1..] == rest.1;
          Success(([el] + rest.0, [id.i] + rest.1))
  }

  /** Item `m` is the first one with integer id `i`. */
  predicate FirstWith(keys: seq<Result<Value>>, m: int, i: int) {
    0 <= m < |keys| && keys[m] == Success(Int(i)) && forall m' :: 0 <= m' < m ==> keys[m'] != Success(Int(i))
  }

  /** Each written element is the one built from the first item that
      carries its id; later items with the same id are skipped. */
  lemma ScanRowsBuilds(keys: seq<Result<Value>>, built: seq<Result<Element>>, done: set<int>)
    requires |built| == |keys| && ScanRows(keys, built, done).Success?
    ensures forall j :: 0 <= j < |ScanRows(keys, built, done).value.1| ==>
      exists m :: FirstWith(keys, m, ScanRows(keys, built, done).value.1[j]) && built[m] == Success(ScanRows(keys, built, done).value.0[j])
  {
    var r := ScanRows(keys, built, done);
    forall j | 0 <= j < |r.value.1|
      ensures exists m :: FirstWith(keys, m, r.value.1[j]) && built[m] == Success(r.value.0[j])
    {
      ScanRowsBuildsAt(keys, built, done, j);
      assert exists m :: FirstWith(keys, m, r.value.1[j]) && built[m] == Success(r.value.0[j]);
    }
    assert forall j :: 0 <= j < |r.value.1| ==> exists m :: FirstWith(keys, m, r.value.1[j]) && built[m] == Success(r.value.0[j]);
  }

  lemma {:induction false} ScanRowsBuildsAt(keys: seq<Result<Value>>, built: seq<Result<Element>>, done: set<int>, j: nat)
    requires |built| == |keys| && ScanRows(keys, built, done).Success? && j < |ScanRows(keys, built, done).value.1|
    ensures exists m :: FirstWith(keys, m, ScanRows(keys, built, done).value.1[j]) && built[m] == Success(ScanRows(keys, built, done).value.0[j])
    decreases |keys|
  {
    var r := ScanRows(keys, built, done);
    var id := keys[0].value;
    var i := r.value.1[j];
    assert i in Elems(r.value.1);
    if id.Int? && id.i in done {
      ScanRowsBuildsAt(keys[1..], built[1..], done, j);
      var m :| FirstWith(keys[1..], m, i) && built[1..][m] == Success(r.value.0[j]);
      FirstWithShift(keys, m, i);
    } else {
      var rest := ScanRows(keys[1..], built[1..], done + {id.i});
      if j == 0 {
        assert FirstWith(keys, 0, i);
      } else {
        assert i == rest.value.1[j - 1] && r.value.0[j] == rest.value.0[j - 1];
        assert i in Elems(rest.value.1);
        ScanRowsBuildsAt(keys[1..], built[1..], done + {id.i}, j - 1);
        var m :| FirstWith(keys[1..], m, i) && built[1..][m] == Success(r.value.0[j]);
        FirstWithShift(keys, m, i);
      }
    }
  }

  lemma FirstWithShift(keys: seq<Result<Value>>, m: int, i: int)
    requires |keys| > 0 && keys[0] != Success(Int(i))
    requires FirstWith(keys[1..], m, i)
    ensures FirstWith(keys, m + 1, i) && keys[m + 1] == keys[1..][m]
  {
    forall m' | 0 < m' < m + 1 ensures keys[m'] != Success(Int(i)) {
      assert keys[m'] == keys[1..][m' - 1];
    }
  }

  /** The element each row becomes, whether or not the loop gets to build it. */
  function Built(b: Builder, rows: seq<Dict>): (r: seq<Result<Element>>)
    requires forall j :: 0 <= j < |rows| ==> UniqueKeys(rows[j])
    ensures |r| == |rows|
  {
    seq(|rows|, j requires 0 <= j < |rows| => Build(b, rows[j]))
  }

  /** The rows of a query through one builder. */
  function ScanTable(b: Builder, rows: seq<Dict>, done: set<int>): (r: Result<(seq<Element>, seq<int>)>)
    requires forall j :: 0 <= j < |rows| ==> UniqueKeys(rows[j])
  {
    ScanRows(RowKeys(rows), Built(b, rows), done)
  }

  /** The batch size `g_batches` behaves with: a size below 1 still yields
      a batch once it holds one id. */
  function Max1(size: int): (m: nat)
    ensures m >= 1 && m >= size
  {
    if size < 1 then 1 else size
  }

  /** The id sets of the chunks. */
  function SetsOf(chunks: seq<seq<int>>): (r: seq<set<int>>)
    ensures |r| == |chunks|
    ensures forall j :: 0 <= j < |r| ==> r[j] == Elems(chunks[j])
  {
    seq(|chunks|, j requires 0 <= j < |chunks| => Elems(chunks[j]))
  }

  function Union(bs: seq<set<int>>): set<int> {
    if |bs| == 0 then {} else Union(bs[..|bs| - 1]) + bs[|bs| - 1]
  }

  /** A sequence without repetitions has as many elements as its set. */
  lemma {:induction false} DistinctCard(xs: seq<int>)
    requires Distinct(xs)
    ensures |Elems(xs)| == |xs|
  {
    if |xs| > 0 {
      ElemsCons(xs);
      DistinctCard(xs[1..]);
      assert xs[0] !in Elems(xs[1..]);
    }
  }

  /** The chunks of `xs` are all full. */
  predicate Whole(xs: seq<int>, m: nat)
    requires m > 0
  {
    var cs := Chunks(xs, m);
    |cs| == 0 || |cs[|cs| - 1]| == m
  }

  /** Appending a chunk of at most `m` ids to whole chunks appends that
      chunk. */
  lemma {:induction false} ChunksSnoc(xs: seq<int>, ys: seq<int>, m: nat)
    requires m > 0 && Whole(xs, m) && 0 < |ys| <= m
    ensures Chunks(xs + ys, m) == Chunks(xs, m) + [ys]
    decreases |xs|
  {
    if |xs| == 0 {
      assert xs + ys == ys;
    } else {
      assert |xs| >= m;
      assert (xs + ys)[..m] == xs[..m];
      assert (xs + ys)[m..] == xs[m..] + ys;
      if |xs| == m {
        assert xs[m..] + ys == ys;
      } else {
        assert Chunks(xs, m) == [xs[..m]] + Chunks(xs[m..], m);
        ChunksSnoc(xs[m..], ys, m);
      }
    }
  }

  /** Closing a batch of distinct ids adds the next chunk. */
  lemma NextChunk(input: seq<int>, start: nat, end: nat, m: nat)
    requires Distinct(input) && m > 0 && start < end <= |input| && end - start <= m && Whole(input[..start], m)
    ensures Chunks(input[..end], m) == Chunks(input[..start], m) + [input[start..end]]
    ensures end - start == m ==> Whole(input[..end], m)
    ensures |Elems(input[start..end])| == end - start
  {
    DistinctSlice(input, start, end);
    DistinctCard(input[start..end]);
    assert input[..end] == input[..start] + input[start..end];
    ChunksSnoc(input[..start], input[start..end], m);
  }

  /** What holds after `g_batches` has read `input[..k]`: the batches
      yielded so far are full, `current` holds the ids read since the last
      one, and nothing read is lost. On distinct ids, the batches are the
      chunks of the ids read before `current` started. */
  predicate BatchInv(input: seq<int>, m: nat, k: nat, start: nat, batches: seq<set<int>>, current: set<int>) {
    m > 0 && start <= k <= |input| && |current| < m
    && (forall j :: 0 <= j < |batches| ==> |batches[j]| == m)
    && current == Elems(input[start..k])
    && Union(batches) + current == Elems(input[..k])
    && (Distinct(input) ==> Whole(input[..start], m) && batches == SetsOf(Chunks(input[..start], m)) && |current| == k - start)
  }

  /** Reading one more id keeps the invariant, whether or not it closes
      the batch. */
  lemma BatchAdd(input: seq<int>, size: int, k: nat, start: nat, batches: seq<set<int>>, current: set<int>)
    requires BatchInv(input, Max1(size), k, start, batches, current) && k < |input|
    ensures |current + {input[k]}| >= size ==> BatchInv(input, Max1(size), k + 1, k + 1, batches + [current + {input[k]}], {})
    ensures |current + {input[k]}| < size ==> BatchInv(input, Max1(size), k + 1, start, batches, current + {input[k]})
  {
    var m := Max1(size);
    var c := current + {input[k]};
    BatchStep(input, m, k, start, batches, current);
    if |c| >= size {
      assert |c| == m;
      var bs := batches + [c];
      assert Union(bs) == Union(batches) + c by {
        assert bs[..|bs| - 1] == batches;
      }
      assert forall j :: 0 <= j < |batches| ==> bs[j] == batches[j];
      assert input[k + 1..k + 1] == [];
      if Distinct(input) {
        SetsOfSnoc(Chunks(input[..start], m), input[start..k + 1]);
      }
    }
  }

  /** The facts one more id gives, before the batch is closed or kept. */
  lemma BatchStep(input: seq<int>, m: nat, k: nat, start: nat, batches: seq<set<int>>, current: set<int>)
    requires BatchInv(input, m, k, start, batches, current) && k < |input|
    ensures current + {input[k]} == Elems(input[start..k + 1])
    ensures Union(batches) + (current + {input[k]}) == Elems(input[..k + 1])
    ensures Distinct(input) ==>
      Chunks(input[..k + 1], m) == Chunks(input[..start], m) + [input[start..k + 1]]
      && |current + {input[k]}| == k + 1 - start
      && (k + 1 - start == m ==> Whole(input[..k + 1], m))
  {
    ElemsSnoc(input[start..k], input[k]);
    ElemsSnoc(input[..k], input[k]);
    assert input[start..k + 1] == input[start..k] + [input[k]];
    assert input[..k + 1] == input[..k] + [input[k]];
    if Distinct(input) {
      BatchStepDistinct(input, m, k, start, current);
    }
  }

  lemma BatchStepDistinct(input: seq<int>, m: nat, k: nat, start: nat, current: set<int>)
    requires Distinct(input) && m > 0 && start <= k < |input| && |current| < m
    requires current == Elems(input[start..k]) && |current| == k - start && Whole(input[..start], m)
    requires current + {input[k]} == Elems(input[start..k + 1])
    ensures Chunks(input[..k + 1], m) == Chunks(input[..start], m) + [input[start..k + 1]]
    ensures |current + {input[k]}| == k + 1 - start
    ensures k + 1 - start == m ==> Whole(input[..k + 1], m)
  {
    NextChunk(input, start, k + 1, m);
  }

  lemma SetsOfSnoc(cs: seq<seq<int>>, c: seq<int>)
    ensures SetsOf(cs + [c]) == SetsOf(cs) + [Elems(c)]
  {
  }

  /** The batches yielded once the ids run out: the last, partial one is
      yielded when it is not empty. */
  predicate BatchesDone(input: seq<int>, m: nat, r: seq<set<int>>)
    requires m > 0
  {
    (forall j :: 0 <= j < |r| ==> 0 < |r[j]| <= m)
    && (forall j :: 0 <= j < |r| - 1 ==> |r[j]| == m)
    && Union(r) == Elems(input)
    && (Distinct(input) ==> r == SetsOf(Chunks(input, m)))
  }

  lemma BatchEndPartial(input: seq<int>, m: nat, start: nat, batches: seq<set<int>>, current: set<int>)
    requires BatchInv(input, m, |input|, start, batches, current) && |current| != 0
    ensures BatchesDone(input, m, batches + [current])
  {
    assert input[..|input|] == input;
    if Distinct(input) {
      NextChunk(input, start, |input|, m);
    }
  }

  lemma BatchEndEmpty(input: seq<int>, m: nat, start: nat, batches: seq<set<int>>)
    requires BatchInv(input, m, |input|, start, batches, {})
    ensures BatchesDone(input, m, batches)
  {
    assert input[..|input|] == input;
  }

  /** `g_batches(generator, batch_size)` over the ids the generator yields:
      an id set is yielded each time it reaches `batch_size` ids, and a last
      non-empty one at the end. On distinct ids the batches are the id sets
      of the consecutive chunks. */
  method GBatches(input: seq<int>, size: int) returns (batches: seq<set<int>>)
    ensures forall j :: 0 <= j < |batches| ==> 0 < |batches[j]| <= Max1(size)
    ensures forall j :: 0 <= j < |batches| - 1 ==> |batches[j]| == Max1(size)
    ensures Union(batches) == Elems(input)
    ensures Distinct(input) ==> batches == SetsOf(Chunks(input, Max1(size)))
  {
    batches := [];
    var current: set<int> := {};
    ghost var start := 0;
    for k := 0 to |input|
      invariant BatchInv(input, Max1(size), k, start, batches, current)
    {
      BatchAdd(input, size, k, start, batches, current);
      current := current + {input[k]};
      if |current| >= size {
        batches := batches + [current];
        current := {};
        start := k + 1;
      }
    }
    if |current| != 0 {
      BatchEndPartial(input, Max1(size), start, batches, current);
      batches := batches + [current];
    } else {
      BatchEndEmpty(input, Max1(size), start, batches);
    }
  }

  lemma DistinctSlice(xs: seq<int>, i: int, j: int)
    requires Distinct(xs) && 0 <= i <= j <= |xs|
    ensures Distinct(xs[i..j])
  {
  }

  /** `g_negate`: every id with its sign flipped. */
  function Negate(ids: seq<int>): (r: seq<int>)
    ensures |r| == |ids|
  {
    seq(|ids|, j requires 0 <= j < |ids| => -ids[j])
  }

  function NegSet(s: set<int>): set<int> {
    set x | x in s :: -x
  }

  /** Negating twice gives the ids back, and the negated ids are the
      negated set: querying `osm_id IN (-i, ...)` asks for the same
      relations as `-osm_id IN (i, ...)`. */
  lemma NegateInvolution(ids: seq<int>)
    ensures Negate(Negate(ids)) == ids
    ensures Elems(Negate(ids)) == NegSet(Elems(ids))
  {
    var n := Negate(ids);
    forall x | x in NegSet(Elems(ids)) ensures x in Elems(n) {
      var j :| 0 <= j < |ids| && ids[j] == -x;
      assert n[j] == x;
    }
    forall x | x in Elems(n) ensures x in NegSet(Elems(ids)) {
      var j :| 0 <= j < |n| && n[j] == x;
      assert ids[j] in Elems(ids) && x == -ids[j];
    }
  }

  /** The ids a table's id column yields for the present keys `s`. */
  function Signed(s: set<int>, negated: bool): set<int> {
    if negated then NegSet(s) else s
  }

  /** The keys under which a table has rows. */
  function Present(t: Table): set<int> {
    set k | k in t.rows && |t.rows[k]| > 0
  }

  /** Every row under key `k` carries id `k`, or `-k` when the id column is
      the negated key (`-osm_id AS id`). */
  predicate Keyed(t: Table, negated: bool) {
    forall k, j :: k in t.rows && 0 <= j < |t.rows[k]| ==>
      Lookup(RowDict(t.columns, t.rows[k][j]), "id") == Some(Int(if negated then -k else k))
  }

  lemma {:induction false} KeyIdsAppend(a: seq<Result<Value>>, b: seq<Result<Value>>)
    ensures KeyIds(a + b) == KeyIds(a) + KeyIds(b)
    decreases |a|
  {
    if |a| == 0 {
      assert a + b == b;
    } else {
      assert (a + b)[1..] == a[1..] + b;
      KeyIdsAppend(a[1..], b);
    }
  }

  lemma {:induction false} KeyIdsSame(keys: seq<Result<Value>>, i: int)
    requires forall j :: 0 <= j < |keys| ==> keys[j] == Success(Int(i))
    ensures KeyIds(keys) == if |keys| == 0 then {} else {i}
    decreases |keys|
  {
    if |keys| > 0 {
      KeyIdsSame(keys[1..], i);
    }
  }

  /** The ids of the rows a keyed table returns for a list of keys: one per
      listed key the table has rows for. */
  lemma {:induction false} FetchedIds(t: Table, ids: seq<int>, negated: bool)
    requires Keyed(t, negated)
    ensures KeyIds(RowKeys(Dicts(t.columns, RowsFor(t.rows, ids)))) == Signed(Elems(ids) * Present(t), negated)
    decreases |ids|
  {
    if |ids| == 0 {
      assert Elems(ids) == {};
    } else {
      var k := ids[0];
      var head := if k in t.rows then t.rows[k] else [];
      var tail := RowsFor(t.rows, ids[1..]);
      assert RowsFor(t.rows, ids) == head + tail;
      KeysOfAppend(t.columns, head, tail);
      FetchedOne(t, k, negated);
      FetchedIds(t, ids[1..], negated);
      ElemsCons(ids);
      SignedUnion({k}, Elems(ids[1..]), Present(t), negated);
    }
  }

  lemma KeysOfAppend(columns: seq<string>, a: seq<seq<Option<Value>>>, b: seq<seq<Option<Value>>>)
    ensures KeyIds(RowKeys(Dicts(columns, a + b))) == KeyIds(RowKeys(Dicts(columns, a))) + KeyIds(RowKeys(Dicts(columns, b)))
  {
    var ka := RowKeys(Dicts(columns, a));
    var kb := RowKeys(Dicts(columns, b));
    assert RowKeys(Dicts(columns, a + b)) == ka + kb;
    KeyIdsAppend(ka, kb);
  }

  /** The rows under one key carry that key's id. */
  lemma FetchedOne(t: Table, k: int, negated: bool)
    requires Keyed(t, negated)
    ensures KeyIds(RowKeys(Dicts(t.columns, if k in t.rows then t.rows[k] else []))) == Signed({k} * Present(t), negated)
  {
    var head := if k in t.rows then t.rows[k] else [];
    var hk := RowKeys(Dicts(t.columns, head));
    KeyedHead(t, k, negated, head);
    KeyIdsSame(hk, if negated then -k else k);
    if k in Present(t) {
      assert {k} * Present(t) == {k};
      assert |hk| > 0;
      NegSetOne(k);
    } else {
      assert {k} * Present(t) == {};
      assert |hk| == 0;
      assert NegSet({}) == {};
    }
  }

  lemma NegSetOne(k: int)
    ensures NegSet({k}) == {-k}
  {
    assert -k in NegSet({k});
  }

  /** Each row under key `k` reads back the signed key as its id. */
  lemma KeyedHead(t: Table, k: int, negated: bool, head: seq<seq<Option<Value>>>)
    requires Keyed(t, negated) && head == if k in t.rows then t.rows[k] else []
    ensures forall j :: 0 <= j < |RowKeys(Dicts(t.columns, head))| ==> RowKeys(Dicts(t.columns, head))[j] == Success(Int(if negated then -k else k))
  {
    var hk := RowKeys(Dicts(t.columns, head));
    forall j | 0 <= j < |hk| ensures hk[j] == Success(Int(if negated then -k else k)) {
      assert Lookup(RowDict(t.columns, t.rows[k][j]), "id") == Some(Int(if negated then -k else k));
    }
  }

  lemma SignedUnion(a: set<int>, b: set<int>, p: set<int>, negated: bool)
    ensures Signed(a * p, negated) + Signed(b * p, negated) == Signed((a + b) * p, negated)
  {
    if negated {
      assert (a + b) * p == a * p + b * p;
      forall x | x in NegSet((a + b) * p) ensures x in NegSet(a * p) + NegSet(b * p) {
        assert -x in a * p || -x in b * p;
      }
    }
  }

  /** One table a `create_*` generator reads: the query's id list is the
      still-missing ids of the kind, negated for the `-osm_id` tables. */
  datatype Source = Source(table: Table, negated: bool, step: nat, builder: Builder)

  predicate ValidSources(srcs: seq<Source>) {
    forall j :: 0 <= j < |srcs| ==> srcs[j].step > 0
  }

  /** The tables of a kind read in order: each is queried with the ids of
      `kind` not yet in `done` (`all_subtract(kind, 'done_ids')`; the first
      query's `all(kind)` is the same set, `done_ids` being empty), and its
      rows go through the `done` check. `order` is the iteration order of
      a Python set. */
  function RunSources(srcs: seq<Source>, kind: set<int>, order: set<int> -> seq<int>, done: set<int>): (r: Result<(seq<Element>, seq<int>)>)
    requires ValidSources(srcs)
    ensures r.Success? ==> |r.value.0| == |r.value.1|
    ensures r.Success? ==> Distinct(r.value.1) && Elems(r.value.1) !! done
    ensures r.Success? ==> forall j :: 0 <= j < |r.value.1| ==> r.value.1[j] > 0
    decreases |srcs|
  {
    if |srcs| == 0 then Success(([], []))
    else
      var src := srcs[0];
      var ids := order(kind - done);
      var rows := Query(src.table, if src.negated then Negate(ids) else ids, src.step);
      var p :- ScanTable(src.builder, rows, done);
      var rest :- RunSources(srcs[1..], kind, order, done + Elems(p.1));
      DistinctAppend(p.1, rest.1);
      Success((p.0 + rest.0, p.1 + rest.1))
  }

  /** Two id sequences without repetitions and without a common id make one. */
  lemma DistinctAppend(a: seq<int>, b: seq<int>)
    requires Distinct(a) && Distinct(b) && Elems(a) !! Elems(b)
    ensures Distinct(a + b) && Elems(a + b) == Elems(a) + Elems(b)
  {
    ElemsAppend(a, b);
    forall i, j | 0 <= i < j < |a + b| ensures (a + b)[i] != (a + b)[j] {
      if i < |a| && j >= |a| {
        assert (a + b)[i] in Elems(a) && (a + b)[j] in Elems(b);
      }
    }
  }

  /** The ids the tables have for the kind. */
  function Found(srcs: seq<Source>): set<int> {
    if |srcs| == 0 then {} else Signed(Present(srcs[0].table), srcs[0].negated) + Found(srcs[1..])
  }

  ghost predicate Listing(order: set<int> -> seq<int>) {
    forall s :: IsListing(order(s), s)
  }

  lemma NegSetMeet(a: set<int>, b: set<int>)
    ensures NegSet(NegSet(a) * b) == a * NegSet(b)
  {
    forall x | x in a * NegSet(b) ensures x in NegSet(NegSet(a) * b) {
      assert -x in NegSet(a) * b;
    }
  }

  /** A source's query returns the rows of the ids it lists that the table
      has. */
  lemma SourceIds(src: Source, s: set<int>, order: set<int> -> seq<int>)
    requires src.step > 0 && Keyed(src.table, src.negated) && Listing(order)
    ensures KeyIds(RowKeys(Query(src.table, if src.negated then Negate(order(s)) else order(s), src.step)))
      == s * Signed(Present(src.table), src.negated)
  {
    var ids := order(s);
    var q := if src.negated then Negate(ids) else ids;
    FetchedIds(src.table, q, src.negated);
    if src.negated {
      NegateInvolution(ids);
      NegSetMeet(s, Present(src.table));
    }
  }

  /** With faithful tables, the ids written for a kind are exactly the
      ids of the kind that some table has, less those already done: an id
      is never lost between the tables and never written twice. */
  lemma {:induction false} RunSourcesFinds(srcs: seq<Source>, kind: set<int>, order: set<int> -> seq<int>, done: set<int>)
    requires ValidSources(srcs) && Listing(order)
    requires forall j :: 0 <= j < |srcs| ==> Keyed(srcs[j].table, srcs[j].negated)
    requires RunSources(srcs, kind, order, done).Success?
    ensures Elems(RunSources(srcs, kind, order, done).value.1) == (kind - done) * Found(srcs)
    decreases |srcs|
  {
    if |srcs| == 0 {
      assert Elems(RunSources(srcs, kind, order, done).value.1) == {};
    } else {
      var src := srcs[0];
      var ids := order(kind - done);
      var rows := Query(src.table, if src.negated then Negate(ids) else ids, src.step);
      var p := ScanTable(src.builder, rows, done).value;
      SourceIds(src, kind - done, order);
      assert Elems(p.1) == (kind - done) * Signed(Present(src.table), src.negated);
      RunSourcesFinds(srcs[1..], kind, order, done + Elems(p.1));
      var rest := RunSources(srcs[1..], kind, order, done + Elems(p.1)).value;
      DistinctAppend(p.1, rest.1);
    }
  }

  /** The kind of element a builder makes. */
  function KindOf(b: Builder): Kind {
    match b
    case PointRow => Node
    case WayJoinRow => Way
    case WayRow => Way
    case _ => Relation
  }

  function ElementKind(el: Element): Kind {
    match el
    case NodeEl(_, _) => Node
    case WayEl(_, _, _) => Way
    case RelationEl(_, _, _) => Relation
  }

  /** All the sources build elements of kind `kind`. */
  predicate Builds(srcs: seq<Source>, kind: Kind) {
    forall j :: 0 <= j < |srcs| ==> KindOf(srcs[j].builder) == kind
  }

  /** The elements written are of the kind the sources build. */
  lemma {:induction false} WrittenKind(srcs: seq<Source>, kind: set<int>, order: set<int> -> seq<int>, done: set<int>, want: Kind)
    requires ValidSources(srcs) && Builds(srcs, want) && RunSources(srcs, kind, order, done).Success?
    ensures forall e :: e in RunSources(srcs, kind, order, done).value.0 ==> ElementKind(e) == want
    decreases |srcs|
  {
    if |srcs| > 0 {
      var src := srcs[0];
      var ids := order(kind - done);
      var rows := Query(src.table, if src.negated then Negate(ids) else ids, src.step);
      var p := ScanTable(src.builder, rows, done).value;
      ScannedKind(src.builder, rows, done);
      WrittenKind(srcs[1..], kind, order, done + Elems(p.1), want);
      assert RunSources(srcs, kind, order, done).value.0 == p.0 + RunSources(srcs[1..], kind, order, done + Elems(p.1)).value.0;
    }
  }

  /** The elements one query writes are of the kind its builder builds. */
  lemma ScannedKind(b: Builder, rows: seq<Dict>, done: set<int>)
    requires forall j :: 0 <= j < |rows| ==> UniqueKeys(rows[j])
    requires ScanTable(b, rows, done).Success?
    ensures forall e :: e in ScanTable(b, rows, done).value.0 ==> ElementKind(e) == KindOf(b)
  {
    var p := ScanTable(b, rows, done).value;
    ScanRowsBuilds(RowKeys(rows), Built(b, rows), done);
    forall e | e in p.0 ensures ElementKind(e) == KindOf(b) {
      var j :| 0 <= j < |p.0| && p.0[j] == e;
      var m :| FirstWith(RowKeys(rows), m, p.1[j]) && Built(b, rows)[m] == Success(e);
    }
  }

  /** A `create_*` generator: `done_ids` is cleared, the kind's tables are
      read in order, and the kind is cleared at the end. `done_ids` is left
      holding the ids written. */
  function CreateKind(srcs: seq<Source>, want: Kind, s: Store, k: Role, order: set<int> -> seq<int>): (r: Result<(seq<Element>, seq<int>, Store)>)
    requires ValidSources(srcs) && Builds(srcs, want) && k != DoneIds
    ensures r.Success? ==> |r.value.0| == |r.value.1| && Distinct(r.value.1)
    ensures r.Success? ==> forall j :: 0 <= j < |r.value.0| ==> ElementKind(r.value.0[j]) == want
    ensures r.Success? ==> Get(r.value.2, DoneIds) == Elems(r.value.1) && Get(r.value.2, k) == {}
    ensures r.Success? ==> forall k' :: k' != DoneIds && k' != k ==> Get(r.value.2, k') == Get(s, k')
    ensures r.Success? && Valid(s) ==> Valid(r.value.2)
  {
    var p :- RunSources(srcs, Get(Clear(s, DoneIds), k), order, {});
    WrittenKind(srcs, Get(Clear(s, DoneIds), k), order, {}, want);
    assert forall j :: 0 <= j < |p.0| ==> p.0[j] in p.0;
    Success((p.0, p.1, With(Clear(s, k), DoneIds, Elems(p.1))))
  }

  /** With faithful tables, a generator writes exactly the wanted ids
      that some table of the kind has. */
  lemma CreateKindFinds(srcs: seq<Source>, want: Kind, s: Store, k: Role, order: set<int> -> seq<int>)
    requires ValidSources(srcs) && Builds(srcs, want) && k != DoneIds && Listing(order)
    requires forall j :: 0 <= j < |srcs| ==> Keyed(srcs[j].table, srcs[j].negated)
    requires CreateKind(srcs, want, s, k, order).Success?
    ensures Elems(CreateKind(srcs, want, s, k, order).value.1) == Get(s, k) * Found(srcs)
  {
    assert Get(Clear(s, DoneIds), k) == Get(s, k);
    RunSourcesFinds(srcs, Get(s, k), order, {});
  }

  /** The three queries of `create_ways`: `_polygon` and `_line` joined with
      `_ways`, then `_ways` alone. */
  datatype WayTables = WayTables(polygon: Table, line: Table, ways: Table)

  function WaySources(t: WayTables): (r: seq<Source>)
    ensures ValidSources(r) && Builds(r, Way)
  {
    [Source(t.polygon, false, 1000, WayJoinRow), Source(t.line, false, 1000, WayJoinRow), Source(t.ways, false, 1000, WayRow)]
  }

  function CreateWays(t: WayTables, s: Store, order: set<int> -> seq<int>): (r: Result<(seq<Element>, seq<int>, Store)>)
    ensures r.Success? ==> Get(r.value.2, Ways) == {}
    ensures r.Success? ==> forall k :: k != DoneIds && k != Ways ==> Get(r.value.2, k) == Get(s, k)
  {
    CreateKind(WaySources(t), Way, s, Ways, order)
  }

  /** The queries of `create_relations`: `_polygon` joined with `_rels`,
      `_line` completed row by row from `_rels`, then `_rels` alone. The
      first two are keyed by `osm_id`, the negated relation id. */
  datatype RelTables = RelTables(polygon: Table, line: Table, rels: Table, relsRows: map<int, (Option<Value>, Option<Value>)>)

  function RelSources(t: RelTables, jsonb: bool): (r: seq<Source>)
    ensures ValidSources(r) && Builds(r, Relation)
  {
    [Source(t.polygon, true, 250, RelJoinRow(jsonb)), Source(t.line, true, 250, RelLineRow(jsonb, t.relsRows)), Source(t.rels, false, 300, RelRow(jsonb))]
  }

  function CreateRelations(t: RelTables, jsonb: bool, s: Store, order: set<int> -> seq<int>): (r: Result<(seq<Element>, seq<int>, Store)>)
    ensures r.Success? ==> Get(r.value.2, Rels) == {}
    ensures r.Success? ==> forall k :: k != DoneIds && k != Rels ==> Get(r.value.2, k) == Get(s, k)
  {
    CreateKind(RelSources(t, jsonb), Relation, s, Rels, order)
  }

  /** `int(osm_id)` of a reply: the id the `done_ids` check uses. */
  function ReplyKeys(replies: seq<(string, string, string)>): (r: seq<Result<Value>>)
    ensures |r| == |replies|
  {
    seq(|replies|, j requires 0 <= j < |replies| =>
      match ParseInt(replies[j].0)
      case Some(i) => Success(Int(i))
      case None => Failure(ValueError("invalid literal for int()")))
  }

  /** `node_to_xml({'id': osm_id, 'lat': lat, 'lon': lon}, {})`. */
  function ReplyNodes(replies: seq<(string, string, string)>): (r: seq<Result<Element>>)
    ensures |r| == |replies|
  {
    seq(|replies|, j requires 0 <= j < |replies| =>
      NodeToXml([("id", Text(replies[j].0)), ("lat", Text(replies[j].1)), ("lon", Text(replies[j].2))], []))
  }

  /** The fallback loop of `create_nodes`: each batch (the set of a chunk
      of the missing ids) is written to the coordinate helper (`helper`
      maps what it reads to what it prints), and each reply line goes
      through the `done` check. */
  function FallbackRun(chunks: seq<seq<int>>, order: set<int> -> seq<int>, helper: string -> string, done: set<int>): (r: Result<(seq<Element>, seq<int>)>)
    ensures r.Success? ==> |r.value.0| == |r.value.1|
    ensures r.Success? ==> Distinct(r.value.1) && Elems(r.value.1) !! done
    ensures r.Success? ==> forall e :: e in r.value.0 ==> e.NodeEl?
    decreases |chunks|
  {
    if |chunks| == 0 then Success(([], []))
    else
      var replies :- Fallback.ParseResponse(helper(Fallback.Request(order(Elems(chunks[0])))));
      var p :- ScanRows(ReplyKeys(replies), ReplyNodes(replies), done);
      var rest :- FallbackRun(chunks[1..], order, helper, done + Elems(p.1));
      DistinctAppend(p.1, rest.1);
      RepliesAreNodes(replies, done);
      Success((p.0 + rest.0, p.1 + rest.1))
  }

  /** The elements written from one batch of replies are nodes. */
  lemma RepliesAreNodes(replies: seq<(string, string, string)>, done: set<int>)
    requires ScanRows(ReplyKeys(replies), ReplyNodes(replies), done).Success?
    ensures forall e :: e in ScanRows(ReplyKeys(replies), ReplyNodes(replies), done).value.0 ==> e.NodeEl?
  {
    var p := ScanRows(ReplyKeys(replies), ReplyNodes(replies), done).value;
    ScanRowsBuilds(ReplyKeys(replies), ReplyNodes(replies), done);
    forall e | e in p.0 ensures e.NodeEl? {
      var j :| 0 <= j < |p.0| && p.0[j] == e;
      var m :| FirstWith(ReplyKeys(replies), m, p.1[j]) && ReplyNodes(replies)[m] == Success(e);
    }
  }

  /** `create_nodes`: the `_point` rows first, then the nodes still missing
      from the coordinate helper, in batches of 5000. */
  function CreateNodes(point: Table, s: Store, order: set<int> -> seq<int>, helper: string -> string): (r: Result<(seq<Element>, seq<int>, Store)>)
    ensures r.Success? ==> |r.value.0| == |r.value.1| && Distinct(r.value.1)
    ensures r.Success? ==> forall j :: 0 <= j < |r.value.0| ==> r.value.0[j].NodeEl?
    ensures r.Success? ==> Get(r.value.2, DoneIds) == Elems(r.value.1) && Get(r.value.2, Nodes) == {}
    ensures r.Success? ==> forall k :: k != DoneIds && k != Nodes ==> Get(r.value.2, k) == Get(s, k)
  {
    var p :- RunSources(PointSources(point), Get(s, Nodes), order, {});
    WrittenKind(PointSources(point), Get(s, Nodes), order, {}, Node);
    var q :- FallbackRun(Chunks(order(Get(s, Nodes) - Elems(p.1)), 5000), order, helper, Elems(p.1));
    Success(JoinNodes(p, q, s))
  }

  /** The two loops of `create_nodes` together: their elements in order,
      and the store with `done_ids` holding both loops' ids. */
  function JoinNodes(p: (seq<Element>, seq<int>), q: (seq<Element>, seq<int>), s: Store): (r: (seq<Element>, seq<int>, Store))
    requires |p.0| == |p.1| && Distinct(p.1) && forall e :: e in p.0 ==> ElementKind(e) == Node
    requires |q.0| == |q.1| && Distinct(q.1) && Elems(q.1) !! Elems(p.1) && forall e :: e in q.0 ==> e.NodeEl?
    ensures |r.0| == |r.1| && Distinct(r.1) && r.1 == p.1 + q.1
    ensures forall j :: 0 <= j < |r.0| ==> r.0[j].NodeEl?
    ensures Get(r.2, DoneIds) == Elems(r.1) && Get(r.2, Nodes) == {}
    ensures forall k :: k != DoneIds && k != Nodes ==> Get(r.2, k) == Get(s, k)
  {
    DistinctAppend(p.1, q.1);
    forall j | 0 <= j < |p.0| + |q.0| ensures (p.0 + q.0)[j].NodeEl? {
      if j < |p.0| {
        assert p.0[j] in p.0;
        assert ElementKind(p.0[j]) == Node;
      } else {
        assert q.0[j - |p.0|] in q.0;
      }
    }
    (p.0 + q.0, p.1 + q.1, With(Clear(s, Nodes), DoneIds, Elems(p.1) + Elems(q.1)))
  }

  /** The one query of `create_nodes` on `_point`. */
  function PointSources(point: Table): (r: seq<Source>)
    ensures ValidSources(r) && Builds(r, Node)
  {
    [Source(point, false, 1000, PointRow)]
  }

  /** What a helper reading the flat-nodes file `coords` (id to lon, lat)
      prints for a list of ids: a line for each id the file places, in
      the order the ids were read. */
  function Replies(ids: seq<int>, coords: map<int, (string, string)>): (r: seq<Fallback.Reply>)
    ensures |r| <= |ids|
  {
    if |ids| == 0 then []
    else (if ids[0] in coords then [Fallback.Reply(coords[ids[0]].0, coords[ids[0]].1, IntToString(ids[0]))] else []) + Replies(ids[1..], coords)
  }

  /** The helper behaves as a reader of `coords` whose coordinates print
      as single tokens. */
  ghost predicate FaithfulHelper(helper: string -> string, coords: map<int, (string, string)>) {
    (forall input :: helper(input) == Fallback.Response(Replies(Fallback.ReaderIds(input), coords)))
    && (forall i :: i in coords ==> Fallback.PlainField(coords[i].0) && Fallback.PlainField(coords[i].1))
  }

  /** A decimal id is one token. */
  lemma PlainId(i: int)
    ensures Fallback.PlainField(IntToString(i))
  {
    var s := IntToString(i);
    assert forall k :: 0 <= k < |s| ==> IsDigit(s[k]) || s[k] == '-';
  }

  lemma {:induction false} RepliesPlain(ids: seq<int>, coords: map<int, (string, string)>)
    requires forall i :: i in coords ==> Fallback.PlainField(coords[i].0) && Fallback.PlainField(coords[i].1)
    ensures forall j :: 0 <= j < |Replies(ids, coords)| ==> Fallback.PlainReply(Replies(ids, coords)[j])
    decreases |ids|
  {
    if |ids| > 0 {
      RepliesPlain(ids[1..], coords);
      PlainId(ids[0]);
    }
  }

  lemma SwappedAppend(a: seq<Fallback.Reply>, b: seq<Fallback.Reply>)
    ensures Fallback.Swapped(a + b) == Fallback.Swapped(a) + Fallback.Swapped(b)
  {
  }

  lemma ReplyKeysAppend(a: seq<(string, string, string)>, b: seq<(string, string, string)>)
    ensures ReplyKeys(a + b) == ReplyKeys(a) + ReplyKeys(b)
  {
  }

  /** The reply keys of the lines for one id. */
  lemma ReplyHead(i: int, coords: map<int, (string, string)>)
    ensures KeyIds(ReplyKeys(Fallback.Swapped(Replies([i], coords)))) == {i} * coords.Keys
  {
    assert Replies([i], coords) == (if i in coords then [Fallback.Reply(coords[i].0, coords[i].1, IntToString(i))] else []) + Replies([], coords);
    if i in coords {
      ParseIntToString(i);
      assert ReplyKeys(Fallback.Swapped(Replies([i], coords))) == [Success(Int(i))];
    }
  }

  lemma RepliesCons(ids: seq<int>, coords: map<int, (string, string)>)
    requires |ids| > 0
    ensures Replies(ids, coords) == Replies([ids[0]], coords) + Replies(ids[1..], coords)
  {
    assert Replies([ids[0]], coords) == (if ids[0] in coords then [Fallback.Reply(coords[ids[0]].0, coords[ids[0]].1, IntToString(ids[0]))] else []) + Replies([], coords);
  }

  /** The ids the reply lines carry are the requested ids the file
      places. */
  lemma {:induction false} ReplyIds(ids: seq<int>, coords: map<int, (string, string)>)
    ensures KeyIds(ReplyKeys(Fallback.Swapped(Replies(ids, coords)))) == Elems(ids) * coords.Keys
    decreases |ids|
  {
    if |ids| == 0 {
      assert Elems(ids) == {};
    } else {
      var h, t := Replies([ids[0]], coords), Replies(ids[1..], coords);
      RepliesCons(ids, coords);
      SwappedAppend(h, t);
      ReplyKeysAppend(Fallback.Swapped(h), Fallback.Swapped(t));
      KeyIdsAppend(ReplyKeys(Fallback.Swapped(h)), ReplyKeys(Fallback.Swapped(t)));
      ReplyHead(ids[0], coords);
      ReplyIds(ids[1..], coords);
      ElemsCons(ids);
    }
  }

  /** One batch's exchange with a faithful helper reads back a line for
      each id of the batch the file places. */
  lemma BatchExchange(batch: set<int>, order: set<int> -> seq<int>, helper: string -> string, coords: map<int, (string, string)>)
    requires Listing(order) && FaithfulHelper(helper, coords)
    ensures Fallback.ParseResponse(helper(Fallback.Request(order(batch)))).Success?
    ensures KeyIds(ReplyKeys(Fallback.ParseResponse(helper(Fallback.Request(order(batch)))).value)) == batch * coords.Keys
  {
    var ids := order(batch);
    Fallback.RequestRoundTrip(ids);
    assert helper(Fallback.Request(ids)) == Fallback.Response(Replies(ids, coords));
    RepliesPlain(ids, coords);
    Fallback.ResponseRoundTrip(Replies(ids, coords));
    ReplyIds(ids, coords);
  }

  /** With a faithful helper, the fallback writes exactly the ids of the
      batches that the flat-nodes file places and that are not done. */
  lemma {:induction false} FallbackFinds(chunks: seq<seq<int>>, order: set<int> -> seq<int>, helper: string -> string, coords: map<int, (string, string)>, done: set<int>)
    requires Listing(order) && FaithfulHelper(helper, coords)
    requires FallbackRun(chunks, order, helper, done).Success?
    ensures Elems(FallbackRun(chunks, order, helper, done).value.1) == Elems(Concat(chunks)) * coords.Keys - done
    decreases |chunks|
  {
    if |chunks| == 0 {
      assert Elems(FallbackRun(chunks, order, helper, done).value.1) == {};
      assert Elems(Concat(chunks)) == {};
    } else {
      var batch := Elems(chunks[0]);
      BatchExchange(batch, order, helper, coords);
      var replies := Fallback.ParseResponse(helper(Fallback.Request(order(batch)))).value;
      var p := ScanRows(ReplyKeys(replies), ReplyNodes(replies), done).value;
      assert Elems(p.1) == batch * coords.Keys - done;
      FallbackFinds(chunks[1..], order, helper, coords, done + Elems(p.1));
      var rest := FallbackRun(chunks[1..], order, helper, done + Elems(p.1)).value;
      ElemsAppend(p.1, rest.1);
      ElemsAppend(chunks[0], Concat(chunks[1..]));
    }
  }

  /** With a faithful `_point` table and helper, `create_nodes` writes
      exactly the wanted nodes that `_point` or the flat-nodes file has. */
  lemma NodesFound(point: Table, s: Store, order: set<int> -> seq<int>, helper: string -> string, coords: map<int, (string, string)>)
    requires Keyed(point, false) && Listing(order) && FaithfulHelper(helper, coords)
    requires CreateNodes(point, s, order, helper).Success?
    ensures Elems(CreateNodes(point, s, order, helper).value.1) == Get(s, Nodes) * (Present(point) + coords.Keys)
  {
    var nodes := Get(s, Nodes);
    var p := RunSources(PointSources(point), nodes, order, {}).value;
    var q := FallbackRun(Chunks(order(nodes - Elems(p.1)), 5000), order, helper, Elems(p.1)).value;
    assert CreateNodes(point, s, order, helper).value.1 == p.1 + q.1;
    PointsFound(point, nodes, order);
    HelperFound(nodes, Elems(p.1), order, helper, coords);
    ElemsAppend(p.1, q.1);
    FoundOrHelped(nodes, Present(point), coords.Keys);
  }

  /** The `_point` loop of `create_nodes` writes the wanted ids the table has. */
  lemma PointsFound(point: Table, nodes: set<int>, order: set<int> -> seq<int>)
    requires Keyed(point, false) && Listing(order)
    requires RunSources(PointSources(point), nodes, order, {}).Success?
    ensures Elems(RunSources(PointSources(point), nodes, order, {}).value.1) == nodes * Present(point)
  {
    RunSourcesFinds(PointSources(point), nodes, order, {});
    assert Found(PointSources(point)) == Present(point) by {
      assert PointSources(point)[1..] == [];
    }
  }

  /** The helper loop of `create_nodes` writes the remaining ids the helper knows. */
  lemma HelperFound(nodes: set<int>, done: set<int>, order: set<int> -> seq<int>, helper: string -> string, coords: map<int, (string, string)>)
    requires Listing(order) && FaithfulHelper(helper, coords)
    requires FallbackRun(Chunks(order(nodes - done), 5000), order, helper, done).Success?
    ensures Elems(FallbackRun(Chunks(order(nodes - done), 5000), order, helper, done).value.1) == (nodes - done) * coords.Keys - done
  {
    var chunks := Chunks(order(nodes - done), 5000);
    FallbackFinds(chunks, order, helper, coords, done);
    ChunksCover(order(nodes - done), 5000);
    assert IsListing(order(nodes - done), nodes - done);
  }

  lemma FoundOrHelped(n: set<int>, p: set<int>, c: set<int>)
    ensures n * p + ((n - n * p) * c - n * p) == n * (p + c)
  {
  }

  /** The tables the write phase reads. */
  datatype Backend = Backend(point: Table, ways: WayTables, rels: RelTables)

  /** The write phase of `stream_osm_xml`: the nodes, then the ways, then
      the relations. Each kind is written without repetition, and every
      kind's id set is empty afterwards. */
  function WriteOut(db: Backend, jsonb: bool, s: Store, order: set<int> -> seq<int>, helper: string -> string): (r: Result<(seq<Element>, Store)>)
    ensures r.Success? ==> Get(r.value.1, Nodes) == {} && Get(r.value.1, Ways) == {} && Get(r.value.1, Rels) == {}
    ensures r.Success? ==> Get(r.value.1, NodesWithin) == Get(s, NodesWithin)
  {
    var n :- CreateNodes(db.point, s, order, helper);
    var wr :- WriteWaysRels(db, jsonb, n.2, order);
    Success((n.0 + wr.0, wr.1))
  }

  /** The ways, then the relations. */
  function WriteWaysRels(db: Backend, jsonb: bool, s: Store, order: set<int> -> seq<int>): (r: Result<(seq<Element>, Store)>)
    ensures r.Success? ==> Get(r.value.1, Ways) == {} && Get(r.value.1, Rels) == {}
    ensures r.Success? ==> forall k :: k != DoneIds && k != Ways && k != Rels ==> Get(r.value.1, k) == Get(s, k)
  {
    var w :- CreateWays(db.ways, s, order);
    var r :- CreateRelations(db.rels, jsonb, w.2, order);
    Success((w.0 + r.0, r.2))
  }

  /** With faithful tables, `create_ways` writes exactly the wanted ways
      that `_polygon`, `_line` or `_ways` has. */
  lemma WaysFound(t: WayTables, s: Store, order: set<int> -> seq<int>)
    requires Listing(order) && Keyed(t.polygon, false) && Keyed(t.line, false) && Keyed(t.ways, false)
    requires CreateWays(t, s, order).Success?
    ensures Elems(CreateWays(t, s, order).value.1) == Get(s, Ways) * (Present(t.polygon) + Present(t.line) + Present(t.ways))
  {
    var srcs := WaySources(t);
    CreateKindFinds(srcs, Way, s, Ways, order);
    FoundThree(srcs);
  }

  /** With faithful tables, `create_relations` writes exactly the wanted
      relations that `_polygon` or `_line` has under the negated id, or
      `_rels` has. */
  lemma RelationsFound(t: RelTables, jsonb: bool, s: Store, order: set<int> -> seq<int>)
    requires Listing(order) && Keyed(t.polygon, true) && Keyed(t.line, true) && Keyed(t.rels, false)
    requires CreateRelations(t, jsonb, s, order).Success?
    ensures Elems(CreateRelations(t, jsonb, s, order).value.1) == Get(s, Rels) * (NegSet(Present(t.polygon)) + NegSet(Present(t.line)) + Present(t.rels))
  {
    var srcs := RelSources(t, jsonb);
    CreateKindFinds(srcs, Relation, s, Rels, order);
    FoundThree(srcs);
  }

  lemma FoundThree(srcs: seq<Source>)
    requires |srcs| == 3
    ensures Found(srcs) == Signed(Present(srcs[0].table), srcs[0].negated) + Signed(Present(srcs[1].table), srcs[1].negated) + Signed(Present(srcs[2].table), srcs[2].negated)
  {
    var a, b, c := srcs[1..], srcs[2..], srcs[3..];
    assert c == [] && b[1..] == c && a[1..] == b;
    assert Found(b) == Signed(Present(srcs[2].table), srcs[2].negated) + Found(c);
    assert Found(a) == Signed(Present(srcs[1].table), srcs[1].negated) + Found(b);
  }
}
