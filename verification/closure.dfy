/** The id closure of an extract (`all_nwr_within`, the `nodes_within`
    snapshot, `rels_children_nwr`, `ways_children_n`, `nodes_parent_wr`),
    with the backend as plain data: the rows each bounds query returns, the
    member list of every relation and the node list of every way. */
module Closure {
  import opened Wrappers
  import opened IdStore
  import opened Members
  import Controller

  /** A relation's `members` column in either schema dialect. */
  datatype MemberList = TextMembers(tokens: seq<string>) | JsonbMembers(objs: seq<JMember>)

  /** The children the closure reads from a member list, in order. */
  function Children(ml: MemberList): (r: seq<Result<Child>>)
    ensures ml.TextMembers? ==> r == LegacyChildren(ml.tokens)
    ensures ml.JsonbMembers? ==> r == JsonbChildren(ml.objs)
  {
    match ml
    case TextMembers(tokens) => LegacyChildren(tokens)
    case JsonbMembers(objs) => JsonbChildren(objs)
  }

  /** What the backend holds, as far as the closure asks. */
  datatype Db = Db(
    points: seq<int>,              // osm_id rows of the `_point` bounds query
    polygons: seq<int>,            // osm_id rows of the `_polygon` bounds query
    lines: seq<int>,               // osm_id rows of the `_line` bounds query
    rels: map<int, MemberList>,    // `_rels`: id -> members
    multipolygon: set<int>,        // rel ids whose tag `type` is `multipolygon`
    ways: map<int, seq<int>>)      // `_ways`: id -> nodes

  // ---------------------------------------------------------------------
  // Within phase
  // ---------------------------------------------------------------------

  /** The ways among signed polygon/line ids: the positive ones. */
  function Positives(ids: seq<int>): set<int> {
    set j | 0 <= j < |ids| && ids[j] > 0 :: ids[j]
  }

  /** The relations among signed polygon/line ids: the others, negated. */
  function Negatives(ids: seq<int>): set<int> {
    set j | 0 <= j < |ids| && ids[j] <= 0 :: -ids[j]
  }

  /** `if id > 0: add('ways', id) else: add('rels', -id)` for every row:
      osm2pgsql stores relations with negated ids, and an id of 0 is
      rejected by `add`. */
  function AddSigned(s: Store, ids: seq<int>): (r: Result<Store>)
    ensures r.Success? <==> forall j :: 0 <= j < |ids| ==> ids[j] != 0
    ensures r.Failure? ==> r.error == InvalidId(0)
    ensures r.Success? ==> r.value == s.(ways := s.ways + Positives(ids), rels := s.rels + Negatives(ids))
    decreases |ids|
  {
    if |ids| == 0 then
      assert Positives(ids) == {} && Negatives(ids) == {};
      Success(s)
    else
      var id := ids[0];
      var added := if id > 0 then Add(s, Ways, id) else Add(s, Rels, -id);
      if added.Failure? then Failure(added.error)
      else
        var r := AddSigned(added.value, ids[1..]);
        if r.Failure? then
          var j :| 0 <= j < |ids[1..]| && ids[1..][j] == 0;
          assert ids[j + 1] == 0;
          r
        else
          SameStore(added.value, if id > 0 then s.(ways := s.ways + {id}) else s.(rels := s.rels + {-id}));
          AddSignedStep(s, added.value, ids);
          r
  }

  /** One signed id added: what the rest add to the new store is what all
      of them add to the old one. */
  lemma AddSignedStep(s: Store, s1: Store, ids: seq<int>)
    requires |ids| > 0
    requires s1 == if ids[0] > 0 then s.(ways := s.ways + {ids[0]}) else s.(rels := s.rels + {-ids[0]})
    ensures s1.(ways := s1.ways + Positives(ids[1..]), rels := s1.rels + Negatives(ids[1..]))
      == s.(ways := s.ways + Positives(ids), rels := s.rels + Negatives(ids))
  {
    PositivesCons(ids);
  }

  lemma PositivesCons(ids: seq<int>)
    requires |ids| > 0
    ensures Positives(ids) == (if ids[0] > 0 then {ids[0]} else {}) + Positives(ids[1..])
    ensures Negatives(ids) == (if ids[0] > 0 then {} else {-ids[0]}) + Negatives(ids[1..])
  {
    forall x | x in Positives(ids[1..]) ensures x in Positives(ids) {
      var j :| 0 <= j < |ids[1..]| && ids[1..][j] > 0 && ids[1..][j] == x;
      assert ids[j + 1] == x;
    }
    forall x | x in Negatives(ids[1..]) ensures x in Negatives(ids) {
      var j :| 0 <= j < |ids[1..]| && ids[1..][j] <= 0 && -ids[1..][j] == x;
      assert ids[j + 1] == -x;
    }
    forall x | x in Positives(ids) ensures x in (if ids[0] > 0 then {ids[0]} else {}) + Positives(ids[1..]) {
      var j :| 0 <= j < |ids| && ids[j] > 0 && ids[j] == x;
      if j > 0 { assert ids[1..][j - 1] == x; }
    }
    forall x | x in Negatives(ids) ensures x in (if ids[0] > 0 then {} else {-ids[0]}) + Negatives(ids[1..]) {
      var j :| 0 <= j < |ids| && ids[j] <= 0 && -ids[j] == x;
      if j > 0 { assert ids[1..][j - 1] == -x; }
    }
  }

  /** The ways the bounds queries select: positive polygon and line ids. */
  function WithinWays(db: Db): set<int> {
    Positives(db.polygons) + Positives(db.lines)
  }

  /** The relations the bounds queries select: negated polygon and line ids. */
  function WithinRels(db: Db): set<int> {
    Negatives(db.polygons) + Negatives(db.lines)
  }

  /** No row can be rejected: point ids are positive, polygon and line ids
      non-zero. */
  predicate WithinOk(db: Db) {
    && (forall j :: 0 <= j < |db.points| ==> db.points[j] > 0)
    && (forall j :: 0 <= j < |db.polygons| ==> db.polygons[j] != 0)
    && (forall j :: 0 <= j < |db.lines| ==> db.lines[j] != 0)
  }

  /** `all_nwr_within`: the point rows go to `nodes`; the polygon rows and
      then the line rows are split by sign into `ways` and `rels`. */
  function Within(db: Db, s: Store): (r: Result<Store>)
    ensures r.Success? <==> WithinOk(db)
    ensures r.Failure? ==> r.error.InvalidId? && r.error.id <= 0
    ensures r.Success? ==> r.value == s.(nodes := s.nodes + Elems(db.points),
                                         ways := s.ways + WithinWays(db), rels := s.rels + WithinRels(db))
  {
    var s1 := AddAll(s, Nodes, db.points);
    if s1.Failure? then
      assert db.points[FirstInvalid(db.points)] <= 0;
      Failure(s1.error)
    else
      SameStore(s1.value, s.(nodes := s.nodes + Elems(db.points)));
      var s2 := AddSigned(s1.value, db.polygons);
      if s2.Failure? then Failure(s2.error)
      else AddSigned(s2.value, db.lines)
  }

  /** `for i in a.all('nodes'): a.add('nodes_within', i)`, iterating in the
      order `order`. */
  function Snapshot(s: Store, order: seq<int>): (r: Result<Store>)
    requires IsListing(order, s.nodes)
    ensures r.Success? <==> forall i :: i in s.nodes ==> i > 0
    ensures r.Success? ==> r.value == s.(nodesWithin := s.nodesWithin + s.nodes)
  {
    var r := AddAll(s, NodesWithin, order);
    if r.Success? then
      SameStore(r.value, s.(nodesWithin := s.nodesWithin + s.nodes));
      r
    else
      assert order[FirstInvalid(order)] in Elems(order);
      r
  }

  /** Right after the two first steps, `nodes_within` equals `nodes`: both
      are exactly the point rows. */
  lemma SnapshotEqualsNodes(db: Db, order: seq<int>)
    requires WithinOk(db) && IsListing(order, Elems(db.points))
    ensures Within(db, Empty).Success?
    ensures Snapshot(Within(db, Empty).value, order).Success?
    ensures Get(Snapshot(Within(db, Empty).value, order).value, NodesWithin) == Elems(db.points)
    ensures Get(Snapshot(Within(db, Empty).value, order).value, Nodes) == Elems(db.points)
  {
    var s1 := Within(db, Empty).value;
    assert s1.nodes == Elems(db.points);
    forall i | i in s1.nodes ensures i > 0 {
      var j :| 0 <= j < |db.points| && db.points[j] == i;
    }
  }

  // ---------------------------------------------------------------------
  // Children phase: relation members
  // ---------------------------------------------------------------------

  /** The ids of kind `k` among successfully read children. */
  function KindIds(cs: seq<Result<Child>>, k: Kind): set<int> {
    set j | 0 <= j < |cs| && cs[j].Success? && cs[j].value.kind == k :: cs[j].value.id
  }

  lemma KindIdsCons(cs: seq<Result<Child>>, k: Kind)
    requires |cs| > 0
    ensures KindIds(cs, k) == (if cs[0].Success? && cs[0].value.kind == k then {cs[0].value.id} else {}) + KindIds(cs[1..], k)
  {
    forall x | x in KindIds(cs[1..], k) ensures x in KindIds(cs, k) {
      var j :| 0 <= j < |cs[1..]| && cs[1..][j].Success? && cs[1..][j].value.kind == k && cs[1..][j].value.id == x;
      assert cs[j + 1] == cs[1..][j];
    }
    forall x | x in KindIds(cs, k) ensures x in (if cs[0].Success? && cs[0].value.kind == k then {cs[0].value.id} else {}) + KindIds(cs[1..], k) {
      var j :| 0 <= j < |cs| && cs[j].Success? && cs[j].value.kind == k && cs[j].value.id == x;
      if j > 0 { assert cs[1..][j - 1] == cs[j]; }
    }
  }

  /** Every member was read, and every node and way id is positive (the
      relation ids are only buffered, not yet checked). */
  predicate ChildrenOk(cs: seq<Result<Child>>) {
    forall j :: 0 <= j < |cs| ==> cs[j].Success? && (cs[j].value.kind != Relation ==> cs[j].value.id > 0)
  }

  lemma ChildrenOkCons(cs: seq<Result<Child>>)
    requires |cs| > 0
    ensures ChildrenOk(cs) <==>
      cs[0].Success? && (cs[0].value.kind != Relation ==> cs[0].value.id > 0) && ChildrenOk(cs[1..])
  {
    assert forall j :: 1 <= j < |cs| ==> cs[1..][j - 1] == cs[j];
    if !ChildrenOk(cs[1..]) {
      var j :| 0 <= j < |cs[1..]| && !(cs[1..][j].Success? && (cs[1..][j].value.kind != Relation ==> cs[1..][j].value.id > 0));
      assert cs[j + 1] == cs[1..][j];
    }
  }

  /** The members of one relation applied in order: nodes and ways are
      added, relations go to the buffer. */
  function ApplyChildren(s: Store, buf: seq<int>, cs: seq<Result<Child>>): (r: Result<(Store, seq<int>)>)
    ensures r.Success? ==> r.value.0 == s.(nodes := s.nodes + KindIds(cs, Node), ways := s.ways + KindIds(cs, Way))
    ensures r.Success? ==> Elems(r.value.1) == Elems(buf) + KindIds(cs, Relation)
    decreases |cs|
  {
    if |cs| == 0 then
      assert KindIds(cs, Node) == {} && KindIds(cs, Way) == {} && KindIds(cs, Relation) == {};
      Success((s, buf))
    else
      match cs[0]
      case Failure(e) => Failure(e)
      case Success(c) =>
        match c.kind
        case Relation =>
          ApplyStep(s, buf, cs, s, buf + [c.id]);
          ApplyChildren(s, buf + [c.id], cs[1..])
        case Node =>
          var added := Add(s, Nodes, c.id);
          if added.Failure? then Failure(added.error)
          else
            SameStore(added.value, s.(nodes := s.nodes + {c.id}));
            ApplyStep(s, buf, cs, added.value, buf);
            ApplyChildren(added.value, buf, cs[1..])
        case Way =>
          var added := Add(s, Ways, c.id);
          if added.Failure? then Failure(added.error)
          else
            SameStore(added.value, s.(ways := s.ways + {c.id}));
            ApplyStep(s, buf, cs, added.value, buf);
            ApplyChildren(added.value, buf, cs[1..])
  }

  /** One member applied: what the rest of the members add to the new
      store and buffer is what all of them add to the old ones. */
  lemma ApplyStep(s: Store, buf: seq<int>, cs: seq<Result<Child>>, s1: Store, buf1: seq<int>)
    requires |cs| > 0 && cs[0].Success?
    requires cs[0].value.kind == Relation ==> s1 == s && buf1 == buf + [cs[0].value.id]
    requires cs[0].value.kind == Node ==> s1 == s.(nodes := s.nodes + {cs[0].value.id}) && buf1 == buf
    requires cs[0].value.kind == Way ==> s1 == s.(ways := s.ways + {cs[0].value.id}) && buf1 == buf
    ensures s1.(nodes := s1.nodes + KindIds(cs[1..], Node), ways := s1.ways + KindIds(cs[1..], Way))
      == s.(nodes := s.nodes + KindIds(cs, Node), ways := s.ways + KindIds(cs, Way))
    ensures Elems(buf1) + KindIds(cs[1..], Relation) == Elems(buf) + KindIds(cs, Relation)
  {
    KindIdsCons(cs, Node);
    KindIdsCons(cs, Way);
    KindIdsCons(cs, Relation);
    if cs[0].value.kind == Relation {
      ElemsSnoc(buf, cs[0].value.id);
    }
  }

  /** Applying a relation's members fails exactly when one of them cannot
      be read or is a non-positive node or way id. */
  lemma {:induction false} ApplyChildrenSucceeds(s: Store, buf: seq<int>, cs: seq<Result<Child>>)
    ensures ApplyChildren(s, buf, cs).Success? <==> ChildrenOk(cs)
    decreases |cs|
  {
    if |cs| > 0 {
      ChildrenOkCons(cs);
      if cs[0].Success? {
        var c := cs[0].value;
        if c.kind == Relation {
          ApplyChildrenSucceeds(s, buf + [c.id], cs[1..]);
        } else if c.id > 0 {
          var added := Add(s, if c.kind == Node then Nodes else Ways, c.id);
          ApplyChildrenSucceeds(added.value, buf, cs[1..]);
        }
      }
    }
  }

  /** The relation is read by the member query: it exists, and it is a
      multipolygon when only those are asked for. */
  predicate Scanned(db: Db, rel: int, onlyMultipolygon: bool) {
    rel in db.rels && (!onlyMultipolygon || rel in db.multipolygon)
  }

  /** The children of kind `k` of the scanned relations among `rels`. */
  function ChildIds(db: Db, rels: set<int>, onlyMultipolygon: bool, k: Kind): set<int> {
    set rel, x | rel in rels && Scanned(db, rel, onlyMultipolygon) && x in KindIds(Children(db.rels[rel]), k) :: x
  }

  /** Every scanned relation among `rels` has well-formed members. */
  predicate RelsOk(db: Db, rels: set<int>, onlyMultipolygon: bool) {
    forall rel :: rel in rels && Scanned(db, rel, onlyMultipolygon) ==> ChildrenOk(Children(db.rels[rel]))
  }

  lemma ChildIdsCons(db: Db, order: seq<int>, onlyMultipolygon: bool, k: Kind)
    requires |order| > 0
    ensures ChildIds(db, Elems(order), onlyMultipolygon, k)
      == (if Scanned(db, order[0], onlyMultipolygon) then KindIds(Children(db.rels[order[0]]), k) else {})
         + ChildIds(db, Elems(order[1..]), onlyMultipolygon, k)
  {
    ElemsCons(order);
  }

  /** One pass of the member query over the relations in `order`. */
  function RelsPass(db: Db, s: Store, buf: seq<int>, onlyMultipolygon: bool, order: seq<int>): (r: Result<(Store, seq<int>)>)
    ensures r.Success? ==> r.value.0.nodes == s.nodes + ChildIds(db, Elems(order), onlyMultipolygon, Node)
    ensures r.Success? ==> r.value.0.ways == s.ways + ChildIds(db, Elems(order), onlyMultipolygon, Way)
    ensures r.Success? ==> r.value.0 == r.value.0.(nodesWithin := s.nodesWithin, rels := s.rels, doneIds := s.doneIds)
    ensures r.Success? ==> Elems(r.value.1) == Elems(buf) + ChildIds(db, Elems(order), onlyMultipolygon, Relation)
    decreases |order|
  {
    if |order| == 0 then
      assert Elems(order) == {};
      Success((s, buf))
    else
      var rel := order[0];
      if Scanned(db, rel, onlyMultipolygon) then
        var step := ApplyChildren(s, buf, Children(db.rels[rel]));
        if step.Failure? then Failure(step.error)
        else
          RelsStep(db, s, buf, onlyMultipolygon, order, step.value.0, step.value.1);
          RelsPass(db, step.value.0, step.value.1, onlyMultipolygon, order[1..])
      else
        RelsStep(db, s, buf, onlyMultipolygon, order, s, buf);
        RelsPass(db, s, buf, onlyMultipolygon, order[1..])
  }

  /** One relation of the pass handled: what the rest of the pass adds to
      the new store and buffer is what the whole pass adds to the old. */
  lemma RelsStep(db: Db, s: Store, buf: seq<int>, onlyMultipolygon: bool, order: seq<int>, s1: Store, buf1: seq<int>)
    requires |order| > 0
    requires Scanned(db, order[0], onlyMultipolygon) ==>
      var cs := Children(db.rels[order[0]]);
      s1 == s.(nodes := s.nodes + KindIds(cs, Node), ways := s.ways + KindIds(cs, Way))
      && Elems(buf1) == Elems(buf) + KindIds(cs, Relation)
    requires !Scanned(db, order[0], onlyMultipolygon) ==> s1 == s && buf1 == buf
    ensures s1.nodes + ChildIds(db, Elems(order[1..]), onlyMultipolygon, Node) == s.nodes + ChildIds(db, Elems(order), onlyMultipolygon, Node)
    ensures s1.ways + ChildIds(db, Elems(order[1..]), onlyMultipolygon, Way) == s.ways + ChildIds(db, Elems(order), onlyMultipolygon, Way)
    ensures s1.nodesWithin == s.nodesWithin && s1.rels == s.rels && s1.doneIds == s.doneIds
    ensures Elems(buf1) + ChildIds(db, Elems(order[1..]), onlyMultipolygon, Relation)
      == Elems(buf) + ChildIds(db, Elems(order), onlyMultipolygon, Relation)
  {
    RelsStepKind(db, onlyMultipolygon, order, Node, s.nodes, s1.nodes);
    RelsStepKind(db, onlyMultipolygon, order, Way, s.ways, s1.ways);
    RelsStepKind(db, onlyMultipolygon, order, Relation, Elems(buf), Elems(buf1));
  }

  /** The same step for the ids of one kind. */
  lemma RelsStepKind(db: Db, onlyMultipolygon: bool, order: seq<int>, k: Kind, a: set<int>, a1: set<int>)
    requires |order| > 0
    requires a1 == a + if Scanned(db, order[0], onlyMultipolygon) then KindIds(Children(db.rels[order[0]]), k) else {}
    ensures a1 + ChildIds(db, Elems(order[1..]), onlyMultipolygon, k) == a + ChildIds(db, Elems(order), onlyMultipolygon, k)
  {
    ChildIdsCons(db, order, onlyMultipolygon, k);
  }

  /** A pass fails exactly when a scanned relation has a malformed member. */
  lemma {:induction false} RelsPassSucceeds(db: Db, s: Store, buf: seq<int>, onlyMultipolygon: bool, order: seq<int>)
    ensures RelsPass(db, s, buf, onlyMultipolygon, order).Success? <==> RelsOk(db, Elems(order), onlyMultipolygon)
    decreases |order|
  {
    if |order| == 0 {
      assert Elems(order) == {};
    } else {
      ElemsCons(order);
      var rel := order[0];
      if Scanned(db, rel, onlyMultipolygon) {
        var step := ApplyChildren(s, buf, Children(db.rels[rel]));
        ApplyChildrenSucceeds(s, buf, Children(db.rels[rel]));
        if step.Success? {
          RelsPassSucceeds(db, step.value.0, step.value.1, onlyMultipolygon, order[1..]);
        }
      } else {
        RelsPassSucceeds(db, s, buf, onlyMultipolygon, order[1..]);
      }
    }
  }

  /** Every id of the set is positive. */
  predicate AllPositive(ids: set<int>) {
    forall i :: i in ids ==> i > 0
  }

  /** The relations after the first pass: those given and their relation
      children. */
  function FirstPassRels(db: Db, rels: set<int>, onlyMultipolygon: bool): set<int> {
    rels + ChildIds(db, rels, onlyMultipolygon, Relation)
  }

  /** One pass followed by `for rel_id in buffer_add_rels: a.add('rels', rel_id)`. */
  function PassAndAdd(db: Db, s: Store, onlyMultipolygon: bool, order: seq<int>): (r: Result<Store>)
    ensures r.Success? ==> r.value.nodes == s.nodes + ChildIds(db, Elems(order), onlyMultipolygon, Node)
    ensures r.Success? ==> r.value.ways == s.ways + ChildIds(db, Elems(order), onlyMultipolygon, Way)
    ensures r.Success? ==> r.value.rels == s.rels + ChildIds(db, Elems(order), onlyMultipolygon, Relation)
    ensures r.Success? ==> r.value.nodesWithin == s.nodesWithin && r.value.doneIds == s.doneIds
  {
    var pass := RelsPass(db, s, [], onlyMultipolygon, order);
    if pass.Failure? then Failure(pass.error)
    else
      assert Elems([]) == {};
      var (s1, buf) := pass.value;
      var s2 := AddAll(s1, Rels, buf);
      if s2.Failure? then s2
      else
        SameStore(s2.value, s1.(rels := s1.rels + Elems(buf)));
        s2
  }

  /** `rels_children_nwr`. Two passes over the relations; after each, the
      buffered relation children are added to `rels`. With `without_rels`
      the function returns after the first pass and the buffer is dropped.
      The second pass runs over the relations as the first pass left them,
      in the order `order2`. */
  function RelsChildren(db: Db, s: Store, onlyMultipolygon: bool, withoutRels: bool, order: seq<int>, order2: seq<int>): (r: Result<Store>)
    requires IsListing(order, s.rels)
    requires withoutRels || IsListing(order2, FirstPassRels(db, s.rels, onlyMultipolygon))
    ensures withoutRels && r.Success? ==>
      r.value == s.(nodes := s.nodes + ChildIds(db, s.rels, onlyMultipolygon, Node),
                    ways := s.ways + ChildIds(db, s.rels, onlyMultipolygon, Way))
    ensures !withoutRels && r.Success? ==>
      var rels1 := FirstPassRels(db, s.rels, onlyMultipolygon);
      r.value == s.(nodes := s.nodes + ChildIds(db, rels1, onlyMultipolygon, Node),
                    ways := s.ways + ChildIds(db, rels1, onlyMultipolygon, Way),
                    rels := rels1 + ChildIds(db, rels1, onlyMultipolygon, Relation))
  {
    if withoutRels then
      var pass1 := RelsPass(db, s, [], onlyMultipolygon, order);
      if pass1.Failure? then Failure(pass1.error) else Success(pass1.value.0)
    else
      var rels1 := FirstPassRels(db, s.rels, onlyMultipolygon);
      ChildIdsMonotone(db, s.rels, rels1, onlyMultipolygon);
      var s2 := PassAndAdd(db, s, onlyMultipolygon, order);
      if s2.Failure? then s2
      else
        var s3 := PassAndAdd(db, s2.value, onlyMultipolygon, order2);
        if s3.Failure? then s3
        else
          var n0, n1 := ChildIds(db, s.rels, onlyMultipolygon, Node), ChildIds(db, rels1, onlyMultipolygon, Node);
          var w0, w1 := ChildIds(db, s.rels, onlyMultipolygon, Way), ChildIds(db, rels1, onlyMultipolygon, Way);
          var r1 := ChildIds(db, rels1, onlyMultipolygon, Relation);
          assert s3.value.nodes == s.nodes + n1 by { Absorb(s.nodes, n0, n1); }
          assert s3.value.ways == s.ways + w1 by { Absorb(s.ways, w0, w1); }
          assert s3.value.rels == rels1 + r1;
          SameStore(s3.value, s.(nodes := s.nodes + n1, ways := s.ways + w1, rels := rels1 + r1));
          s3
  }

  lemma Absorb(a: set<int>, b: set<int>, c: set<int>)
    requires b <= c
    ensures a + b + c == a + c
  {
  }

  /** `AddAll` of a buffer succeeds exactly when all its ids are positive. */
  lemma AddAllSucceeds(s: Store, k: Role, buf: seq<int>)
    ensures AddAll(s, k, buf).Success? <==> AllPositive(Elems(buf))
  {
    if !AddAll(s, k, buf).Success? {
      assert buf[FirstInvalid(buf)] in Elems(buf);
    }
  }

  /** `rels_children_nwr` fails exactly when a scanned relation has a
      malformed member, or, when relation children are kept, when one of
      them is not a positive id. */
  lemma RelsChildrenSucceeds(db: Db, s: Store, onlyMultipolygon: bool, withoutRels: bool, order: seq<int>, order2: seq<int>)
    requires IsListing(order, s.rels)
    requires withoutRels || IsListing(order2, FirstPassRels(db, s.rels, onlyMultipolygon))
    ensures withoutRels ==>
      (RelsChildren(db, s, onlyMultipolygon, withoutRels, order, order2).Success? <==> RelsOk(db, s.rels, onlyMultipolygon))
    ensures !withoutRels ==>
      var rels1 := FirstPassRels(db, s.rels, onlyMultipolygon);
      var ok := RelsOk(db, rels1, onlyMultipolygon) && AllPositive(ChildIds(db, rels1, onlyMultipolygon, Relation));
      RelsChildren(db, s, onlyMultipolygon, withoutRels, order, order2).Success? <==> ok
  {
    var rels1 := FirstPassRels(db, s.rels, onlyMultipolygon);
    ChildIdsMonotone(db, s.rels, rels1, onlyMultipolygon);
    RelsPassSucceeds(db, s, [], onlyMultipolygon, order);
    var pass1 := RelsPass(db, s, [], onlyMultipolygon, order);
    if pass1.Success? && !withoutRels {
      var (s1, buf1) := pass1.value;
      AddAllSucceeds(s1, Rels, buf1);
      assert Elems([]) == {};
      var s2 := AddAll(s1, Rels, buf1);
      if s2.Success? {
        RelsPassSucceeds(db, s2.value, [], onlyMultipolygon, order2);
        var pass2 := RelsPass(db, s2.value, [], onlyMultipolygon, order2);
        if pass2.Success? {
          AddAllSucceeds(pass2.value.0, Rels, pass2.value.1);
        }
      }
    }
  }

  /** More relations have more children, and all checks on a larger set
      cover the smaller one. */
  lemma ChildIdsMonotone(db: Db, a: set<int>, b: set<int>, onlyMultipolygon: bool)
    requires a <= b
    ensures forall k :: ChildIds(db, a, onlyMultipolygon, k) <= ChildIds(db, b, onlyMultipolygon, k)
    ensures RelsOk(db, b, onlyMultipolygon) ==> RelsOk(db, a, onlyMultipolygon)
  {
  }

  // ---------------------------------------------------------------------
  // Children phase: way nodes
  // ---------------------------------------------------------------------

  /** The nodes of the known ways among `ws`. */
  function WayNodes(db: Db, ws: set<int>): set<int> {
    set w, j | w in ws && w in db.ways && 0 <= j < |db.ways[w]| :: db.ways[w][j]
  }

  lemma WayNodesCons(db: Db, order: seq<int>)
    requires |order| > 0
    ensures WayNodes(db, Elems(order))
      == (if order[0] in db.ways then Elems(db.ways[order[0]]) else {}) + WayNodes(db, Elems(order[1..]))
  {
    ElemsCons(order);
    var w := order[0];
    if w in db.ways {
      forall x | x in Elems(db.ways[w]) ensures x in WayNodes(db, Elems(order)) {
        var j :| 0 <= j < |db.ways[w]| && db.ways[w][j] == x;
      }
    }
  }

  /** The way query over the ways in `order`: each known way's node ids are
      added. */
  function ExpandWays(db: Db, s: Store, order: seq<int>): (r: Result<Store>)
    ensures r.Success? ==> r.value == s.(nodes := s.nodes + WayNodes(db, Elems(order)))
    decreases |order|
  {
    if |order| == 0 then
      assert Elems(order) == {};
      Success(s)
    else
      WayNodesCons(db, order);
      var w := order[0];
      var s1 := if w in db.ways then AddAll(s, Nodes, db.ways[w]) else Success(s);
      if s1.Failure? then s1
      else
        assert w in db.ways ==> s1.value == s.(nodes := s.nodes + Elems(db.ways[w])) by {
          if w in db.ways { SameStore(s1.value, s.(nodes := s.nodes + Elems(db.ways[w]))); }
        }
        ExpandWays(db, s1.value, order[1..])
  }

  /** Expanding ways fails exactly when one of their node ids is not
      positive. */
  lemma {:induction false} ExpandWaysSucceeds(db: Db, s: Store, order: seq<int>)
    ensures ExpandWays(db, s, order).Success? <==> AllPositive(WayNodes(db, Elems(order)))
    decreases |order|
  {
    if |order| == 0 {
      assert Elems(order) == {};
    } else {
      WayNodesCons(db, order);
      var w := order[0];
      if w in db.ways {
        AddAllSucceeds(s, Nodes, db.ways[w]);
        var s1 := AddAll(s, Nodes, db.ways[w]);
        if s1.Success? {
          ExpandWaysSucceeds(db, s1.value, order[1..]);
        }
      } else {
        ExpandWaysSucceeds(db, s, order[1..]);
      }
    }
  }

  /** `ways_children_n`: every node of every way in `ways`, iterated in the
      order `order`, joins `nodes`. */
  function WaysChildren(db: Db, s: Store, order: seq<int>): (r: Result<Store>)
    requires IsListing(order, s.ways)
    ensures r.Success? ==> r.value == s.(nodes := s.nodes + WayNodes(db, s.ways))
    ensures r.Success? <==> AllPositive(WayNodes(db, s.ways))
  {
    ExpandWaysSucceeds(db, s, order);
    ExpandWays(db, s, order)
  }

  // ---------------------------------------------------------------------
  // Parents phase
  // ---------------------------------------------------------------------

  /** The rows of the two reverse lookups for one chunk of node ids. */
  datatype ParentRows = ParentRows(ways: seq<int>, rels: seq<int>)

  /** The ways that have a node among `ns`. */
  function ParentWays(db: Db, ns: set<int>): set<int> {
    set w, j | w in db.ways && 0 <= j < |db.ways[w]| && db.ways[w][j] in ns :: w
  }

  /** The relations that have a node member among `ns`. */
  function ParentRels(db: Db, ns: set<int>): set<int> {
    set rel, j | rel in db.rels && 0 <= j < |Children(db.rels[rel])| && Children(db.rels[rel])[j].Success?
      && Children(db.rels[rel])[j].value.kind == Node && Children(db.rels[rel])[j].value.id in ns :: rel
  }

  /** The backend answered the chunk with exactly its parents. */
  predicate Faithful(db: Db, b: Controller.Batch<ParentRows>) {
    Elems(b.results.ways) == ParentWays(db, Elems(b.chunk)) && Elems(b.results.rels) == ParentRels(db, Elems(b.chunk))
  }

  /** All way rows of all batches. */
  function BatchWays(bs: seq<Controller.Batch<ParentRows>>): set<int> {
    if |bs| == 0 then {} else Elems(bs[0].results.ways) + BatchWays(bs[1..])
  }

  /** All relation rows of all batches. */
  function BatchRels(bs: seq<Controller.Batch<ParentRows>>): set<int> {
    if |bs| == 0 then {} else Elems(bs[0].results.rels) + BatchRels(bs[1..])
  }

  /** The loop body of `nodes_parent_wr` over every yielded batch: way rows
      join `ways`, relation rows join `rels`. */
  function ApplyParents(s: Store, bs: seq<Controller.Batch<ParentRows>>): (r: Result<Store>)
    ensures r.Success? ==> r.value == s.(ways := s.ways + BatchWays(bs), rels := s.rels + BatchRels(bs))
    decreases |bs|
  {
    if |bs| == 0 then Success(s)
    else
      var s1 := AddAll(s, Ways, bs[0].results.ways);
      if s1.Failure? then s1
      else
        var s2 := AddAll(s1.value, Rels, bs[0].results.rels);
        if s2.Failure? then s2
        else
          SameStore(s2.value, s.(ways := s.ways + Elems(bs[0].results.ways), rels := s.rels + Elems(bs[0].results.rels)));
          ApplyParents(s2.value, bs[1..])
  }

  /** With faithful answers, the batches hold exactly the parents of all the
      ids the controller processed. */
  lemma {:induction false} FaithfulBatches(db: Db, bs: seq<Controller.Batch<ParentRows>>)
    requires forall k :: 0 <= k < |bs| ==> Faithful(db, bs[k])
    ensures BatchWays(bs) == ParentWays(db, Elems(Controller.Flatten(bs)))
    ensures BatchRels(bs) == ParentRels(db, Elems(Controller.Flatten(bs)))
  {
    if |bs| == 0 {
      assert Elems([]) == {};
    } else {
      FaithfulBatches(db, bs[1..]);
      assert Faithful(db, bs[0]);
      ElemsAppend(bs[0].chunk, Controller.Flatten(bs[1..]));
    }
  }

  /** `nodes_parent_wr(only_nodes_within=True)`: the controller walks
      `nodes_within` in the order `order`, the backend answering as the
      script says, and the parent rows are added. When the loop completes
      with faithful answers, the parents of every node in `nodes_within`
      have joined. */
  function NodesParentWr(db: Db, s: Store, order: seq<int>, script: seq<Controller.Answer<ParentRows>>): (r: Result<Store>)
    requires IsListing(order, s.nodesWithin)
    ensures r.Success? ==> r.value.nodes == s.nodes && r.value.nodesWithin == s.nodesWithin && r.value.doneIds == s.doneIds
    ensures r.Success? ==> s.ways <= r.value.ways && s.rels <= r.value.rels
    ensures
      var run := Controller.ParentMultiquery(s, NodesWithin, order, script);
      r.Success? && run.done && (forall k :: 0 <= k < |run.batches| ==> Faithful(db, run.batches[k])) ==>
      r.value.ways == s.ways + ParentWays(db, s.nodesWithin) && r.value.rels == s.rels + ParentRels(db, s.nodesWithin)
  {
    var run := Controller.ParentMultiquery(s, NodesWithin, order, script);
    var faithful := forall k :: 0 <= k < |run.batches| ==> Faithful(db, run.batches[k]);
    var ids := Elems(Controller.Flatten(run.batches));
    assert faithful ==> (BatchWays(run.batches) == ParentWays(db, ids) && BatchRels(run.batches) == ParentRels(db, ids)) by {
      if faithful { FaithfulBatches(db, run.batches); }
    }
    ApplyParents(s, run.batches)
  }

  // ---------------------------------------------------------------------
  // The phases in order
  // ---------------------------------------------------------------------

  /** The ways known at the end of the Children phase: those within bounds
      and the way members of the multipolygons within bounds. */
  function ChildrenWays(db: Db): set<int> {
    WithinWays(db) + ChildIds(db, WithinRels(db), true, Way)
  }

  /** The Within and Children phases of `stream_osm_xml`: `all_nwr_within`,
      the `nodes_within` snapshot, one pass over the members of multipolygon
      relations with relation children dropped, and the nodes of all ways.
      The orders are the iteration orders of the sets each step walks. */
  function Collected(db: Db, nodeOrder: seq<int>, relOrder: seq<int>, wayOrder: seq<int>): (r: Result<Store>)
    requires IsListing(nodeOrder, Elems(db.points))
    requires IsListing(relOrder, WithinRels(db))
    requires IsListing(wayOrder, ChildrenWays(db))
    ensures r.Success? ==> r.value.nodesWithin == Elems(db.points) && r.value.doneIds == {}
    ensures r.Success? ==>
      r.value.nodes == Elems(db.points) + ChildIds(db, WithinRels(db), true, Node) + WayNodes(db, ChildrenWays(db))
    ensures r.Success? ==> r.value.ways == ChildrenWays(db) && r.value.rels == WithinRels(db)
  {
    var s1 := Within(db, Empty);
    if s1.Failure? then s1
    else
      var s2 := Snapshot(s1.value, nodeOrder);
      if s2.Failure? then s2
      else
        var s3 := RelsChildren(db, s2.value, true, true, relOrder, []);
        if s3.Failure? then s3
        else WaysChildren(db, s3.value, wayOrder)
  }

  /** `stream_osm_xml` up to the write phase: the Within and Children
      phases, then the parents of `nodes_within`. The node ids the final
      store holds are fixed before the Parents phase: ways found only there
      do not contribute their nodes. */
  function Extract(db: Db, nodeOrder: seq<int>, relOrder: seq<int>, wayOrder: seq<int>,
                   script: seq<Controller.Answer<ParentRows>>): (r: Result<Store>)
    requires IsListing(nodeOrder, Elems(db.points))
    requires IsListing(relOrder, WithinRels(db))
    requires IsListing(wayOrder, ChildrenWays(db))
    ensures r.Success? ==> r.value.nodesWithin == Elems(db.points) && r.value.doneIds == {}
    ensures r.Success? ==>
      r.value.nodes == Elems(db.points) + ChildIds(db, WithinRels(db), true, Node) + WayNodes(db, ChildrenWays(db))
    ensures r.Success? ==> ChildrenWays(db) <= r.value.ways && WithinRels(db) <= r.value.rels
    ensures
      var run := Controller.RunOver(nodeOrder, script);
      r.Success? && run.done && (forall k :: 0 <= k < |run.batches| ==> Faithful(db, run.batches[k])) ==>
      && r.value.ways == ChildrenWays(db) + ParentWays(db, Elems(db.points))
      && r.value.rels == WithinRels(db) + ParentRels(db, Elems(db.points))
  {
    var s4 :- Collected(db, nodeOrder, relOrder, wayOrder);
    assert Controller.ParentMultiquery(s4, NodesWithin, nodeOrder, script) == Controller.RunOver(nodeOrder, script);
    var r := NodesParentWr(db, s4, nodeOrder, script);
    assert r.Success? ==> r.value.nodes == s4.nodes && r.value.nodesWithin == s4.nodesWithin && r.value.doneIds == s4.doneIds;
    r
  }
}
