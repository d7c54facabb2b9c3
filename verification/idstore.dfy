/** The accumulator of element ids (`DictAccumulator`): five named sets of
    positive OpenStreetMap ids. */
module IdStore {
  import opened Wrappers

  /** The names the extraction creates the accumulator with. */
  datatype Role = Nodes | NodesWithin | Ways | Rels | DoneIds

  datatype Store = Store(nodes: set<int>, nodesWithin: set<int>, ways: set<int>, rels: set<int>, doneIds: set<int>)

  /** `DictAccumulator(names)`: every role starts empty. */
  const Empty: Store := Store({}, {}, {}, {}, {})

  /** `data[k]`. */
  function Get(s: Store, k: Role): set<int> {
    match k
    case Nodes => s.nodes
    case NodesWithin => s.nodesWithin
    case Ways => s.ways
    case Rels => s.rels
    case DoneIds => s.doneIds
  }

  /** The store with role `k` replaced by `v`. */
  function With(s: Store, k: Role, v: set<int>): (r: Store)
    ensures Get(r, k) == v
    ensures Unchanged(s, r, k)
  {
    match k
    case Nodes => s.(nodes := v)
    case NodesWithin => s.(nodesWithin := v)
    case Ways => s.(ways := v)
    case Rels => s.(rels := v)
    case DoneIds => s.(doneIds := v)
  }

  /** Every role other than `k` is the same in `s` and `r`. */
  predicate Unchanged(s: Store, r: Store, k: Role) {
    forall k' :: k' != k ==> Get(r, k') == Get(s, k')
  }

  /** The store's invariant: it holds positive ids only. */
  predicate Valid(s: Store) {
    forall k, i :: i in Get(s, k) ==> i > 0
  }

  /** `add(k, i)`: the assertion rejects a non-positive id; otherwise only
      role `k` gains `i`. */
  function Add(s: Store, k: Role, i: int): (r: Result<Store>)
    ensures r.Failure? <==> i <= 0
    ensures r.Failure? ==> r.error == InvalidId(i)
    ensures r.Success? ==> Get(r.value, k) == Get(s, k) + {i} && Unchanged(s, r.value, k)
    ensures r.Success? && Valid(s) ==> Valid(r.value)
  {
    if i <= 0 then Failure(InvalidId(i)) else Success(With(s, k, Get(s, k) + {i}))
  }

  /** `clear(k)`: role `k` becomes empty, nothing else changes. */
  function Clear(s: Store, k: Role): (r: Store)
    ensures Get(r, k) == {}
    ensures Unchanged(s, r, k)
    ensures Valid(s) ==> Valid(r)
  {
    With(s, k, {})
  }

  /** The set of the ids of a sequence. */
  function Elems(ids: seq<int>): set<int> {
    set j | 0 <= j < |ids| :: ids[j]
  }

  /** Index of the first non-positive id, the one `add` rejects. */
  function FirstInvalid(ids: seq<int>): (j: nat)
    requires exists j :: 0 <= j < |ids| && ids[j] <= 0
    ensures j < |ids| && ids[j] <= 0
    ensures forall m :: 0 <= m < j ==> ids[m] > 0
  {
    if ids[0] <= 0 then 0 else 1 + FirstInvalid(ids[1..])
  }

  /** `for i in ids: a.add(k, i)`: stops with the assertion failure at the
      first non-positive id, otherwise role `k` gains exactly the ids. */
  function AddAll(s: Store, k: Role, ids: seq<int>): (r: Result<Store>)
    ensures r.Success? <==> forall j :: 0 <= j < |ids| ==> ids[j] > 0
    ensures r.Failure? ==> r.error == InvalidId(ids[FirstInvalid(ids)])
    ensures r.Success? ==> Get(r.value, k) == Get(s, k) + Elems(ids) && Unchanged(s, r.value, k)
    ensures r.Success? && Valid(s) ==> Valid(r.value)
    decreases |ids|
  {
    if |ids| == 0 then
      assert Elems(ids) == {};
      Success(s)
    else
      match Add(s, k, ids[0])
      case Failure(e) => Failure(e)
      case Success(s1) =>
        var r := AddAll(s1, k, ids[1..]);
        ElemsCons(ids);
        assert r.Success? ==> forall j :: 1 <= j < |ids| ==> ids[1..][j - 1] == ids[j];
        assert !r.Success? ==> exists j :: 0 <= j < |ids[1..]| && ids[1..][j] <= 0;
        r
  }

  /** The set of a non-empty sequence is its head and the set of its tail. */
  lemma ElemsCons(ids: seq<int>)
    requires |ids| > 0
    ensures Elems(ids) == {ids[0]} + Elems(ids[1..])
  {
    forall x | x in Elems(ids) ensures x in {ids[0]} + Elems(ids[1..]) {
      var j :| 0 <= j < |ids| && ids[j] == x;
      if j > 0 { assert ids[1..][j - 1] == x; }
    }
    forall x | x in Elems(ids[1..]) ensures x in Elems(ids) {
      var j :| 0 <= j < |ids[1..]| && ids[1..][j] == x;
      assert ids[j + 1] == x;
    }
  }

  lemma ElemsSnoc(xs: seq<int>, x: int)
    ensures Elems(xs + [x]) == Elems(xs) + {x}
  {
    forall y | y in Elems(xs) ensures y in Elems(xs + [x]) {
      var j :| 0 <= j < |xs| && xs[j] == y;
      assert (xs + [x])[j] == y;
    }
    assert (xs + [x])[|xs|] == x;
  }

  lemma ElemsAppend(a: seq<int>, b: seq<int>)
    ensures Elems(a + b) == Elems(a) + Elems(b)
  {
    forall x | x in Elems(a + b) ensures x in Elems(a) + Elems(b) {
      var j :| 0 <= j < |a + b| && (a + b)[j] == x;
      if j >= |a| { assert b[j - |a|] == x; }
    }
    forall x | x in Elems(a) ensures x in Elems(a + b) {
      var j :| 0 <= j < |a| && a[j] == x;
      assert (a + b)[j] == x;
    }
    forall x | x in Elems(b) ensures x in Elems(a + b) {
      var j :| 0 <= j < |b| && b[j] == x;
      assert (a + b)[|a| + j] == x;
    }
  }

  /** Two stores that agree on every role are equal. */
  lemma SameStore(a: Store, b: Store)
    requires forall k :: Get(a, k) == Get(b, k)
    ensures a == b
  {
    assert Get(a, Nodes) == Get(b, Nodes) && Get(a, NodesWithin) == Get(b, NodesWithin);
    assert Get(a, Ways) == Get(b, Ways) && Get(a, Rels) == Get(b, Rels) && Get(a, DoneIds) == Get(b, DoneIds);
  }

  /** No id occurs twice. */
  predicate Distinct(xs: seq<int>) {
    forall i, j :: 0 <= i < j < |xs| ==> xs[i] != xs[j]
  }

  /** `order` is one iteration order of the set `s`: each element exactly
      once. Python leaves the order of `for i in s` unspecified, so every
      operation that iterates a role takes the order as a parameter. */
  predicate IsListing(order: seq<int>, s: set<int>) {
    Distinct(order) && Elems(order) == s
  }

  /** `all_subtract(a, b)`: the ids of role `a` that are not in role `b`,
      collected by one pass over role `a` in the order `order`. */
  method AllSubtract(s: Store, a: Role, b: Role, order: seq<int>) returns (missing: set<int>)
    requires IsListing(order, Get(s, a))
    ensures forall i :: i in missing <==> i in Get(s, a) && i !in Get(s, b)
  {
    missing := {};
    for k := 0 to |order|
      invariant forall i :: i in missing <==> (exists j :: 0 <= j < k && order[j] == i) && i !in Get(s, b)
    {
      if order[k] !in Get(s, b) {
        missing := missing + {order[k]};
      }
    }
  }
}
