/** Row dictionaries and tag dictionaries. A Python `dict` keeps its keys in
    insertion order, so it is modelled as an association list; `Lookup`
    finds the first entry with a key, which is the only one when the keys
    are unique, as they are in every dict the program builds. */
module Tags {
  import opened Wrappers
  import opened Members

  /** A column value as the backend driver returns it. */
  datatype Value =
    | Text(s: string)                       // text
    | Int(i: int)                           // int4, int8, bigint
    | Real(repr: string)                    // float4, float8: only `str()` of it matters
    | IdArray(ids: seq<int>)                // bigint[] (way nodes)
    | TextArray(items: seq<string>)         // text[] (legacy relation members)
    | MemberObjects(objs: seq<JMember>)     // jsonb array of member objects
    | Object(entries: seq<(string, Value)>) // json/jsonb object (tags)

  type Dict = seq<(string, Value)>

  function Keys(d: Dict): (r: seq<string>)
    ensures |r| == |d| && forall j :: 0 <= j < |d| ==> r[j] == d[j].0
  {
    seq(|d|, j requires 0 <= j < |d| => d[j].0)
  }

  predicate HasKey(d: Dict, k: string) {
    exists j :: 0 <= j < |d| && d[j].0 == k
  }

  predicate UniqueKeys(d: Dict) {
    forall i, j :: 0 <= i < j < |d| ==> d[i].0 != d[j].0
  }

  /** `d.get(k)`: the value of the first entry with key `k`. */
  function Lookup(d: Dict, k: string): (r: Option<Value>)
    ensures r.Some? <==> HasKey(d, k)
    ensures r.Some? ==> exists j :: 0 <= j < |d| && d[j] == (k, r.value)
  {
    if |d| == 0 then None
    else if d[0].0 == k then Some(d[0].1)
    else
      var r := Lookup(d[1..], k);
      assert forall j :: 1 <= j < |d| ==> d[1..][j - 1] == d[j];
      assert HasKey(d[1..], k) ==> HasKey(d, k) by {
        if HasKey(d[1..], k) {
          var j :| 0 <= j < |d[1..]| && d[1..][j].0 == k;
          assert d[j + 1].0 == k;
        }
      }
      r
  }

  /** A lookup in `a + b` finds `a`'s entry first. */
  lemma {:induction false} LookupAppend(a: Dict, b: Dict, k: string)
    ensures Lookup(a + b, k) == if Lookup(a, k).Some? then Lookup(a, k) else Lookup(b, k)
  {
    if |a| > 0 {
      assert (a + b)[1..] == a[1..] + b;
      LookupAppend(a[1..], b, k);
    } else {
      assert a + b == b;
    }
  }

  lemma HasKeyCons(d: Dict, k: string)
    requires |d| > 0
    ensures HasKey(d, k) <==> d[0].0 == k || HasKey(d[1..], k)
  {
    if HasKey(d, k) && d[0].0 != k {
      var j :| 0 <= j < |d| && d[j].0 == k;
      assert d[1..][j - 1].0 == k;
    }
    if HasKey(d[1..], k) {
      var j :| 0 <= j < |d[1..]| && d[1..][j].0 == k;
      assert d[j + 1].0 == k;
    }
  }

  lemma UniqueKeysCons(d: Dict)
    requires |d| > 0
    ensures UniqueKeys(d) <==> !HasKey(d[1..], d[0].0) && UniqueKeys(d[1..])
  {
    if UniqueKeys(d) {
      forall i, j | 0 <= i < j < |d[1..]| ensures d[1..][i].0 != d[1..][j].0 {
        assert d[1..][i] == d[i + 1] && d[1..][j] == d[j + 1];
      }
    }
    if !HasKey(d[1..], d[0].0) && UniqueKeys(d[1..]) {
      forall i, j | 0 <= i < j < |d| ensures d[i].0 != d[j].0 {
        if i == 0 {
          assert d[1..][j - 1] == d[j];
        } else {
          assert d[1..][i - 1] == d[i] && d[1..][j - 1] == d[j];
        }
      }
    }
  }

  /** `d[k] = v`. */
  function Put(d: Dict, k: string, v: Value): (r: Dict)
    ensures Lookup(r, k) == Some(v)
    ensures forall k' :: k' != k ==> Lookup(r, k') == Lookup(d, k')
    ensures UniqueKeys(d) ==> UniqueKeys(r)
    decreases |d|
  {
    if |d| == 0 then [(k, v)]
    else if d[0].0 == k then
      var r := [(k, v)] + d[1..];
      assert r[1..] == d[1..];
      assert UniqueKeys(d) ==> UniqueKeys(r) by {
        UniqueKeysCons(d);
        UniqueKeysCons(r);
      }
      r
    else
      var rest := Put(d[1..], k, v);
      var r := [d[0]] + rest;
      assert r[1..] == rest;
      assert UniqueKeys(d) ==> UniqueKeys(r) by {
        UniqueKeysCons(d);
        UniqueKeysCons(r);
        HasKeyCons(r, d[0].0);
        if UniqueKeys(d) {
          assert Lookup(rest, d[0].0) == Lookup(d[1..], d[0].0);
        }
      }
      r
  }

  /** An existing key keeps its position and a new key is appended. */
  lemma {:induction false} PutKeys(d: Dict, k: string, v: Value)
    ensures Keys(Put(d, k, v)) == if HasKey(d, k) then Keys(d) else Keys(d) + [k]
    decreases |d|
  {
    if |d| > 0 {
      HasKeyCons(d, k);
      assert d == [d[0]] + d[1..];
      KeysCons(d[0], d[1..]);
      if d[0].0 != k {
        var rest := Put(d[1..], k, v);
        assert Put(d, k, v) == [d[0]] + rest;
        PutKeys(d[1..], k, v);
        KeysCons(d[0], rest);
      } else {
        assert Put(d, k, v) == [(k, v)] + d[1..];
        KeysCons((k, v), d[1..]);
      }
    }
  }

  lemma KeysCons(e: (string, Value), d: Dict)
    ensures Keys([e] + d) == [e.0] + Keys(d)
  {
    assert forall j :: 1 <= j < |d| + 1 ==> ([e] + d)[j] == d[j - 1];
  }

  /** `{**a, **b}`: `b`'s entries put into `a` in order. */
  function Merge(a: Dict, b: Dict): (r: Dict)
    ensures UniqueKeys(b) ==> forall k :: Lookup(r, k) == if Lookup(b, k).Some? then Lookup(b, k) else Lookup(a, k)
    ensures UniqueKeys(a) ==> UniqueKeys(r)
    decreases |b|
  {
    if |b| == 0 then a
    else
      var r := Merge(Put(a, b[0].0, b[0].1), b[1..]);
      assert UniqueKeys(b) ==> UniqueKeys(b[1..]) && !HasKey(b[1..], b[0].0) by {
        if UniqueKeys(b) {
          forall i, j | 0 <= i < j < |b[1..]| ensures b[1..][i].0 != b[1..][j].0 {
            assert b[1..][i] == b[i + 1] && b[1..][j] == b[j + 1];
          }
        }
      }
      r
  }

  /** The entries whose key is (`keep`) or is not (`!keep`) in `keys`, in order. */
  function Filter(d: Dict, keys: set<string>, keep: bool): (r: Dict)
    ensures forall k :: Lookup(r, k) == if (k in keys) == keep then Lookup(d, k) else None
    ensures UniqueKeys(d) ==> UniqueKeys(r)
    ensures |r| <= |d|
    ensures forall j :: 0 <= j < |r| ==> (r[j].0 in keys) == keep
    decreases |d|
  {
    if |d| == 0 then []
    else
      var rest := Filter(d[1..], keys, keep);
      UniqueKeysCons(d);
      if (d[0].0 in keys) == keep then
        var r := [d[0]] + rest;
        assert r[1..] == rest;
        assert UniqueKeys(d) ==> !HasKey(rest, d[0].0);
        UniqueKeysCons(r);
        r
      else rest
  }

  /** `d.pop(k)` when the key is present: its value and the rest. */
  function Pop(d: Dict, k: string): (r: Option<(Value, Dict)>)
    ensures r.Some? <==> HasKey(d, k)
    ensures r.Some? ==> Some(r.value.0) == Lookup(d, k)
    ensures r.Some? ==> !HasKey(r.value.1, k)
    ensures r.Some? ==> forall k' :: k' != k ==> Lookup(r.value.1, k') == Lookup(d, k')
  {
    match Lookup(d, k)
    case None => None
    case Some(v) =>
      var rest := Filter(d, {k}, false);
      assert Lookup(rest, k).None?;
      Some((v, rest))
  }

  /** `split_tags_out(row_dict, keep_keys)`: the entries with a kept key,
      and the others, each in row order. */
  function SplitTagsOut(row: Dict, keep: set<string>): (r: (Dict, Dict))
    ensures forall k :: Lookup(r.0, k) == if k in keep then Lookup(row, k) else None
    ensures forall k :: Lookup(r.1, k) == if k in keep then None else Lookup(row, k)
    ensures UniqueKeys(row) ==> UniqueKeys(r.0) && UniqueKeys(r.1)
  {
    (Filter(row, keep, true), Filter(row, keep, false))
  }

  /** Splitting loses nothing: merging the two parts back gives every key
      its value in the row. */
  lemma SplitThenMerge(row: Dict, keep: set<string>, k: string)
    requires UniqueKeys(row)
    ensures Lookup(Merge(SplitTagsOut(row, keep).0, SplitTagsOut(row, keep).1), k) == Lookup(row, k)
  {
  }

  // ---------------------------------------------------------------------
  // Tag emission
  // ---------------------------------------------------------------------

  /** `for k, v in entries: if k not in have_keys: emit (k, v); have_keys.add(k)`. */
  function EmitEntries(have: set<string>, es: Dict): (r: Dict)
    ensures UniqueKeys(r)
    ensures forall j :: 0 <= j < |r| ==> r[j].0 !in have
    ensures forall k :: Lookup(r, k) == if k in have then None else Lookup(es, k)
    decreases |es|
  {
    if |es| == 0 then []
    else if es[0].0 in have then EmitEntries(have, es[1..])
    else
      var rest := EmitEntries(have + {es[0].0}, es[1..]);
      var r := [es[0]] + rest;
      assert r[1..] == rest;
      assert !HasKey(rest, es[0].0);
      r
  }

  /** The `<tag>` children of a way or node: `tags`, then the column tags
      whose key `tags` did not have, each key once. */
  function EmitTags(tags: Dict, colTags: Dict): (r: Dict)
    ensures UniqueKeys(r)
    ensures forall k :: Lookup(r, k) == if Lookup(tags, k).Some? then Lookup(tags, k) else Lookup(colTags, k)
  {
    var r := EmitEntries({}, tags + colTags);
    forall k ensures Lookup(r, k) == if Lookup(tags, k).Some? then Lookup(tags, k) else Lookup(colTags, k) {
      LookupAppend(tags, colTags, k);
    }
    r
  }

  /** First-key-wins emission agrees with a dict merge in the opposite order:
      the tag dict overrides the column values. */
  lemma EmitIsReverseMerge(tags: Dict, colTags: Dict, k: string)
    requires UniqueKeys(tags)
    ensures Lookup(EmitTags(tags, colTags), k) == Lookup(Merge(colTags, tags), k)
  {
  }

  /** The tag loop of `rel_to_xml` as written: `for t in (tags, col_tags)`
      iterates `tags.items()` both times, so the second round emits nothing. */
  function RelTagsAsWritten(tags: Dict, colTags: Dict): (r: Dict)
    ensures UniqueKeys(r)
  {
    EmitEntries({}, tags + tags)
  }

  /** A column tag that the tag dict lacks is never emitted by the relation
      tag loop as written, although the way and node loops emit it. */
  lemma RelTagsDropColumnTags(tags: Dict, colTags: Dict, k: string)
    requires !HasKey(tags, k) && HasKey(colTags, k)
    ensures Lookup(RelTagsAsWritten(tags, colTags), k).None?
    ensures Lookup(EmitTags(tags, colTags), k) == Lookup(colTags, k) && Lookup(colTags, k).Some?
  {
    LookupAppend(tags, tags, k);
  }

  // ---------------------------------------------------------------------
  // Rows from the cursor
  // ---------------------------------------------------------------------

  /** The dict comprehension of `g_from_cursor` from `acc` on: for each
      (column, value) pair of `zip`, a non-NULL value is put. */
  function PutNonNull(acc: Dict, columns: seq<string>, row: seq<Option<Value>>): (r: Dict)
    ensures UniqueKeys(acc) ==> UniqueKeys(r)
    decreases |columns|
  {
    if |columns| == 0 || |row| == 0 then acc
    else
      var acc' := if row[0].Some? then Put(acc, columns[0], row[0].value) else acc;
      PutNonNull(acc', columns[1..], row[1..])
  }

  /** The value of the last non-NULL column named `k` among the zipped pairs. */
  function LastNonNull(columns: seq<string>, row: seq<Option<Value>>, k: string): Option<Value> {
    var n := if |columns| < |row| then |columns| else |row|;
    if n == 0 then None
    else if columns[n - 1] == k && row[n - 1].Some? then row[n - 1]
    else LastNonNull(columns[..n - 1], row[..n - 1], k)
  }

  /** `{k: v for k, v in zip(columns, row) if v != None}`. */
  function RowDict(columns: seq<string>, row: seq<Option<Value>>): (r: Dict)
    ensures UniqueKeys(r)
  {
    PutNonNull([], columns, row)
  }

  /** A row's dict holds, for each column name, the last non-NULL value
      under that name, and no entry at all when every such value is NULL. */
  lemma {:induction false} RowDictDropsNulls(columns: seq<string>, row: seq<Option<Value>>, k: string)
    ensures Lookup(RowDict(columns, row), k) == LastNonNull(columns, row, k)
  {
    PutNonNullSpec([], columns, row, k);
  }

  lemma {:induction false} PutNonNullSpec(acc: Dict, columns: seq<string>, row: seq<Option<Value>>, k: string)
    ensures Lookup(PutNonNull(acc, columns, row), k)
      == if LastNonNull(columns, row, k).Some? then LastNonNull(columns, row, k) else Lookup(acc, k)
    decreases |columns|
  {
    var n := if |columns| < |row| then |columns| else |row|;
    if n > 0 {
      var acc' := if row[0].Some? then Put(acc, columns[0], row[0].value) else acc;
      PutNonNullSpec(acc', columns[1..], row[1..], k);
      LastNonNullCons(columns, row, k);
    }
  }

  /** The last non-NULL value is the one in the tail, if any, else the head's. */
  lemma {:induction false} LastNonNullCons(columns: seq<string>, row: seq<Option<Value>>, k: string)
    requires |columns| > 0 && |row| > 0
    ensures LastNonNull(columns, row, k)
      == if LastNonNull(columns[1..], row[1..], k).Some? then LastNonNull(columns[1..], row[1..], k)
         else if columns[0] == k && row[0].Some? then row[0] else None
    decreases |columns|
  {
    var n := if |columns| < |row| then |columns| else |row|;
    if n > 1 {
      assert columns[1..][..n - 2] == columns[..n - 1][1..];
      assert row[1..][..n - 2] == row[..n - 1][1..];
      LastNonNullCons(columns[..n - 1], row[..n - 1], k);
    }
  }
}
