/** The adaptive batch controller (`g_adaptive_parent_multiquery`): it walks
    a list of child ids in chunks, runs the reverse-lookup queries on each
    chunk and tunes the chunk size additively up and multiplicatively down,
    driven by the backend's statement timeouts.

    The backend is an oracle: a script of answers, one per attempt, each
    either the query results or a cancellation (`QueryCanceled`). */
module Controller {
  import opened IdStore

  /** The connection's `statement_timeout` as the controller last set it. */
  datatype Timeout = OneSecond | NoLimit | TwoHours

  /** The controller's loop variables. */
  datatype State = State(
    total: nat,        // total_processed_nodes
    chunkSize: int,    // chunk_size
    avg: real,         // avg_accepted_chunk_size
    sameSize: nat,     // chunks_unchanged_chunk_size
    stable: bool,      // stable
    chunks: nat,       // chunks (committed chunks)
    timeout: Timeout,  // the last SET statement_timeout
    warned: bool)      // printed_slow_warning

  /** `start_chunk_size`. */
  const StartChunkSize: int := 50

  /** The state before the loop, after `SET statement_timeout='1s'`. */
  const Init: State := State(0, StartChunkSize, 0.0, 0, false, 0, OneSecond, false)

  /** One backend attempt: the rows of every query, or a cancellation. */
  datatype Answer<R> = Rows(results: R) | Canceled

  /** One yielded tuple `(len(nodes_chunk), *results)`, with the chunk itself. */
  datatype Batch<R> = Batch(count: nat, chunk: seq<int>, results: R)

  /** The number of unchanged chunks after which the size is probed upwards. */
  function Threshold(stable: bool): nat {
    if stable then 2500 else 50
  }

  /** `chunk_size-0.49 <= avg_accepted_chunk_size <= chunk_size+0.49`. */
  predicate NearAverage(s: State) {
    s.chunkSize as real - 0.49 <= s.avg <= s.chunkSize as real + 0.49
  }

  /** `chunk_size-2 <= avg_accepted_chunk_size <= chunk_size-1`: the
      performance cliff lies just above the accepted average. */
  predicate InCliffWindow(s: State) {
    (s.chunkSize - 2) as real <= s.avg <= (s.chunkSize - 1) as real
  }

  /** Python's `int(c/1.2)`, truncating toward zero, written as `5c/6`. */
  function ShrinkSize(c: int): int {
    if c >= 0 then (5 * c) / 6 else -((5 * -c) / 6)
  }

  /** What holds of every state the loop reaches. The average is computed
      before `chunks` is incremented, so after the second committed chunk it
      is the processed total over one chunk fewer than were committed. */
  predicate Inv(s: State) {
    && s.chunkSize >= 1
    && (s.chunks <= 1 ==> s.avg == 0.0)
    && (s.chunks >= 2 ==> s.avg == s.total as real / (s.chunks - 1) as real)
  }

  /** The state after a chunk of `n` ids was answered and yielded. */
  function OnSuccess(s: State, n: nat): (r: State)
    requires Inv(s)
    ensures Inv(r)
    ensures r.total == s.total + n && r.chunks == s.chunks + 1
    ensures r.stable == s.stable && r.timeout == s.timeout
    ensures s.chunkSize <= r.chunkSize <= s.chunkSize + 1
    ensures r.chunkSize == s.chunkSize + 1 <==> s.sameSize > Threshold(s.stable) && !NearAverage(s)
    ensures r.sameSize == (if s.sameSize > Threshold(s.stable) then 0 else s.sameSize + 1)
  {
    var total := s.total + n;
    var probe := s.sameSize > Threshold(s.stable);
    var size := if probe && !NearAverage(s) then s.chunkSize + 1 else s.chunkSize;
    var avg := if s.chunks != 0 then total as real / s.chunks as real else s.avg;
    s.(total := total, chunkSize := size, avg := avg,
       sameSize := if probe then 0 else s.sameSize + 1, chunks := s.chunks + 1)
  }

  /** The state after the backend cancelled the current chunk. Only the cliff
      branch can leave the size at zero, because the other branch clamps it
      to one itself; so the warning and `statement_timeout=0` are reached
      exactly when the size was one and the average lay in the window. */
  function OnCancel(s: State): (r: State)
    requires Inv(s)
    ensures Inv(r)
    ensures r.total == s.total && r.chunks == s.chunks && r.avg == s.avg
    ensures r.sameSize == 0
    ensures 1 <= r.chunkSize <= if s.chunkSize > 1 then s.chunkSize - 1 else 1
    ensures r.stable == (s.stable || InCliffWindow(s))
    ensures r.timeout == NoLimit <==> InCliffWindow(s) && s.chunkSize == 1
    ensures r.timeout != NoLimit ==> r.timeout == OneSecond && r.warned == s.warned
    ensures r.timeout == NoLimit ==> r.warned
  {
    var cliff := InCliffWindow(s);
    var size :=
      if cliff then s.chunkSize - 1
      else
        var shrunk := ShrinkSize(s.chunkSize);
        var shrunk' := if shrunk == s.chunkSize then shrunk - 1 else shrunk;
        if shrunk' == 0 then 1 else shrunk';
    var s' := s.(sameSize := 0, chunkSize := size, stable := s.stable || cliff);
    if size == 0 then s'.(chunkSize := 1, warned := true, timeout := NoLimit)
    else s'.(timeout := OneSecond)
  }

  /** The ids of all chunks, in order. */
  function Flatten(batches: seq<Batch>): seq<int> {
    if |batches| == 0 then [] else batches[0].chunk + Flatten(batches[1..])
  }

  /** The sum of the yielded counts. */
  function SumCounts(batches: seq<Batch>): nat {
    if |batches| == 0 then 0 else batches[0].count + SumCounts(batches[1..])
  }

  /** The outcome of driving the loop with a script of backend answers. */
  datatype Run<R> = Run(batches: seq<Batch<R>>, final: State, done: bool)

  /** The loop from state `s`: each attempt takes the next `chunkSize` ids
      after the processed prefix and consumes one answer. It ends when every
      id is processed (`done`, timeout set back to two hours) or when the
      script has no answer left. */
  function Drive<R>(ids: seq<int>, s: State, script: seq<Answer<R>>): (r: Run<R>)
    requires Inv(s) && s.total <= |ids|
    ensures Inv(r.final) && s.total <= r.final.total <= |ids|
    ensures r.done <==> r.final.total == |ids|
    ensures r.done ==> r.final.timeout == TwoHours
    ensures s.stable ==> r.final.stable
    decreases |script|
  {
    if s.total >= |ids| then Run([], s.(timeout := TwoHours), true)
    else if |script| == 0 then Run([], s, false)
    else
      var hi := Hi(ids, s);
      var chunk := ids[s.total..hi];
      match script[0]
      case Canceled => Drive(ids, OnCancel(s), script[1..])
      case Rows(results) =>
        var rest := Drive(ids, OnSuccess(s, |chunk|), script[1..]);
        Run([Batch(|chunk|, chunk, results)] + rest.batches, rest.final, rest.done)
  }

  /** The end of the next chunk: `chunkSize` ids on, or the end of the list. */
  function Hi(ids: seq<int>, s: State): (hi: nat)
    requires s.total < |ids| && s.chunkSize >= 1
    ensures s.total < hi <= |ids|
    ensures hi - s.total <= s.chunkSize
  {
    if s.total + s.chunkSize <= |ids| then s.total + s.chunkSize else |ids|
  }

  /** One answered attempt: the chunk is handed out, then the loop goes on
      from the updated state. */
  lemma DriveRows<R>(ids: seq<int>, s: State, script: seq<Answer<R>>)
    requires Inv(s) && s.total < |ids| && |script| > 0 && script[0].Rows?
    ensures var chunk := ids[s.total..Hi(ids, s)];
      var rest := Drive(ids, OnSuccess(s, |chunk|), script[1..]);
      Drive(ids, s, script) == Run([Batch(|chunk|, chunk, script[0].results)] + rest.batches, rest.final, rest.done)
  {
  }

  /** The chunks the loop hands out are the processed ids, in order and
      without gaps. */
  lemma {:induction false} DriveChunks<R>(ids: seq<int>, s: State, script: seq<Answer<R>>)
    requires Inv(s) && s.total <= |ids|
    ensures Flatten(Drive(ids, s, script).batches) == ids[s.total..Drive(ids, s, script).final.total]
    decreases |script|
  {
    if s.total >= |ids| || |script| == 0 {
      assert Drive(ids, s, script).batches == [];
      assert Drive(ids, s, script).final.total == s.total;
    } else {
      if script[0].Canceled? {
        assert Drive(ids, s, script) == Drive(ids, OnCancel(s), script[1..]);
        assert OnCancel(s).total == s.total;
        DriveChunks(ids, OnCancel(s), script[1..]);
      } else {
        var hi := Hi(ids, s);
        var chunk := ids[s.total..hi];
        var s1 := OnSuccess(s, |chunk|);
        DriveRows(ids, s, script);
        DriveChunks(ids, s1, script[1..]);
        var rest := Drive(ids, s1, script[1..]);
        var batches := [Batch(|chunk|, chunk, script[0].results)] + rest.batches;
        assert batches[1..] == rest.batches;
        assert Flatten(batches) == chunk + Flatten(rest.batches);
        SliceJoin(ids, s.total, hi, rest.final.total);
      }
    }
  }

  /** Adjacent slices join into one. */
  lemma SliceJoin(xs: seq<int>, a: nat, b: nat, c: nat)
    requires a <= b <= c <= |xs|
    ensures xs[a..c] == xs[a..b] + xs[b..c]
  {
    assert forall j :: 0 <= j < c - a ==> xs[a..c][j] == xs[a + j];
  }

  /** Every chunk handed out is non-empty and counted by its length. */
  lemma {:induction false} DriveCounts<R>(ids: seq<int>, s: State, script: seq<Answer<R>>)
    requires Inv(s) && s.total <= |ids|
    ensures forall k :: 0 <= k < |Drive(ids, s, script).batches| ==>
      1 <= Drive(ids, s, script).batches[k].count == |Drive(ids, s, script).batches[k].chunk|
    decreases |script|
  {
    if s.total < |ids| && |script| > 0 {
      if script[0].Canceled? {
        DriveCounts(ids, OnCancel(s), script[1..]);
      } else {
        var chunk := ids[s.total..Hi(ids, s)];
        var s1 := OnSuccess(s, |chunk|);
        DriveRows(ids, s, script);
        DriveCounts(ids, s1, script[1..]);
        var rest := Drive(ids, s1, script[1..]);
        var batches := [Batch(|chunk|, chunk, script[0].results)] + rest.batches;
        assert forall k :: 1 <= k < |batches| ==> batches[k] == rest.batches[k - 1];
      }
    }
  }

  /** The controller over a plain id list, from its initial state. */
  function RunOver<R>(ids: seq<int>, script: seq<Answer<R>>): (r: Run<R>)
    ensures r.done <==> SumCounts(r.batches) == |ids|
    ensures r.done ==> Flatten(r.batches) == ids && r.final.timeout == TwoHours
    ensures !r.done ==> r.final.total < |ids| && Flatten(r.batches) == ids[..r.final.total]
    ensures r.final.chunkSize >= 1
  {
    var r := Drive(ids, Init, script);
    DriveChunks(ids, Init, script);
    DriveCounts(ids, Init, script);
    CountsSumToLength(r.batches);
    r
  }

  /** When every count is its chunk's length, the counts add up to the
      number of ids in all chunks. */
  lemma {:induction false} CountsSumToLength<R>(batches: seq<Batch<R>>)
    requires forall k :: 0 <= k < |batches| ==> batches[k].count == |batches[k].chunk|
    ensures SumCounts(batches) == |Flatten(batches)|
  {
    if |batches| > 0 {
      CountsSumToLength(batches[1..]);
    }
  }

  /** `g_adaptive_parent_multiquery(name, ...)` of the accumulator: the ids
      of role `k`, listed once each in the set's iteration order. When the
      loop ends every id of the role was processed in exactly one chunk. */
  function ParentMultiquery<R>(store: Store, k: Role, order: seq<int>, script: seq<Answer<R>>): (r: Run<R>)
    requires IsListing(order, Get(store, k))
    ensures r.done ==> Elems(Flatten(r.batches)) == Get(store, k) && Distinct(Flatten(r.batches))
    ensures r.done ==> |Flatten(r.batches)| == |Get(store, k)|
    ensures Distinct(Flatten(r.batches)) && Elems(Flatten(r.batches)) <= Get(store, k)
  {
    var r := RunOver(order, script);
    DistinctLength(order);
    assert Flatten(r.batches) == order[..r.final.total];
    assert Elems(order[..r.final.total]) <= Elems(order) by {
      forall x | x in Elems(order[..r.final.total]) ensures x in Elems(order) {
        var j :| 0 <= j < r.final.total && order[..r.final.total][j] == x;
        assert order[j] == x;
      }
    }
    r
  }

  /** A listing of a set is as long as the set is large. */
  lemma {:induction false} DistinctLength(xs: seq<int>)
    requires Distinct(xs)
    ensures |Elems(xs)| == |xs|
  {
    if |xs| > 0 {
      var last := xs[|xs| - 1];
      var init := xs[..|xs| - 1];
      assert Distinct(init);
      DistinctLength(init);
      assert Elems(xs) == Elems(init) + {last};
      assert last !in Elems(init);
    }
  }

  /** Progress: when the backend answers every attempt, the loop finishes
      once it has had as many answers as ids remain. */
  lemma {:induction false} AnsweredScriptFinishes<R>(ids: seq<int>, s: State, script: seq<Answer<R>>)
    requires Inv(s) && s.total <= |ids|
    requires forall k :: 0 <= k < |script| ==> script[k].Rows?
    requires |script| >= |ids| - s.total
    ensures Drive(ids, s, script).done
    decreases |script|
  {
    if s.total < |ids| {
      AnsweredScriptFinishes(ids, OnSuccess(s, Hi(ids, s) - s.total), script[1..]);
    }
  }

  /** A cancellation never advances the processed prefix: the same ids are
      retried with a strictly smaller chunk, unless the size is already one. */
  lemma CancelRetriesSameIds<R>(ids: seq<int>, s: State, script: seq<Answer<R>>)
    requires Inv(s) && s.total < |ids| && |script| > 0 && script[0].Canceled?
    ensures Drive(ids, s, script) == Drive(ids, OnCancel(s), script[1..])
    ensures OnCancel(s).total == s.total
    ensures s.chunkSize > 1 ==> OnCancel(s).chunkSize < s.chunkSize
  {
  }
}
