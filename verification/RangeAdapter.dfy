/**
 `RangeAdapter`: a closure over a `next` function that can be ranged over again and again. The captured `err`
 outlives each pass. `next` may return anything; `results` is the list of what its calls return.
 */
module RangeAdapters {
  import opened Prelude

  /** `Done` is the sentinel that ends an iteration; any other error is `Failure`. */
  datatype IterError = Done | Failure(code: int)

  datatype Pair<T> = Pair(resp: T, err: Option<IterError>)

  class RangeAdapter<T> {
    const results: nat -> Pair<T>  // what the calls of next return
    var calls: nat                 // calls of next so far
    var err: Option<IterError>     // the captured variable

    ghost var yielded: seq<Pair<T>>  // everything yielded so far, over all passes

    /**
     What has been yielded is what `next` has returned, each result once and in order, without a final `Done`;
     `next` has been called again only after results without an error.
     */
    ghost predicate Valid()
      reads this
    {
      && (calls == 0 ==> err.None?)
      && (calls > 0 ==> err == results(calls - 1).err)
      && (forall i: nat :: i + 1 < calls ==> results(i).err.None?)
      && yielded == Results(results, if err == Some(Done) then calls - 1 else calls)
    }

    constructor (results: nat -> Pair<T>)
      ensures Valid() && yielded == [] && calls == 0 && this.results == results
    {
      this.results := results;
      calls, err, yielded := 0, None, [];
    }

    /**
     One pass of a `range` statement. `keep(i)` is what `yield` returns for the result of call `i`: false when the
     loop body breaks there.
     */
    method Range(keep: nat -> bool)
      requires Valid() && PassEnds(results, keep, calls)
      modifies this
      ensures Valid() && old(yielded) <= yielded
      ensures old(err).Some? ==> unchanged(this)
      ensures old(err).None? ==> calls > old(calls) && (err.Some? || !keep(calls - 1))
      ensures forall i: nat :: old(calls) <= i < calls - 1 ==> keep(i)
    {
      hide Results;
      ghost var first := yielded;
      ghost var stop: nat :| results(stop).err.Some? || (stop >= calls && !keep(stop));
      while true
        invariant Valid() && first <= yielded && old(calls) <= calls
        invariant old(err).Some? ==> unchanged(this)
        invariant err.None? ==> calls <= stop
        invariant forall i: nat :: old(calls) <= i < calls ==> keep(i)
        decreases stop + 1 - calls, err.None?
      {
        if err != None {
          return;
        }
        var result := results(calls);
        calls := calls + 1;
        err := result.err;
        if err == Some(Done) {
          return;
        }
        yielded := yielded + [result];
        ResultsStep(results, calls - 1);
        if !keep(calls - 1) {
          return;
        }
      }
    }

    /** Any number of passes, each breaking where it likes. */
    method RangeAll(keeps: seq<nat -> bool>)
      requires Valid()
      requires forall p, n :: 0 <= p < |keeps| ==> PassEnds(results, keeps[p], n)
      modifies this
      ensures Valid() && old(yielded) <= yielded
      ensures old(err).Some? ==> unchanged(this)
    {
      for p := 0 to |keeps|
        invariant Valid() && old(yielded) <= yielded
        invariant old(err).Some? ==> unchanged(this)
      {
        Range(keeps[p]);
      }
    }
  }

  /**
   A method has to end, so a pass from call `n` on that neither breaks nor ever meets an error is excluded.
   */
  ghost predicate PassEnds<T>(results: nat -> Pair<T>, keep: nat -> bool, n: nat) {
    exists i: nat :: results(i).err.Some? || (i >= n && !keep(i))
  }

  /** The results of the first `n` calls. */
  function Results<T>(results: nat -> Pair<T>, n: nat): seq<Pair<T>> {
    if n == 0 then [] else Results(results, n - 1) + [results(n - 1)]
  }

  lemma ResultsStep<T>(results: nat -> Pair<T>, n: nat)
    ensures Results(results, n + 1) == Results(results, n) + [results(n)]
  {
  }

  lemma {:induction false} ResultsAt<T>(results: nat -> Pair<T>, n: nat, i: nat)
    requires i < n
    ensures |Results(results, n)| == n && Results(results, n)[i] == results(i)
  {
    if i < n - 1 {
      ResultsAt(results, n - 1, i);
    } else if n > 1 {
      ResultsAt(results, n - 1, 0);
    }
  }

  /**
   So a non-`Done` error is yielded at most once and only last, `Done` never, and nothing is skipped or repeated:
   the i-th pair ever yielded is the result of the i-th call.
   */
  lemma YieldedPairs<T>(a: RangeAdapter<T>)
    requires a.Valid()
    ensures forall i :: 0 <= i < |a.yielded| ==> a.yielded[i] == a.results(i) && a.yielded[i].err != Some(Done)
    ensures forall i :: 0 <= i < |a.yielded| - 1 ==> a.yielded[i].err.None?
    ensures |a.yielded| == if a.err == Some(Done) then a.calls - 1 else a.calls
    ensures a.err.Some? && a.err.value.Failure? ==> a.yielded != [] && a.yielded[|a.yielded| - 1].err == a.err
  {
    var n := if a.err == Some(Done) then a.calls - 1 else a.calls;
    forall i: nat | i < n
      ensures |Results(a.results, n)| == n && Results(a.results, n)[i] == a.results(i)
    {
      ResultsAt(a.results, n, i);
    }
    if n > 0 {
      ResultsAt(a.results, n, 0);
    }
  }
}
