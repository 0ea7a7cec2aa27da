/**
 * The reducer, `reducer(counters)`: an empty running total that each counter in
 * turn is added into with `Counter.update`, key by key.
 */
module Reducer {
  import opened WordCounts

  /**
   * `total.update(counter)`: each key of `counter` is added into `total`, summing on
   * a key both have and inserting a key only `counter` has.
   */
  method Update(total: WordCount, counter: WordCount) returns (updated: WordCount)
    ensures updated.Keys == total.Keys + counter.Keys
    ensures forall w :: Get(updated, w) == Get(total, w) + Get(counter, w)
  {
    updated := total;
    var remaining := counter.Keys;
    while remaining != {}
      invariant remaining <= counter.Keys
      invariant updated.Keys == total.Keys + (counter.Keys - remaining)
      invariant forall w :: Get(updated, w) == Get(total, w) + (if w in remaining then 0 else Get(counter, w))
      decreases remaining
    {
      var w :| w in remaining;
      updated := updated[w := counter[w] + Get(updated, w)];
      remaining := remaining - {w};
    }
  }

  /**
   * `reducer(counters)`: the aggregate is the left-to-right fold of the counters,
   * so every word's count is the sum of its counts in all the counters (0 where
   * missing), and its keys are the words some counter has.
   */
  method Reduce(counters: seq<WordCount>) returns (total: WordCount)
    ensures total == SumAll(counters)
    ensures forall w :: Get(total, w) == SumAt(counters, w)
    ensures forall w :: w in total <==> exists c :: c in counters && w in c
  {
    total := map[];
    for i := 0 to |counters|
      invariant total == SumAll(counters[..i])
    {
      total := Update(total, counters[i]);
      assert counters[..i + 1][..i] == counters[..i];
      assert total == Merge(SumAll(counters[..i]), counters[i]);
    }
    assert counters[..|counters|] == counters;
    SumAllAt(counters);
  }

  /** The aggregate does not depend on the order of the counters. */
  lemma ReducePermutation(cs: seq<WordCount>, ds: seq<WordCount>)
    requires multiset(cs) == multiset(ds)
    ensures SumAll(cs) == SumAll(ds)
  {
    SumAllAt(cs);
    SumAllAt(ds);
    forall w ensures Get(SumAll(cs), w) == Get(SumAll(ds), w) {
      SumAtPermutation(cs, ds, w);
    }
    forall w ensures w in SumAll(cs) <==> w in SumAll(ds) {
      assert forall c :: c in cs <==> c in multiset(cs);
      assert forall c :: c in ds <==> c in multiset(ds);
    }
    SameCounts(SumAll(cs), SumAll(ds));
  }
}
