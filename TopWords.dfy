/**
 * The selection in `visualize_top_words(word_counts, top_n)`: the two "nothing to
 * show" guards and `word_counts.most_common(top_n)`. The bar chart itself is not modelled;
 * the outcome says whether a chart would be drawn and with which entries.
 */
module TopWords {
  import opened WordCounts

  /** A `(word, count)` pair, as `Counter.items()` and `most_common` yield them. */
  type Entry = (string, nat)

  /** What `visualize_top_words` does: report an empty counter, report no data, or chart the entries. */
  datatype Outcome = EmptyCounts | NoData | Chart(entries: seq<Entry>)

  /** Counts never increase from left to right. */
  predicate NonIncreasing(s: seq<Entry>)
  {
    forall i, j :: 0 <= i < j < |s| ==> s[i].1 >= s[j].1
  }

  predicate Distinct<T(==)>(s: seq<T>)
  {
    forall i, j :: 0 <= i < j < |s| ==> s[i] != s[j]
  }

  /** The words of a list of entries. */
  function Chosen(top: seq<Entry>): set<string>
  {
    set e | e in top :: e.0
  }

  /**
   * `order` lists every key of the counter exactly once: the counter's iteration
   * order, which a `map` does not record and which decides ties.
   */
  predicate IsKeyOrder(order: seq<string>, m: WordCount)
  {
    Distinct(order) && (forall w :: w in order ==> w in m) && (forall w :: w in m ==> w in order)
  }

  /** `counter.items()` in iteration order. */
  function Items(m: WordCount, order: seq<string>): (items: seq<Entry>)
    requires IsKeyOrder(order, m)
    ensures |items| == |order|
    ensures forall i :: 0 <= i < |items| ==> items[i] == (order[i], m[order[i]])
  {
    seq(|order|, i requires 0 <= i < |order| => (order[i], m[order[i]]))
  }

  /** The entries of `s` whose count is `c`, in their order in `s`. */
  function OfCount(s: seq<Entry>, c: nat): seq<Entry>
  {
    if s == [] then []
    else (if s[0].1 == c then [s[0]] else []) + OfCount(s[1..], c)
  }

  /** One step of a stable sort by descending count: `e` goes before the first entry that does not outrank it. */
  function InsertByCount(e: Entry, s: seq<Entry>): (r: seq<Entry>)
    ensures multiset(r) == multiset(s) + multiset{e}
  {
    if s == [] || s[0].1 <= e.1 then [e] + s
    else
      assert s == [s[0]] + s[1..];
      [s[0]] + InsertByCount(e, s[1..])
  }

  /** Inserting into a sorted sequence keeps it sorted. */
  lemma {:induction false} InsertByCountSorted(e: Entry, s: seq<Entry>)
    requires NonIncreasing(s)
    ensures NonIncreasing(InsertByCount(e, s))
  {
    if s != [] && s[0].1 > e.1 {
      var rest := InsertByCount(e, s[1..]);
      InsertByCountSorted(e, s[1..]);
      forall x | x in rest ensures s[0].1 >= x.1 {
        assert x in multiset(rest);
        assert x in s[1..] || x == e;
      }
    }
  }

  /** `sorted(items, key=count, reverse=True)`: a stable sort by descending count. */
  function SortByCount(items: seq<Entry>): (r: seq<Entry>)
    ensures multiset(r) == multiset(items)
    ensures NonIncreasing(r)
  {
    if items == [] then []
    else
      assert items == [items[0]] + items[1..];
      InsertByCountSorted(items[0], SortByCount(items[1..]));
      InsertByCount(items[0], SortByCount(items[1..]))
  }

  /**
   * `heapq.nlargest(n, items, key=count)`, which `Counter.most_common(n)` calls:
   * no entries for `n <= 0`, otherwise the first `n` entries of the stable sort.
   */
  function MostCommon(items: seq<Entry>, n: int): (r: seq<Entry>)
    ensures n <= 0 ==> r == []
    ensures n > 0 ==> |r| == Min(n, |items|)
    ensures NonIncreasing(r)
    ensures multiset(r) <= multiset(items)
  {
    if n <= 0 then []
    else
      var sorted := SortByCount(items);
      assert |sorted| == |items| by {
        assert |multiset(sorted)| == |multiset(items)|;
      }
      var k := Min(n, |sorted|);
      assert sorted == sorted[..k] + sorted[k..];
      sorted[..k]
  }

  /**
   * `visualize_top_words(word_counts, top_n)` without the plotting. The empty-counter
   * report happens exactly for an empty counter; the no-data report exactly for a
   * non-empty counter and `top_n <= 0`.
   */
  function VisualizeTopWords(m: WordCount, order: seq<string>, topN: int): (r: Outcome)
    requires IsKeyOrder(order, m)
    ensures r == EmptyCounts <==> |m| == 0
    ensures r == NoData <==> |m| > 0 && topN <= 0
  {
    KeyOrderLength(m, order);
    if |m| == 0 then EmptyCounts
    else
      var top := MostCommon(Items(m, order), topN);
      if top == [] then NoData else Chart(top)
  }

  /** Inserting an entry adds it to the run of its count, in front; other runs do not change. */
  lemma {:induction false} OfCountInsert(e: Entry, s: seq<Entry>, c: nat)
    ensures OfCount(InsertByCount(e, s), c) == (if e.1 == c then [e] else []) + OfCount(s, c)
  {
    if s == [] || s[0].1 <= e.1 {
      assert ([e] + s)[1..] == s;
    } else {
      var rest := InsertByCount(e, s[1..]);
      OfCountInsert(e, s[1..], c);
      assert ([s[0]] + rest)[1..] == rest;
    }
  }

  /**
   * The sort is stable: for every count, the entries with that count come out in
   * the order they went in (ties keep the counter's iteration order).
   */
  lemma {:induction false} SortByCountStable(items: seq<Entry>, c: nat)
    ensures OfCount(SortByCount(items), c) == OfCount(items, c)
  {
    if items != [] {
      SortByCountStable(items[1..], c);
      OfCountInsert(items[0], SortByCount(items[1..]), c);
    }
  }

  /** A sequence without repetitions has as many distinct elements as positions. */
  lemma {:induction false} DistinctCardinality(order: seq<string>)
    requires Distinct(order)
    ensures |set w | w in order| == |order|
  {
    if order != [] {
      var init, last := order[..|order| - 1], order[|order| - 1];
      DistinctCardinality(init);
      assert (set w | w in order) == (set w | w in init) + {last};
      assert last !in init;
    }
  }

  /** No element occurs twice in a sequence without repetitions. */
  lemma {:induction false} DistinctMultiplicity<T>(s: seq<T>)
    requires Distinct(s)
    ensures forall x :: multiset(s)[x] <= 1
  {
    if s != [] {
      var init, last := s[..|s| - 1], s[|s| - 1];
      DistinctMultiplicity(init);
      assert s == init + [last];
      assert last !in init;
      assert multiset(s) == multiset(init) + multiset{last};
    }
  }

  /** A sequence in which nothing occurs twice has no repetitions. */
  lemma MultiplicityDistinct<T>(s: seq<T>)
    requires forall x :: multiset(s)[x] <= 1
    ensures Distinct(s)
  {
    forall i, j | 0 <= i < j < |s| ensures s[i] != s[j] {
      assert s == s[..j] + [s[j]] + s[j + 1..];
      assert s[i] in s[..j];
      assert multiset(s) == multiset(s[..j]) + multiset{s[j]} + multiset(s[j + 1..]);
      assert multiset(s)[s[j]] == multiset(s[..j])[s[j]] + 1 + multiset(s[j + 1..])[s[j]];
      assert multiset(s[..j])[s[j]] == 0;
      assert s[j] !in s[..j];
    }
  }

  /** The counter has one key per position of its key order. */
  lemma KeyOrderLength(m: WordCount, order: seq<string>)
    requires IsKeyOrder(order, m)
    ensures |m| == |order|
  {
    assert m.Keys == set w | w in order;
    DistinctCardinality(order);
  }

  /** The stable sort of a counter's items has one entry per key, each `(w, m[w])`. */
  lemma SortedItemsEntries(m: WordCount, order: seq<string>)
    requires IsKeyOrder(order, m)
    ensures var sorted := SortByCount(Items(m, order));
      && |sorted| == |m|
      && (forall i :: 0 <= i < |sorted| ==> sorted[i].0 in m && sorted[i].1 == m[sorted[i].0])
  {
    KeyOrderLength(m, order);
    var items := Items(m, order);
    var sorted := SortByCount(items);
    assert |sorted| == |items| by {
      assert |multiset(sorted)| == |multiset(items)|;
    }
    forall i | 0 <= i < |sorted| ensures sorted[i].0 in m && sorted[i].1 == m[sorted[i].0] {
      assert sorted[i] in multiset(items);
      var k :| 0 <= k < |items| && items[k] == sorted[i];
    }
  }

  /** No word occurs twice in the stable sort of a counter's items. */
  lemma SortedItemsDistinct(m: WordCount, order: seq<string>)
    requires IsKeyOrder(order, m)
    ensures var sorted := SortByCount(Items(m, order));
      forall i, j :: 0 <= i < j < |sorted| ==> sorted[i].0 != sorted[j].0
  {
    SortedItemsEntries(m, order);
    var items := Items(m, order);
    var sorted := SortByCount(items);
    assert Distinct(items);
    DistinctMultiplicity(items);
    MultiplicityDistinct(sorted);
  }

  /** Every key of the counter has its entry somewhere in the stable sort. */
  lemma SortedItemsComplete(m: WordCount, order: seq<string>, w: string)
    requires IsKeyOrder(order, m) && w in m
    ensures exists p :: 0 <= p < |SortByCount(Items(m, order))| && SortByCount(Items(m, order))[p].0 == w
  {
    var items := Items(m, order);
    var sorted := SortByCount(items);
    var k :| 0 <= k < |order| && order[k] == w;
    assert items[k] in multiset(sorted);
    assert items[k].0 == w;
    var p :| 0 <= p < |sorted| && sorted[p] == items[k];
    assert sorted[p].0 == w;
  }

  /** A word outside the first `n` sorted entries counts no more than any of them. */
  lemma LeftOutRanksLower(m: WordCount, order: seq<string>, n: nat, w: string)
    requires IsKeyOrder(order, m) && w in m
    requires n <= |SortByCount(Items(m, order))|
    requires w !in Chosen(SortByCount(Items(m, order))[..n])
    ensures var top := SortByCount(Items(m, order))[..n];
      forall i :: 0 <= i < |top| ==> m[w] <= top[i].1
  {
    SortedItemsEntries(m, order);
    SortedItemsComplete(m, order, w);
    var sorted := SortByCount(Items(m, order));
    var p :| 0 <= p < |sorted| && sorted[p].0 == w;
    assert forall i :: 0 <= i < n ==> sorted[..n][i] == sorted[i] && sorted[i] in sorted[..n];
    assert p >= n;
  }

  /** The first `k` entries of the stable sort are the `k` highest-ranked distinct items. */
  lemma SortedPrefix(m: WordCount, order: seq<string>, k: nat)
    requires IsKeyOrder(order, m)
    requires k <= |SortByCount(Items(m, order))|
    ensures var top := SortByCount(Items(m, order))[..k];
      && NonIncreasing(top)
      && (forall i :: 0 <= i < |top| ==> top[i].0 in m && top[i].1 == m[top[i].0])
      && (forall i, j :: 0 <= i < j < |top| ==> top[i].0 != top[j].0)
      && (forall w :: w in m && w !in Chosen(top) ==> forall i :: 0 <= i < |top| ==> m[w] <= top[i].1)
  {
    SortedItemsEntries(m, order);
    SortedItemsDistinct(m, order);
    var sorted := SortByCount(Items(m, order));
    RankingPrefix(m, sorted, k);
    var top := sorted[..k];
    forall w | w in m && w !in Chosen(top)
      ensures forall i :: 0 <= i < |top| ==> m[w] <= top[i].1
    {
      LeftOutRanksLower(m, order, k, w);
    }
  }

  /** A prefix of a ranking of a counter's entries is itself such a ranking. */
  lemma RankingPrefix(m: WordCount, sorted: seq<Entry>, k: nat)
    requires k <= |sorted|
    requires NonIncreasing(sorted)
    requires forall i :: 0 <= i < |sorted| ==> sorted[i].0 in m && sorted[i].1 == m[sorted[i].0]
    requires forall i, j :: 0 <= i < j < |sorted| ==> sorted[i].0 != sorted[j].0
    ensures var top := sorted[..k];
      && NonIncreasing(top)
      && (forall i :: 0 <= i < |top| ==> top[i].0 in m && top[i].1 == m[top[i].0])
      && (forall i, j :: 0 <= i < j < |top| ==> top[i].0 != top[j].0)
  {
    assert forall i :: 0 <= i < k ==> sorted[..k][i] == sorted[i];
  }

  /**
   * The selection of `visualize_top_words`: the chart gets `min(top_n, len(counter))`
   * distinct `(word, counter[word])` entries in non-increasing count order, and every
   * word left out counts no more than any chosen one.
   */
  lemma VisualizeTopWordsChart(m: WordCount, order: seq<string>, topN: int)
    requires IsKeyOrder(order, m)
    ensures VisualizeTopWords(m, order, topN).Chart? ==>
      var top := VisualizeTopWords(m, order, topN).entries;
      && topN > 0
      && |top| == Min(topN, |m|)
      && NonIncreasing(top)
      && (forall i :: 0 <= i < |top| ==> top[i].0 in m && top[i].1 == m[top[i].0])
      && (forall i, j :: 0 <= i < j < |top| ==> top[i].0 != top[j].0)
      && (forall w :: w in m && w !in Chosen(top) ==> forall i :: 0 <= i < |top| ==> m[w] <= top[i].1)
  {
    SortedItemsEntries(m, order);
    if |m| > 0 && topN > 0 {
      var k := Min(topN, |m|);
      assert VisualizeTopWords(m, order, topN) == Chart(SortByCount(Items(m, order))[..k]);
      SortedPrefix(m, order, k);
    }
  }
}
