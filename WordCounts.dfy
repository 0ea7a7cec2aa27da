/**
 * Word counts as Python's `collections.Counter` holds them: a mapping from
 * word to occurrence count, where a missing key reads as zero.
 */
module WordCounts {

  /** A counter: each key maps to its occurrence count. */
  type WordCount = map<string, nat>

  function Min(a: nat, b: nat): nat
  {
    if a <= b then a else b
  }

  /** `counter[w]` in Python: a missing key reads as 0. */
  function Get(m: WordCount, w: string): nat
  {
    if w in m then m[w] else 0
  }

  /** One counting step of `Counter(iterable)`: the count of `w` goes up by one. */
  function Bump(m: WordCount, w: string): (r: WordCount)
    ensures r.Keys == m.Keys + {w}
    ensures Get(r, w) == Get(m, w) + 1
    ensures forall v :: v != w ==> Get(r, v) == Get(m, v)
  {
    m[w := Get(m, w) + 1]
  }

  /** `Counter(words)`: the words counted one after another, in order. */
  function Tally(words: seq<string>): WordCount
  {
    if words == [] then map[] else Bump(Tally(words[..|words| - 1]), words[|words| - 1])
  }

  /** `a.update(b)` on counters: the pointwise sum, keys of either side kept. */
  function Merge(a: WordCount, b: WordCount): (r: WordCount)
    ensures r.Keys == a.Keys + b.Keys
    ensures forall w :: Get(r, w) == Get(a, w) + Get(b, w)
  {
    map w | w in a.Keys + b.Keys :: Get(a, w) + Get(b, w)
  }

  /** The fold the reducer performs: the counters merged left to right, from an empty counter. */
  function SumAll(counters: seq<WordCount>): WordCount
  {
    if counters == [] then map[]
    else Merge(SumAll(counters[..|counters| - 1]), counters[|counters| - 1])
  }

  /** The independent reference for the aggregate: the sum over all counters of `c[w]`. */
  function SumAt(counters: seq<WordCount>, w: string): nat
  {
    if counters == [] then 0
    else SumAt(counters[..|counters| - 1], w) + Get(counters[|counters| - 1], w)
  }

  /** The sum of all the counts of a counter (`sum(c.values())`). */
  ghost function Total(m: WordCount): nat
    decreases |m|
  {
    if m == map[] then 0
    else
      var k :| k in m;
      m[k] + Total(m - {k})
  }

  /** A counter built by counting words holds exactly the multiplicity of each word. */
  lemma {:induction false} TallyCounts(words: seq<string>)
    ensures forall w :: Get(Tally(words), w) == multiset(words)[w]
    ensures Tally(words).Keys == set w | w in words
    ensures forall w :: w in Tally(words) ==> Tally(words)[w] >= 1
  {
    if words != [] {
      var init, last := words[..|words| - 1], words[|words| - 1];
      TallyCounts(init);
      assert words == init + [last];
      assert multiset(words) == multiset(init) + multiset{last};
    }
  }

  /** Two counters with the same keys that agree on every count are the same counter. */
  lemma SameCounts(l: WordCount, r: WordCount)
    requires l.Keys == r.Keys
    requires forall w :: Get(l, w) == Get(r, w)
    ensures l == r
  {
    forall w | w in l ensures l[w] == r[w] {
      assert Get(l, w) == Get(r, w);
    }
  }

  /** Counting two word lists one after the other is merging their counters. */
  lemma {:induction false} TallyAppend(xs: seq<string>, ys: seq<string>)
    ensures Tally(xs + ys) == Merge(Tally(xs), Tally(ys))
    decreases |ys|
  {
    if ys == [] {
      assert xs + ys == xs;
      SameCounts(Tally(xs), Merge(Tally(xs), map[]));
    } else {
      var init, y := ys[..|ys| - 1], ys[|ys| - 1];
      assert (xs + ys)[..|xs + ys| - 1] == xs + init;
      TallyAppend(xs, init);
      SameCounts(Tally(xs + ys), Merge(Tally(xs), Tally(ys)));
    }
  }

  /** `Total` does not depend on which key it takes first. */
  lemma {:induction false} TotalRemove(m: WordCount, k: string)
    requires k in m
    ensures Total(m) == m[k] + Total(m - {k})
    decreases |m|
  {
    var j :| j in m && Total(m) == m[j] + Total(m - {j});
    if j != k {
      assert |m - {j}| < |m|;
      TotalRemove(m - {j}, k);
      assert |m - {k}| < |m|;
      TotalRemove(m - {k}, j);
      assert m - {j} - {k} == m - {k} - {j};
    }
  }

  /** Counting one more word raises the sum of the counts by one. */
  lemma TotalBump(m: WordCount, w: string)
    ensures Total(Bump(m, w)) == Total(m) + 1
  {
    var b := Bump(m, w);
    TotalRemove(b, w);
    if w in m {
      TotalRemove(m, w);
      assert b - {w} == m - {w};
    } else {
      assert b - {w} == m;
    }
  }

  /** The counts of `Counter(words)` add up to the number of words. */
  lemma {:induction false} TallyTotal(words: seq<string>)
    ensures Total(Tally(words)) == |words|
  {
    if words != [] {
      TallyTotal(words[..|words| - 1]);
      TotalBump(Tally(words[..|words| - 1]), words[|words| - 1]);
    }
  }

  /** SumAt over two concatenated lists of counters is the sum of the two parts. */
  lemma {:induction false} SumAtAppend(a: seq<WordCount>, b: seq<WordCount>, w: string)
    ensures SumAt(a + b, w) == SumAt(a, w) + SumAt(b, w)
    decreases |b|
  {
    if b == [] {
      assert a + b == a;
    } else {
      var init := b[..|b| - 1];
      SumAtAppend(a, init, w);
      assert (a + b)[..|a + b| - 1] == a + init;
    }
  }

  /**
   * The fold agrees with the pointwise sum: each word's aggregate is the sum of
   * its counts in all counters, and a word is a key exactly when some counter has it.
   */
  lemma {:induction false} SumAllAt(counters: seq<WordCount>)
    ensures forall w :: Get(SumAll(counters), w) == SumAt(counters, w)
    ensures forall w :: w in SumAll(counters) <==> exists c :: c in counters && w in c
  {
    if counters != [] {
      var init, last := counters[..|counters| - 1], counters[|counters| - 1];
      SumAllAt(init);
      assert counters == init + [last];
      forall w | w in SumAll(counters) ensures exists c :: c in counters && w in c {
        if w in SumAll(init) {
          var c :| c in init && w in c;
          assert c in counters;
        } else {
          assert last in counters;
        }
      }
      forall w | exists c :: c in counters && w in c ensures w in SumAll(counters) {
        var c :| c in counters && w in c;
        if c != last {
          assert c in init;
        }
      }
    }
  }

  /** The pointwise sum depends only on which counters there are, not on their order. */
  lemma {:induction false} SumAtPermutation(cs: seq<WordCount>, ds: seq<WordCount>, w: string)
    requires multiset(cs) == multiset(ds)
    ensures SumAt(cs, w) == SumAt(ds, w)
    decreases |cs|
  {
    if cs == [] {
      assert |ds| == |multiset(ds)| == 0;
    } else {
      var init, last := cs[..|cs| - 1], cs[|cs| - 1];
      assert last in multiset(ds) by {
        assert cs == init + [last];
      }
      var j :| 0 <= j < |ds| && ds[j] == last;
      var rest := ds[..j] + ds[j + 1..];
      assert multiset(init) == multiset(rest) by {
        assert cs == init + [last];
        assert multiset(cs) == multiset(init) + multiset{last};
        RemoveAt(ds, j);
      }
      SumAtPermutation(init, rest, w);
      SumAtRemove(ds, j, w);
    }
  }

  /** Taking out the element at `j` takes one copy of it out of the multiset. */
  lemma RemoveAt(ds: seq<WordCount>, j: nat)
    requires j < |ds|
    ensures multiset(ds[..j] + ds[j + 1..]) == multiset(ds) - multiset{ds[j]}
  {
    assert ds == ds[..j] + [ds[j]] + ds[j + 1..];
  }

  /** Taking out the counter at `j` lowers the pointwise sum by its count. */
  lemma SumAtRemove(ds: seq<WordCount>, j: nat, w: string)
    requires j < |ds|
    ensures SumAt(ds, w) == SumAt(ds[..j] + ds[j + 1..], w) + Get(ds[j], w)
  {
    var single: seq<WordCount> := [ds[j]];
    assert ds == ds[..j] + single + ds[j + 1..];
    SumAtAppend(ds[..j] + single, ds[j + 1..], w);
    SumAtAppend(ds[..j], single, w);
    SumAtAppend(ds[..j], ds[j + 1..], w);
    assert single[..0] == [];
  }
}
