/**
 * The mapper: the fragment is lower-cased, split into its maximal runs of word
 * characters (what `re.findall(r'\b\w+\b', ...)` returns), and the runs are counted.
 * The scanner classifies each character as a word character or a delimiter;
 * no regular-expression engine is involved.
 */
module Tokenizer {
  import opened WordCounts

  /** `\w` restricted to ASCII: letters, digits and the underscore. */
  predicate IsWordChar(c: char)
  {
    ('a' <= c <= 'z') || ('A' <= c <= 'Z') || ('0' <= c <= '9') || c == '_'
  }

  predicate IsUpper(c: char)
  {
    'A' <= c <= 'Z'
  }

  /** `str.lower()` on one character, restricted to ASCII case folding. */
  function LowerChar(c: char): (r: char)
    ensures !IsUpper(r)
    ensures IsWordChar(r) <==> IsWordChar(c)
    ensures IsUpper(c) ==> 'a' <= r <= 'z' && r as int - 'a' as int == c as int - 'A' as int
    ensures !IsUpper(c) ==> r == c
  {
    if IsUpper(c) then (c as int - 'A' as int + 'a' as int) as char else c
  }

  /** `str.lower()`. */
  function Lower(s: string): (r: string)
    ensures |r| == |s|
    ensures forall i :: 0 <= i < |s| ==> r[i] == LowerChar(s[i])
  {
    seq(|s|, i requires 0 <= i < |s| => LowerChar(s[i]))
  }

  /** The length of the run of word characters at the start of `s`; the run cannot be extended. */
  function RunLength(s: string): (k: nat)
    ensures k <= |s|
    ensures forall i :: 0 <= i < k ==> IsWordChar(s[i])
    ensures k == |s| || !IsWordChar(s[k])
  {
    if s == [] || !IsWordChar(s[0]) then 0 else 1 + RunLength(s[1..])
  }

  /** The maximal runs of word characters of `s`, from left to right: the tokens `\b\w+\b` finds. */
  function Words(s: string): seq<string>
    decreases |s|
  {
    if s == [] then []
    else if !IsWordChar(s[0]) then Words(s[1..])
    else
      var k := RunLength(s);
      [s[..k]] + Words(s[k..])
  }

  /**
   * A second, finite-state view of the same text: the number of positions where a
   * run of word characters begins, given whether the previous character was a word character.
   */
  function RunStarts(s: string, inWord: bool): nat
  {
    if s == [] then 0
    else (if IsWordChar(s[0]) && !inWord then 1 else 0) + RunStarts(s[1..], IsWordChar(s[0]))
  }

  /** The number of maximal runs of word characters in `s`. */
  function RunCount(s: string): nat
  {
    RunStarts(s, false)
  }

  /**
   * `mapper(text_chunk)`: `Counter(re.findall(r'\b\w+\b', text_chunk.lower()))`. Each
   * word's count is its number of occurrences among the tokens of the lower-cased chunk,
   * and only words that occur are keys.
   */
  function Mapper(chunk: string): (r: WordCount)
    ensures forall w :: Get(r, w) == multiset(Words(Lower(chunk)))[w]
    ensures forall w :: w in r ==> r[w] >= 1
  {
    TallyCounts(Words(Lower(chunk)));
    Tally(Words(Lower(chunk)))
  }

  /** Every token is non-empty and made only of word characters. */
  lemma {:induction false} WordsAreRuns(s: string)
    ensures forall t :: t in Words(s) ==> |t| > 0 && forall i :: 0 <= i < |t| ==> IsWordChar(t[i])
    decreases |s|
  {
    if s != [] {
      if !IsWordChar(s[0]) {
        WordsAreRuns(s[1..]);
      } else {
        WordsAreRuns(s[RunLength(s)..]);
      }
    }
  }

  /** Inside a run, the finite-state count does not start a new run until the run ends. */
  lemma {:induction false} RunStartsSkipRun(s: string, k: nat)
    requires k <= RunLength(s)
    ensures RunStarts(s, true) == RunStarts(s[k..], true)
    decreases k
  {
    if k > 0 {
      assert IsWordChar(s[0]);
      RunStartsSkipRun(s[1..], k - 1);
      assert s[1..][k - 1..] == s[k..];
    }
  }

  /** Right after a delimiter (or at the end) the scanner state no longer matters. */
  lemma RunStartsAtDelimiter(s: string)
    requires s == [] || !IsWordChar(s[0])
    ensures RunStarts(s, true) == RunStarts(s, false)
  {
  }

  /** The tokens are exactly the maximal runs: there are as many of them as run starts. */
  lemma {:induction false} WordsCountRuns(s: string)
    ensures |Words(s)| == RunCount(s)
    decreases |s|
  {
    if s != [] {
      if !IsWordChar(s[0]) {
        WordsCountRuns(s[1..]);
      } else {
        var k := RunLength(s);
        WordsCountRuns(s[k..]);
        RunStartsSkipRun(s[1..], k - 1);
        assert s[1..][k - 1..] == s[k..];
        RunStartsAtDelimiter(s[k..]);
      }
    }
  }

  /** A run that stops before the end of `s` is not extended by whatever follows `s`. */
  lemma RunLengthAppend(s: string, t: string)
    requires RunLength(s) < |s| || (t != [] && !IsWordChar(t[0]))
    ensures RunLength(s + t) == RunLength(s)
  {
    var k, j := RunLength(s), RunLength(s + t);
    assert k < |s + t| && !IsWordChar((s + t)[k]);
    assert forall i :: 0 <= i < |s| ==> (s + t)[i] == s[i];
  }

  /** A delimiter between two texts separates their tokens: none is counted across it. */
  lemma {:induction false} WordsSplit(x: string, c: char, y: string)
    requires !IsWordChar(c)
    ensures Words(x + [c] + y) == Words(x) + Words(y)
    decreases |x|
  {
    var s := x + [c] + y;
    if x == [] {
      assert s[1..] == y;
    } else if !IsWordChar(x[0]) {
      assert s[1..] == x[1..] + [c] + y;
      WordsSplit(x[1..], c, y);
    } else {
      RunLengthAppend(x, [c] + y);
      assert s == x + ([c] + y);
      var k := RunLength(x);
      assert s[..k] == x[..k];
      assert s[k..] == x[k..] + [c] + y;
      WordsSplit(x[k..], c, y);
    }
  }

  /** A trailing delimiter adds no token. */
  lemma {:induction false} WordsTrailingDelimiter(x: string, c: char)
    requires !IsWordChar(c)
    ensures Words(x + [c]) == Words(x)
  {
    WordsSplit(x, c, []);
    assert x + [c] + [] == x + [c];
    assert Words([]) == [];
  }

  /** Lower-casing twice is lower-casing once. */
  lemma LowerIdempotent(s: string)
    ensures Lower(Lower(s)) == Lower(s)
  {
    forall i | 0 <= i < |s| ensures LowerChar(LowerChar(s[i])) == LowerChar(s[i]) {
      assert !IsUpper(LowerChar(s[i]));
    }
  }

  /** The mapper already lower-cases: a lower-cased chunk gives the same counter. */
  lemma MapperLower(chunk: string)
    ensures Mapper(Lower(chunk)) == Mapper(chunk)
  {
    LowerIdempotent(chunk);
  }

  /** Lower-casing distributes over concatenation. */
  lemma LowerAppend(a: string, b: string)
    ensures Lower(a + b) == Lower(a) + Lower(b)
  {
  }

  /**
   * The mapper does not count across a line break: the counter of two pieces joined
   * by "\n" is the pointwise sum of the counters of the pieces.
   */
  lemma MapperSplit(a: string, b: string)
    ensures Mapper(a + "\n" + b) == Merge(Mapper(a), Mapper(b))
  {
    LowerAppend(a + "\n", b);
    LowerAppend(a, "\n");
    assert Lower("\n") == "\n";
    WordsSplit(Lower(a), '\n', Lower(b));
    TallyAppend(Words(Lower(a)), Words(Lower(b)));
  }

  /**
   * The mapper's counter: keys are non-empty lower-case words of word characters,
   * every count is at least 1, each count is the number of times the word occurs
   * as a token, and the counts add up to the number of maximal runs of word characters.
   */
  lemma MapperCounts(chunk: string)
    ensures forall w :: w in Mapper(chunk) ==>
      && |w| > 0
      && (forall i :: 0 <= i < |w| ==> IsWordChar(w[i]) && !IsUpper(w[i]))
      && Mapper(chunk)[w] >= 1
    ensures forall w :: Get(Mapper(chunk), w) == multiset(Words(Lower(chunk)))[w]
    ensures Total(Mapper(chunk)) == RunCount(Lower(chunk))
  {
    var low := Lower(chunk);
    TallyCounts(Words(low));
    TallyTotal(Words(low));
    WordsCountRuns(low);
    WordsAreRuns(low);
    LowerWordsAreLower(low);
  }

  /** Tokens of a lower-cased text contain no upper-case letter. */
  lemma {:induction false} LowerWordsAreLower(s: string)
    requires forall i :: 0 <= i < |s| ==> !IsUpper(s[i])
    ensures forall t :: t in Words(s) ==> forall i :: 0 <= i < |t| ==> !IsUpper(t[i])
    decreases |s|
  {
    if s != [] {
      if !IsWordChar(s[0]) {
        LowerWordsAreLower(s[1..]);
      } else {
        LowerWordsAreLower(s[RunLength(s)..]);
      }
    }
  }

  /** Lower-casing changes neither which characters are word characters nor the number of runs. */
  lemma {:induction false} RunStartsLower(s: string, inWord: bool)
    ensures RunStarts(Lower(s), inWord) == RunStarts(s, inWord)
    decreases |s|
  {
    if s != [] {
      RunStartsLower(s[1..], IsWordChar(s[0]));
      assert Lower(s)[1..] == Lower(s[1..]);
    }
  }

  /** A text made only of word characters is one token. */
  lemma WordsOfWord(s: string)
    requires s != [] && forall i :: 0 <= i < |s| ==> IsWordChar(s[i])
    ensures Words(s) == [s]
  {
    assert RunLength(s) == |s|;
    assert s[..|s|] == s && s[|s|..] == [];
  }

  /** Case and punctuation are normalised away: "Hello, hello world!" counts `hello` twice and `world` once. */
  lemma MapperExample()
    ensures Mapper("Hello, hello world!") == map["hello" := 2, "world" := 1]
  {
    ExampleWords();
    ExampleTally();
  }

  lemma ExampleTally()
    ensures Tally(["hello", "hello", "world"]) == map["hello" := 2, "world" := 1]
  {
    var words := ["hello", "hello", "world"];
    assert multiset(words)["hello"] == 2 && multiset(words)["world"] == 1;
    TallyCounts(words);
    var r := Tally(words);
    assert r.Keys == {"hello", "world"};
    assert r["hello"] == 2 && r["world"] == 1;
  }

  lemma ExampleWords()
    ensures Words(Lower("Hello, hello world!")) == ["hello", "hello", "world"]
  {
    ExampleLower();
    ExampleWordsComma();
  }

  lemma ExampleWordsComma()
    ensures Words("hello, hello world!") == ["hello", "hello", "world"]
  {
    var s := "hello, hello world!";
    assert s == "hello" + [','] + " hello world!";
    WordDelimiterRest("hello", ',', " hello world!");
    ExampleWordsTail();
  }

  lemma ExampleLower()
    ensures Lower("Hello, hello world!") == "hello, hello world!"
  {
    assert LowerChar('H') == 'h';
  }

  lemma ExampleWordsTail()
    ensures Words(" hello world!") == ["hello", "world"]
  {
    var s := " hello world!";
    assert s[1..] == "hello world!";
    assert "hello world!" == "hello" + [' '] + "world!";
    WordDelimiterRest("hello", ' ', "world!");
    ExampleWordsLast();
  }

  lemma ExampleWordsLast()
    ensures Words("world!") == ["world"]
  {
    assert "world!" == "world" + ['!'] + [];
    WordDelimiterRest("world", '!', []);
  }

  /** A run of word characters, a delimiter, then the rest: the run is the first token. */
  lemma WordDelimiterRest(w: string, c: char, rest: string)
    requires forall i :: 0 <= i < |w| ==> IsWordChar(w[i])
    requires !IsWordChar(c)
    ensures Words(w + [c] + rest) == (if w == [] then [] else [w]) + Words(rest)
  {
    WordsSplit(w, c, rest);
    if w != [] {
      WordsOfWord(w);
    }
  }
}
