/**
 * The main block of the word-frequency script: split the fetched text into
 * `num_chunks = 8` fragments, run the mapper over every fragment (a thread pool whose
 * `executor.map` keeps fragment order; the workers share nothing, so the model maps
 * sequentially), reduce the counters, and hand the aggregate with `top_n = 10` to
 * `visualize_top_words`. Fetching is outside the model: the text is a parameter.
 */
module Pipeline {
  import opened WordCounts
  import opened Tokenizer
  import opened Splitter
  import opened Reducer
  import TopWords

  /** `num_chunks` in the main block: both the fragment count and the worker count. */
  const NumChunks: int := 8

  /** `top_n` passed to `visualize_top_words` by the main block. */
  const TopN: int := 10

  /** `list(executor.map(mapper, text_chunks))`: one counter per fragment, in fragment order. */
  function MapChunks(chunks: seq<string>): seq<WordCount>
  {
    seq(|chunks|, i requires 0 <= i < |chunks| => Mapper(chunks[i]))
  }

  /**
   * `reducer(list(executor.map(mapper, split_text(text, num_chunks))))` in a pool of
   * `num_chunks` workers. A zero count fails in the splitter; a negative count gets
   * through the splitter, but then the pool refuses to start.
   */
  function Analyze(text: string, numChunks: int): (r: Result<WordCount>)
    ensures r.Err? <==> numChunks <= 0
    ensures numChunks == 0 ==> r == Err(ZeroDivision)
    ensures numChunks < 0 ==> r == Err(NoWorkers)
  {
    match SplitText(text, numChunks)
    case Err(e) => Err(e)
    case Ok(chunks) =>
      if numChunks <= 0 then Err(NoWorkers) else Ok(SumAll(MapChunks(chunks)))
  }

  /** The tokens of a list of lines, line after line. */
  function TokensOf(lines: seq<string>): seq<string>
  {
    if lines == [] then [] else Words(Lower(lines[0])) + TokensOf(lines[1..])
  }

  /**
   * Steps 2 and 3 of the main block: split, start a pool of `num_chunks` workers, map
   * every fragment, reduce. The result is the aggregate of the fragments' counters, or
   * the first error raised.
   */
  method CountWords(text: string, numChunks: int) returns (r: Result<WordCount>)
    ensures r == Analyze(text, numChunks)
  {
    var split := SplitText(text, numChunks);
    if split.Err? {
      return Err(split.error);
    }
    if numChunks <= 0 {
      return Err(NoWorkers);
    }
    var chunks := split.value;
    var counters := MapChunks(chunks);
    var total := Reduce(counters);
    r := Ok(total);
  }

  /**
   * The whole main block for a fetched text: count with eight fragments and report
   * the ten most common words. `order` is the aggregate counter's iteration order,
   * which decides ties between equal counts.
   */
  method RunWordFrequency(text: string, order: seq<string>) returns (outcome: TopWords.Outcome)
    requires TopWords.IsKeyOrder(order, Analyze(text, NumChunks).value)
    ensures outcome == TopWords.VisualizeTopWords(Analyze(text, NumChunks).value, order, TopN)
  {
    var counts := CountWords(text, NumChunks);
    outcome := TopWords.VisualizeTopWords(counts.value, order, TopN);
  }

  /** Tokenizing lines one by one yields the tokens of the two halves in turn. */
  lemma {:induction false} TokensOfAppend(a: seq<string>, b: seq<string>)
    ensures TokensOf(a + b) == TokensOf(a) + TokensOf(b)
  {
    if a != [] {
      TokensOfAppend(a[1..], b);
      assert (a + b)[1..] == a[1..] + b;
    } else {
      assert a + b == b;
    }
  }

  /** The tokens of joined lines are the tokens of each line in turn: "\n" joins no words. */
  lemma {:induction false} WordsOfJoin(lines: seq<string>)
    ensures Words(Lower(Join(lines))) == TokensOf(lines)
  {
    if lines == [] {
      assert Lower("") == "";
    } else if |lines| == 1 {
      assert lines[1..] == [];
    } else {
      WordsOfJoin(lines[1..]);
      var a, b := lines[0], Join(lines[1..]);
      LowerAppend(a + "\n", b);
      LowerAppend(a, "\n");
      assert Lower("\n") == "\n";
      WordsSplit(Lower(a), '\n', Lower(b));
    }
  }

  /** Splitting into lines loses no token: the lines' tokens are the text's. */
  lemma TokensOfText(text: string)
    ensures TokensOf(SplitLines(text)) == Words(Lower(text))
  {
    var joined := Join(SplitLines(text));
    JoinSplitLines(text);
    WordsOfJoin(SplitLines(text));
    if text != [] && text[|text| - 1] == '\n' {
      LowerAppend(joined, "\n");
      assert Lower("\n") == "\n";
      WordsTrailingDelimiter(Lower(joined), '\n');
    } else {
      assert text == joined;
    }
  }

  /**
   * Mapping every group of lines and reducing the counters is counting the tokens of
   * all the groups' lines taken in order.
   */
  lemma {:induction false} ReduceMappedGroups(groups: seq<seq<string>>)
    ensures SumAll(seq(|groups|, i requires 0 <= i < |groups| => Mapper(Join(groups[i]))))
         == Tally(TokensOf(Flatten(groups)))
  {
    var counters := seq(|groups|, i requires 0 <= i < |groups| => Mapper(Join(groups[i])));
    if groups == [] {
      assert counters == [];
    } else {
      var init, last := groups[..|groups| - 1], groups[|groups| - 1];
      var initCounters := seq(|init|, i requires 0 <= i < |init| => Mapper(Join(init[i])));
      assert counters[..|counters| - 1] == initCounters;
      ReduceMappedGroups(init);
      WordsOfJoin(last);
      TokensOfAppend(Flatten(init), last);
      TallyAppend(TokensOf(Flatten(init)), TokensOf(last));
      calc {
        SumAll(counters);
        Merge(SumAll(initCounters), Mapper(Join(last)));
        Merge(Tally(TokensOf(Flatten(init))), Tally(TokensOf(last)));
        Tally(TokensOf(Flatten(init) + last));
      }
    }
  }

  /**
   * For a positive chunk count the aggregate counts exactly the tokens of the lines
   * the fragments cover, the first `Covered` lines; the rest are never counted.
   */
  lemma AnalyzeCountsCoveredLines(text: string, numChunks: int)
    requires numChunks >= 1
    ensures var lines := SplitLines(text);
      Analyze(text, numChunks) == Ok(Tally(TokensOf(lines[..Covered(|lines|, numChunks)])))
  {
    var lines := SplitLines(text);
    var groups := ChunkLines(lines, numChunks);
    assert MapChunks(Fragments(lines, numChunks))
        == seq(|groups|, i requires 0 <= i < |groups| => Mapper(Join(groups[i])));
    ReduceMappedGroups(groups);
    ChunksCoverPrefix(lines, numChunks);
  }

  /**
   * End to end: when every line lands in some fragment (the line count is a multiple
   * of the chunk count, or smaller than it), each word's aggregate count is its number
   * of occurrences as a token of the whole lower-cased text.
   */
  lemma AnalyzeCountsWholeText(text: string, numChunks: int)
    requires numChunks >= 1
    requires |SplitLines(text)| % numChunks == 0 || |SplitLines(text)| < numChunks
    ensures Analyze(text, numChunks).Ok?
    ensures forall w :: Get(Analyze(text, numChunks).value, w) == multiset(Words(Lower(text)))[w]
  {
    var lines := SplitLines(text);
    var n := |lines|;
    if n >= numChunks {
      DroppedTail(lines, numChunks);
    } else {
      FewLines(lines, numChunks);
    }
    assert lines[..Covered(n, numChunks)] == lines;
    AnalyzeCountsCoveredLines(text, numChunks);
    TokensOfText(text);
    TallyCounts(Words(Lower(text)));
  }

  /**
   * The dropped tail, end to end: with three lines and two fragments the fragments
   * hold one line each, and the word on the third line is not counted at all.
   */
  lemma DroppedTailExample()
    ensures SplitText("a\nb\nc", 2) == Ok(["a", "b"])
    ensures Get(Analyze("a\nb\nc", 2).value, "c") == 0
    ensures multiset(Words(Lower("a\nb\nc")))["c"] == 1
  {
    ExampleSplit();
    ExampleAnalyze();
    ExampleCounts();
  }

  lemma ExampleSplit()
    ensures SplitText("a\nb\nc", 2) == Ok(["a", "b"])
  {
    ExampleLines();
    ExampleChunks();
  }

  lemma ExampleAnalyze()
    ensures Analyze("a\nb\nc", 2) == Ok(Tally(["a", "b"]))
  {
    assert ["a", "b", "c"][..2] == ["a", "b"];
    assert Covered(3, 2) == 2;
    ExampleLines();
    ExampleTokens();
    AnalyzeCountsCoveredLines("a\nb\nc", 2);
  }

  lemma ExampleCounts()
    ensures Get(Tally(["a", "b"]), "c") == 0
    ensures multiset(Words(Lower("a\nb\nc")))["c"] == 1
  {
    assert multiset(["a", "b"])["c"] == 0;
    assert multiset(["a", "b", "c"])["c"] == 1;
    TallyCounts(["a", "b"]);
    ExampleLines();
    ExampleTokens();
    TokensOfText("a\nb\nc");
  }

  lemma ExampleLines()
    ensures SplitLines("a\nb\nc") == ["a", "b", "c"]
  {
    assert SplitLines("c") == ["c"] by {
      assert LineEnd("c") == 1;
    }
    assert SplitLines("b\nc") == ["b", "c"] by {
      assert LineEnd("b\nc") == 1;
      assert "b\nc"[..1] == "b" && "b\nc"[2..] == "c";
    }
    var text := "a\nb\nc";
    assert LineEnd(text) == 1;
    assert text[..1] == "a" && text[2..] == "b\nc";
  }

  lemma ExampleChunks()
    ensures ChunkLines(["a", "b", "c"], 2) == [["a"], ["b"]]
    ensures Fragments(["a", "b", "c"], 2) == ["a", "b"]
  {
    var lines := ["a", "b", "c"];
    assert ChunkSize(3, 2) == 1;
    assert Slice(lines, 0, 1) == lines[0..1] == ["a"];
    assert Slice(lines, 1, 2) == lines[1..2] == ["b"];
    assert ChunkLines(lines, 2) == [["a"], ["b"]];
    assert Join(["a"]) == "a" && Join(["b"]) == "b";
  }

  lemma ExampleTokens()
    ensures TokensOf(["a", "b"]) == ["a", "b"]
    ensures TokensOf(["a", "b", "c"]) == ["a", "b", "c"]
  {
    assert Lower("a") == "a" && Lower("b") == "b" && Lower("c") == "c";
    WordsOfWord("a");
    WordsOfWord("b");
    WordsOfWord("c");
    assert TokensOf(["c"]) == ["c"];
    assert TokensOf(["b", "c"]) == ["b", "c"];
    assert TokensOf(["b"]) == ["b"];
  }
}
