/**
 * The splitter, `split_text(text, num_chunks)`: the text is cut into lines, the
 * lines into `num_chunks` contiguous groups of `chunk_size = max(1, len(lines) // num_chunks)`
 * lines each, and every group is joined back with "\n". Lines at an index at or
 * beyond `num_chunks * chunk_size` fall into no group; the model keeps that behaviour.
 */
module Splitter {
  import opened WordCounts

  /**
   * The exceptions on the way from the text to the aggregate: `len(lines) // 0` in the
   * splitter, and the `ValueError` a thread pool raises for `max_workers <= 0`.
   */
  datatype Error = ZeroDivision | NoWorkers

  datatype Result<T> = Ok(value: T) | Err(error: Error)

  /** No line break occurs in `s`. */
  predicate NoNewline(s: string)
  {
    forall i :: 0 <= i < |s| ==> s[i] != '\n'
  }

  /** The position of the first "\n" in `s`, or `|s|` when there is none. */
  function LineEnd(s: string): (i: nat)
    ensures i <= |s|
    ensures NoNewline(s[..i])
    ensures i < |s| ==> s[i] == '\n'
  {
    if s == [] || s[0] == '\n' then 0 else 1 + LineEnd(s[1..])
  }

  /**
   * `str.splitlines()` with "\n" as the only line boundary: a final "\n" ends the
   * last line and does not open an empty one, and the empty text has no lines.
   */
  function SplitLines(s: string): seq<string>
    decreases |s|
  {
    if s == [] then []
    else
      var i := LineEnd(s);
      if i == |s| then [s] else [s[..i]] + SplitLines(s[i + 1..])
  }

  /** `"\n".join(lines)`. */
  function Join(lines: seq<string>): string
  {
    if lines == [] then ""
    else if |lines| == 1 then lines[0]
    else lines[0] + "\n" + Join(lines[1..])
  }

  /** The lines of a list of groups, in order (the inverse of grouping). */
  function Flatten<T>(groups: seq<seq<T>>): seq<T>
  {
    if groups == [] then [] else Flatten(groups[..|groups| - 1]) + groups[|groups| - 1]
  }

  /** `max(1, line_count // num_chunks)`. */
  function ChunkSize(lineCount: nat, numChunks: nat): (size: nat)
    requires numChunks >= 1
    ensures size >= 1
    ensures lineCount >= numChunks ==> size == lineCount / numChunks
    ensures lineCount < numChunks ==> size == 1
  {
    if lineCount / numChunks > 1 then lineCount / numChunks else 1
  }

  /** Python's `s[lo:hi]` for non-negative bounds: both are clamped to the length. */
  function Slice<T>(s: seq<T>, lo: nat, hi: nat): (r: seq<T>)
    ensures lo <= hi ==> r == s[Min(lo, |s|)..Min(hi, |s|)]
    ensures hi <= lo ==> r == []
  {
    var l, h := Min(lo, |s|), Min(hi, |s|);
    if l <= h then s[l..h] else []
  }

  /** The group of lines of each fragment: `lines[i * chunk_size:(i + 1) * chunk_size]`. */
  function ChunkLines(lines: seq<string>, numChunks: nat): seq<seq<string>>
    requires numChunks >= 1
  {
    var size := ChunkSize(|lines|, numChunks);
    seq(numChunks, i requires 0 <= i < numChunks => Slice(lines, i * size, (i + 1) * size))
  }

  /** The fragments of `split_text` for a positive chunk count. */
  function Fragments(lines: seq<string>, numChunks: nat): seq<string>
    requires numChunks >= 1
  {
    var groups := ChunkLines(lines, numChunks);
    seq(numChunks, i requires 0 <= i < numChunks => Join(groups[i]))
  }

  /** How many leading lines end up in some fragment: `min(len(lines), num_chunks * chunk_size)`. */
  function Covered(lineCount: nat, numChunks: nat): nat
    requires numChunks >= 1
  {
    Min(lineCount, numChunks * ChunkSize(lineCount, numChunks))
  }

  /**
   * `split_text(text, num_chunks)`. A zero chunk count raises (`len(lines) // 0`);
   * a negative one gives no fragments (`range` of a negative number is empty);
   * otherwise there are exactly `num_chunks` fragments.
   */
  function SplitText(text: string, numChunks: int): (r: Result<seq<string>>)
    ensures r.Err? <==> numChunks == 0
    ensures r.Err? ==> r.error == ZeroDivision
    ensures numChunks < 0 ==> r == Ok([])
    ensures numChunks > 0 ==> r.Ok? && |r.value| == numChunks
  {
    if numChunks == 0 then Err(ZeroDivision)
    else if numChunks < 0 then Ok([])
    else Ok(Fragments(SplitLines(text), numChunks))
  }

  /** No line produced by `SplitLines` contains a line break. */
  lemma {:induction false} SplitLinesNoNewline(s: string)
    ensures forall l :: l in SplitLines(s) ==> NoNewline(l)
    decreases |s|
  {
    if s != [] && LineEnd(s) < |s| {
      SplitLinesNoNewline(s[LineEnd(s) + 1..]);
    }
  }

  /**
   * Joining the lines gives the text back, except for a final "\n",
   * which `splitlines` drops.
   */
  lemma {:induction false} JoinSplitLines(s: string)
    ensures s == Join(SplitLines(s)) + TrailingBreak(s)
    decreases |s|
  {
    if s != [] {
      var i := LineEnd(s);
      if i == |s| {
        assert SplitLines(s) == [s];
        assert s[..i] == s;
      } else {
        var line, rest := s[..i], s[i + 1..];
        assert s == line + "\n" + rest;
        JoinSplitLines(rest);
        JoinFirstLine(line, rest);
      }
    }
  }

  /** "\n" when `s` ends with a line break, "" otherwise: what `splitlines` then `join` loses. */
  function TrailingBreak(s: string): string
  {
    if s != [] && s[|s| - 1] == '\n' then "\n" else ""
  }

  /** `splitlines` takes off the first line, up to its break, and goes on with the rest. */
  lemma SplitLinesFirst(line: string, rest: string)
    requires NoNewline(line)
    ensures SplitLines(line + "\n" + rest) == [line] + SplitLines(rest)
  {
    var s := line + "\n" + rest;
    LineEndOfLine(line, "\n" + rest);
    assert s == line + ("\n" + rest);
    assert s[..|line|] == line && s[|line| + 1..] == rest;
  }

  /** Joining a first line onto further lines puts one break between them. */
  lemma JoinFirst(line: string, ls: seq<string>)
    requires ls != []
    ensures Join([line] + ls) == line + "\n" + Join(ls)
  {
    assert ([line] + ls)[1..] == ls;
  }

  /** One step of the round trip: the first line, a break, and the rest's round trip. */
  lemma JoinFirstLine(line: string, rest: string)
    requires NoNewline(line)
    requires rest == Join(SplitLines(rest)) + TrailingBreak(rest)
    ensures line + "\n" + rest == Join(SplitLines(line + "\n" + rest)) + TrailingBreak(line + "\n" + rest)
  {
    SplitLinesFirst(line, rest);
    if rest == [] {
      JoinLastBreak(line);
    } else {
      assert SplitLines(rest) != [];
      JoinFirstMore(line, rest, SplitLines(rest));
    }
  }

  /** A last line followed by a break: the line comes back, the break is the trailing one. */
  lemma JoinLastBreak(line: string)
    requires NoNewline(line)
    ensures line + "\n" == Join(SplitLines(line + "\n")) + TrailingBreak(line + "\n")
  {
    SplitLinesFirst(line, "");
    assert line + "\n" + "" == line + "\n";
    assert SplitLines("") == [];
    assert Join([line]) == line;
  }

  /** A line, a break, then a non-empty rest whose lines `ls` are known. */
  lemma JoinFirstMore(line: string, rest: string, ls: seq<string>)
    requires rest != [] && ls != []
    requires rest == Join(ls) + TrailingBreak(rest)
    ensures line + "\n" + rest == Join([line] + ls) + TrailingBreak(line + "\n" + rest)
  {
    var s := line + "\n" + rest;
    JoinFirst(line, ls);
    assert s[|s| - 1] == rest[|rest| - 1];
    calc {
      Join([line] + ls) + TrailingBreak(s);
      line + "\n" + Join(ls) + TrailingBreak(rest);
      line + "\n" + (Join(ls) + TrailingBreak(rest));
    }
  }

  /** Lines without breaks, the last one non-empty, come back unchanged from `splitlines` of their join. */
  lemma {:induction false} SplitLinesJoin(lines: seq<string>)
    requires forall l :: l in lines ==> NoNewline(l)
    requires lines == [] || lines[|lines| - 1] != ""
    ensures SplitLines(Join(lines)) == lines
  {
    if lines != [] {
      var s := Join(lines);
      var first := lines[0];
      if |lines| == 1 {
        LineEndOfLine(first, "");
        assert first + "" == first;
      } else {
        var more := lines[1..];
        assert lines == [first] + more;
        assert first in lines;
        SplitLinesJoin(more);
        JoinFirst(first, more);
        SplitLinesFirst(first, Join(more));
      }
    }
  }

  /** In a line followed by a break or by nothing, the first break is right after the line. */
  lemma {:induction false} LineEndOfLine(line: string, rest: string)
    requires NoNewline(line)
    requires rest == [] || rest[0] == '\n'
    ensures LineEnd(line + rest) == |line|
  {
    if line != [] {
      assert (line + rest)[1..] == line[1..] + rest;
      LineEndOfLine(line[1..], rest);
    } else {
      assert line + rest == rest;
    }
  }

  /** Multiplying by a chunk size keeps the order of chunk indices. */
  lemma MulMonotone(a: nat, b: nat, size: nat)
    requires a <= b
    ensures a * size <= b * size
  {
    assert b * size == a * size + (b - a) * size;
  }

  /** The groups taken before group `k` are exactly the first `min(len, k * chunk_size)` lines. */
  lemma {:induction false} ChunkPrefix(lines: seq<string>, numChunks: nat, k: nat)
    requires 1 <= numChunks && k <= numChunks
    ensures Flatten(ChunkLines(lines, numChunks)[..k])
         == lines[..Min(|lines|, k * ChunkSize(|lines|, numChunks))]
  {
    var groups, size := ChunkLines(lines, numChunks), ChunkSize(|lines|, numChunks);
    if k == 0 {
      assert groups[..0] == [];
    } else {
      ChunkPrefix(lines, numChunks, k - 1);
      var a, b := Min(|lines|, (k - 1) * size), Min(|lines|, k * size);
      assert Flatten(groups[..k]) == Flatten(groups[..k - 1]) + groups[k - 1] by {
        assert groups[..k][..k - 1] == groups[..k - 1];
      }
      assert groups[k - 1] == lines[a..b] by {
        assert (k - 1) * size + size == k * size;
        assert groups[k - 1] == Slice(lines, (k - 1) * size, k * size);
      }
      assert lines[..b] == lines[..a] + lines[a..b];
    }
  }

  /**
   * The fragments cover a prefix of the lines, each line at most once and in order:
   * their concatenated groups are exactly the first `Covered` lines.
   */
  lemma ChunksCoverPrefix(lines: seq<string>, numChunks: nat)
    requires numChunks >= 1
    ensures Flatten(ChunkLines(lines, numChunks)) == lines[..Covered(|lines|, numChunks)]
  {
    ChunkPrefix(lines, numChunks, numChunks);
    assert ChunkLines(lines, numChunks)[..numChunks] == ChunkLines(lines, numChunks);
  }

  /**
   * Fragment `i` is the join of lines `[i * chunk_size, (i + 1) * chunk_size)` clamped to
   * the line count (so fragment `i + 1` starts where fragment `i` ends); no fragment
   * reaches past `Covered`, and the last one ends there.
   */
  lemma FragmentLines(lines: seq<string>, numChunks: nat, i: nat)
    requires 1 <= numChunks && i < numChunks
    ensures var size, n := ChunkSize(|lines|, numChunks), |lines|;
      && Fragments(lines, numChunks)[i] == Join(lines[Min(n, i * size)..Min(n, (i + 1) * size)])
      && Min(n, i * size) <= Min(n, (i + 1) * size) <= Covered(n, numChunks)
      && (i + 1 == numChunks ==> Min(n, (i + 1) * size) == Covered(n, numChunks))
  {
    var size := ChunkSize(|lines|, numChunks);
    MulMonotone(i, i + 1, size);
    MulMonotone(i + 1, numChunks, size);
  }

  /**
   * The dropped tail: with at least as many lines as fragments, exactly the first
   * `num_chunks * (len // num_chunks)` lines are in some fragment and the last
   * `len % num_chunks` lines are in none.
   */
  lemma DroppedTail(lines: seq<string>, numChunks: nat)
    requires 1 <= numChunks <= |lines|
    ensures Covered(|lines|, numChunks) == numChunks * (|lines| / numChunks)
    ensures |lines| - Covered(|lines|, numChunks) == |lines| % numChunks
    ensures Flatten(ChunkLines(lines, numChunks)) == lines[..numChunks * (|lines| / numChunks)]
  {
    var n := |lines|;
    assert n == numChunks * (n / numChunks) + n % numChunks;
    ChunksCoverPrefix(lines, numChunks);
  }

  /**
   * With fewer lines than fragments every line is kept: fragment `i` is line `i`
   * and the trailing fragments are empty.
   */
  lemma FewLines(lines: seq<string>, numChunks: nat)
    requires |lines| < numChunks
    ensures Covered(|lines|, numChunks) == |lines|
    ensures Flatten(ChunkLines(lines, numChunks)) == lines
    ensures forall i :: 0 <= i < numChunks ==>
      Fragments(lines, numChunks)[i] == if i < |lines| then lines[i] else ""
  {
    ChunksCoverPrefix(lines, numChunks);
    assert lines[..|lines|] == lines;
    forall i | 0 <= i < numChunks
      ensures Fragments(lines, numChunks)[i] == if i < |lines| then lines[i] else ""
    {
      if i < |lines| {
        assert ChunkLines(lines, numChunks)[i] == [lines[i]];
      } else {
        assert ChunkLines(lines, numChunks)[i] == [];
      }
    }
  }

  /** The empty text gives `num_chunks` empty fragments and no error. */
  lemma EmptyText(numChunks: nat)
    requires numChunks >= 1
    ensures SplitText("", numChunks) == Ok(seq(numChunks, i => ""))
  {
    var none: seq<string> := [];
    assert SplitLines("") == none;
    var frags, empties: seq<string> := Fragments(none, numChunks), seq(numChunks, i => "");
    forall i | 0 <= i < numChunks ensures frags[i] == empties[i] {
      EmptyGroup(numChunks, i);
    }
    assert frags == empties;
  }

  /** Every group of lines of the empty text is empty. */
  lemma EmptyGroup(numChunks: nat, i: nat)
    requires i < numChunks
    ensures Fragments([], numChunks)[i] == ""
  {
    var size := ChunkSize(0, numChunks);
    assert ChunkLines([], numChunks)[i] == Slice([], i * size, (i + 1) * size) == [];
  }
}
