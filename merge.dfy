/** The rewrite one training step applies to the token stream: a single
    greedy left-to-right pass that replaces each non-overlapping occurrence
    of one pair by a freshly minted id, and its inverse. */
module Merge {
  import opened TokenPairs
  import opened PairCounts

  /** The training rewrite: scanning from the left, a window equal to `p`
      becomes `m` and the scan resumes after it; any other token is copied
      and the scan moves on by one; a last unconsumed token is copied. */
  function Replace(s: seq<int>, p: Pair, m: int): seq<int>
    decreases |s|
  {
    if |s| < 2 then s
    else if (s[0], s[1]) == p then [m] + Replace(s[2..], p, m)
    else [s[0]] + Replace(s[1..], p, m)
  }

  /** How many replacements that pass makes. */
  function ReplaceCount(s: seq<int>, p: Pair): nat
    decreases |s|
  {
    if |s| < 2 then 0
    else if (s[0], s[1]) == p then 1 + ReplaceCount(s[2..], p)
    else ReplaceCount(s[1..], p)
  }

  /** The inverse rewrite: every `m` is expanded back into the two tokens of `p`. */
  function Unreplace(s: seq<int>, m: int, p: Pair): seq<int>
    decreases |s|
  {
    if s == [] then []
    else (if s[0] == m then [p.0, p.1] else [s[0]]) + Unreplace(s[1..], m, p)
  }

  /** The largest id of a non-empty stream (Python's `max`). */
  function StreamMax(s: seq<int>): (r: int)
    requires |s| > 0
    ensures r in s
    ensures forall i :: 0 <= i < |s| ==> s[i] <= r
  {
    if |s| == 1 then s[0]
    else
      var rest := StreamMax(s[1..]);
      assert forall i :: 1 <= i < |s| ==> s[i] == s[1..][i - 1];
      if s[0] < rest then rest else s[0]
  }

  /** Expanding the minted id back gives the old stream exactly. */
  lemma {:induction false} UnreplaceReplace(s: seq<int>, p: Pair, m: int)
    requires m !in s
    ensures Unreplace(Replace(s, p, m), m, p) == s
    decreases |s|
  {
    if |s| >= 2 {
      if (s[0], s[1]) == p {
        assert s[2..] == s[1..][1..];
        UnreplaceReplace(s[2..], p, m);
        assert [m] + Replace(s[2..], p, m) == Replace(s, p, m);
        assert s == [p.0, p.1] + s[2..];
      } else {
        assert s[0] != m && s[0] in s;
        UnreplaceReplace(s[1..], p, m);
        assert s == [s[0]] + s[1..];
      }
    }
  }

  /** The stream shrinks by exactly the number of replacements. */
  lemma {:induction false} ReplaceLength(s: seq<int>, p: Pair, m: int)
    ensures |Replace(s, p, m)| == |s| - ReplaceCount(s, p)
    decreases |s|
  {
    if |s| >= 2 {
      if (s[0], s[1]) == p {
        ReplaceLength(s[2..], p, m);
      } else {
        ReplaceLength(s[1..], p, m);
      }
    }
  }

  /** If some window holds `p`, the pass replaces at least once. */
  lemma {:induction false} ReplaceCountPositive(s: seq<int>, p: Pair)
    requires Frequency(s, p) >= 1
    ensures ReplaceCount(s, p) >= 1
    decreases |s|
  {
    if (s[0], s[1]) != p {
      assert p in Pairs(s);
      assert Pairs(s) == [(s[0], s[1])] + Pairs(s[1..]);
      assert p in Pairs(s[1..]);
      ReplaceCountPositive(s[1..], p);
    }
  }

  /** Tokens of the new stream are tokens of the old one, or the minted id;
      and the minted id appears exactly when the pass replaced something. */
  lemma {:induction false} ReplaceTokens(s: seq<int>, p: Pair, m: int)
    requires m !in s
    ensures forall t :: t in Replace(s, p, m) ==> t == m || t in s
    ensures m in Replace(s, p, m) <==> ReplaceCount(s, p) >= 1
    decreases |s|
  {
    if |s| >= 2 {
      if (s[0], s[1]) == p {
        ReplaceTokens(s[2..], p, m);
        assert forall t :: t in s[2..] ==> t in s;
      } else {
        ReplaceTokens(s[1..], p, m);
        assert forall t :: t in s[1..] ==> t in s;
      }
    }
  }

  /** The first token of the rewritten stream is the old first token or `m`. */
  lemma {:induction false} ReplaceHead(s: seq<int>, p: Pair, m: int)
    requires |s| >= 1
    ensures |Replace(s, p, m)| >= 1
    ensures Replace(s, p, m)[0] == s[0] || Replace(s, p, m)[0] == m
  {
  }

  /** Every window of `r` avoids `p`, and each one holds `m` or is a window of `s`. */
  ghost predicate WindowsAfterReplace(r: seq<int>, s: seq<int>, p: Pair, m: int)
  {
    forall i :: 0 <= i < |r| - 1 ==>
      (r[i], r[i + 1]) != p &&
      (r[i] == m || r[i + 1] == m || (r[i], r[i + 1]) in Pairs(s))
  }

  /** Every window of the rewritten stream either holds `m` or was already a
      window of the old stream; and when neither token of `p` is `m`, no
      window of the rewritten stream holds `p` any more. */
  lemma {:induction false} ReplacePairs(s: seq<int>, p: Pair, m: int)
    requires p.0 != m && p.1 != m
    ensures WindowsAfterReplace(Replace(s, p, m), s, p, m)
    decreases |s|
  {
    var r := Replace(s, p, m);
    if |s| >= 2 {
      if (s[0], s[1]) == p {
        var rest := s[2..];
        ReplacePairs(rest, p, m);
        var r' := Replace(rest, p, m);
        assert r == [m] + r';
        forall q | q in Pairs(rest) ensures q in Pairs(s) {
          assert Pairs(s) == [(s[0], s[1])] + Pairs(s[1..]);
          assert s[1..] == [s[1]] + rest;
          assert Pairs(s[1..]) == (if |rest| == 0 then [] else [(s[1], rest[0])]) + Pairs(rest);
        }
        forall i | 0 <= i < |r| - 1
          ensures (r[i], r[i + 1]) != p &&
                  (r[i] == m || r[i + 1] == m || (r[i], r[i + 1]) in Pairs(s))
        {
          if i > 0 {
            assert r[i] == r'[i - 1] && r[i + 1] == r'[i];
          }
        }
      } else {
        var rest := s[1..];
        ReplacePairs(rest, p, m);
        ReplaceHead(rest, p, m);
        var r' := Replace(rest, p, m);
        assert r == [s[0]] + r';
        assert Pairs(s) == [(s[0], s[1])] + Pairs(rest);
        forall i | 0 <= i < |r| - 1
          ensures (r[i], r[i + 1]) != p &&
                  (r[i] == m || r[i + 1] == m || (r[i], r[i + 1]) in Pairs(s))
        {
          if i > 0 {
            assert r[i] == r'[i - 1] && r[i + 1] == r'[i];
            assert (r[i], r[i + 1]) in Pairs(rest) ==> (r[i], r[i + 1]) in Pairs(s);
          } else {
            assert r[0] == s[0] && r[1] == r'[0];
            assert rest[0] == s[1];
            assert (s[0], s[1]) in Pairs(s);
          }
        }
      }
    }
  }

  /** Each replacement consumes two tokens of the old stream. */
  lemma {:induction false} ReplaceCountHalf(s: seq<int>, p: Pair)
    ensures 2 * ReplaceCount(s, p) <= |s|
    decreases |s|
  {
    if |s| >= 2 {
      if (s[0], s[1]) == p {
        ReplaceCountHalf(s[2..], p);
      } else {
        ReplaceCountHalf(s[1..], p);
      }
    }
  }

  /** A pair held by two or more windows leaves a stream of at least two
      tokens behind: a merge never shrinks the stream below one window. */
  lemma {:induction false} ReplaceKeepsTwo(s: seq<int>, p: Pair, m: int)
    requires Frequency(s, p) >= 2
    ensures |Replace(s, p, m)| >= 2
  {
    CountAtMostLength(Pairs(s), p);
    ReplaceCountHalf(s, p);
    ReplaceLength(s, p, m);
  }

  /** When every old token is below `m` and the pass replaced something, `m`
      is the largest id of the new stream: the stop test of training. */
  lemma {:induction false} ReplaceMax(s: seq<int>, p: Pair, m: int)
    requires forall i :: 0 <= i < |s| ==> s[i] < m
    requires Frequency(s, p) >= 1
    ensures |Replace(s, p, m)| > 0 && StreamMax(Replace(s, p, m)) == m
  {
    assert m !in s;
    ReplaceCountPositive(s, p);
    ReplaceTokens(s, p, m);
    var r := Replace(s, p, m);
    var x := StreamMax(r);
    assert x == m || x in s;
  }
}
