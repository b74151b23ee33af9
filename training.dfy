/** What one training step does to the values the tokenizer holds, and why
    the training invariant survives it: the frequency table and its
    most frequent pair, the merge of that pair, and the two maps. */
module Training {
  import opened TokenPairs
  import opened PairCounts
  import opened Merge
  import opened Codec

  /** The frequency table of a stream: the tally of its windows. */
  function PairTable(s: seq<int>): map<Pair, nat>
  {
    Tally(Pairs(s))
  }

  /** What the table of a stream holds: its keys are exactly the pairs of
      adjacent tokens, each with the number of windows holding it, which is
      at least one; a stream shorter than two tokens has an empty table. */
  lemma PairTableContents(s: seq<int>)
    ensures forall p :: p in PairTable(s) <==> exists i :: 0 <= i < |s| - 1 && (s[i], s[i + 1]) == p
    ensures forall p :: p in PairTable(s) ==> PairTable(s)[p] == Frequency(s, p) >= 1
    ensures |s| < 2 ==> PairTable(s) == map[]
  {
    TallyCounts(Pairs(s));
    forall p | p in PairTable(s) ensures Frequency(s, p) >= 1 {
      assert multiset(Pairs(s))[p] >= 1;
    }
    forall p ensures p in PairTable(s) <==> exists i :: 0 <= i < |s| - 1 && (s[i], s[i + 1]) == p {
      FrequencyPositive(s, p);
    }
  }

  /** A step of the counting loop on a window whose pair is already in the
      table: its frequency goes up by one and the order stays. */
  lemma CountSeen(ps: seq<Pair>, i: nat)
    requires i < |ps| && ps[i] in Tally(ps[..i])
    ensures Tally(ps[..i + 1]) == Tally(ps[..i])[ps[i] := Tally(ps[..i])[ps[i]] + 1]
    ensures FirstSeen(ps[..i + 1]) == FirstSeen(ps[..i])
  {
    assert ps[..i + 1][..i] == ps[..i];
    TallyCounts(ps[..i]);
  }

  /** A step of the counting loop on a window whose pair is new: it enters
      the table with frequency 1, at the end of the order. */
  lemma CountNew(ps: seq<Pair>, i: nat)
    requires i < |ps| && ps[i] !in Tally(ps[..i])
    ensures Tally(ps[..i + 1]) == Tally(ps[..i])[ps[i] := 1]
    ensures FirstSeen(ps[..i + 1]) == FirstSeen(ps[..i]) + [ps[i]]
  {
    assert ps[..i + 1][..i] == ps[..i];
    TallyCounts(ps[..i]);
  }

  /** The records of a frequency table in insertion order (`dict.values()`). */
  function TableValues(order: seq<Pair>, counts: map<Pair, nat>): (es: seq<TokenPair>)
    requires forall i :: 0 <= i < |order| ==> order[i] in counts
    ensures |es| == |order|
    ensures forall i :: 0 <= i < |order| ==>
              es[i].Key() == order[i] && es[i].frequency == counts[order[i]]
    decreases |order|
  {
    if order == [] then []
    else [TokenPair(order[0].0, order[0].1, counts[order[0]])] + TableValues(order[1..], counts)
  }

  /** The record `max` picks from a table's values: a record of the table,
      at least as frequent as every pair in it, and strictly more frequent
      than every pair inserted before it. */
  lemma TopOfTable(order: seq<Pair>, counts: map<Pair, nat>) returns (j: nat)
    requires |order| > 0
    requires forall i :: 0 <= i < |order| ==> order[i] in counts
    requires forall p :: p in counts ==> p in order
    ensures j < |order| && MaxPair(TableValues(order, counts)).Key() == order[j]
    ensures var top := MaxPair(TableValues(order, counts));
            && top.frequency == counts[order[j]]
            && (forall p :: p in counts ==> counts[p] <= top.frequency)
            && (forall i :: 0 <= i < j ==> counts[order[i]] < top.frequency)
  {
    var es := TableValues(order, counts);
    var top := MaxPair(es);
    j :| 0 <= j < |es| && es[j] == top && forall i :: 0 <= i < j ==> es[i].Less(top);
    forall p | p in counts ensures counts[p] <= top.frequency {
      var i :| 0 <= i < |order| && order[i] == p;
      assert es[i] in es && !top.Less(es[i]);
    }
    forall i | 0 <= i < j ensures counts[order[i]] < top.frequency {
      assert es[i].Less(top);
    }
  }

  /** Of the pairs listed in first-seen order, the one strictly more
      frequent than every pair before it occurs no later than any other pair
      just as frequent. */
  lemma FirstWinsTie(ps: seq<Pair>, order: seq<Pair>, counts: map<Pair, nat>, j: nat, f: nat)
    requires order == FirstSeen(ps) && j < |order|
    requires forall i :: 0 <= i < |order| ==> order[i] in counts
    requires forall p :: p in counts ==> p in order
    requires forall i :: 0 <= i < j ==> counts[order[i]] < f
    ensures forall p :: p in counts && counts[p] == f ==> FirstIndex(ps, order[j]) <= FirstIndex(ps, p)
  {
    forall p | p in counts && counts[p] == f ensures FirstIndex(ps, order[j]) <= FirstIndex(ps, p) {
      var i :| 0 <= i < |order| && order[i] == p;
      if i > j {
        FirstSeenOrderAt(ps, j, i);
      }
    }
  }

  lemma FirstSeenOrderAt(ps: seq<Pair>, i: nat, j: nat)
    requires i < j < |FirstSeen(ps)|
    ensures FirstIndex(ps, FirstSeen(ps)[i]) < FirstIndex(ps, FirstSeen(ps)[j])
  {
    FirstSeenOrder(ps);
  }

  /** The most frequent pair of the table of a stream of at least two
      tokens, its keys listed in first-seen order: it is in the table with
      its frequency, no pair is more frequent, and of the pairs that are as
      frequent it occurs first. */
  lemma MostCommonOfTable(tokens: seq<int>)
    requires |tokens| >= 2
    ensures var order := FirstSeen(Pairs(tokens));
            |order| > 0 && forall i :: 0 <= i < |order| ==> order[i] in PairTable(tokens)
    ensures forall p :: p in PairTable(tokens) <==> p in Pairs(tokens)
    ensures var counts := PairTable(tokens);
            var top := MaxPair(TableValues(FirstSeen(Pairs(tokens)), counts));
            && top.Key() in counts && top.frequency == counts[top.Key()]
            && top.frequency == Frequency(tokens, top.Key())
            && (forall p :: p in counts ==> 1 <= counts[p] <= top.frequency)
            && (forall p :: p in counts && counts[p] == top.frequency ==>
                  FirstIndex(Pairs(tokens), top.Key()) <= FirstIndex(Pairs(tokens), p))
  {
    var ps := Pairs(tokens);
    var counts := PairTable(tokens);
    TallyCounts(ps);
    var order := FirstSeen(ps);
    assert ps[0] in ps && ps[0] in counts;
    assert forall p :: p in counts <==> p in order;
    var j := TopOfTable(order, counts);
    var top := MaxPair(TableValues(order, counts));
    forall p | p in counts ensures counts[p] >= 1 {
      assert multiset(ps)[p] >= 1;
    }
    FirstWinsTie(ps, order, counts, j, top.frequency);
  }

  /** The record `get_most_common` returns for the table of a stream of at
      least two tokens: `max` over the values in first-seen order. */
  function TopRecord(tokens: seq<int>): (top: TokenPair)
    requires |tokens| >= 2
    ensures top.Key() in PairTable(tokens) && top.frequency == Frequency(tokens, top.Key()) >= 1
  {
    MostCommonOfTable(tokens);
    MaxPair(TableValues(FirstSeen(Pairs(tokens)), PairTable(tokens)))
  }

  /** A pair more frequent than every other pair of the table is the one
      `get_most_common` returns. */
  lemma TopIsUniqueMax(s: seq<int>, p: Pair)
    requires |s| >= 2 && p in PairTable(s)
    requires forall q :: q in PairTable(s) && q != p ==> PairTable(s)[q] < PairTable(s)[p]
    ensures TopRecord(s).Key() == p && TopRecord(s).frequency == PairTable(s)[p]
  {
    MostCommonOfTable(s);
  }

  /** So is the pair of the stream's first window when no pair is more
      frequent: it wins every tie. */
  lemma TopIsFirstMax(s: seq<int>, p: Pair)
    requires |s| >= 2 && (s[0], s[1]) == p && p in PairTable(s)
    requires forall q :: q in PairTable(s) ==> PairTable(s)[q] <= PairTable(s)[p]
    ensures TopRecord(s).Key() == p && TopRecord(s).frequency == PairTable(s)[p]
  {
    MostCommonOfTable(s);
    var ps := Pairs(s);
    assert ps[0] == p;
    assert FirstIndex(ps, p) == 0;
  }

  /** No pair of the table repeats: training has nothing left to merge. */
  ghost predicate Saturated(counts: map<Pair, nat>)
  {
    forall p :: p in counts ==> counts[p] == 1
  }

  /** The keys of a decoding table are exactly the ids 256 up to `mint`
      (exclusive). */
  ghost predicate MintedBelow(dec: map<int, Pair>, mint: int)
  {
    forall k :: k in dec <==> 256 <= k < mint
  }

  /** What training keeps true of the stream and of the two maps: the ids
      minted so far are 256 up to `mint` (exclusive), each decodes into two
      smaller ids, the maps are mutual inverses, the stream holds only ids
      below `mint` and no pair the encoding map knows, and the stream still
      stands for the original tokens. */
  ghost predicate StreamValid(original: seq<int>, s: seq<int>, mint: int,
                              dec: map<int, Pair>, enc: map<Pair, int>)
  {
    && 256 <= mint
    && MintedBelow(dec, mint)
    && MergesWellFormed(dec)
    && MutuallyInverse(dec, enc)
    && (forall i :: 0 <= i < |s| ==> 0 <= s[i] < mint)
    && NoMergeablePair(enc, s)
    && FlatExpand(dec, s) == original
  }

  /** One step of the rewrite loop of a training step. */
  lemma ReplaceStep(s: seq<int>, p: Pair, m: int, idx: nat, out: seq<int>, target: seq<int>)
    requires idx < |s| - 1 && out + Replace(s[idx..], p, m) == target
    ensures (s[idx], s[idx + 1]) == p ==> (out + [m]) + Replace(s[idx + 2..], p, m) == target
    ensures (s[idx], s[idx + 1]) != p ==> (out + [s[idx]]) + Replace(s[idx + 1..], p, m) == target
  {
    assert s[idx..][1..] == s[idx + 1..] && s[idx..][2..] == s[idx + 2..];
  }

  /** The end of the rewrite loop: a last unconsumed token is copied. */
  lemma ReplaceTail(s: seq<int>, p: Pair, m: int, idx: nat, out: seq<int>, target: seq<int>)
    requires |s| - 1 <= idx <= |s| && out + Replace(s[idx..], p, m) == target
    ensures idx < |s| ==> out + [s[idx]] == target
    ensures idx == |s| ==> out == target
  {
    if idx < |s| {
      assert s[idx..] == [s[idx]];
    } else {
      assert s[idx..] == [];
    }
  }

  /** Adding a new largest key to a decoding table does not change how the
      smaller ids expand. */
  lemma {:induction false} ExpandTokenExtend(dec: map<int, Pair>, m: int, p: Pair, t: int)
    requires MergesWellFormed(dec) && MergesWellFormed(dec[m := p])
    requires forall k :: k in dec ==> k < m
    requires t < m
    ensures ExpandToken(dec[m := p], t) == ExpandToken(dec, t)
    decreases t
  {
    if t in dec {
      ExpandTokenExtend(dec, m, p, dec[t].0);
      ExpandTokenExtend(dec, m, p, dec[t].1);
    }
  }

  lemma {:induction false} FlatExpandExtend(dec: map<int, Pair>, m: int, p: Pair, s: seq<int>)
    requires MergesWellFormed(dec) && MergesWellFormed(dec[m := p])
    requires forall k :: k in dec ==> k < m
    requires forall i :: 0 <= i < |s| ==> s[i] < m
    ensures FlatExpand(dec[m := p], s) == FlatExpand(dec, s)
    decreases |s|
  {
    if s != [] {
      ExpandTokenExtend(dec, m, p, s[0]);
      FlatExpandExtend(dec, m, p, s[1..]);
    }
  }

  /** Expanding a minted id back into its pair does not change what a stream
      stands for. */
  lemma {:induction false} FlatExpandUnreplace(dec: map<int, Pair>, m: int, p: Pair, s: seq<int>)
    requires MergesWellFormed(dec) && m in dec && dec[m] == p
    ensures FlatExpand(dec, Unreplace(s, m, p)) == FlatExpand(dec, s)
    decreases |s|
  {
    if s != [] {
      var head := if s[0] == m then [p.0, p.1] else [s[0]];
      FlatExpandUnreplace(dec, m, p, s[1..]);
      FlatExpandAppend(dec, head, Unreplace(s[1..], m, p));
      if s[0] == m {
        var y := [p.1];
        assert head[1..] == y && y[1..] == [];
        assert FlatExpand(dec, y) == ExpandToken(dec, p.1);
        assert FlatExpand(dec, head) == ExpandToken(dec, p.0) + FlatExpand(dec, y);
      } else {
        assert head[1..] == [];
      }
    }
  }

  /** Recording a merge of a pair not yet known keeps the maps well formed
      and mutually inverse, and the minted ids contiguous. */
  lemma {:induction false} StepMaps(dec: map<int, Pair>, enc: map<Pair, int>, mint: int, p: Pair)
    requires 256 <= mint && MintedBelow(dec, mint)
    requires MergesWellFormed(dec) && MutuallyInverse(dec, enc)
    requires p !in enc && 0 <= p.0 < mint && 0 <= p.1 < mint
    ensures MintedBelow(dec[mint := p], mint + 1)
    ensures MergesWellFormed(dec[mint := p])
    ensures MutuallyInverse(dec[mint := p], enc[p := mint])
  {
    var dec', enc' := dec[mint := p], enc[p := mint];
    forall k | k in dec' ensures dec'[k] in enc' && enc'[dec'[k]] == k {
      if k != mint {
        assert dec[k] in enc;
      }
    }
  }

  /** Every pair the encoding map knows is made of ids below `mint`. */
  lemma EncodedBelow(dec: map<int, Pair>, enc: map<Pair, int>, mint: int)
    requires MergesWellFormed(dec) && MutuallyInverse(dec, enc)
    requires forall k :: k in dec ==> k < mint
    ensures forall q :: q in enc ==> q.0 < mint && q.1 < mint
  {
    forall q | q in enc ensures q.0 < mint && q.1 < mint {
      var k := enc[q];
      assert k in dec && dec[k] == q;
      assert 0 <= dec[k].0 < k && 0 <= dec[k].1 < k;
    }
  }

  /** After the merge no window of the new stream holds a pair the updated
      encoding map knows. */
  lemma {:induction false} StepWindows(dec: map<int, Pair>, enc: map<Pair, int>, mint: int, s: seq<int>, p: Pair)
    requires MergesWellFormed(dec) && MutuallyInverse(dec, enc)
    requires forall k :: k in dec ==> k < mint
    requires NoMergeablePair(enc, s)
    requires p.0 < mint && p.1 < mint
    ensures NoMergeablePair(enc[p := mint], Replace(s, p, mint))
  {
    var r := Replace(s, p, mint);
    var enc' := enc[p := mint];
    ReplacePairs(s, p, mint);
    EncodedBelow(dec, enc, mint);
    forall i | 0 <= i < |r| - 1 ensures !Mergeable(enc', (r[i], r[i + 1])) {
      var q := (r[i], r[i + 1]);
      assert q != p;
      if q.0 != mint && q.1 != mint {
        assert q in Pairs(s);
        var j :| 0 <= j < |Pairs(s)| && Pairs(s)[j] == q;
        assert !Mergeable(enc, (s[j], s[j + 1]));
      }
    }
  }

  /** After the merge the new stream, expanded with the updated decoding
      map, still stands for the original tokens. */
  lemma StepExpansion(original: seq<int>, dec: map<int, Pair>, mint: int, s: seq<int>, p: Pair)
    requires MergesWellFormed(dec) && MergesWellFormed(dec[mint := p])
    requires forall k :: k in dec ==> k < mint
    requires forall i :: 0 <= i < |s| ==> s[i] < mint
    requires FlatExpand(dec, s) == original
    ensures FlatExpand(dec[mint := p], Replace(s, p, mint)) == original
  {
    assert mint !in s;
    UnreplaceReplace(s, p, mint);
    FlatExpandUnreplace(dec[mint := p], mint, p, Replace(s, p, mint));
    FlatExpandExtend(dec, mint, p, s);
  }

  /** After the merge every id of the new stream is below the advanced `mint`. */
  lemma StepRange(s: seq<int>, p: Pair, mint: int)
    requires forall i :: 0 <= i < |s| ==> 0 <= s[i] < mint
    ensures forall i :: 0 <= i < |Replace(s, p, mint)| ==> 0 <= Replace(s, p, mint)[i] < mint + 1
  {
    var r := Replace(s, p, mint);
    assert mint !in s;
    ReplaceTokens(s, p, mint);
    forall i | 0 <= i < |r| ensures 0 <= r[i] < mint + 1 {
      assert r[i] in r;
    }
  }

  /** One merge of a pair that occurs in the stream keeps the training
      invariant, with the pair minted as `mint` and `mint` advanced by one. */
  lemma MergeStepValid(original: seq<int>, s: seq<int>, mint: int,
                       dec: map<int, Pair>, enc: map<Pair, int>, p: Pair)
    requires StreamValid(original, s, mint, dec, enc)
    requires Frequency(s, p) >= 1
    ensures StreamValid(original, Replace(s, p, mint), mint + 1, dec[mint := p], enc[p := mint])
  {
    FrequencyPositive(s, p);
    var w :| 0 <= w < |s| - 1 && (s[w], s[w + 1]) == p;
    assert 0 <= p.0 < mint && 0 <= p.1 < mint;
    assert p !in enc;
    StepMaps(dec, enc, mint, p);
    StepWindows(dec, enc, mint, s, p);
    StepExpansion(original, dec, mint, s, p);
    StepRange(s, p, mint);
  }
}
