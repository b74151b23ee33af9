/** The training state seen through its history: the merges made so far,
    in order, determine the stream and both maps. */
module History {
  import opened TokenPairs
  import opened PairCounts
  import opened Merge
  import opened Codec
  import opened Training

  /** The stream after the merges `merges` have been applied to `original`
      in order, the merge at position `n` minting the id 256 + n. */
  function Trained(original: seq<int>, merges: seq<Pair>): seq<int>
    decreases |merges|
  {
    if merges == [] then original
    else
      var n := |merges| - 1;
      Replace(Trained(original, merges[..n]), merges[n], 256 + n)
  }

  /** The decoding map those merges record: id 256 + n stands for `merges[n]`. */
  function DecodingOf(merges: seq<Pair>): map<int, Pair>
    decreases |merges|
  {
    if merges == [] then map[]
    else
      var n := |merges| - 1;
      DecodingOf(merges[..n])[256 + n := merges[n]]
  }

  /** The encoding map those merges record: `merges[n]` contracts to 256 + n. */
  function EncodingOf(merges: seq<Pair>): map<Pair, int>
    decreases |merges|
  {
    if merges == [] then map[]
    else
      var n := |merges| - 1;
      EncodingOf(merges[..n])[merges[n] := 256 + n]
  }

  /** Each merge was of a pair occurring in the stream at the time, as the
      most frequent pair of a table that is not saturated always does. */
  ghost predicate Applicable(original: seq<int>, merges: seq<Pair>)
    decreases |merges|
  {
    merges == [] ||
    var n := |merges| - 1;
    Applicable(original, merges[..n]) && Frequency(Trained(original, merges[..n]), merges[n]) >= 1
  }

  /** Merging `p` after the history `h` is what a training step does: `p`
      is the pair of the most frequent record of the stream's table, and
      that record repeats. */
  ghost predicate GreedyStep(original: seq<int>, h: seq<Pair>, p: Pair)
  {
    var t := Trained(original, h);
    |t| >= 2 && TopRecord(t).frequency >= 2 && TopRecord(t).Key() == p
  }

  /** The history `h` extends `done` by the merges successive training steps
      make: each is a greedy step after the merges before it, and the stop
      test (the next id reaching `vocab`) did not fire after any of them but
      the last. */
  ghost predicate GreedyFrom(original: seq<int>, done: seq<Pair>, h: seq<Pair>, vocab: int)
  {
    && done <= h
    && forall n {:trigger h[n]} :: |done| <= n < |h| ==>
         GreedyStep(original, h[..n], h[n]) && (n > |done| ==> 256 + n != vocab)
  }

  /** One more greedy step extends a greedy run, provided the stop test did
      not fire after the run's last merge. */
  lemma GreedyFromExtend(original: seq<int>, done: seq<Pair>, h: seq<Pair>, vocab: int, p: Pair)
    requires GreedyFrom(original, done, h, vocab) && GreedyStep(original, h, p)
    requires |h| > |done| ==> 256 + |h| != vocab
    ensures GreedyFrom(original, done, h + [p], vocab)
  {
    var h' := h + [p];
    forall n | |done| <= n < |h'|
      ensures GreedyStep(original, h'[..n], h'[n]) && (n > |done| ==> 256 + n != vocab)
    {
      if n < |h| {
        assert h'[..n] == h[..n] && h'[n] == h[n];
      } else {
        assert h'[..n] == h;
      }
    }
  }

  /** One more merge, seen from the recorded history. */
  lemma TrainedExtend(original: seq<int>, merges: seq<Pair>, p: Pair)
    ensures Trained(original, merges + [p]) == Replace(Trained(original, merges), p, 256 + |merges|)
    ensures DecodingOf(merges + [p]) == DecodingOf(merges)[256 + |merges| := p]
    ensures EncodingOf(merges + [p]) == EncodingOf(merges)[p := 256 + |merges|]
    ensures Applicable(original, merges + [p]) <==>
              Applicable(original, merges) && Frequency(Trained(original, merges), p) >= 1
  {
    assert (merges + [p])[..|merges|] == merges;
  }

  /** The training invariant holds after any history of applicable merges
      over raw bytes: the minted ids are 256, 257, ... in order, each
      decodes into two smaller ids, the maps are mutual inverses, no pair
      the encoder knows is left in the stream, and the stream expands back
      to the original bytes. */
  lemma {:induction false} TrainedValid(original: seq<Byte>, merges: seq<Pair>)
    requires Applicable(original, merges)
    ensures StreamValid(original, Trained(original, merges), 256 + |merges|,
                        DecodingOf(merges), EncodingOf(merges))
    decreases |merges|
  {
    if merges == [] {
      FlatExpandRaw(map[], original);
    } else {
      var n := |merges| - 1;
      var front := merges[..n];
      TrainedValid(original, front);
      MergeStepValid(original, Trained(original, front), 256 + n, DecodingOf(front), EncodingOf(front), merges[n]);
    }
  }

  /** The keys of the recorded decoding map are the minted ids. */
  lemma {:induction false} DecodingOfKeys(merges: seq<Pair>)
    ensures MintedBelow(DecodingOf(merges), 256 + |merges|)
    decreases |merges|
  {
    if merges != [] {
      DecodingOfKeys(merges[..|merges| - 1]);
    }
  }

  /** Further merges never change what an id already minted stands for. */
  lemma {:induction false} DecodingOfPrefix(m1: seq<Pair>, m2: seq<Pair>)
    requires m1 <= m2
    ensures forall k :: k in DecodingOf(m1) ==> k in DecodingOf(m2) && DecodingOf(m2)[k] == DecodingOf(m1)[k]
    decreases |m2|
  {
    if |m1| < |m2| {
      var front := m2[..|m2| - 1];
      assert m1 <= front;
      DecodingOfPrefix(m1, front);
      DecodingOfKeys(m1);
      var d2 := DecodingOf(m2);
      assert d2 == DecodingOf(front)[256 + |front| := m2[|front|]];
      forall k | k in DecodingOf(m1) ensures k in d2 && d2[k] == DecodingOf(m1)[k] {
        assert k < 256 + |front|;
      }
    } else {
      assert m1 == m2;
    }
  }

  /** One training step seen from the history: merging a pair that occurs
      in the stream extends an applicable history, rewrites the stream with
      the pair replaced by the new id, shortens it, makes the new id its
      largest, and records the merge in both maps. */
  lemma TrainedStep(original: seq<Byte>, merges: seq<Pair>, p: Pair)
    requires Applicable(original, merges)
    requires Frequency(Trained(original, merges), p) >= 1
    ensures Applicable(original, merges + [p])
    ensures Trained(original, merges + [p]) == Replace(Trained(original, merges), p, 256 + |merges|)
    ensures 0 < |Trained(original, merges + [p])| < |Trained(original, merges)|
    ensures StreamMax(Trained(original, merges + [p])) == 256 + |merges|
    ensures DecodingOf(merges + [p]) == DecodingOf(merges)[256 + |merges| := p]
    ensures EncodingOf(merges + [p]) == EncodingOf(merges)[p := 256 + |merges|]
  {
    var s := Trained(original, merges);
    TrainedExtend(original, merges, p);
    TrainedValid(original, merges);
    ReplaceMax(s, p, 256 + |merges|);
    ReplaceCountPositive(s, p);
    ReplaceLength(s, p, 256 + |merges|);
  }

  /** The state the merges `merges` produce from the bytes `original`:
      stream, next id and both maps, each merge of a pair then in the
      stream. */
  ghost predicate Reached(original: seq<Byte>, merges: seq<Pair>, s: seq<int>, mint: int,
                          dec: map<int, Pair>, enc: map<Pair, int>)
  {
    && Applicable(original, merges)
    && s == Trained(original, merges)
    && mint == 256 + |merges|
    && dec == DecodingOf(merges)
    && enc == EncodingOf(merges)
  }

  /** One training step on a reached state: merging a pair of the stream
      reaches the next state, shortens the stream and makes the new id its
      largest. */
  lemma ReachedStep(original: seq<Byte>, merges: seq<Pair>, s: seq<int>, mint: int,
                    dec: map<int, Pair>, enc: map<Pair, int>, p: Pair)
    requires Reached(original, merges, s, mint, dec, enc) && Frequency(s, p) >= 1
    ensures Reached(original, merges + [p], Replace(s, p, mint), mint + 1, dec[mint := p], enc[p := mint])
    ensures 0 < |Replace(s, p, mint)| < |s| && StreamMax(Replace(s, p, mint)) == mint
  {
    TrainedStep(original, merges, p);
  }

  /** The two rewrites of the training run in `EncodeOfTrainingInputDiffers`. */
  lemma ExampleReplaceFirst()
    ensures Replace([0, 1, 0, 0, 0, 0, 1, 0, 1], (0, 1), 256) == [256, 0, 0, 0, 256, 256]
  {
    var p, m := (0, 1), 256;
    assert Replace([0, 1], p, m) == [256];
    assert Replace([0, 1, 0, 1], p, m) == [256, 256];
    assert Replace([0, 0, 1, 0, 1], p, m) == [0, 256, 256];
    assert Replace([0, 0, 0, 0, 1, 0, 1], p, m) == [0, 0, 0, 256, 256];
  }

  lemma ExampleReplaceSecond()
    ensures Replace([256, 0, 0, 0, 256, 256], (0, 0), 257) == [256, 257, 0, 256, 256]
  {
    var p, m := (0, 0), 257;
    assert Replace([256, 256], p, m) == [256, 256];
    assert Replace([0, 256, 256], p, m) == [0, 256, 256];
    assert Replace([0, 0, 0, 256, 256], p, m) == [257, 0, 256, 256];
  }

  /** The stream and the encoding map that run leaves. */
  lemma ExampleTrained()
    ensures Trained([0, 1, 0, 0, 0, 0, 1, 0, 1], [(0, 1), (0, 0)]) == [256, 257, 0, 256, 256]
  {
    var ms: seq<Pair> := [(0, 1), (0, 0)];
    assert ms[..1] == [(0, 1)] && |ms[..1][..0]| == 0;
    ExampleReplaceFirst();
    ExampleReplaceSecond();
  }

  lemma ExampleEncoding()
    ensures EncodingOf([(0, 1), (0, 0)]) == map[(0, 1) := 256, (0, 0) := 257]
  {
    var ms: seq<Pair> := [(0, 1), (0, 0)];
    assert ms[..1] == [(0, 1)] && |ms[..1][..0]| == 0;
  }

  /** The encoder's passes over the same input with the maps of that run. */
  lemma ExampleEncoderPasses(enc: map<Pair, int>)
    requires enc == map[(0, 1) := 256, (0, 0) := 257]
    ensures MergePass(enc, [0, 1, 0, 0, 0, 0, 1, 0, 1]) == [256, 257, 257, 1, 256]
    ensures MergeCount(enc, [0, 1, 0, 0, 0, 0, 1, 0, 1]) == 4
  {
  }

  lemma ExampleEncoderDone(enc: map<Pair, int>)
    requires enc == map[(0, 1) := 256, (0, 0) := 257]
    ensures MergeCount(enc, [256, 257, 257, 1, 256]) == 0
  {
  }

  /** Encoding the training input does not in general give the stream
      training leaves: training contracts one pair at a time, the encoder
      every known pair it meets from the left. On `[0, 1, 0, 0, 0, 0, 1, 0, 1]`
      the first two training steps merge (0, 1), which wins a tie with
      (0, 0) at frequency 3, and then (0, 0). They leave
      `[256, 257, 0, 256, 256]`, while encoding that input with the maps
      they build gives `[256, 257, 257, 1, 256]`. */
  lemma EncodeOfTrainingInputDiffers()
    ensures var original := [0, 1, 0, 0, 0, 0, 1, 0, 1];
            var ms := [(0, 1), (0, 0)];
            && GreedyStep(original, [], (0, 1)) && GreedyStep(original, [(0, 1)], (0, 0))
            && Trained(original, ms) == [256, 257, 0, 256, 256]
            && EncodeFix(EncodingOf(ms), original) == [256, 257, 257, 1, 256]
  {
    ExampleFirstStep();
    ExampleSecondStep();
    ExampleTrained();
    ExampleEncoding();
    var enc := map[(0, 1) := 256, (0, 0) := 257];
    var e1 := [256, 257, 257, 1, 256];
    ExampleEncoderPasses(enc);
    ExampleEncoderDone(enc);
    MergeCountZero(enc, e1);
    assert EncodeFix(enc, e1) == e1;
  }


  /** The pair tables of the two streams of that run, window by window. */
  lemma ExampleFirstPairs()
    ensures Pairs([0, 1, 0, 0, 0, 0, 1, 0, 1])
            == [(0, 1), (1, 0), (0, 0), (0, 0), (0, 0), (0, 1), (1, 0), (0, 1)]
  {
  }

  lemma ExampleFirstTallyHead()
    ensures Tally([(0, 1), (1, 0), (0, 0), (0, 0)]) == map[(0, 1) := 1, (1, 0) := 1, (0, 0) := 2]
  {
    var a, b, c := (0, 1), (1, 0), (0, 0);
    assert Tally([]) == map[];
    TallySnoc([], a);
    assert [] + [a] == [a];
    TallySnoc([a], b);
    assert [a] + [b] == [a, b];
    TallySnoc([a, b], c);
    assert [a, b] + [c] == [a, b, c];
    TallySnoc([a, b, c], c);
    assert [a, b, c] + [c] == [a, b, c, c];
  }

  lemma ExampleFirstTally()
    ensures Tally([(0, 1), (1, 0), (0, 0), (0, 0), (0, 0), (0, 1), (1, 0), (0, 1)])
            == map[(0, 1) := 3, (1, 0) := 2, (0, 0) := 3]
  {
    var a, b, c := (0, 1), (1, 0), (0, 0);
    ExampleFirstTallyHead();
    TallySnoc([a, b, c, c], c);
    assert [a, b, c, c] + [c] == [a, b, c, c, c];
    assert Tally([a, b, c, c, c]) == map[a := 1, b := 1, c := 3];
    TallySnoc([a, b, c, c, c], a);
    assert [a, b, c, c, c] + [a] == [a, b, c, c, c, a];
    assert Tally([a, b, c, c, c, a]) == map[a := 2, b := 1, c := 3];
    TallySnoc([a, b, c, c, c, a], b);
    assert [a, b, c, c, c, a] + [b] == [a, b, c, c, c, a, b];
    assert Tally([a, b, c, c, c, a, b]) == map[a := 2, b := 2, c := 3];
    TallySnoc([a, b, c, c, c, a, b], a);
    assert [a, b, c, c, c, a, b] + [a] == [a, b, c, c, c, a, b, a];
  }

  lemma ExampleSecondPairs()
    ensures Pairs([256, 0, 0, 0, 256, 256]) == [(256, 0), (0, 0), (0, 0), (0, 256), (256, 256)]
  {
  }

  lemma ExampleSecondTally()
    ensures Tally([(256, 0), (0, 0), (0, 0), (0, 256), (256, 256)])
            == map[(256, 0) := 1, (0, 0) := 2, (0, 256) := 1, (256, 256) := 1]
  {
    var a, b, c, d := (256, 0), (0, 0), (0, 256), (256, 256);
    assert Tally([]) == map[];
    TallySnoc([], a);
    assert [] + [a] == [a];
    assert Tally([a]) == map[a := 1];
    TallySnoc([a], b);
    assert [a] + [b] == [a, b];
    assert Tally([a, b]) == map[a := 1, b := 1];
    TallySnoc([a, b], b);
    assert [a, b] + [b] == [a, b, b];
    assert Tally([a, b, b]) == map[a := 1, b := 2];
    TallySnoc([a, b, b], c);
    assert [a, b, b] + [c] == [a, b, b, c];
    assert Tally([a, b, b, c]) == map[a := 1, b := 2, c := 1];
    TallySnoc([a, b, b, c], d);
    assert [a, b, b, c] + [d] == [a, b, b, c, d];
    assert Tally([a, b, b, c, d]) == map[a := 1, b := 2, c := 1, d := 1];
  }

  /** The first training step on that input merges (0, 1): it ties with
      (0, 0) at frequency 3 and is seen first. */
  lemma ExampleFirstStep()
    ensures GreedyStep([0, 1, 0, 0, 0, 0, 1, 0, 1], [], (0, 1))
  {
    var s := [0, 1, 0, 0, 0, 0, 1, 0, 1];
    ExampleFirstPairs();
    ExampleFirstTally();
    assert PairTable(s) == map[(0, 1) := 3, (1, 0) := 2, (0, 0) := 3];
    TopIsFirstMax(s, (0, 1));
  }

  /** The second step merges (0, 0), the one pair that still repeats. */
  lemma ExampleSecondStep()
    ensures GreedyStep([0, 1, 0, 0, 0, 0, 1, 0, 1], [(0, 1)], (0, 0))
  {
    var ms: seq<Pair> := [(0, 1)];
    assert |ms[..0]| == 0;
    ExampleReplaceFirst();
    var s := [256, 0, 0, 0, 256, 256];
    assert Trained([0, 1, 0, 0, 0, 0, 1, 0, 1], ms) == s;
    ExampleSecondPairs();
    ExampleSecondTally();
    assert PairTable(s) == map[(256, 0) := 1, (0, 0) := 2, (0, 256) := 1, (256, 256) := 1];
    TopIsUniqueMax(s, (0, 0));
  }
}
