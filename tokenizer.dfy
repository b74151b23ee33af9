/** The byte-pair-encoding tokenizer: training mints one id per merge of the
    currently most frequent adjacent pair, recording the merge in an
    encoding map and a decoding map; the two maps then drive the codec. */
module BPETokenizer {
  import opened TokenPairs
  import opened PairCounts
  import opened Merge
  import opened Codec
  import opened Training
  import opened History

  /** Why training can fail: `max` over an empty frequency table raises,
      which happens exactly when the stream starts with fewer than two
      tokens. */
  datatype TrainError = EmptyPairTable

  /** The rewrite loop of a training step: scanning from the left, each
      window holding `a` then `b` becomes `m` and the scan resumes after it;
      any other token is copied and the scan moves on by one; a last
      unconsumed token is copied. */
  method ReplaceTop(tokens: seq<int>, a: int, b: int, m: int) returns (newEncoding: seq<int>)
    ensures newEncoding == Replace(tokens, (a, b), m)
  {
    var idx := 0;
    newEncoding := [];
    while idx < |tokens| - 1
      invariant 0 <= idx <= |tokens|
      invariant newEncoding + Replace(tokens[idx..], (a, b), m) == Replace(tokens, (a, b), m)
    {
      ReplaceStep(tokens, (a, b), m, idx, newEncoding, Replace(tokens, (a, b), m));
      var A, B := tokens[idx], tokens[idx + 1];
      if a == A && b == B {
        newEncoding := newEncoding + [m];
        idx := idx + 2;
      } else {
        newEncoding := newEncoding + [A];
        idx := idx + 1;
      }
    }
    ReplaceTail(tokens, (a, b), m, idx, newEncoding, Replace(tokens, (a, b), m));
    if idx < |tokens| {
      newEncoding := newEncoding + [tokens[idx]];
    }
  }

  /** One pass of the encoder's loop: scanning from the left, each window
      holding a pair the encoder contracts becomes that pair's id and the
      scan resumes after it; any other token is copied and the scan moves on
      by one; a last unconsumed token is copied. `encoded` stays true only
      when nothing was contracted, and then the pass is a fixed point. */
  method EncodePass(enc: map<Pair, int>, tokens: seq<int>) returns (out: seq<int>, encoded: bool)
    ensures out == MergePass(enc, tokens)
    ensures encoded <==> MergeCount(enc, tokens) == 0
    ensures encoded ==> out == tokens && NoMergeablePair(enc, tokens)
  {
    encoded := true;
    var idx := 0;
    out := [];
    ghost var pass := MergePass(enc, tokens);
    while idx < |tokens| - 1
      invariant 0 <= |out| <= idx <= |tokens|
      invariant out + MergePass(enc, tokens[idx..]) == pass
      invariant MergeCount(enc, tokens) == (idx - |out|) + MergeCount(enc, tokens[idx..])
      invariant encoded <==> idx == |out|
    {
      EncodeStep(enc, tokens, idx, out, pass);
      var key := (tokens[idx], tokens[idx + 1]);
      if key in enc && enc[key] != 0 {
        out := out + [enc[key]];
        idx := idx + 2;
        encoded := false;
      } else {
        out := out + [tokens[idx]];
        idx := idx + 1;
      }
    }
    EncodeTail(enc, tokens, idx, out, pass);
    if idx < |tokens| {
      out := out + [tokens[idx]];
    }
    MergeCountZero(enc, tokens);
  }

  /** The tokenizer: the token stream being trained, the frequency table of
      its adjacent pairs, the next id to mint and the two merge maps. */
  class Tokenizer {
    const name: string
    const pathPrefix: Option<string>
    const encodingVocabSize: int
    const originalTokens: seq<Byte>
    var encodedTokens: seq<int>
    var mintToken: int
    /** Frequency of each adjacent pair of `encodedTokens`. */
    var tcounts: map<Pair, nat>
    /** The keys of `tcounts` in insertion order. */
    var torder: seq<Pair>
    var decodingMap: map<int, Pair>
    var encodingMap: map<Pair, int>
    /** The pairs merged so far, in order (not held by the program: the
        decoding map records the same information). */
    ghost var merges: seq<Pair>

    /** The frequency table is that of `tokens`, its keys inserted in the
        order their pairs are first seen. */
    ghost predicate CountsDescribe(tokens: seq<int>)
      reads this`tcounts, this`torder
    {
      tcounts == PairTable(tokens) && torder == FirstSeen(Pairs(tokens))
    }

    /** The stream, the next id and both maps are what the merges made so
        far produce from the original bytes, and each merge was of a pair
        then in the stream. */
    ghost predicate Reached()
      reads this`encodedTokens, this`mintToken, this`decodingMap, this`encodingMap, this`merges
    {
      History.Reached(originalTokens, merges, encodedTokens, mintToken, decodingMap, encodingMap)
    }

    /** The training state: reached by the merges made so far, with the
        table of the current stream. */
    ghost predicate Valid()
      reads this
    {
      Reached() && CountsDescribe(encodedTokens)
    }

    /** What that gives: the training invariant on the fields. */
    lemma ValidStream()
      requires Valid()
      ensures StreamValid(originalTokens, encodedTokens, mintToken, decodingMap, encodingMap)
    {
      TrainedValid(originalTokens, merges);
    }

    /** A fresh tokenizer over raw byte tokens: nothing minted yet, the
        pair table counted. */
    constructor (tokens: seq<Byte>, encodingVocabSize: int := 276,
                 name: string := "tinyshakespeare", pathPrefix: Option<string> := None)
      ensures Valid()
      ensures this.name == name && this.pathPrefix == pathPrefix
      ensures this.encodingVocabSize == encodingVocabSize
      ensures originalTokens == tokens && encodedTokens == tokens
      ensures mintToken == 256 && decodingMap == map[] && encodingMap == map[]
      ensures merges == []
    {
      this.name := name;
      this.pathPrefix := pathPrefix;
      this.encodingVocabSize := encodingVocabSize;
      originalTokens := tokens;
      encodedTokens := tokens;
      mintToken := 256;
      decodingMap, encodingMap := map[], map[];
      merges := [];
      new;
      Count(encodedTokens);
    }

    /** Rebuilds the frequency table from `tokens` (`count`): one pass over
        the windows, raising the frequency of a pair already seen and adding
        a new pair with frequency 1. */
    method Count(tokens: seq<int>)
      modifies this`tcounts, this`torder
      ensures CountsDescribe(tokens)
    {
      ghost var ps := Pairs(tokens);
      tcounts, torder := map[], [];
      var i := 0;
      while i < |tokens| - 1
        invariant 0 <= i <= |ps|
        invariant tcounts == Tally(ps[..i]) && torder == FirstSeen(ps[..i])
      {
        var key := (tokens[i], tokens[i + 1]);
        assert key == ps[i];
        if key in tcounts {
          CountSeen(ps, i);
          tcounts := tcounts[key := tcounts[key] + 1];
        } else {
          CountNew(ps, i);
          tcounts := tcounts[key := 1];
          torder := torder + [key];
        }
        i := i + 1;
      }
      assert ps[..i] == ps;
    }

    /** The most frequent pair of the table (`get_most_common`), as Python's
        `max` over the table's values in insertion order picks it. */
    function GetMostCommon(): (top: TokenPair)
      reads this
      requires Valid() && |encodedTokens| >= 2
      ensures top.Key() in tcounts && top.frequency == tcounts[top.Key()]
      ensures top.frequency == Frequency(encodedTokens, top.Key()) >= 1
      ensures top == TopRecord(encodedTokens)
    {
      MostCommonOfTable(encodedTokens);
      MaxPair(TableValues(torder, tcounts))
    }

    /** No pair of the table is more frequent than the most common one, and
        of the pairs that are as frequent it is the one that occurs first in
        the stream. */
    lemma MostCommonIsFirstMax()
      requires Valid() && |encodedTokens| >= 2
      ensures forall p :: p in tcounts <==> p in Pairs(encodedTokens)
      ensures forall p :: p in tcounts ==> 1 <= tcounts[p] <= GetMostCommon().frequency
      ensures forall p :: p in tcounts && tcounts[p] == GetMostCommon().frequency ==>
                FirstIndex(Pairs(encodedTokens), GetMostCommon().Key()) <= FirstIndex(Pairs(encodedTokens), p)
    {
      MostCommonOfTable(encodedTokens);
    }

    /** One training step (`swap_top`). When no pair repeats it reports that
        training is over and changes nothing; otherwise it rewrites the
        stream with the most frequent pair replaced by a new id, records the
        merge in both maps, advances the next id by one, recounts, and
        reports whether the largest id of the new stream reached the
        vocabulary size. */
    method SwapTop() returns (finished: bool)
      requires Valid() && |encodedTokens| >= 2
      modifies this
      ensures Valid()
      ensures old(GetMostCommon()).frequency == 1 ==>
                && finished && Saturated(tcounts)
                && encodedTokens == old(encodedTokens) && mintToken == old(mintToken)
                && decodingMap == old(decodingMap) && encodingMap == old(encodingMap)
                && tcounts == old(tcounts) && torder == old(torder) && merges == old(merges)
      ensures old(GetMostCommon()).frequency != 1 ==>
                var p := old(GetMostCommon()).Key();
                && encodedTokens == Replace(old(encodedTokens), p, old(mintToken))
                && 2 <= |encodedTokens| < old(|encodedTokens|)
                && decodingMap == old(decodingMap)[old(mintToken) := p]
                && encodingMap == old(encodingMap)[p := old(mintToken)]
                && mintToken == old(mintToken) + 1
                && merges == old(merges) + [p]
                && finished == (mintToken == encodingVocabSize)
    {
      var top := GetMostCommon();
      if top.frequency == 1 {
        MostCommonIsFirstMax();
        return true;
      }
      MergeTop(top);
      Count(encodedTokens);
      finished := StreamMax(encodedTokens) + 1 == encodingVocabSize;
    }

    /** The middle of a training step: the rewrite loop replacing the pair of
        `top` by the next id, then the merge recorded in both maps and the
        next id advanced by one. The stream gets shorter, keeps at least two
        tokens, and the new id is its largest. */
    method MergeTop(top: TokenPair)
      requires Reached() && Frequency(encodedTokens, top.Key()) >= 2
      modifies this`encodedTokens, this`decodingMap, this`encodingMap, this`mintToken, this`merges
      ensures Reached()
      ensures encodedTokens == Replace(old(encodedTokens), top.Key(), old(mintToken))
      ensures 2 <= |encodedTokens| < old(|encodedTokens|)
      ensures StreamMax(encodedTokens) == old(mintToken)
      ensures decodingMap == old(decodingMap)[old(mintToken) := top.Key()]
      ensures encodingMap == old(encodingMap)[top.Key() := old(mintToken)]
      ensures mintToken == old(mintToken) + 1
      ensures merges == old(merges) + [top.Key()]
    {
      var newEncoding := ReplaceTop(encodedTokens, top.firstToken, top.secondToken, mintToken);
      ReachedStep(originalTokens, merges, encodedTokens, mintToken, decodingMap, encodingMap, top.Key());
      ReplaceKeepsTwo(encodedTokens, top.Key(), mintToken);
      encodedTokens := newEncoding;
      decodingMap := decodingMap[mintToken := top.Key()];
      encodingMap := encodingMap[top.Key() := mintToken];
      mintToken := mintToken + 1;
      merges := merges + [top.Key()];
    }

    /** The merge the next training step makes, if any, extends a greedy run
        from `done`, provided the stop test did not fire after its last merge. */
    lemma NextIsGreedy(done: seq<Pair>)
      requires Valid() && |encodedTokens| >= 2
      requires GreedyFrom(originalTokens, done, merges, encodingVocabSize)
      requires |merges| > |done| ==> mintToken != encodingVocabSize
      ensures GetMostCommon().frequency != 1 ==>
                GreedyFrom(originalTokens, done, merges + [GetMostCommon().Key()], encodingVocabSize)
    {
      var top := GetMostCommon();
      if top.frequency != 1 {
        GreedyFromExtend(originalTokens, done, merges, encodingVocabSize, top.Key());
      }
    }

    /** Training (`train`): steps until a step reports that it is finished,
        then returns the stream. The first step is always taken. The merges
        made are the successive most frequent repeating pairs, and training
        stops after the first merge that brings the next id to the target
        size, or at the first step that finds no repeating pair. Looking for
        the most frequent pair fails only when the stream starts with fewer
        than two tokens: a merge is made only for a pair seen at least
        twice, which leaves at least two tokens behind. */
    method Train() returns (r: Result<seq<int>, TrainError>)
      requires Valid()
      modifies this
      ensures Valid()
      ensures r.Err? <==> old(|encodedTokens|) < 2
      ensures r.Err? ==> encodedTokens == old(encodedTokens) && merges == old(merges)
      ensures r.Ok? ==> r.value == encodedTokens && MergesWellFormed(decodingMap) && FlatExpand(decodingMap, r.value) == originalTokens
      ensures r.Ok? ==> |encodedTokens| >= 2 && GreedyFrom(originalTokens, old(merges), merges, encodingVocabSize)
      ensures r.Ok? ==> Saturated(tcounts) || (|merges| > |old(merges)| && mintToken == encodingVocabSize)
      ensures mintToken >= old(mintToken)
      ensures old(mintToken) < encodingVocabSize ==> mintToken <= encodingVocabSize
      ensures forall k :: k in old(decodingMap) ==> k in decodingMap && decodingMap[k] == old(decodingMap)[k]
    {
      if |encodedTokens| < 2 {
        return Err(EmptyPairTable);
      }
      NextIsGreedy(old(merges));
      var finished := SwapTop();
      while !finished
        invariant Valid() && |encodedTokens| >= 2
        invariant mintToken >= old(mintToken)
        invariant old(mintToken) < encodingVocabSize ==> mintToken <= encodingVocabSize
        invariant !finished ==> mintToken != encodingVocabSize && |merges| > |old(merges)|
        invariant finished ==> Saturated(tcounts) || (|merges| > |old(merges)| && mintToken == encodingVocabSize)
        invariant GreedyFrom(originalTokens, old(merges), merges, encodingVocabSize)
        decreases if finished then 0 else |encodedTokens| + 1
      {
        NextIsGreedy(old(merges));
        finished := SwapTop();
      }
      ValidStream();
      DecodingOfPrefix(old(merges), merges);
      return Ok(encodedTokens);
    }

    /** The name of the file the maps are saved to (`_filename`): the
        per-name pickle file, behind the path prefix when one is set (an
        empty prefix counts as none, as in Python). */
    function Filename(): (r: string)
      ensures var base := "tokenizer_" + name + ".pickle";
              if pathPrefix.Some? && pathPrefix.value != "" then r == pathPrefix.value + base else r == base
    {
      var res := "tokenizer_" + name + ".pickle";
      if pathPrefix.Some? && pathPrefix.value != "" then pathPrefix.value + res else res
    }

    /** Two tokenizers with the same path prefix share a file name only when
        they share a name: the file of one never overwrites the other's. */
    lemma FilenameInjective(other: Tokenizer)
      requires pathPrefix == other.pathPrefix && Filename() == other.Filename()
      ensures name == other.name
    {
      var pre := if pathPrefix.Some? && pathPrefix.value != "" then pathPrefix.value else "";
      var mine, theirs := Filename(), other.Filename();
      assert mine == pre + "tokenizer_" + name + ".pickle";
      assert theirs == pre + "tokenizer_" + other.name + ".pickle";
      assert mine[|pre| + 10..|mine| - 7] == name;
      assert theirs[|pre| + 10..|theirs| - 7] == other.name;
    }

    /** Decoding (`decode`, raw-token output): passes that expand every
        minted id into its two components, repeated until a pass expands
        nothing. */
    method Decode(tokens: seq<int>) returns (r: seq<int>)
      requires MergesWellFormed(decodingMap)
      ensures r == FlatExpand(decodingMap, tokens)
      ensures forall i :: 0 <= i < |r| ==> r[i] !in decodingMap
      ensures (forall i :: 0 <= i < |tokens| ==> tokens[i] !in decodingMap) ==> r == tokens
    {
      var current := tokens;
      var decoded := false;
      var out: seq<int> := [];
      while !decoded
        invariant FlatExpand(decodingMap, current) == FlatExpand(decodingMap, tokens)
        invariant decoded ==> out == current && forall i :: 0 <= i < |current| ==> current[i] !in decodingMap
        decreases if decoded then 0 else PendingAll(decodingMap, current) + 1
      {
        decoded := true;
        out := [];
        for j := 0 to |current|
          invariant out == DecodePass(decodingMap, current[..j])
          invariant decoded <==> DecodeCount(decodingMap, current[..j]) == 0
        {
          DecodeStep(decodingMap, current, j);
          var token := current[j];
          if token in decodingMap {
            decoded := false;
            out := out + [decodingMap[token].0, decodingMap[token].1];
          } else {
            out := out + [token];
          }
        }
        assert current[..|current|] == current;
        DecodePassProgress(decodingMap, current);
        FlatExpandDecodePass(decodingMap, current);
        current := out;
      }
      FlatExpandRaw(decodingMap, current);
      if forall i :: 0 <= i < |tokens| ==> tokens[i] !in decodingMap {
        FlatExpandRaw(decodingMap, tokens);
      }
      r := out;
    }

    /** Encoding (`encode`, raw-token input): left-to-right passes that
        contract every known pair they meet, repeated until a pass contracts
        nothing; no window of the result holds a known pair. */
    method Encode(tokens: seq<int>) returns (r: seq<int>)
      ensures r == EncodeFix(encodingMap, tokens)
      ensures NoMergeablePair(encodingMap, r)
      ensures |r| <= |tokens|
    {
      var decodedTokens := tokens;
      var encoded := false;
      var out: seq<int> := [];
      while !encoded
        invariant encoded ==> out == EncodeFix(encodingMap, tokens)
        invariant !encoded ==> EncodeFix(encodingMap, decodedTokens) == EncodeFix(encodingMap, tokens)
        decreases if encoded then 0 else |decodedTokens| + 1
      {
        out, encoded := EncodePass(encodingMap, decodedTokens);
        MergePassLength(encodingMap, decodedTokens);
        decodedTokens := out;
      }
      r := out;
    }

    /** The stream training keeps is already encoded: an encoder pass over
        it finds no known pair, so encoding returns it unchanged. */
    lemma StreamIsEncoded()
      requires Valid()
      ensures EncodeFix(encodingMap, encodedTokens) == encodedTokens
    {
      ValidStream();
      MergeCountZero(encodingMap, encodedTokens);
    }

    /** Once trained, decoding the encoding of any byte stream gives it back. */
    lemma EncodeDecodeRoundTrip(x: seq<Byte>)
      requires Valid()
      ensures MergesWellFormed(decodingMap) && FlatExpand(decodingMap, EncodeFix(encodingMap, x)) == x
    {
      ValidStream();
      RoundTrip(decodingMap, encodingMap, x);
    }
  }
}
