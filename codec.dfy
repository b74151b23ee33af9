/** Applying a finished merge table: encoding contracts known pairs in
    repeated left-to-right passes, decoding expands minted ids back into the
    tokens they were made of. */
module Codec {
  import opened TokenPairs

  /** The encoder's lookup succeeds only for a known pair whose id is truthy
      in Python (`if encoded_token:`), that is, non-zero. */
  predicate Mergeable(enc: map<Pair, int>, p: Pair)
  {
    p in enc && enc[p] != 0
  }

  /** No window of `s` holds a pair the encoder would contract. */
  predicate NoMergeablePair(enc: map<Pair, int>, s: seq<int>)
  {
    forall i :: 0 <= i < |s| - 1 ==> !Mergeable(enc, (s[i], s[i + 1]))
  }

  /** One encoder pass: scanning from the left, a window holding a known pair
      becomes that pair's id and the scan resumes after it; any other token
      is copied; a last unconsumed token is copied. */
  function MergePass(enc: map<Pair, int>, s: seq<int>): seq<int>
    decreases |s|
  {
    if |s| < 2 then s
    else if Mergeable(enc, (s[0], s[1])) then [enc[(s[0], s[1])]] + MergePass(enc, s[2..])
    else [s[0]] + MergePass(enc, s[1..])
  }

  /** How many windows one encoder pass contracts. */
  function MergeCount(enc: map<Pair, int>, s: seq<int>): nat
    decreases |s|
  {
    if |s| < 2 then 0
    else if Mergeable(enc, (s[0], s[1])) then 1 + MergeCount(enc, s[2..])
    else MergeCount(enc, s[1..])
  }

  /** How the pass continues from position `i` of the stream, as `encode`'s
      inner loop steps. */
  lemma MergePassAt(enc: map<Pair, int>, s: seq<int>, i: nat)
    requires i < |s| - 1
    ensures s[i..][1..] == s[i + 1..] && s[i..][2..] == s[i + 2..]
    ensures Mergeable(enc, (s[i], s[i + 1])) ==>
              && MergePass(enc, s[i..]) == [enc[(s[i], s[i + 1])]] + MergePass(enc, s[i + 2..])
              && MergeCount(enc, s[i..]) == 1 + MergeCount(enc, s[i + 2..])
    ensures !Mergeable(enc, (s[i], s[i + 1])) ==>
              && MergePass(enc, s[i..]) == [s[i]] + MergePass(enc, s[i + 1..])
              && MergeCount(enc, s[i..]) == MergeCount(enc, s[i + 1..])
  {
    assert s[i..][1..] == s[i + 1..] && s[i..][2..] == s[i + 2..];
  }

  /** A pass shortens the stream by exactly the number of contractions it makes. */
  lemma {:induction false} MergePassLength(enc: map<Pair, int>, s: seq<int>)
    ensures |MergePass(enc, s)| == |s| - MergeCount(enc, s)
    decreases |s|
  {
    if |s| >= 2 {
      if Mergeable(enc, (s[0], s[1])) {
        MergePassLength(enc, s[2..]);
      } else {
        MergePassLength(enc, s[1..]);
      }
    }
  }

  /** A pass contracts nothing exactly when no window holds a known pair, and
      then it returns its input. */
  lemma {:induction false} MergeCountZero(enc: map<Pair, int>, s: seq<int>)
    ensures MergeCount(enc, s) == 0 <==> NoMergeablePair(enc, s)
    ensures MergeCount(enc, s) == 0 ==> MergePass(enc, s) == s
    decreases |s|
  {
    if |s| >= 2 && !Mergeable(enc, (s[0], s[1])) {
      MergeCountZero(enc, s[1..]);
      assert forall i :: 1 <= i < |s| ==> s[i] == s[1..][i - 1];
      assert s == [s[0]] + s[1..];
    }
  }

  /** Encoding: passes are repeated until one of them contracts nothing. */
  function EncodeFix(enc: map<Pair, int>, s: seq<int>): (r: seq<int>)
    ensures NoMergeablePair(enc, r)
    ensures |r| <= |s|
    decreases |s|
  {
    MergePassLength(enc, s);
    MergeCountZero(enc, s);
    var t := MergePass(enc, s);
    if MergeCount(enc, s) == 0 then t else EncodeFix(enc, t)
  }

  /** The decoding table is well formed when every minted id is at least 256
      and expands into two non-negative ids that are smaller than itself:
      this is what makes decoding terminate. */
  ghost predicate MergesWellFormed(dec: map<int, Pair>)
  {
    forall k :: k in dec ==> 256 <= k && 0 <= dec[k].0 < k && 0 <= dec[k].1 < k
  }

  /** The encoding table undoes what the decoding table expands: every pair
      the encoder contracts becomes an id that decodes back to that pair. */
  ghost predicate Undoes(dec: map<int, Pair>, enc: map<Pair, int>)
  {
    forall p :: Mergeable(enc, p) ==> enc[p] in dec && dec[enc[p]] == p
  }

  /** The two tables are mutual inverses: each pair maps to an id that maps
      back to it, and each id maps to a pair that maps back to it. */
  ghost predicate MutuallyInverse(dec: map<int, Pair>, enc: map<Pair, int>)
  {
    && (forall p :: p in enc ==> enc[p] in dec && dec[enc[p]] == p)
    && (forall k :: k in dec ==> dec[k] in enc && enc[dec[k]] == k)
  }

  /** The raw ids a single id stands for, expanded all the way down. */
  function ExpandToken(dec: map<int, Pair>, t: int): (r: seq<int>)
    requires MergesWellFormed(dec)
    ensures |r| >= 1
    ensures forall i :: 0 <= i < |r| ==> r[i] !in dec
    ensures t !in dec ==> r == [t]
    decreases t
  {
    if t in dec then ExpandToken(dec, dec[t].0) + ExpandToken(dec, dec[t].1) else [t]
  }

  /** The raw ids a stream stands for: each id expanded, in order. */
  function FlatExpand(dec: map<int, Pair>, s: seq<int>): (r: seq<int>)
    requires MergesWellFormed(dec)
    ensures forall i :: 0 <= i < |r| ==> r[i] !in dec
    decreases |s|
  {
    if s == [] then []
    else
      var r := ExpandToken(dec, s[0]) + FlatExpand(dec, s[1..]);
      assert forall i :: |ExpandToken(dec, s[0])| <= i < |r| ==>
        r[i] == FlatExpand(dec, s[1..])[i - |ExpandToken(dec, s[0])|];
      r
  }

  lemma {:induction false} FlatExpandAppend(dec: map<int, Pair>, a: seq<int>, b: seq<int>)
    requires MergesWellFormed(dec)
    ensures FlatExpand(dec, a + b) == FlatExpand(dec, a) + FlatExpand(dec, b)
    decreases |a|
  {
    if a == [] {
      assert a + b == b;
    } else {
      assert (a + b)[1..] == a[1..] + b;
      FlatExpandAppend(dec, a[1..], b);
    }
  }

  /** A stream with no minted id in it expands to itself. */
  lemma {:induction false} FlatExpandRaw(dec: map<int, Pair>, s: seq<int>)
    requires MergesWellFormed(dec)
    requires forall i :: 0 <= i < |s| ==> s[i] !in dec
    ensures FlatExpand(dec, s) == s
    decreases |s|
  {
    if s != [] {
      FlatExpandRaw(dec, s[1..]);
      assert s == [s[0]] + s[1..];
    }
  }

  /** One encoder pass does not change what the stream stands for. */
  lemma {:induction false} FlatExpandMergePass(dec: map<int, Pair>, enc: map<Pair, int>, s: seq<int>)
    requires MergesWellFormed(dec) && Undoes(dec, enc)
    ensures FlatExpand(dec, MergePass(enc, s)) == FlatExpand(dec, s)
    decreases |s|
  {
    if |s| >= 2 {
      if Mergeable(enc, (s[0], s[1])) {
        var m := enc[(s[0], s[1])];
        FlatExpandMergePass(dec, enc, s[2..]);
        FlatExpandAppend(dec, [m], MergePass(enc, s[2..]));
        FlatExpandAppend(dec, [s[0], s[1]], s[2..]);
        assert s == [s[0], s[1]] + s[2..];
        assert FlatExpand(dec, [m]) == ExpandToken(dec, m);
        assert [s[0], s[1]][1..] == [s[1]];
        assert FlatExpand(dec, [s[0], s[1]]) == ExpandToken(dec, s[0]) + ExpandToken(dec, s[1]);
      } else {
        FlatExpandMergePass(dec, enc, s[1..]);
      }
    }
  }

  /** Encoding does not change what the stream stands for. */
  lemma {:induction false} FlatExpandEncode(dec: map<int, Pair>, enc: map<Pair, int>, s: seq<int>)
    requires MergesWellFormed(dec) && Undoes(dec, enc)
    ensures FlatExpand(dec, EncodeFix(enc, s)) == FlatExpand(dec, s)
    decreases |s|
  {
    FlatExpandMergePass(dec, enc, s);
    MergePassLength(enc, s);
    if MergeCount(enc, s) != 0 {
      FlatExpandEncode(dec, enc, MergePass(enc, s));
    } else {
      MergeCountZero(enc, s);
    }
  }

  /** The round trip: decoding the encoding of a raw stream gives it back. */
  lemma RoundTrip(dec: map<int, Pair>, enc: map<Pair, int>, s: seq<int>)
    requires MergesWellFormed(dec) && Undoes(dec, enc)
    requires forall i :: 0 <= i < |s| ==> s[i] !in dec
    ensures FlatExpand(dec, EncodeFix(enc, s)) == s
  {
    FlatExpandEncode(dec, enc, s);
    FlatExpandRaw(dec, s);
  }

  /** One decoder pass: each minted id becomes its two components, every
      other id is copied. */
  function DecodePass(dec: map<int, Pair>, s: seq<int>): seq<int>
    decreases |s|
  {
    if s == [] then []
    else
      var last := s[|s| - 1];
      DecodePass(dec, s[..|s| - 1]) + (if last in dec then [dec[last].0, dec[last].1] else [last])
  }

  /** How many ids one decoder pass expands. */
  function DecodeCount(dec: map<int, Pair>, s: seq<int>): nat
    decreases |s|
  {
    if s == [] then 0
    else DecodeCount(dec, s[..|s| - 1]) + (if s[|s| - 1] in dec then 1 else 0)
  }

  /** How many expansions an id still needs before it is raw. */
  function Pending(dec: map<int, Pair>, t: int): nat
    requires MergesWellFormed(dec)
    decreases t
  {
    if t in dec then 1 + Pending(dec, dec[t].0) + Pending(dec, dec[t].1) else 0
  }

  /** How many expansions a stream still needs: the measure that makes
      decoding terminate. */
  function PendingAll(dec: map<int, Pair>, s: seq<int>): nat
    requires MergesWellFormed(dec)
    decreases |s|
  {
    if s == [] then 0 else PendingAll(dec, s[..|s| - 1]) + Pending(dec, s[|s| - 1])
  }

  lemma {:induction false} PendingAllAppend(dec: map<int, Pair>, a: seq<int>, b: seq<int>)
    requires MergesWellFormed(dec)
    ensures PendingAll(dec, a + b) == PendingAll(dec, a) + PendingAll(dec, b)
    decreases |b|
  {
    if b != [] {
      var ab := a + b;
      assert ab[..|ab| - 1] == a + b[..|b| - 1];
      PendingAllAppend(dec, a, b[..|b| - 1]);
    } else {
      assert a + b == a;
    }
  }

  /** Each decoder pass removes exactly one pending expansion per id it
      expands, and a pass that expands nothing returns its input. */
  lemma {:induction false} DecodePassProgress(dec: map<int, Pair>, s: seq<int>)
    requires MergesWellFormed(dec)
    ensures PendingAll(dec, DecodePass(dec, s)) + DecodeCount(dec, s) == PendingAll(dec, s)
    ensures DecodeCount(dec, s) == 0 <==> forall i :: 0 <= i < |s| ==> s[i] !in dec
    ensures DecodeCount(dec, s) == 0 ==> DecodePass(dec, s) == s
    decreases |s|
  {
    if s != [] {
      var front := s[..|s| - 1];
      var last := s[|s| - 1];
      DecodePassProgress(dec, front);
      assert s == front + [last];
      assert forall i :: 0 <= i < |front| ==> front[i] == s[i];
      if last in dec {
        var c := [dec[last].0, dec[last].1];
        PendingAllAppend(dec, DecodePass(dec, front), c);
        var x := [dec[last].0];
        assert c[..1] == x && x[..0] == [];
        assert PendingAll(dec, x) == Pending(dec, dec[last].0);
        assert PendingAll(dec, c) == PendingAll(dec, x) + Pending(dec, dec[last].1);
      } else {
        PendingAllAppend(dec, DecodePass(dec, front), [last]);
        assert [last][..0] == [];
      }
    }
  }

  /** One decoder pass does not change what the stream stands for. */
  lemma {:induction false} FlatExpandDecodePass(dec: map<int, Pair>, s: seq<int>)
    requires MergesWellFormed(dec)
    ensures FlatExpand(dec, DecodePass(dec, s)) == FlatExpand(dec, s)
    decreases |s|
  {
    if s != [] {
      var front := s[..|s| - 1];
      var last := s[|s| - 1];
      FlatExpandDecodePass(dec, front);
      assert s == front + [last];
      FlatExpandAppend(dec, front, [last]);
      var c := if last in dec then [dec[last].0, dec[last].1] else [last];
      FlatExpandAppend(dec, DecodePass(dec, front), c);
      if last in dec {
        var y := [dec[last].1];
        assert c[1..] == y && y[1..] == [];
        assert FlatExpand(dec, y) == ExpandToken(dec, dec[last].1);
        assert FlatExpand(dec, c) == ExpandToken(dec, dec[last].0) + FlatExpand(dec, y);
        assert FlatExpand(dec, [last]) == ExpandToken(dec, last);
      }
    }
  }

  /** One step of the encoder's inner loop: what has been emitted so far,
      followed by the pass over what is left, is the whole pass; and the
      contractions made so far plus those still to come are all of them. */
  lemma EncodeStep(enc: map<Pair, int>, s: seq<int>, idx: nat, out: seq<int>, pass: seq<int>)
    requires idx < |s| - 1
    requires out + MergePass(enc, s[idx..]) == pass
    requires MergeCount(enc, s) == (idx - |out|) + MergeCount(enc, s[idx..])
    ensures Mergeable(enc, (s[idx], s[idx + 1])) ==>
              && (out + [enc[(s[idx], s[idx + 1])]]) + MergePass(enc, s[idx + 2..]) == pass
              && MergeCount(enc, s) == (idx + 2 - (|out| + 1)) + MergeCount(enc, s[idx + 2..])
    ensures !Mergeable(enc, (s[idx], s[idx + 1])) ==>
              && (out + [s[idx]]) + MergePass(enc, s[idx + 1..]) == pass
              && MergeCount(enc, s) == (idx + 1 - (|out| + 1)) + MergeCount(enc, s[idx + 1..])
  {
    MergePassAt(enc, s, idx);
  }

  /** The end of the encoder's inner loop: a last unconsumed token is copied
      and the pass is complete, with no contraction left. */
  lemma EncodeTail(enc: map<Pair, int>, s: seq<int>, idx: nat, out: seq<int>, pass: seq<int>)
    requires |s| - 1 <= idx <= |s|
    requires out + MergePass(enc, s[idx..]) == pass
    ensures MergeCount(enc, s[idx..]) == 0
    ensures idx < |s| ==> out + [s[idx]] == pass
    ensures idx == |s| ==> out == pass
  {
    if idx < |s| {
      assert s[idx..] == [s[idx]];
    } else {
      assert s[idx..] == [];
    }
  }

  /** One step of the decoder's inner loop over the first `j` ids. */
  lemma DecodeStep(dec: map<int, Pair>, s: seq<int>, j: nat)
    requires j < |s|
    ensures DecodePass(dec, s[..j + 1]) ==
              DecodePass(dec, s[..j]) + (if s[j] in dec then [dec[s[j]].0, dec[s[j]].1] else [s[j]])
    ensures DecodeCount(dec, s[..j + 1]) == DecodeCount(dec, s[..j]) + (if s[j] in dec then 1 else 0)
  {
    assert s[..j + 1][..j] == s[..j];
  }
}
