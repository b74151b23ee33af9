/** What the frequency table of a token stream holds: its adjacent pairs,
    how often each occurs, and the order in which the distinct pairs are
    first seen (the insertion order of the table). */
module PairCounts {
  import opened TokenPairs

  /** The adjacent pairs of `s`, one per window of two (stride 1, so the
      windows overlap). */
  function Pairs(s: seq<int>): (ps: seq<Pair>)
    ensures |ps| == if |s| < 2 then 0 else |s| - 1
    ensures forall i {:trigger ps[i]} :: 0 <= i < |ps| ==> ps[i] == (s[i], s[i + 1])
    decreases |s|
  {
    if |s| < 2 then [] else [(s[0], s[1])] + Pairs(s[1..])
  }

  /** No value occurs in a sequence more often than the sequence is long. */
  lemma {:induction false} CountAtMostLength(ps: seq<Pair>, p: Pair)
    ensures multiset(ps)[p] <= |ps|
  {
    if ps != [] {
      CountAtMostLength(ps[1..], p);
      assert ps == [ps[0]] + ps[1..];
    }
  }

  /** How many windows of `s` hold the pair `p`. */
  function Frequency(s: seq<int>, p: Pair): nat
  {
    multiset(Pairs(s))[p]
  }

  /** The distinct elements of `ps`, each where it first occurs. */
  function FirstSeen(ps: seq<Pair>): (r: seq<Pair>)
    ensures forall p :: p in r <==> p in ps
    ensures forall i, j :: 0 <= i < j < |r| ==> r[i] != r[j]
    decreases |ps|
  {
    if ps == [] then []
    else
      var r0 := FirstSeen(ps[..|ps| - 1]);
      var last := ps[|ps| - 1];
      assert ps == ps[..|ps| - 1] + [last];
      if last in r0 then r0 else r0 + [last]
  }

  /** The table the counting pass builds from the windows `ps`, taken in
      order: a pair already present has its frequency raised by one, a new
      pair enters with frequency 1. */
  function Tally(ps: seq<Pair>): map<Pair, nat>
    decreases |ps|
  {
    if ps == [] then map[]
    else
      var t := Tally(ps[..|ps| - 1]);
      var last := ps[|ps| - 1];
      if last in t then t[last := t[last] + 1] else t[last := 1]
  }

  /** Counting one more window raises its pair's frequency by one, or
      enters the pair with frequency 1. */
  lemma TallySnoc(ps: seq<Pair>, x: Pair)
    ensures Tally(ps + [x]) == var t := Tally(ps); if x in t then t[x := t[x] + 1] else t[x := 1]
  {
    assert (ps + [x])[..|ps|] == ps;
  }

  /** That table holds exactly the pairs of `ps`, each with its number of
      occurrences. */
  lemma {:induction false} TallyCounts(ps: seq<Pair>)
    ensures forall p :: p in Tally(ps) <==> p in ps
    ensures forall p :: p in Tally(ps) ==> Tally(ps)[p] == multiset(ps)[p]
    decreases |ps|
  {
    if ps != [] {
      var front := ps[..|ps| - 1];
      TallyCounts(front);
      assert ps == front + [ps[|ps| - 1]];
    }
  }

  /** The position at which `p` first occurs in `ps`. */
  function FirstIndex(ps: seq<Pair>, p: Pair): (k: nat)
    requires p in ps
    ensures k < |ps| && ps[k] == p
    ensures forall i :: 0 <= i < k ==> ps[i] != p
  {
    if ps[0] == p then 0 else 1 + FirstIndex(ps[1..], p)
  }

  lemma {:induction false} FirstIndexPrefix(ps: seq<Pair>, n: nat, p: Pair)
    requires n <= |ps| && p in ps[..n]
    ensures FirstIndex(ps, p) == FirstIndex(ps[..n], p)
  {
    var k := FirstIndex(ps[..n], p);
    var k' := FirstIndex(ps, p);
    assert ps[k] == p;
    assert k' <= k;
    assert ps[..n][k'] == p;
  }

  /** The table's insertion order is first-seen order: of two distinct pairs,
      the one listed earlier occurs earlier in the stream. */
  lemma {:induction false} FirstSeenOrder(ps: seq<Pair>)
    ensures forall i, j :: 0 <= i < j < |FirstSeen(ps)| ==>
              FirstIndex(ps, FirstSeen(ps)[i]) < FirstIndex(ps, FirstSeen(ps)[j])
  {
    if ps != [] {
      var n := |ps| - 1;
      var front := ps[..n];
      var last := ps[n];
      var r0 := FirstSeen(front);
      FirstSeenOrder(front);
      assert ps == front + [last];
      forall q | q in r0 ensures FirstIndex(ps, q) == FirstIndex(front, q) && FirstIndex(ps, q) < n {
        FirstIndexPrefix(ps, n, q);
      }
      var r := FirstSeen(ps);
      if last !in r0 {
        assert last !in front;
        assert FirstIndex(ps, last) == n;
        assert r == r0 + [last];
        forall i, j | 0 <= i < j < |r| ensures FirstIndex(ps, r[i]) < FirstIndex(ps, r[j]) {
          assert r[i] == r0[i];
          FirstIndexPrefix(ps, n, r0[i]);
          if j < |r0| {
            assert r[j] == r0[j];
            FirstIndexPrefix(ps, n, r0[j]);
            assert FirstIndex(front, r0[i]) < FirstIndex(front, r0[j]);
          } else {
            assert r[j] == last;
            assert FirstIndex(front, r0[i]) < n;
          }
        }
      } else {
        assert r == r0;
      }
    }
  }

  /** A pair is in the table exactly when some window holds it, and then its
      frequency is at least one. */
  lemma {:induction false} FrequencyPositive(s: seq<int>, p: Pair)
    ensures Frequency(s, p) >= 1 <==> exists i :: 0 <= i < |s| - 1 && (s[i], s[i + 1]) == p
  {
    var ps := Pairs(s);
    if Frequency(s, p) >= 1 {
      assert p in ps;
      var i :| 0 <= i < |ps| && ps[i] == p;
      assert (s[i], s[i + 1]) == p;
    }
    if exists i :: 0 <= i < |s| - 1 && (s[i], s[i + 1]) == p {
      var i :| 0 <= i < |s| - 1 && (s[i], s[i + 1]) == p;
      assert ps[i] == p;
    }
  }

  /** Counting uses overlapping windows: a run of `n` equal tokens holds
      that pair `n - 1` times, not `n / 2` times. */
  lemma {:induction false} OverlappingWindows(a: int, n: nat)
    ensures Frequency(seq(n, _ => a), (a, a)) == if n == 0 then 0 else n - 1
  {
    var s := seq(n, _ => a);
    if n >= 2 {
      OverlappingWindows(a, n - 1);
      assert s[1..] == seq(n - 1, _ => a);
      assert Pairs(s) == [(a, a)] + Pairs(s[1..]);
    } else {
      assert Pairs(s) == [];
    }
  }

}
