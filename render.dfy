/** The human-readable rendering of merge-table entries used when the
    encoding map is visualised. */
module Render {
  import opened TokenPairs
  import opened Codec

  /** The decimal digits of `n`, most significant first (Python's `str`). */
  function Digits(n: nat): (r: string)
    ensures |r| >= 1
    ensures forall i :: 0 <= i < |r| ==> '0' <= r[i] <= '9'
  {
    if n < 10 then [('0' as int + n) as char]
    else Digits(n / 10) + [('0' as int + n % 10) as char]
  }

  /** The number a string of decimal digits denotes. */
  function DigitsValue(s: string): nat
    requires forall i :: 0 <= i < |s| ==> '0' <= s[i] <= '9'
    decreases |s|
  {
    if s == [] then 0
    else 10 * DigitsValue(s[..|s| - 1]) + (s[|s| - 1] as int - '0' as int)
  }

  /** Reading back the digits of `n` gives `n`. */
  lemma {:induction false} DigitsRoundTrip(n: nat)
    ensures DigitsValue(Digits(n)) == n
  {
    var d := Digits(n);
    if n >= 10 {
      DigitsRoundTrip(n / 10);
      assert d[..|d| - 1] == Digits(n / 10);
    }
  }

  /** Python's `f"{t}"` for an integer: a minus sign before negative values. */
  function Decimal(t: int): string
  {
    if t < 0 then "-" + Digits(-t) else Digits(t)
  }

  /** How an id that is not expanded any further is shown: printable ASCII
      as its character, anything else as its decimal value in brackets. */
  function Leaf(t: int): string
  {
    if 32 <= t < 127 then [t as char] else "[" + Decimal(t) + "]"
  }

  /** The rendering of a sequence of ids: each one shown as a leaf. */
  function Leaves(s: seq<int>): string
    decreases |s|
  {
    if s == [] then "" else Leaf(s[0]) + Leaves(s[1..])
  }

  lemma {:induction false} LeavesAppend(a: seq<int>, b: seq<int>)
    ensures Leaves(a + b) == Leaves(a) + Leaves(b)
    decreases |a|
  {
    if a == [] {
      assert a + b == b;
    } else {
      assert (a + b)[1..] == a[1..] + b;
      LeavesAppend(a[1..], b);
    }
  }

  /** The `decode_token` helper of the visualiser: ids below 256 are shown
      as leaves, a minted id as the rendering of its two components one
      after the other, and an unknown id as its value in brackets. */
  function DecodeToken(dec: map<int, Pair>, t: int): string
    requires MergesWellFormed(dec)
    decreases t
  {
    if t < 256 then (if 32 <= t < 127 then [t as char] else "[" + Decimal(t) + "]")
    else if t in dec then DecodeToken(dec, dec[t].0) + DecodeToken(dec, dec[t].1)
    else "[" + Decimal(t) + "]"
  }

  /** Rendering a minted id shows, in order, each raw id it stands for. */
  lemma {:induction false} DecodeTokenShowsExpansion(dec: map<int, Pair>, t: int)
    requires MergesWellFormed(dec)
    ensures DecodeToken(dec, t) == Leaves(ExpandToken(dec, t))
    decreases t
  {
    if t in dec {
      DecodeTokenShowsExpansion(dec, dec[t].0);
      DecodeTokenShowsExpansion(dec, dec[t].1);
      LeavesAppend(ExpandToken(dec, dec[t].0), ExpandToken(dec, dec[t].1));
    } else {
      assert ExpandToken(dec, t) == [t];
      assert [t][1..] == [];
    }
  }
}
