/** The pair record of the tokenizer, the two wrapper datatypes the model
    uses, and Python's built-in `max` over a sequence of pair records. */
module TokenPairs {

  /** A key of the pair tables: (first token, second token). */
  type Pair = (int, int)

  /** A raw input unit: one UTF-8 byte, the ids below the first minted id. */
  type Byte = x: int | 0 <= x < 256

  datatype Option<T> = None | Some(value: T)

  datatype Result<T, E> = Ok(value: T) | Err(error: E)

  /** The record stored in the frequency table: the two tokens and how often
      they were seen next to each other (1 when the record is first made). */
  datatype TokenPair = TokenPair(firstToken: int, secondToken: int, frequency: int)
  {
    /** The table key of this record (`_key`). */
    function Key(): Pair
    {
      (firstToken, secondToken)
    }

    /** The ordering used by `max` (`__lt__`): the frequency alone decides,
        the tokens play no part. */
    predicate Less(other: TokenPair)
    {
      frequency < other.frequency
    }
  }

  /** Python's `max` over a non-empty sequence of records ordered by `Less`.
      `max` keeps its running maximum and replaces it only by an element that
      is strictly greater, so among equally frequent records the first wins. */
  function MaxPair(es: seq<TokenPair>): (r: TokenPair)
    requires |es| > 0
    ensures r in es
    ensures forall e :: e in es ==> !r.Less(e)
    ensures exists j :: 0 <= j < |es| && es[j] == r &&
              forall i :: 0 <= i < j ==> es[i].Less(r)
    decreases |es|
  {
    if |es| == 1 then es[0]
    else
      var best := MaxPair(es[..|es| - 1]);
      var last := es[|es| - 1];
      assert es == es[..|es| - 1] + [last];
      if best.Less(last) then
        assert forall i :: 0 <= i < |es| - 1 ==> es[i].Less(last) by {
          forall i | 0 <= i < |es| - 1 ensures es[i].Less(last) {
            assert es[i] in es[..|es| - 1];
          }
        }
        last
      else
        best
  }
}
