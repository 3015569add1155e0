/**
 Shared vocabulary of the gesture pipeline: optional values, the two hand
 identities, and one hand observation as the detector reports it.
 */
module Base {

  /** The conventional Some/None datatype, standing in for Python's `None`. */
  datatype Option<+T> = None | Some(value: T)

  /** A Success/Failure value, standing in for an exception the code raises. */
  datatype Result<+T> = Ok(value: T) | Err(error: string)

  /** The two hand identities (`'Left'` / `'Right'`) that index tracking state. */
  datatype Side = Left | Right

  /** The other hand. */
  function Other(s: Side): Side
  {
    if s == Left then Right else Left
  }

  /** The detector's `handedness` entry: a side, the literal string `'Unknown'`,
      or no entry at all (the OpenCV detector never sets one). */
  datatype Tag = Labelled(side: Side) | Unknown | Missing

  /** One hand observation: its centre `(x, y)` in image pixels (y grows
      downward), its confidence (only ever compared) and its handedness tag.
      The bounding box is only drawn and is not part of the model. */
  datatype Hand = Hand(x: int, y: int, confidence: int, tag: Tag)

  function Abs(n: int): nat
  {
    if n < 0 then -n else n
  }

  /** The set of sides some hand of `hands` is labelled with. */
  function LabelledSides(hands: seq<Hand>): set<Side>
  {
    set i | 0 <= i < |hands| && hands[i].tag.Labelled? :: hands[i].tag.side
  }

  /** No side is claimed by two hands of `hands`. */
  predicate DistinctSides(hands: seq<Hand>)
  {
    forall i, j :: 0 <= i < j < |hands| && hands[i].tag.Labelled? && hands[j].tag.Labelled? ==>
      hands[i].tag.side != hands[j].tag.side
  }

  /** Each hand of `ks` differs from the one before it (the first from
      `prev`). */
  predicate AlternatesAfter(prev: Option<Side>, ks: seq<Side>)
    decreases |ks|
  {
    |ks| == 0 || (prev != Some(ks[0]) && AlternatesAfter(Some(ks[0]), ks[1..]))
  }

  lemma {:induction false} AlternatesPairwise(prev: Option<Side>, ks: seq<Side>)
    requires AlternatesAfter(prev, ks)
    ensures forall i :: 0 <= i < |ks| - 1 ==> ks[i + 1] == Other(ks[i])
    decreases |ks|
  {
    if |ks| > 1 {
      AlternatesPairwise(Some(ks[0]), ks[1..]);
      assert ks[1] != ks[0];
      assert forall i :: 1 <= i < |ks| - 1 ==> ks[i + 1] == ks[1..][i] && ks[i] == ks[1..][i - 1];
    }
  }
}
