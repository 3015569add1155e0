/**
 The hand-identity filter (`filter_hands`), shared verbatim by the Flappy and
 Rhythm controllers and the legacy Rhythm script: keep only Left/Right
 labelled hands and, when a label is claimed twice, keep the two most
 confident hands and relabel them Left and Right by screen position.
 */
module HandFilter {
  import opened Base

  /** The hands labelled Left or Right, in input order. */
  function ValidHands(hands: seq<Hand>): (r: seq<Hand>)
    ensures |r| <= |hands|
    ensures forall i :: 0 <= i < |r| ==> r[i].tag.Labelled?
    ensures forall h :: h in r <==> h in hands && h.tag.Labelled?
  {
    if |hands| == 0 then []
    else (if hands[0].tag.Labelled? then [hands[0]] else []) + ValidHands(hands[1..])
  }

  /** How many hands of `hands` are labelled `side`. */
  function CountSide(hands: seq<Hand>, side: Side): nat
  {
    if |hands| == 0 then 0
    else (if hands[0].tag == Labelled(side) then 1 else 0) + CountSide(hands[1..], side)
  }

  /** Some label is claimed by two or more hands. */
  predicate Duplicated(valid: seq<Hand>)
  {
    CountSide(valid, Left) >= 2 || CountSide(valid, Right) >= 2
  }

  /** Every labelled hand is counted under exactly one side. */
  lemma {:induction false} CountSplit(valid: seq<Hand>)
    requires forall i :: 0 <= i < |valid| ==> valid[i].tag.Labelled?
    ensures |valid| == CountSide(valid, Left) + CountSide(valid, Right)
  {
    if |valid| > 0 {
      assert valid[0].tag.Labelled?;
      assert valid[0].tag.side.Left? || valid[0].tag.side.Right?;
      CountSplit(valid[1..]);
    }
  }

  /** A side with a zero count is claimed by no hand. */
  lemma {:induction false} CountZero(hands: seq<Hand>, side: Side, i: int)
    requires CountSide(hands, side) == 0
    requires 0 <= i < |hands|
    ensures hands[i].tag != Labelled(side)
  {
    if i > 0 {
      CountZero(hands[1..], side, i - 1);
    }
  }

  /** Position `i` comes before position `j` in Python's stable sort by
      descending confidence: higher confidence first, earlier on ties. */
  predicate Outranks(v: seq<Hand>, i: int, j: int)
    requires 0 <= i < |v| && 0 <= j < |v|
  {
    v[i].confidence > v[j].confidence || (v[i].confidence == v[j].confidence && i < j)
  }

  /** Some position below `n` other than `skip` exists. */
  predicate HasCandidate(n: int, skip: int)
  {
    n > 1 || (n == 1 && skip != 0)
  }

  /** The best-ranked position among `0 .. n-1`, leaving out `skip`. */
  function BestBelow(v: seq<Hand>, n: nat, skip: int): (i: nat)
    requires n <= |v| && HasCandidate(n, skip)
    ensures i < n && i != skip
    ensures forall k :: 0 <= k < n && k != skip && k != i ==> Outranks(v, i, k)
  {
    var last := n - 1;
    if last == skip then BestBelow(v, last, skip)
    else if !HasCandidate(last, skip) then last
    else
      var b := BestBelow(v, last, skip);
      if v[last].confidence > v[b].confidence then
        assert forall k :: 0 <= k < n && k != skip && k != last ==> Outranks(v, last, k) by {
          forall k | 0 <= k < n && k != skip && k != last && k != b
            ensures Outranks(v, last, k)
          {
            assert Outranks(v, b, k);
          }
        }
        last
      else
        assert Outranks(v, b, last);
        b
  }

  /** `i` and `j` are the first two positions of `v` sorted by descending
      confidence (the `sorted(...)[:2]` slice). */
  ghost predicate IsTopTwo(v: seq<Hand>, i: int, j: int)
  {
    && 0 <= i < |v| && 0 <= j < |v| && i != j
    && (forall k :: 0 <= k < |v| && k != i ==> Outranks(v, i, k))
    && (forall k :: 0 <= k < |v| && k != i && k != j ==> Outranks(v, j, k))
  }

  /** The two most confident hands, best first. */
  function TopTwo(v: seq<Hand>): (r: (nat, nat))
    requires |v| >= 2
    ensures IsTopTwo(v, r.0, r.1)
  {
    var i := BestBelow(v, |v|, -1);
    var j := BestBelow(v, |v|, i);
    (i, j)
  }

  /** Sort two hands by centre x (stable) and label the leftmost Left and the
      rightmost Right. */
  function PositionRelabel(a: Hand, b: Hand): (r: seq<Hand>)
    ensures |r| == 2
    ensures r[0].tag == Labelled(Left) && r[1].tag == Labelled(Right)
    ensures r[0].x <= r[1].x
    ensures || (r[0] == a.(tag := Labelled(Left)) && r[1] == b.(tag := Labelled(Right)))
            || (r[0] == b.(tag := Labelled(Left)) && r[1] == a.(tag := Labelled(Right)) && b.x < a.x)
  {
    var (p, q) := if b.x < a.x then (b, a) else (a, b);
    [p.(tag := Labelled(Left)), q.(tag := Labelled(Right))]
  }

  /** `filter_hands`. The duplicate-label branch and the "more than two
      hands" branch compute the same thing and are one branch here; the
      latter can never be reached on its own (see `OverflowBranchUnreachable`). */
  function FilterHands(hands: seq<Hand>): (r: seq<Hand>)
    ensures |r| <= 2
    ensures forall i :: 0 <= i < |r| ==> r[i].tag.Labelled?
    ensures DistinctSides(r)
    ensures |hands| == 0 ==> r == hands
    ensures !Duplicated(ValidHands(hands)) ==> r == ValidHands(hands)
    ensures Duplicated(ValidHands(hands)) ==>
      exists i, j :: IsTopTwo(ValidHands(hands), i, j) &&
        r == PositionRelabel(ValidHands(hands)[i], ValidHands(hands)[j])
  {
    if |hands| == 0 then hands
    else
      var valid := ValidHands(hands);
      CountSplit(valid);
      if |valid| <= 1 then valid
      else
        var lefts := CountSide(valid, Left);
        var rights := CountSide(valid, Right);
        if lefts == 1 && rights == 1 then
          TwoDistinct(valid);
          valid
        else if lefts >= 2 || rights >= 2 || |valid| > 2 then
          var (i, j) := TopTwo(valid);
          PositionRelabel(valid[i], valid[j])
        else valid
  }

  /** Two labelled hands, one per side, carry different labels. */
  lemma TwoDistinct(valid: seq<Hand>)
    requires |valid| == 2
    requires forall i :: 0 <= i < |valid| ==> valid[i].tag.Labelled?
    requires CountSide(valid, Left) == 1 && CountSide(valid, Right) == 1
    ensures DistinctSides(valid)
  {
    assert CountSide(valid[1..], Left) == CountSide(valid[1..][1..], Left) + (if valid[1].tag == Labelled(Left) then 1 else 0);
  }

  /** Two or more labelled hands that are not exactly one Left and one Right
      always repeat a label, so the "more than 2 hands" branch of
      `filter_hands` is dead code. */
  lemma OverflowBranchUnreachable(hands: seq<Hand>)
    ensures var valid := ValidHands(hands);
      |valid| >= 2 && !(CountSide(valid, Left) == 1 && CountSide(valid, Right) == 1) ==> Duplicated(valid)
  {
    CountSplit(ValidHands(hands));
  }

  /** With no Left/Right labelled hand the filter returns nothing, and a
      single labelled hand is returned as it is. */
  lemma FilterFewValid(hands: seq<Hand>)
    ensures |hands| > 0 && |ValidHands(hands)| == 0 ==> FilterHands(hands) == []
    ensures |ValidHands(hands)| == 1 ==> FilterHands(hands) == ValidHands(hands)
  {
    var valid := ValidHands(hands);
    if |valid| == 1 {
      CountSplit(valid);
      if CountSide(valid, Left) == 1 {
        assert CountSide(valid[1..], Left) == 0;
      }
    }
  }
}
