/**
 The legacy Flappy controller's `process_hand_gesture` (main.py): one stored
 y per hand key, a jump whenever a hand rose more than 30 pixels since its
 key was last seen, no cooldown, no stillness logic and no alternation.
 Hands without a Left/Right label all share the key `'hand'`.
 */
module LegacyTracker {
  import opened Base

  const JumpThreshold := 30

  /** A tracking key: a handedness label or the shared key `'hand'`. */
  datatype Key = SideKey(side: Side) | AnyHand

  function KeyOf(h: Hand): Key
  {
    if h.tag.Labelled? then SideKey(h.tag.side) else AnyHand
  }

  datatype StepResult = StepResult(positions: map<Key, int>, jump: bool)

  function Get(m: map<Key, int>, k: Key): Option<int>
  {
    if k in m then Some(m[k]) else None
  }

  /** The loop over the hands from position `i` on: a tracked key whose
      stored y exceeds the current y by more than the threshold sets the
      jump flag; every hand's key then stores its current y. */
  function ProcessFrom(pos: map<Key, int>, hands: seq<Hand>, i: nat): (r: StepResult)
    requires i <= |hands|
    ensures r.positions.Keys == pos.Keys + (set j | i <= j < |hands| :: KeyOf(hands[j]))
    decreases |hands| - i
  {
    if i == |hands| then StepResult(pos, false)
    else
      var k := KeyOf(hands[i]);
      var y := hands[i].y;
      var fires := k in pos && pos[k] - y > JumpThreshold;
      var rest := ProcessFrom(pos[k := y], hands, i + 1);
      StepResult(rest.positions, fires || rest.jump)
  }

  /** Whether the clean-up keeps key `k`: the shared key `'hand'` always,
      a side only when a hand with that label was seen this call. */
  predicate Kept(k: Key, hands: seq<Hand>)
  {
    match k
    case AnyHand => true
    case SideKey(s) => s in LabelledSides(hands)
  }

  /** The clean-up: labelled keys not seen this call are dropped, the shared
      key `'hand'` never is. */
  function Cleanup(pos: map<Key, int>, hands: seq<Hand>): (r: map<Key, int>)
    ensures forall k :: k in r <==> k in pos && Kept(k, hands)
    ensures forall k :: k in r ==> r[k] == pos[k]
  {
    map k | k in pos && Kept(k, hands) :: pos[k]
  }

  /** One call; `enabled` is "hand control is on and a detector is loaded". */
  function Step(enabled: bool, pos: map<Key, int>, hands: seq<Hand>): (r: StepResult)
    ensures !enabled ==> r == StepResult(pos, false)
    ensures enabled && |hands| == 0 ==> r == StepResult(map[], false)
    ensures enabled && |hands| > 0 && AnyHand in pos ==> AnyHand in r.positions
    ensures forall s :: SideKey(s) in r.positions && enabled ==> s in LabelledSides(hands)
    // `'hand'` is there only if it was before or an unlabelled hand brought it, and it keeps
    // its y when no unlabelled hand was seen
    ensures enabled && AnyHand in r.positions ==>
      AnyHand in pos || exists j :: 0 <= j < |hands| && KeyOf(hands[j]) == AnyHand
    ensures enabled && |hands| > 0 && AnyHand in pos && (forall j :: 0 <= j < |hands| ==> KeyOf(hands[j]) != AnyHand) ==>
      r.positions[AnyHand] == pos[AnyHand]
  {
    if !enabled then StepResult(pos, false)
    else if |hands| == 0 then StepResult(map[], false)
    else
      UntouchedKeyKept(pos, hands, 0, AnyHand);
      var r := ProcessFrom(pos, hands, 0);
      StepResult(Cleanup(r.positions, hands), r.jump)
  }

  /** A key that no hand from position `i` on carries keeps its stored y. */
  lemma {:induction false} UntouchedKeyKept(pos: map<Key, int>, hands: seq<Hand>, i: nat, k: Key)
    requires i <= |hands|
    ensures k in pos && (forall j :: i <= j < |hands| ==> KeyOf(hands[j]) != k) ==>
      ProcessFrom(pos, hands, i).positions[k] == pos[k]
    decreases |hands| - i
  {
    if i < |hands| && k in pos && (forall j :: i <= j < |hands| ==> KeyOf(hands[j]) != k) {
      var pos' := pos[KeyOf(hands[i]) := hands[i].y];
      assert KeyOf(hands[i]) != k;
      assert k in pos' && pos'[k] == pos[k];
      UntouchedKeyKept(pos', hands, i + 1, k);
      assert ProcessFrom(pos, hands, i).positions == ProcessFrom(pos', hands, i + 1).positions;
    }
  }

  // ---------------------------------------------------------------------
  // Reference definition: which hand sees which previous y.
  // ---------------------------------------------------------------------

  /** The y of the last hand before position `i` with key `k`. */
  function LastYBefore(hands: seq<Hand>, k: Key, i: nat): Option<int>
    requires i <= |hands|
  {
    if i == 0 then None
    else if KeyOf(hands[i - 1]) == k then Some(hands[i - 1].y)
    else LastYBefore(hands, k, i - 1)
  }

  /** The y stored under `k` when hand `i` is processed. */
  function SeenY(pos: map<Key, int>, hands: seq<Hand>, k: Key, i: nat): Option<int>
    requires i <= |hands|
  {
    match LastYBefore(hands, k, i)
    case Some(y) => Some(y)
    case None => Get(pos, k)
  }

  /** Hand `j` rose more than the threshold above the y its key held. */
  predicate Fires(pos: map<Key, int>, hands: seq<Hand>, j: nat)
    requires j < |hands|
  {
    var prev := SeenY(pos, hands, KeyOf(hands[j]), j);
    prev.Some? && prev.value - hands[j].y > JumpThreshold
  }

  /** `j` is the last hand with its key. */
  predicate LastWithKey(hands: seq<Hand>, j: nat)
    requires j < |hands|
  {
    forall j' :: j < j' < |hands| ==> KeyOf(hands[j']) != KeyOf(hands[j])
  }

  lemma {:induction false} ProcessMatchesReference(pos0: map<Key, int>, pos: map<Key, int>, hands: seq<Hand>, i: nat)
    requires i <= |hands|
    requires forall k :: Get(pos, k) == SeenY(pos0, hands, k, i)
    ensures var r := ProcessFrom(pos, hands, i);
      && (r.jump <==> exists j :: i <= j < |hands| && Fires(pos0, hands, j))
      && forall k :: Get(r.positions, k) == SeenY(pos0, hands, k, |hands|)
    decreases |hands| - i
  {
    if i < |hands| {
      var k := KeyOf(hands[i]);
      var pos' := pos[k := hands[i].y];
      StoreMatchesReference(pos0, pos, pos', hands, i);
      ProcessMatchesReference(pos0, pos', hands, i + 1);
      assert Get(pos, k) == SeenY(pos0, hands, k, i);
      var r := ProcessFrom(pos, hands, i);
      assert r.jump == ((k in pos && pos[k] - hands[i].y > JumpThreshold) || ProcessFrom(pos', hands, i + 1).jump);
      if r.jump {
        if !(k in pos && pos[k] - hands[i].y > JumpThreshold) {
          var j :| i + 1 <= j < |hands| && Fires(pos0, hands, j);
        } else {
          assert Fires(pos0, hands, i);
        }
      }
    }
  }

  /** Storing hand `i`'s y under its key keeps the stored positions equal
      to the reference's. */
  lemma StoreMatchesReference(pos0: map<Key, int>, pos: map<Key, int>, pos': map<Key, int>, hands: seq<Hand>, i: nat)
    requires i < |hands|
    requires forall k :: Get(pos, k) == SeenY(pos0, hands, k, i)
    requires pos' == pos[KeyOf(hands[i]) := hands[i].y]
    ensures forall k :: Get(pos', k) == SeenY(pos0, hands, k, i + 1)
  {
    var k := KeyOf(hands[i]);
    forall k' ensures Get(pos', k') == SeenY(pos0, hands, k', i + 1) {
      if k' != k {
        assert LastYBefore(hands, k', i + 1) == LastYBefore(hands, k', i);
        assert Get(pos', k') == Get(pos, k');
        assert Get(pos, k') == SeenY(pos0, hands, k', i);
      } else {
        assert LastYBefore(hands, k', i + 1) == Some(hands[i].y);
      }
    }
  }

  lemma {:induction false} LastYBeforeIsLast(hands: seq<Hand>, j: nat, n: nat)
    requires j < n <= |hands|
    requires forall j' :: j < j' < n ==> KeyOf(hands[j']) != KeyOf(hands[j])
    ensures LastYBefore(hands, KeyOf(hands[j]), n) == Some(hands[j].y)
  {
    if n - 1 != j {
      LastYBeforeIsLast(hands, j, n - 1);
    }
  }

  /** One call of main.py's tracker with at least one hand: it returns True
      exactly when some hand rose more than 30 pixels above the y its key
      held when that hand was reached (a key seen for the first time never
      fires, and there is no early exit); afterwards each processed key holds
      the y of the last hand with that key. */
  lemma LegacyJumpCharacterised(pos: map<Key, int>, hands: seq<Hand>)
    requires |hands| > 0
    ensures var r := Step(true, pos, hands);
      && (r.jump <==> exists j :: 0 <= j < |hands| && Fires(pos, hands, j))
      && (forall j :: 0 <= j < |hands| && LastWithKey(hands, j) ==>
            KeyOf(hands[j]) in r.positions && r.positions[KeyOf(hands[j])] == hands[j].y)
      // every kept key holds the reference's y: an untouched `'hand'` entry keeps its old y,
      // and no key appears that neither the old map nor this frame had
      && forall k :: Get(r.positions, k) ==
                      (if Kept(k, hands) then SeenY(pos, hands, k, |hands|) else None)
  {
    var r := ProcessFrom(pos, hands, 0);
    forall k ensures Get(pos, k) == SeenY(pos, hands, k, 0) {
    }
    ProcessMatchesReference(pos, pos, hands, 0);
    LastHandsKept(pos, hands, r.positions);
    CleanupMatchesReference(pos, hands, r.positions);
    assert Step(true, pos, hands) == StepResult(Cleanup(r.positions, hands), r.jump);
  }

  /** After the clean-up each key holds the y of the last hand with that key. */
  lemma LastHandsKept(pos: map<Key, int>, hands: seq<Hand>, p: map<Key, int>)
    requires forall k :: Get(p, k) == SeenY(pos, hands, k, |hands|)
    ensures forall j :: 0 <= j < |hands| && LastWithKey(hands, j) ==>
      KeyOf(hands[j]) in Cleanup(p, hands) && Cleanup(p, hands)[KeyOf(hands[j])] == hands[j].y
  {
    forall j | 0 <= j < |hands| && LastWithKey(hands, j)
      ensures KeyOf(hands[j]) in p && p[KeyOf(hands[j])] == hands[j].y
    {
      LastYBeforeIsLast(hands, j, |hands|);
      assert Get(p, KeyOf(hands[j])) == Some(hands[j].y);
    }
    forall j | 0 <= j < |hands| && hands[j].tag.Labelled?
      ensures hands[j].tag.side in LabelledSides(hands)
    {
    }
  }

  /** The clean-up keeps the reference's y for `'hand'` and for the sides
      labelled this call, and drops every other key. */
  lemma CleanupMatchesReference(pos: map<Key, int>, hands: seq<Hand>, p: map<Key, int>)
    requires forall k :: Get(p, k) == SeenY(pos, hands, k, |hands|)
    ensures forall k :: Get(Cleanup(p, hands), k) ==
                        (if Kept(k, hands) then SeenY(pos, hands, k, |hands|) else None)
  {
    forall k ensures Get(Cleanup(p, hands), k) ==
      (if Kept(k, hands) then SeenY(pos, hands, k, |hands|) else None)
    {
      assert Get(p, k) == SeenY(pos, hands, k, |hands|);
    }
  }
}
