/**
 * Overlay detection with the page's geometry replaced by descriptors: which
 * element counts as the active detail overlay, the bounded polls that wait
 * for one to appear or to go away, and the "first visible" scans used for
 * document triggers and backdrops.
 */
module Overlay {
  import opened Wrappers

  /** Added to the area of a candidate that contains a close control. */
  const CloseBonus: int := 1_000_000

  /**
   * One overlay-like element as the selection sees it: whether it is
   * visible, its area in whole pixels, and whether it contains a close control.
   */
  datatype Candidate = Candidate(visible: bool, area: nat, hasClose: bool)

  /** The active-modal score counts the close-control bonus; the close handshake's score is the area alone. */
  function Score(c: Candidate, withBonus: bool): (s: int)
    ensures c.area <= s
    ensures s > c.area <==> withBonus && c.hasClose
    ensures withBonus && c.hasClose ==> s >= CloseBonus
  {
    c.area + if withBonus && c.hasClose then CloseBonus else 0
  }

  /** Some candidate of the snapshot is visible. */
  predicate AnyVisible(cands: seq<Candidate>)
    decreases |cands|
  {
    |cands| > 0 && (cands[|cands| - 1].visible || AnyVisible(cands[..|cands| - 1]))
  }

  lemma {:induction false} AnyVisibleSomewhere(cands: seq<Candidate>)
    ensures AnyVisible(cands) <==> exists j :: 0 <= j < |cands| && cands[j].visible
    decreases |cands|
  {
    if |cands| > 0 {
      var init := cands[..|cands| - 1];
      AnyVisibleSomewhere(init);
      if exists j :: 0 <= j < |cands| && cands[j].visible {
        var j :| 0 <= j < |cands| && cands[j].visible;
        if j < |init| {
          assert init[j] == cands[j];
        }
      }
      if AnyVisible(init) {
        var j :| 0 <= j < |init| && init[j].visible;
        assert cands[j] == init[j];
      }
    }
  }

  /** `b` is visible, no visible candidate scores above it, and every visible candidate before it scores below it. */
  predicate IsFirstBest(cands: seq<Candidate>, b: int, withBonus: bool)
  {
    && 0 <= b < |cands|
    && cands[b].visible
    && (forall j :: 0 <= j < |cands| && cands[j].visible ==> Score(cands[j], withBonus) <= Score(cands[b], withBonus))
    && (forall j :: 0 <= j < b && cands[j].visible ==> Score(cands[j], withBonus) < Score(cands[b], withBonus))
  }

  /**
   * The selection loop: filter to visible candidates, then keep the best
   * score seen so far, starting from -1 and replacing it only on a strictly
   * greater score. Returns the index of the chosen candidate.
   */
  method SelectOverlay(cands: seq<Candidate>, withBonus: bool) returns (best: Option<nat>)
    ensures best.None? <==> !AnyVisible(cands)
    ensures best.Some? ==> IsFirstBest(cands, best.value, withBonus)
  {
    best := None;
    var score := -1;
    for i := 0 to |cands|
      invariant best.None? ==> score == -1 && forall j :: 0 <= j < i ==> !cands[j].visible
      invariant best.Some? ==> best.value < i && cands[best.value].visible && score == Score(cands[best.value], withBonus)
      invariant forall j :: 0 <= j < i && cands[j].visible ==> Score(cands[j], withBonus) <= score
      invariant best.Some? ==> forall j :: 0 <= j < best.value && cands[j].visible ==> Score(cands[j], withBonus) < score
    {
      if cands[i].visible {
        var sc := Score(cands[i], withBonus);
        if sc > score {
          score := sc;
          best := Some(i);
        }
      }
    }
    AnyVisibleSomewhere(cands);
  }

  /** The active detail overlay: area plus the close-control bonus. */
  method GetActiveModal(cands: seq<Candidate>) returns (modal: Option<nat>)
    ensures modal.None? <==> !AnyVisible(cands)
    ensures modal.Some? ==> IsFirstBest(cands, modal.value, true)
  {
    modal := SelectOverlay(cands, true);
  }

  /** The overlay the close handshake waits on: area alone. */
  method FindActiveOverlay(cands: seq<Candidate>) returns (overlay: Option<nat>)
    ensures overlay.None? <==> !AnyVisible(cands)
    ensures overlay.Some? ==> IsFirstBest(cands, overlay.value, false)
  {
    overlay := SelectOverlay(cands, false);
  }

  /** At most one candidate is the first best one: the choice is determined by the snapshot. */
  lemma FirstBestUnique(cands: seq<Candidate>, a: int, b: int, withBonus: bool)
    requires IsFirstBest(cands, a, withBonus) && IsFirstBest(cands, b, withBonus)
    ensures a == b
  {
  }

  /**
   * While every visible area stays below the bonus, the active modal is one
   * with a close control whenever some visible candidate has one.
   */
  lemma CloseControlWins(cands: seq<Candidate>, b: int, j: int)
    requires IsFirstBest(cands, b, true)
    requires forall k :: 0 <= k < |cands| && cands[k].visible ==> cands[k].area < CloseBonus
    requires 0 <= j < |cands| && cands[j].visible && cands[j].hasClose
    ensures cands[b].hasClose
  {
    assert Score(cands[j], true) <= Score(cands[b], true);
  }

  /** With no close control anywhere, both scorings choose the same overlay. */
  lemma ScoringsAgreeWithoutClose(cands: seq<Candidate>, b: int)
    requires forall k :: 0 <= k < |cands| ==> !cands[k].hasClose
    ensures IsFirstBest(cands, b, true) <==> IsFirstBest(cands, b, false)
  {
    assert forall k :: 0 <= k < |cands| ==> Score(cands[k], true) == Score(cands[k], false);
  }

  /** Some snapshot of the opening poll, taken in order, shows a visible candidate. */
  predicate OverlayAppears(polls: seq<seq<Candidate>>)
    decreases |polls|
  {
    |polls| > 0 && (AnyVisible(polls[0]) || OverlayAppears(polls[1..]))
  }

  lemma {:induction false} OverlayAppearsSomewhere(polls: seq<seq<Candidate>>)
    ensures OverlayAppears(polls) <==> exists p :: 0 <= p < |polls| && AnyVisible(polls[p])
    decreases |polls|
  {
    if |polls| > 0 {
      OverlayAppearsSomewhere(polls[1..]);
      if exists p :: 0 <= p < |polls| && AnyVisible(polls[p]) {
        var p :| 0 <= p < |polls| && AnyVisible(polls[p]);
        if p > 0 {
          assert polls[1..][p - 1] == polls[p];
        }
      }
      if OverlayAppears(polls[1..]) {
        var p :| 0 <= p < |polls[1..]| && AnyVisible(polls[1..][p]);
        assert polls[p + 1] == polls[1..][p];
      }
    }
  }

  /**
   * The poll after an entry was clicked: one active-modal lookup per
   * snapshot, stopping at the first that finds one. `polls` holds the
   * snapshots the timeout leaves room for.
   */
  method PollForOverlay(polls: seq<seq<Candidate>>) returns (modal: Option<nat>, round: nat)
    ensures modal.Some? <==> OverlayAppears(polls)
    ensures modal.Some? ==> round < |polls| && IsFirstBest(polls[round], modal.value, true)
    ensures modal.Some? ==> forall q :: 0 <= q < round ==> !AnyVisible(polls[q])
  {
    modal, round := None, 0;
    while round < |polls|
      invariant round <= |polls|
      invariant forall q :: 0 <= q < round ==> !AnyVisible(polls[q])
      invariant OverlayAppears(polls) <==> OverlayAppears(polls[round..])
      invariant modal.None?
    {
      assert polls[round..][1..] == polls[round + 1..];
      modal := GetActiveModal(polls[round]);
      if modal.Some? {
        assert AnyVisible(polls[round]);
        return;
      }
      round := round + 1;
    }
  }

  /**
   * One check window of the close handshake: `checks[k]` says whether the
   * k-th check saw the overlay disconnected or invisible.
   */
  method WaitOverlayGone(checks: seq<bool>) returns (gone: bool)
    ensures gone <==> true in checks
  {
    for k := 0 to |checks|
      invariant true !in checks[..k]
    {
      if checks[k] {
        return true;
      }
    }
    assert checks[..|checks|] == checks;
    return false;
  }

  /** The positions of the visible elements of a query result, in document order. */
  function VisibleIndices(visible: seq<bool>): seq<nat>
    decreases |visible|
  {
    if |visible| == 0 then []
    else
      var n := |visible| - 1;
      VisibleIndices(visible[..n]) + if visible[n] then [n] else []
  }

  /** Only visible elements are listed, each in range, in strictly ascending order. */
  lemma {:induction false} VisibleIndicesSound(visible: seq<bool>)
    ensures |VisibleIndices(visible)| <= |visible|
    ensures forall a :: 0 <= a < |VisibleIndices(visible)| ==>
              VisibleIndices(visible)[a] < |visible| && visible[VisibleIndices(visible)[a]]
    ensures forall a, b :: 0 <= a < b < |VisibleIndices(visible)| ==> VisibleIndices(visible)[a] < VisibleIndices(visible)[b]
    decreases |visible|
  {
    if |visible| > 0 {
      var n := |visible| - 1;
      VisibleIndicesSound(visible[..n]);
    }
  }

  /** No visible element is left out. */
  lemma {:induction false} VisibleIndicesComplete(visible: seq<bool>, k: int)
    requires 0 <= k < |visible| && visible[k]
    ensures k in VisibleIndices(visible)
    decreases |visible|
  {
    var n := |visible| - 1;
    if k < n {
      VisibleIndicesComplete(visible[..n], k);
    }
  }

  /** `Array.find(isVisible)` over a query result. */
  function FirstVisible(visible: seq<bool>): Option<nat>
  {
    var v := VisibleIndices(visible);
    if |v| == 0 then None else Some(v[0])
  }

  /** The first visible element is found when there is one, and nothing before it is visible. */
  lemma FirstVisibleSpec(visible: seq<bool>)
    ensures FirstVisible(visible).None? <==> forall k :: 0 <= k < |visible| ==> !visible[k]
    ensures FirstVisible(visible).Some? ==>
              FirstVisible(visible).value < |visible| && visible[FirstVisible(visible).value]
    ensures FirstVisible(visible).Some? ==> forall k :: 0 <= k < FirstVisible(visible).value ==> !visible[k]
  {
    var v := VisibleIndices(visible);
    VisibleIndicesSound(visible);
    forall k | 0 <= k < |visible| && visible[k]
      ensures |v| > 0 && v[0] <= k
    {
      VisibleIndicesComplete(visible, k);
    }
  }

  /**
   * What the close handshake observes: the overlay candidates, the visibility
   * of each backdrop-like element, and the checks of its two windows.
   */
  datatype CloseScene = CloseScene(overlays: seq<Candidate>, backdrops: seq<bool>,
                                   firstWindow: seq<bool>, secondWindow: seq<bool>)

  /** Something is open: a visible overlay and a visible backdrop. */
  predicate SomethingOpen(c: CloseScene)
  {
    AnyVisible(c.overlays) && FirstVisible(c.backdrops).Some?
  }

  /** The handshake reports success when nothing was open or either window saw the overlay go. */
  predicate CloseSucceeds(c: CloseScene)
  {
    !SomethingOpen(c) || true in c.firstWindow || true in c.secondWindow
  }
}
