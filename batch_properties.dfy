/**
 * What a batch run does to the page, read off its action trace: which list
 * entries it clicks, which document triggers it activates and in what
 * order, and how many backdrop clicks the close handshake costs.
 */
module BatchProperties {
  import opened Wrappers
  import opened RunRange
  import opened Overlay
  import opened Batch

  /** The list entries a stretch of actions clicks, in order. */
  function Opened(t: seq<Action>): seq<nat>
    decreases |t|
  {
    if |t| == 0 then []
    else Opened(t[..|t| - 1]) + if t[|t| - 1].OpenEntry? then [t[|t| - 1].index] else []
  }

  lemma {:induction false} OpenedAppend(a: seq<Action>, b: seq<Action>)
    ensures Opened(a + b) == Opened(a) + Opened(b)
    decreases |b|
  {
    if |b| == 0 {
      assert a + b == a;
    } else {
      var n := |b| - 1;
      assert (a + b)[..|a + b| - 1] == a + b[..n];
      OpenedAppend(a, b[..n]);
    }
  }

  lemma {:induction false} OpenedNone(t: seq<Action>)
    requires forall k :: 0 <= k < |t| ==> !t[k].OpenEntry?
    ensures Opened(t) == []
    decreases |t|
  {
    if |t| > 0 {
      OpenedNone(t[..|t| - 1]);
    }
  }

  /** The document activator emits one click per listed trigger, position for position. */
  lemma {:induction false} ClicksOnShape(docs: seq<nat>, throws: nat -> bool)
    ensures |ClicksOn(docs, throws)| == |docs|
    ensures forall k :: 0 <= k < |docs| ==> ClicksOn(docs, throws)[k] == ClickDoc(docs[k], throws(docs[k]))
    decreases |docs|
  {
    if |docs| > 0 {
      ClicksOnShape(docs[..|docs| - 1], throws);
    }
  }

  /**
   * The activator clicks only visible triggers, each visible trigger at
   * least once, in strictly ascending document order (so exactly once),
   * and records for each click whether it raised.
   */
  lemma DocClicksAreVisibleTriggers(triggers: seq<bool>, throws: nat -> bool)
    ensures forall p :: 0 <= p < |DocClicks(triggers, throws)| ==>
              && DocClicks(triggers, throws)[p].ClickDoc?
              && DocClicks(triggers, throws)[p].trigger < |triggers|
              && triggers[DocClicks(triggers, throws)[p].trigger]
              && DocClicks(triggers, throws)[p].threw == throws(DocClicks(triggers, throws)[p].trigger)
    ensures forall p, q :: 0 <= p < q < |DocClicks(triggers, throws)| ==>
              DocClicks(triggers, throws)[p].trigger < DocClicks(triggers, throws)[q].trigger
    ensures forall k :: 0 <= k < |triggers| && triggers[k] ==> ClickDoc(k, throws(k)) in DocClicks(triggers, throws)
  {
    var docs := VisibleIndices(triggers);
    var d := DocClicks(triggers, throws);
    VisibleIndicesSound(triggers);
    ClicksOnShape(docs, throws);
    forall k | 0 <= k < |triggers| && triggers[k]
      ensures ClickDoc(k, throws(k)) in d
    {
      VisibleIndicesComplete(triggers, k);
      var p :| 0 <= p < |docs| && docs[p] == k;
      assert d[p] == ClickDoc(k, throws(k));
    }
  }

  /**
   * The close handshake clicks only the first visible backdrop, at most
   * twice; it clicks nothing exactly when nothing is open, and a handshake
   * that fails has used both clicks.
   */
  lemma CloseClicksBounded(c: CloseScene)
    ensures |CloseClicks(c)| <= 2
    ensures CloseClicks(c) == [] <==> !SomethingOpen(c)
    ensures SomethingOpen(c) ==>
              forall k :: 0 <= k < |CloseClicks(c)| ==> CloseClicks(c)[k] == BackdropClick(FirstVisible(c.backdrops).value)
    ensures !CloseSucceeds(c) ==> |CloseClicks(c)| == 2
    ensures |CloseClicks(c)| == 1 ==> CloseSucceeds(c)
  {
  }

  /** After an entry is clicked, its iteration clicks no other entry and loads no more. */
  lemma NoEntryClickAfterOpen(v: Visit, i: nat)
    ensures forall k :: 0 <= k < |OpenedEntryTrace(v, i)| ==>
              !OpenedEntryTrace(v, i)[k].OpenEntry? && !OpenedEntryTrace(v, i)[k].LoadMore?
  {
    if OverlayShown(v) {
      var d := DocClicks(v.triggers, v.clickThrows);
      var c := CloseClicks(v.close);
      ClicksOnShape(VisibleIndices(v.triggers), v.clickThrows);
      var t := OpenedEntryTrace(v, i);
      assert t == d + c + [EnsureTab, Finished(i, |VisibleIndices(v.triggers)|)];
      forall k | 0 <= k < |t|
        ensures !t[k].OpenEntry? && !t[k].LoadMore?
      {
        if k < |d| {
          assert t[k] == d[k];
        } else if k < |d| + |c| {
          assert t[k] == c[k - |d|];
        }
      }
    }
  }

  /** An iteration clicks its own entry exactly when that entry was loaded, and no other. */
  lemma IterationOpens(v: Visit, i: nat, autoLoad: bool)
    ensures Opened(IterationTrace(v, i, autoLoad)) == if EntryLoaded(v, i, autoLoad) then [i] else []
  {
    var pre := [EnsureTab] + if NeedsLoadMore(v, i, autoLoad) then [LoadMore] else [];
    OpenedNone(pre);
    if !EntryLoaded(v, i, autoLoad) {
      OpenedNone([Skipped(i, NotLoaded)]);
      OpenedAppend(pre, [Skipped(i, NotLoaded)]);
    } else {
      var o := OpenedEntryTrace(v, i);
      NoEntryClickAfterOpen(v, i);
      OpenedNone(o);
      assert Opened([OpenEntry(i)]) == [i] by {
        assert [OpenEntry(i)][..0] == [];
      }
      OpenedAppend([OpenEntry(i)], o);
      OpenedAppend(pre, [OpenEntry(i)] + o);
    }
  }

  /** The indices in `[i, i + n)` whose entry is loaded when its iteration comes, in order. */
  function LoadedIndices(host: Host, i: nat, n: nat, autoLoad: bool): seq<nat>
    decreases n
  {
    if n == 0 then []
    else
      var last := i + n - 1;
      LoadedIndices(host, i, n - 1, autoLoad) + if EntryLoaded(host.visit(last), last, autoLoad) then [last] else []
  }

  /** The loaded indices are exactly the loaded ones in range, each once, in ascending order. */
  lemma {:induction false} LoadedIndicesSpec(host: Host, i: nat, n: nat, autoLoad: bool)
    ensures forall j :: j in LoadedIndices(host, i, n, autoLoad) <==>
              i <= j < i + n && EntryLoaded(host.visit(j), j, autoLoad)
    ensures forall p, q :: 0 <= p < q < |LoadedIndices(host, i, n, autoLoad)| ==>
              LoadedIndices(host, i, n, autoLoad)[p] < LoadedIndices(host, i, n, autoLoad)[q]
    decreases n
  {
    if n > 0 {
      var last := i + n - 1;
      var before := LoadedIndices(host, i, n - 1, autoLoad);
      var step := if EntryLoaded(host.visit(last), last, autoLoad) then [last] else [];
      LoadedIndicesSpec(host, i, n - 1, autoLoad);
      assert LoadedIndices(host, i, n, autoLoad) == before + step;
      AscendingSnoc(before, step, last);
    }
  }

  /** Over `n` iterations from index `i`, the entries clicked are the loaded indices. */
  lemma {:induction false} LoopOpens(host: Host, i: nat, n: nat, autoLoad: bool)
    ensures Opened(LoopTrace(host, i, n, autoLoad)) == LoadedIndices(host, i, n, autoLoad)
    decreases n
  {
    if n > 0 {
      var last := i + n - 1;
      LoopOpens(host, i, n - 1, autoLoad);
      OpenedAppend(LoopTrace(host, i, n - 1, autoLoad), IterationTrace(host.visit(last), last, autoLoad));
      IterationOpens(host.visit(last), last, autoLoad);
    }
  }

  /** Appending at most one element above everything present keeps a sequence ascending. */
  lemma AscendingSnoc(before: seq<nat>, step: seq<nat>, last: nat)
    requires forall p, q :: 0 <= p < q < |before| ==> before[p] < before[q]
    requires forall j :: j in before ==> j < last
    requires step == [] || step == [last]
    ensures forall p, q :: 0 <= p < q < |before + step| ==> (before + step)[p] < (before + step)[q]
  {
    var all := before + step;
    forall p, q | 0 <= p < q < |all|
      ensures all[p] < all[q]
    {
      assert all[p] == before[p];
      if q >= |before| {
        assert before[p] in before;
      } else {
        assert all[q] == before[q];
      }
    }
  }

  /**
   * A run over a resolved range clicks only entries the Start and End
   * fields requested, however the Stop presses fall.
   */
  lemma RunOpensOnlyRequested(host: Host, rawStart: Option<int>, rawEnd: Option<int>, autoLoad: bool, j: nat)
    requires ResolveRange(host.listedAtStart, rawStart, rawEnd).Range?
    requires
      var r := ResolveRange(host.listedAtStart, rawStart, rawEnd);
      j in Opened(LoopTrace(host, r.startIdx, FirstStop(host.stopDuring, r.endIdx - r.startIdx + 1), autoLoad))
    ensures Requested(host.listedAtStart, rawStart, rawEnd, j)
  {
    var r := ResolveRange(host.listedAtStart, rawStart, rawEnd);
    var n := FirstStop(host.stopDuring, r.endIdx - r.startIdx + 1);
    LoopOpens(host, r.startIdx, n, autoLoad);
    LoadedIndicesSpec(host, r.startIdx, n, autoLoad);
    ResolvedRangeIsRequested(host.listedAtStart, rawStart, rawEnd, j);
  }

  /** Every document click in `t` comes before every backdrop click. */
  predicate DocsBeforeBackdrops(t: seq<Action>)
  {
    forall p, q :: 0 <= p < |t| && 0 <= q < |t| && t[p].ClickDoc? && t[q].BackdropClick? ==> p < q
  }

  /** `t` clicks neither a document trigger nor a backdrop. */
  predicate NoClicks(t: seq<Action>)
  {
    forall p :: 0 <= p < |t| ==> !t[p].ClickDoc? && !t[p].BackdropClick?
  }

  lemma NoClicksAppend(a: seq<Action>, b: seq<Action>)
    requires NoClicks(a) && NoClicks(b)
    ensures NoClicks(a + b)
  {
    forall p | 0 <= p < |a + b|
      ensures !(a + b)[p].ClickDoc? && !(a + b)[p].BackdropClick?
    {
      if p >= |a| {
        assert (a + b)[p] == b[p - |a|];
      }
    }
  }

  /** Every document or backdrop click in `t` is preceded by `x`. */
  predicate ClicksAfter(t: seq<Action>, x: Action)
  {
    forall p :: 0 <= p < |t| && (t[p].ClickDoc? || t[p].BackdropClick?) ==> x in t[..p]
  }

  /** A trace laid out as lead-in ending in `x`, document clicks, backdrop clicks, then a tail without clicks. */
  lemma OrderedLayout(head: seq<Action>, d: seq<Action>, c: seq<Action>, tail: seq<Action>, x: Action)
    requires |head| > 0 && head[|head| - 1] == x && NoClicks(head) && NoClicks(tail)
    requires forall k :: 0 <= k < |d| ==> d[k].ClickDoc?
    requires forall k :: 0 <= k < |c| ==> c[k].BackdropClick?
    ensures DocsBeforeBackdrops(head + d + c + tail)
    ensures ClicksAfter(head + d + c + tail, x)
  {
    var t := head + d + c + tail;
    forall p | 0 <= p < |t|
      ensures t[p].ClickDoc? ==> |head| <= p < |head| + |d|
      ensures t[p].BackdropClick? ==> |head| + |d| <= p < |head| + |d| + |c|
    {
      if p < |head| {
        assert t[p] == head[p];
      } else if p < |head| + |d| {
        assert t[p] == d[p - |head|];
      } else if p < |head| + |d| + |c| {
        assert t[p] == c[p - |head| - |d|];
      } else {
        assert t[p] == tail[p - |head| - |d| - |c|];
      }
    }
    forall p | |head| <= p < |t|
      ensures x in t[..p]
    {
      assert t[..p][|head| - 1] == x;
    }
  }

  /**
   * Within an iteration, every document click comes before every backdrop
   * click, and both happen only after the iteration clicked its entry, and
   * only when that entry was loaded and its overlay seen.
   */
  lemma IterationOrdering(v: Visit, i: nat, autoLoad: bool)
    ensures DocsBeforeBackdrops(IterationTrace(v, i, autoLoad))
    ensures ClicksAfter(IterationTrace(v, i, autoLoad), OpenEntry(i))
    ensures (EntryLoaded(v, i, autoLoad) && OverlayShown(v)) || NoClicks(IterationTrace(v, i, autoLoad))
  {
    var t := IterationTrace(v, i, autoLoad);
    var pre := [EnsureTab] + if NeedsLoadMore(v, i, autoLoad) then [LoadMore] else [];
    assert NoClicks(pre);
    if !EntryLoaded(v, i, autoLoad) {
      NoClicksAppend(pre, [Skipped(i, NotLoaded)]);
    } else if !OverlayShown(v) {
      NoClicksAppend(pre, [OpenEntry(i), Skipped(i, NoOverlay)]);
    } else {
      var d := DocClicks(v.triggers, v.clickThrows);
      var c := CloseClicks(v.close);
      var tail := [EnsureTab, Finished(i, |VisibleIndices(v.triggers)|)];
      ClicksOnShape(VisibleIndices(v.triggers), v.clickThrows);
      assert OpenedEntryTrace(v, i) == d + c + tail;
      assert t == (pre + [OpenEntry(i)]) + d + c + tail;
      OrderedLayout(pre + [OpenEntry(i)], d, c, tail, OpenEntry(i));
    }
  }

  /**
   * An iteration starts with the route guard, loads more exactly once (as its
   * second action) when its index is past the list and auto-load is on, and
   * never otherwise.
   */
  lemma IterationLoadMore(v: Visit, i: nat, autoLoad: bool)
    ensures IterationTrace(v, i, autoLoad)[0] == EnsureTab
    ensures NeedsLoadMore(v, i, autoLoad) ==> IterationTrace(v, i, autoLoad)[1] == LoadMore
    ensures forall k :: 0 <= k < |IterationTrace(v, i, autoLoad)| && IterationTrace(v, i, autoLoad)[k] == LoadMore ==>
              NeedsLoadMore(v, i, autoLoad) && k == 1
  {
    var t := IterationTrace(v, i, autoLoad);
    var pre := [EnsureTab] + if NeedsLoadMore(v, i, autoLoad) then [LoadMore] else [];
    var rest := if !EntryLoaded(v, i, autoLoad) then [Skipped(i, NotLoaded)] else [OpenEntry(i)] + OpenedEntryTrace(v, i);
    assert t == pre + rest;
    NoEntryClickAfterOpen(v, i);
    forall k | 0 <= k < |rest|
      ensures !rest[k].LoadMore?
    {
      if EntryLoaded(v, i, autoLoad) && k > 0 {
        assert rest[k] == OpenedEntryTrace(v, i)[k - 1];
      }
    }
    forall k | |pre| <= k < |t|
      ensures !t[k].LoadMore?
    {
      assert t[k] == rest[k - |pre|];
    }
  }

  /**
   * How an iteration ends: skipped as not loaded, skipped for want of an
   * overlay, or finished with the number of visible document triggers.
   */
  lemma IterationOutcome(v: Visit, i: nat, autoLoad: bool)
    ensures var t := IterationTrace(v, i, autoLoad);
            t[|t| - 1] ==
              if !EntryLoaded(v, i, autoLoad) then Skipped(i, NotLoaded)
              else if !OverlayShown(v) then Skipped(i, NoOverlay)
              else Finished(i, |VisibleIndices(v.triggers)|)
  {
    var t := IterationTrace(v, i, autoLoad);
    var pre := [EnsureTab] + if NeedsLoadMore(v, i, autoLoad) then [LoadMore] else [];
    if EntryLoaded(v, i, autoLoad) {
      var o := OpenedEntryTrace(v, i);
      assert t == (pre + [OpenEntry(i)]) + o;
      assert t[|t| - 1] == o[|o| - 1];
    }
  }
}
