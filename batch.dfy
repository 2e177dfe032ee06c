/**
 * The batch run: the panel's run state, the page's `window.open` slot and
 * the sequence of actions the run performs on the page. The host page is an
 * oracle (`Host`) that says what each list snapshot, overlay poll, trigger
 * query and close check observes, and when the Stop button is pressed.
 */
module Batch {
  import opened Wrappers
  import opened RunRange
  import opened Overlay

  /** The page's `window.open` slot. */
  datatype OpenFn =
    | NoOpen                    // `window.open` is absent
    | PageOpen(id: nat)         // a function not marked as hooked
    | HookedOpen(prev: OpenFn)  // the run's background-tab wrapper around `prev`, marked as hooked

  /** What installing the hook hands back for the end of the run. */
  datatype Unhook = NoOpUnhook | Restore(prev: OpenFn)

  datatype SkipReason = NotLoaded | NoOverlay

  /** One action of a run on the page, in the order performed. */
  datatype Action =
    | EnsureTab                              // the route guard runs
    | LoadMore                               // the list container is scrolled to its end
    | OpenEntry(index: nat)                  // list entry `index` is clicked
    | ClickDoc(trigger: nat, threw: bool)    // a document trigger is clicked; `threw` if the click raised
    | BackdropClick(backdrop: nat)           // a centre click on a backdrop
    | Skipped(index: nat, reason: SkipReason)
    | Finished(index: nat, documents: nat)

  /** The final status line of a run. */
  datatype Status = Ready | Searching | NoEntriesFound | BadRange(startIdx: nat, endIdx: nat) | Completed | Stopped

  /**
   * What one iteration observes: the list length at the top of the
   * iteration and after an extra load-more, the snapshots of the opening
   * poll, whether the found overlay is still visible afterwards, the
   * visibility of each document trigger, which trigger clicks raise, and
   * what the close handshake sees.
   */
  datatype Visit = Visit(
    listed: nat,
    listedAfterLoad: nat,
    openPolls: seq<seq<Candidate>>,
    stillVisible: bool,
    triggers: seq<bool>,
    clickThrows: nat -> bool,
    close: CloseScene)

  /**
   * The host page over one run: the list length before the loop, what the
   * iteration for each index observes, and whether Stop is pressed while the
   * run waits before the loop (`stopDuring(0)`) or during the k-th
   * iteration (`stopDuring(k + 1)`).
   */
  datatype Host = Host(listedAtStart: nat, visit: nat -> Visit, stopDuring: nat -> bool)

  /** One click per listed trigger, in list order. */
  function ClicksOn(docs: seq<nat>, throws: nat -> bool): seq<Action>
    decreases |docs|
  {
    if |docs| == 0 then []
    else
      var last := docs[|docs| - 1];
      ClicksOn(docs[..|docs| - 1], throws) + [ClickDoc(last, throws(last))]
  }

  /** The clicks of the document activator: every visible trigger once, in document order. */
  function DocClicks(triggers: seq<bool>, throws: nat -> bool): seq<Action>
  {
    ClicksOn(VisibleIndices(triggers), throws)
  }

  /** The backdrop clicks of the close handshake: none, one, or two on the first visible backdrop. */
  function CloseClicks(c: CloseScene): seq<Action>
  {
    if !SomethingOpen(c) then []
    else
      var b := FirstVisible(c.backdrops).value;
      if true in c.firstWindow then [BackdropClick(b)] else [BackdropClick(b), BackdropClick(b)]
  }

  predicate NeedsLoadMore(v: Visit, i: nat, autoLoad: bool)
  {
    autoLoad && i >= v.listed
  }

  predicate EntryLoaded(v: Visit, i: nat, autoLoad: bool)
  {
    i < if NeedsLoadMore(v, i, autoLoad) then v.listedAfterLoad else v.listed
  }

  predicate OverlayShown(v: Visit)
  {
    OverlayAppears(v.openPolls) && v.stillVisible
  }

  /** The actions of the iteration for index `i`. */
  function IterationTrace(v: Visit, i: nat, autoLoad: bool): seq<Action>
  {
    [EnsureTab] + (if NeedsLoadMore(v, i, autoLoad) then [LoadMore] else []) +
    (if !EntryLoaded(v, i, autoLoad) then [Skipped(i, NotLoaded)]
     else [OpenEntry(i)] + OpenedEntryTrace(v, i))
  }

  /** The actions after entry `i` was clicked. */
  function OpenedEntryTrace(v: Visit, i: nat): seq<Action>
  {
    if !OverlayShown(v) then [Skipped(i, NoOverlay)]
    else DocClicks(v.triggers, v.clickThrows) + CloseClicks(v.close) + [EnsureTab, Finished(i, |VisibleIndices(v.triggers)|)]
  }

  /** The actions of `n` iterations starting at index `i`. */
  function LoopTrace(host: Host, i: nat, n: nat, autoLoad: bool): seq<Action>
    decreases n
  {
    if n == 0 then [] else LoopTrace(host, i, n - 1, autoLoad) + IterationTrace(host.visit(i + n - 1), i + n - 1, autoLoad)
  }

  /** The route guard and the optional load-more before the list is first read. */
  function Prologue(autoLoad: bool): seq<Action>
  {
    [EnsureTab] + if autoLoad then [LoadMore] else []
  }

  /** lo, lo + 1, ..., hi - 1. */
  function Interval(lo: nat, hi: nat): seq<nat>
    decreases hi - lo
  {
    if lo >= hi then [] else [lo] + Interval(lo + 1, hi)
  }

  /** The first round in [from, m) in which Stop is pressed, or m. */
  function FirstStopFrom(stop: nat -> bool, from: nat, m: nat): (n: nat)
    requires from <= m
    ensures from <= n <= m
    ensures forall j :: from <= j < n ==> !stop(j)
    ensures n < m ==> stop(n)
    decreases m - from
  {
    if from == m then m else if stop(from) then from else FirstStopFrom(stop, from + 1, m)
  }

  /** The number of iterations a range of `m` indices runs before a Stop press ends it. */
  function FirstStop(stop: nat -> bool, m: nat): (n: nat)
    ensures n <= m
    ensures forall j :: 0 <= j < n ==> !stop(j)
    ensures n < m ==> stop(n)
  {
    FirstStopFrom(stop, 0, m)
  }

  lemma {:induction false} IntervalSnoc(lo: nat, hi: nat)
    requires lo <= hi
    ensures Interval(lo, hi + 1) == Interval(lo, hi) + [hi]
    decreases hi - lo
  {
    if lo < hi {
      IntervalSnoc(lo + 1, hi);
    }
  }

  /** The visited indices of a run: `hi - lo` consecutive indices from `lo`, so ascending and without repeats. */
  lemma {:induction false} IntervalSpec(lo: nat, hi: nat)
    requires lo <= hi
    ensures |Interval(lo, hi)| == hi - lo
    ensures forall k :: 0 <= k < hi - lo ==> Interval(lo, hi)[k] == lo + k
    decreases hi - lo
  {
    if lo < hi {
      IntervalSpec(lo + 1, hi);
    }
  }

  /** A Stop press in round `k` lets at most `k` iterations start. */
  lemma StopPressEndsRun(stop: nat -> bool, m: nat, k: nat)
    requires k < m && stop(k)
    ensures FirstStop(stop, m) <= k
  {
  }

  /** Without a Stop press the whole range runs. */
  lemma NoStopRunsAll(stop: nat -> bool, m: nat)
    requires forall j :: 0 <= j < m ==> !stop(j)
    ensures FirstStop(stop, m) == m
  {
  }

  class BatchRunner {
    var running: bool
    var stopFlag: bool
    var openHook: OpenFn
    var status: Status
    var trace: seq<Action>
    ghost var visited: seq<nat>   // the indices whose iteration started, in order

    constructor (windowOpen: OpenFn)
      ensures !running && !stopFlag && openHook == windowOpen
      ensures status == Ready && trace == [] && visited == []
    {
      running, stopFlag, openHook := false, false, windowOpen;
      status, trace, visited := Ready, [], [];
    }

    /** The Stop button: the run sees it at the top of its next iteration. */
    method RequestStop()
      modifies this`stopFlag
      ensures stopFlag
    {
      stopFlag := true;
    }

    /**
     * Wraps `window.open` so that tabs also open in the background; does
     * nothing when the slot is empty or already holds the marked wrapper.
     */
    method HookWindowOpen() returns (u: Unhook)
      modifies this`openHook
      ensures old(openHook).NoOpen? || old(openHook).HookedOpen? ==> u == NoOpUnhook && openHook == old(openHook)
      ensures old(openHook).PageOpen? ==> u == Restore(old(openHook)) && openHook == HookedOpen(old(openHook))
    {
      var prev := openHook;
      if prev.NoOpen? || prev.HookedOpen? {
        return NoOpUnhook;
      }
      openHook := HookedOpen(prev);
      u := Restore(prev);
    }

    /** Puts back exactly the function the hook replaced. */
    method Unhook(u: Unhook)
      modifies this`openHook
      ensures openHook == if u.Restore? then u.prev else old(openHook)
    {
      if u.Restore? {
        openHook := u.prev;
      }
    }

    /** Clicks every visible document trigger once, in order; a click that raises does not stop the rest. */
    method ClickAllDocs(triggers: seq<bool>, throws: nat -> bool) returns (clicked: nat)
      modifies this`trace
      ensures clicked == |VisibleIndices(triggers)|
      ensures trace == old(trace) + DocClicks(triggers, throws)
    {
      var docs := VisibleIndices(triggers);
      clicked := 0;
      for k := 0 to |docs|
        invariant clicked == k
        invariant trace == old(trace) + ClicksOn(docs[..k], throws)
      {
        trace := trace + [ClickDoc(docs[k], throws(docs[k]))];
        clicked := clicked + 1;
        assert docs[..k + 1][..k] == docs[..k];
      }
      assert docs[..|docs|] == docs;
    }

    /**
     * The close handshake: succeed without clicking when no overlay or no
     * backdrop is visible; otherwise click the backdrop, wait one window,
     * and click and wait once more if the overlay is still there.
     */
    method CloseOverlay(c: CloseScene) returns (closed: bool)
      modifies this`trace
      ensures closed == CloseSucceeds(c)
      ensures trace == old(trace) + CloseClicks(c)
    {
      var overlay := FindActiveOverlay(c.overlays);
      var backdrop := FirstVisible(c.backdrops);
      if overlay.None? || backdrop.None? {
        return true;
      }
      trace := trace + [BackdropClick(backdrop.value)];
      var gone := WaitOverlayGone(c.firstWindow);
      if gone {
        return true;
      }
      trace := trace + [BackdropClick(backdrop.value)];
      gone := WaitOverlayGone(c.secondWindow);
      return gone;
    }

    /** One iteration of the loop body, for index `i`. */
    method Step(v: Visit, i: nat, autoLoad: bool)
      modifies this`trace
      ensures trace == old(trace) + IterationTrace(v, i, autoLoad)
    {
      ghost var pre := [EnsureTab] + if NeedsLoadMore(v, i, autoLoad) then [LoadMore] else [];
      trace := trace + [EnsureTab];
      var listed := v.listed;
      if i >= listed && autoLoad {
        trace := trace + [LoadMore];
        listed := v.listedAfterLoad;
      }
      assert trace == old(trace) + pre;
      assert EntryLoaded(v, i, autoLoad) <==> i < listed;
      if i >= listed {
        trace := trace + [Skipped(i, NotLoaded)];
        return;
      }
      trace := trace + [OpenEntry(i)];
      HandleEntry(v, i);
    }

    /** After entry `i` was clicked: wait for its overlay, open its documents, close it. */
    method HandleEntry(v: Visit, i: nat)
      modifies this`trace
      ensures trace == old(trace) + OpenedEntryTrace(v, i)
    {
      var overlay, _ := PollForOverlay(v.openPolls);
      assert OverlayShown(v) <==> overlay.Some? && v.stillVisible;
      if overlay.None? || !v.stillVisible {
        trace := trace + [Skipped(i, NoOverlay)];
        return;
      }
      var count := ClickAllDocs(v.triggers, v.clickThrows);
      ghost var afterDocs := trace;
      var _ := CloseOverlay(v.close);
      assert trace == afterDocs + CloseClicks(v.close);
      trace := trace + [EnsureTab, Finished(i, count)];
    }

    /**
     * A run: hook `window.open`, read the list, resolve the range, then visit
     * the indices in order until the end or a Stop press, and unhook on
     * each of the three exits.
     */
    method Run(host: Host, rawStart: Option<int>, rawEnd: Option<int>, autoLoad: bool)
      modifies this
      ensures !running && openHook == old(openHook)
      ensures match ResolveRange(host.listedAtStart, rawStart, rawEnd)
              case NoEntries =>
                && status == NoEntriesFound && visited == [] && stopFlag == host.stopDuring(0)
                && trace == old(trace) + Prologue(autoLoad)
              case InvalidRange(s, e) =>
                && status == BadRange(s, e) && visited == [] && stopFlag == host.stopDuring(0)
                && trace == old(trace) + Prologue(autoLoad)
              case Range(s, e) =>
                var n := FirstStop(host.stopDuring, e - s + 1);
                && visited == Interval(s, s + n)
                && stopFlag == host.stopDuring(n)
                && status == (if stopFlag then Stopped else Completed)
                && trace == old(trace) + Prologue(autoLoad) + LoopTrace(host, s, n, autoLoad)
    {
      var unhook := Begin(host, autoLoad);
      match ResolveRange(host.listedAtStart, rawStart, rawEnd)
      case NoEntries =>
        status := NoEntriesFound;
        running := false;
        Unhook(unhook);
      case InvalidRange(s, e) =>
        status := BadRange(s, e);
        running := false;
        Unhook(unhook);
      case Range(s, e) =>
        RunLoop(host, s, e, autoLoad);
        status := if stopFlag then Stopped else Completed;
        running := false;
        Unhook(unhook);
    }

    /** The start of a run: hook `window.open`, mark the run active, guard the route, load more, read the list. */
    method Begin(host: Host, autoLoad: bool) returns (unhook: Unhook)
      modifies this
      ensures running && status == Searching && visited == []
      ensures stopFlag == host.stopDuring(0)
      ensures trace == old(trace) + Prologue(autoLoad)
      ensures openHook == (if old(openHook).PageOpen? then HookedOpen(old(openHook)) else old(openHook))
      ensures unhook == (if old(openHook).PageOpen? then Restore(old(openHook)) else NoOpUnhook)
    {
      unhook := HookWindowOpen();
      stopFlag := false;
      running := true;
      status := Searching;
      visited := [];
      trace := trace + [EnsureTab];
      if autoLoad {
        trace := trace + [LoadMore];
      }
      if host.stopDuring(0) {
        RequestStop();
      }
    }

    /** The loop body for index `i`, with the Stop presses that arrive while it waits. */
    method VisitIndex(host: Host, s: nat, i: nat, autoLoad: bool, ghost before: seq<Action>)
      requires s <= i && trace == before + LoopTrace(host, s, i - s, autoLoad)
      modifies this`trace, this`visited, this`stopFlag
      ensures visited == old(visited) + [i]
      ensures trace == before + LoopTrace(host, s, i - s + 1, autoLoad)
      ensures stopFlag == (old(stopFlag) || host.stopDuring(i - s + 1))
    {
      ghost var done := LoopTrace(host, s, i - s, autoLoad);
      ghost var step := IterationTrace(host.visit(i), i, autoLoad);
      assert LoopTrace(host, s, i - s + 1, autoLoad) == done + step;
      visited := visited + [i];
      Step(host.visit(i), i, autoLoad);
      assert trace == (before + done) + step;
      assert (before + done) + step == before + (done + step);
      if host.stopDuring(i - s + 1) {
        RequestStop();
      }
    }

    /**
     * The loop over indices s..e: the stop flag is read at the top of each
     * iteration only, so a started iteration always finishes.
     */
    method RunLoop(host: Host, s: nat, e: nat, autoLoad: bool)
      requires s <= e && stopFlag == host.stopDuring(0) && visited == []
      modifies this`trace, this`visited, this`stopFlag
      ensures var n := FirstStop(host.stopDuring, e - s + 1);
              && visited == Interval(s, s + n)
              && stopFlag == host.stopDuring(n)
              && trace == old(trace) + LoopTrace(host, s, n, autoLoad)
    {
      var i := s;
      while i <= e
        invariant s <= i <= e + 1
        invariant stopFlag == host.stopDuring(i - s)
        invariant forall j :: 0 <= j < i - s ==> !host.stopDuring(j)
        invariant visited == Interval(s, i)
        invariant trace == old(trace) + LoopTrace(host, s, i - s, autoLoad)
      {
        if stopFlag {
          break;
        }
        IntervalSnoc(s, i);
        VisitIndex(host, s, i, autoLoad, old(trace));
        i := i + 1;
      }
      ghost var n := FirstStop(host.stopDuring, e - s + 1);
      assert i - s == n;
    }
  }
}
