/**
 * Resolution of the run range: the panel's "from" and "to" fields, as parsed
 * numbers, against the length of the list snapshot taken before the loop.
 * A parsed field is `None` when the field read as NaN.
 */
module RunRange {
  import opened Wrappers

  /** How a run is decided before its loop starts. */
  datatype Resolution =
    | NoEntries                               // the list snapshot was empty
    | InvalidRange(startIdx: nat, endIdx: nat) // start lies past the resolved end
    | Range(startIdx: nat, endIdx: nat)        // indices startIdx..endIdx, inclusive

  /** `Math.max(0, +start || 0)`: NaN and negatives become 0. */
  function ResolveStart(rawStart: Option<int>): (s: nat)
    ensures rawStart.Some? && rawStart.value >= 0 ==> s == rawStart.value
    ensures rawStart.None? || rawStart.value <= 0 ==> s == 0
  {
    match rawStart
    case None => 0
    case Some(v) => if v > 0 then v else 0
  }

  /** A NaN or negative end means the last index; any other end is capped at the last index. */
  function ResolveEnd(len: nat, rawEnd: Option<int>): (e: nat)
    requires len > 0
    ensures e < len
    ensures e == len - 1 || rawEnd == Some(e)
    ensures rawEnd.Some? && 0 <= rawEnd.value < len ==> e == rawEnd.value
  {
    match rawEnd
    case None => len - 1
    case Some(v) => if v < 0 then len - 1 else if v < len - 1 then v else len - 1
  }

  /** The empty-list check comes first, then the start/end comparison. */
  function ResolveRange(len: nat, rawStart: Option<int>, rawEnd: Option<int>): (r: Resolution)
    ensures r.NoEntries? <==> len == 0
    ensures r.Range? ==> r.startIdx <= r.endIdx < len
    ensures r.InvalidRange? ==> r.startIdx > r.endIdx && r.endIdx < len
    ensures !r.NoEntries? ==> r.startIdx == ResolveStart(rawStart) && r.endIdx == ResolveEnd(len, rawEnd)
  {
    if len == 0 then NoEntries
    else
      var s := ResolveStart(rawStart);
      var e := ResolveEnd(len, rawEnd);
      if s > e then InvalidRange(s, e) else Range(s, e)
  }

  /**
   * Independent reading of the panel: an index is requested when it exists in
   * the list, is not below a given start, and is not above a given
   * non-negative end.
   */
  predicate Requested(len: nat, rawStart: Option<int>, rawEnd: Option<int>, i: int)
  {
    && 0 <= i < len
    && (rawStart.None? || rawStart.value <= i)
    && (rawEnd.None? || rawEnd.value < 0 || i <= rawEnd.value)
  }

  /** The indices a run visits are exactly the requested ones; an invalid range requests none. */
  lemma ResolvedRangeIsRequested(len: nat, rawStart: Option<int>, rawEnd: Option<int>, i: int)
    ensures match ResolveRange(len, rawStart, rawEnd)
            case Range(s, e) => (s <= i <= e <==> Requested(len, rawStart, rawEnd, i))
            case _ => !Requested(len, rawStart, rawEnd, i)
  {
  }

  /** Five entries with the panel defaults (from 0, to -1) resolve to 0..4. */
  lemma DefaultsCoverWholeList()
    ensures ResolveRange(5, Some(0), Some(-1)) == Range(0, 4)
  {
  }

  /** From 3 to 1 is rejected before the loop. */
  lemma ReversedBoundsRejected()
    ensures ResolveRange(5, Some(3), Some(1)) == InvalidRange(3, 1)
  {
  }
}
