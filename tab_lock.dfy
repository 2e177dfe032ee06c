/**
 * The tab lock: which of the two profile tabs a run is pinned to, the label
 * of that tab, which paths show the panel at all, and the decision logic of
 * the route guard with the host's navigation replaced by observed paths.
 */
module TabLock {

  /** `s.endsWith(t)`. */
  predicate EndsWith(s: string, t: string)
  {
    |t| <= |s| && s[|s| - |t|..] == t
  }

  predicate IsPrefix(t: string, s: string)
  {
    |t| <= |s| && s[..|t|] == t
  }

  /** `t` occurs in `s` starting at offset `k`. */
  predicate OccursAt(s: string, t: string, k: int)
  {
    0 <= k && k + |t| <= |s| && s[k..k + |t|] == t
  }

  /** `s.includes(t)`, scanning from the left. */
  function Contains(s: string, t: string): (r: bool)
    ensures r <==> exists k :: OccursAt(s, t, k)
    decreases |s|
  {
    if IsPrefix(t, s) then
      assert OccursAt(s, t, 0) by { assert s[0..|t|] == s[..|t|]; }
      true
    else if |s| < |t| then
      false
    else
      var r := Contains(s[1..], t);
      assert !OccursAt(s, t, 0) by { assert s[0..|t|] == s[..|t|]; }
      assert r ==> exists k :: OccursAt(s, t, k) by {
        if r {
          var k :| OccursAt(s[1..], t, k);
          assert s[1..][k..k + |t|] == s[k + 1..k + 1 + |t|];
          assert OccursAt(s, t, k + 1);
        }
      }
      assert (exists k :: OccursAt(s, t, k)) ==> r by {
        if k :| OccursAt(s, t, k) {
          assert s[1..][k - 1..k - 1 + |t|] == s[k..k + |t|];
          assert OccursAt(s[1..], t, k - 1);
        }
      }
      r
  }

  const Activities := "/profile/activities"
  const Transactions := "/profile/transactions"

  /**
   * The tab a run is pinned to: any path mentioning "/activities" pins the
   * activities tab. The pinned path is one the panel is shown on, and it ends
   * in "/activities" exactly when the current path mentions it.
   */
  function DesiredPath(pathname: string): (r: string)
    ensures PathEligible(r)
    ensures EndsWith(r, "/activities") <==> Contains(pathname, "/activities")
  {
    TransactionsFacts();
    ActivitiesFacts();
    if Contains(pathname, "/activities") then Activities else Transactions
  }

  /** The visible label that identifies the tab control for a path: each tab path gets its own tab's label. */
  function TabLabel(path: string): (name: string)
    ensures EndsWith(path, Activities) ==> name == "Aktivität"
    ensures EndsWith(path, Transactions) ==> name == "Transaktionen"
  {
    TabSuffixes(path);
    if EndsWith(path, "/activities") then "Aktivität" else "Transaktionen"
  }

  /** The panel is shown only on paths ending in one of the two profile tabs; such a path names exactly one of them. */
  function PathEligible(pathname: string): (r: bool)
    ensures r ==> EndsWith(pathname, Transactions) != EndsWith(pathname, Activities)
  {
    TabSuffixes(pathname);
    EndsWith(pathname, Transactions) || EndsWith(pathname, Activities)
  }

  /** A path ending in the activities tab ends in "/activities"; one ending in the transactions tab does not. */
  lemma TabSuffixes(path: string)
    ensures EndsWith(path, Activities) ==> EndsWith(path, "/activities")
    ensures EndsWith(path, Transactions) ==> !EndsWith(path, "/activities")
  {
    if EndsWith(path, Activities) {
      assert path[|path| - 11..] == path[|path| - |Activities|..][8..];
    }
    if EndsWith(path, Transactions) {
      assert path[|path| - 11..] == path[|path| - |Transactions|..][10..];
      assert path[|path| - 11..][0] == 'r';
    }
  }

  lemma NoActivitiesAt(k: int)
    ensures !OccursAt(Transactions, "/activities", k)
  {
    if 0 <= k && k + 11 <= |Transactions| {
      assert k == 0 || k == 1 || k == 2 || k == 3 || k == 4 || k == 5 || k == 6 || k == 7 || k == 8 || k == 9 || k == 10;
      assert Transactions[k..k + 11][0] == Transactions[k];
      assert Transactions[k..k + 11][1] == Transactions[k + 1];
    }
  }

  /** The transactions tab neither mentions nor ends with "/activities". */
  lemma TransactionsFacts()
    ensures !Contains(Transactions, "/activities")
    ensures !EndsWith(Transactions, "/activities")
    ensures EndsWith(Transactions, Transactions)
  {
    forall k ensures !OccursAt(Transactions, "/activities", k) {
      NoActivitiesAt(k);
    }
    assert Transactions[|Transactions| - 11..][0] == 'r';
  }

  /** The activities tab mentions and ends with "/activities". */
  lemma ActivitiesFacts()
    ensures Contains(Activities, "/activities")
    ensures EndsWith(Activities, "/activities")
    ensures EndsWith(Activities, Activities)
  {
    assert OccursAt(Activities, "/activities", 8);
  }

  /**
   * The pinned tab is always one the panel is shown on, pinning is
   * idempotent, and the label looked for is that of the activities tab
   * exactly when the path mentions "/activities".
   */
  lemma DesiredPathProperties(pathname: string)
    ensures PathEligible(DesiredPath(pathname))
    ensures DesiredPath(DesiredPath(pathname)) == DesiredPath(pathname)
    ensures TabLabel(DesiredPath(pathname)) == if Contains(pathname, "/activities") then "Aktivität" else "Transaktionen"
  {
    TransactionsFacts();
    ActivitiesFacts();
  }

  /** On an eligible activities path, the run stays on the activities tab. */
  lemma ActivitiesPathPinsActivities(pathname: string)
    requires EndsWith(pathname, Activities)
    ensures DesiredPath(pathname) == Activities
  {
    var k := |pathname| - 11;
    assert pathname[k..k + 11] == pathname[|pathname| - |Activities|..][8..];
    assert OccursAt(pathname, "/activities", k);
  }

  /** A navigation step the route guard takes. */
  datatype NavStep = ClickTab | ProgrammaticNav

  datatype TabFix = TabFix(onTab: bool, steps: seq<NavStep>)

  /**
   * The route guard with the host's navigation observed, not performed:
   * `tabFound` says whether a visible tab control for `desired` exists,
   * `pathAfterClick` and `pathAfterNav` are the paths read after clicking it
   * and after the programmatic navigation (history push, or a full load when
   * that throws) with their settle waits.
   */
  function EnsureActiveTab(lockTab: bool, pathname: string, desired: string,
                           tabFound: bool, pathAfterClick: string, pathAfterNav: string): (r: TabFix)
    ensures !lockTab || pathname == desired ==> r == TabFix(true, [])
    ensures r.onTab <==> !lockTab || pathname == desired || (tabFound && pathAfterClick == desired) || pathAfterNav == desired
    ensures ClickTab in r.steps <==> lockTab && pathname != desired && tabFound
    ensures ProgrammaticNav in r.steps <==> lockTab && pathname != desired && !(tabFound && pathAfterClick == desired)
    ensures |r.steps| <= 2 && (|r.steps| == 2 ==> r.steps == [ClickTab, ProgrammaticNav])
  {
    if !lockTab || pathname == desired then TabFix(true, [])
    else if tabFound && pathAfterClick == desired then TabFix(true, [ClickTab])
    else TabFix(pathAfterNav == desired, (if tabFound then [ClickTab] else []) + [ProgrammaticNav])
  }
}
