/**
 * The expandable list of past sessions (Sessions.jsx). One nullable index,
 * `expandedSession`, says which entry shows its details; a click on an entry
 * header toggles it (line 18), and an entry shows its details panel and the
 * up chevron exactly when it is that index (lines 24 and 27).
 */
module Sessions {
  import opened Basics

  /** Entry `k` is open: its details panel and up chevron are on screen (lines 24, 27). */
  predicate IsExpanded(expanded: Option<nat>, k: nat)
    ensures expanded == None ==> !IsExpanded(expanded, k)
    ensures IsExpanded(expanded, k) <==> expanded.Some? && expanded.value == k
  {
    expanded == Some(k)
  }

  /** The expanded index after a click on entry `i`: collapse it if it is open, else open it (line 18). */
  function Toggled(expanded: Option<nat>, i: nat): (next: Option<nat>)
    ensures IsExpanded(expanded, i) ==> next == None
    ensures !IsExpanded(expanded, i) ==> next == Some(i)
  {
    if expanded == Some(i) then None else Some(i)
  }

  /** At most one entry is ever open. */
  lemma AtMostOneExpanded(expanded: Option<nat>, j: nat, k: nat)
    requires IsExpanded(expanded, j) && IsExpanded(expanded, k)
    ensures j == k
  {
  }

  /** After a click on `i`, entry `k` is open exactly when `k` is `i` and `i` was closed. */
  lemma ClickOpensOnlyClicked(expanded: Option<nat>, i: nat, k: nat)
    ensures IsExpanded(Toggled(expanded, i), k) <==> k == i && !IsExpanded(expanded, i)
  {
  }

  /** Two clicks on the same entry undo each other. */
  lemma ClickTwiceRestores(expanded: Option<nat>, i: nat)
    requires expanded == None || expanded == Some(i)
    ensures Toggled(Toggled(expanded, i), i) == expanded
  {
  }

  /** Two clicks on an entry that was not open leave it, and every other entry, closed. */
  lemma ClickTwiceCollapses(expanded: Option<nat>, i: nat)
    requires !IsExpanded(expanded, i)
    ensures Toggled(Toggled(expanded, i), i) == None
  {
  }

  /** The expanded index after clicks on the entries `clicks`, in order. */
  function Clicks(expanded: Option<nat>, clicks: seq<nat>): Option<nat>
    decreases |clicks|
  {
    if clicks == [] then expanded else Clicks(Toggled(expanded, clicks[0]), clicks[1..])
  }

  /** After any clicks, either nothing is open or the entry clicked last is. */
  lemma {:induction false} ClicksLeaveLastOrNone(expanded: Option<nat>, clicks: seq<nat>)
    requires clicks != []
    ensures Clicks(expanded, clicks) == None || Clicks(expanded, clicks) == Some(clicks[|clicks| - 1])
    decreases |clicks|
  {
    if |clicks| > 1 {
      ClicksLeaveLastOrNone(Toggled(expanded, clicks[0]), clicks[1..]);
    }
  }

  /** Clicking one entry `n` times from collapsed (or from it open) flips it `n` times. */
  lemma {:induction false} RepeatedClicks(expanded: Option<nat>, i: nat, n: nat)
    requires expanded == None || expanded == Some(i)
    ensures Clicks(expanded, Repeat(i, n)) == if n % 2 == 0 then expanded else Toggled(expanded, i)
    decreases n
  {
    if n > 0 {
      var clicks := Repeat(i, n);
      assert clicks[0] == i && clicks[1..] == Repeat(i, n - 1);
      RepeatedClicks(Toggled(expanded, i), i, n - 1);
    }
  }

  /** The list's one piece of state. */
  class SessionList {
    var expandedSession: Option<nat>

    /** Nothing is expanded at first (line 5). */
    constructor ()
      ensures expandedSession == None
      ensures forall k: nat :: !IsExpanded(expandedSession, k)
    {
      expandedSession := None;
    }

    /** Whether entry `k` shows its details panel and up chevron (lines 24, 27). */
    predicate ShowsDetails(k: nat)
      reads this
      ensures ShowsDetails(k) <==> expandedSession == Some(k)
      ensures ShowsDetails(k) ==> forall j: nat :: IsExpanded(expandedSession, j) ==> j == k
    {
      IsExpanded(expandedSession, k)
    }

    /** A click on the header of entry `index` (line 18). */
    method Click(index: nat)
      modifies this
      ensures expandedSession == Toggled(old(expandedSession), index)
      ensures old(expandedSession) == Some(index) ==> expandedSession == None
      ensures old(expandedSession) != Some(index) ==> expandedSession == Some(index)
      ensures forall k: nat :: ShowsDetails(k) <==> k == index && old(expandedSession) != Some(index)
    {
      expandedSession := if expandedSession == Some(index) then None else Some(index);
    }
  }
}
