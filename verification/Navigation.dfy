/** Routes and the bounded browser-style history behind back and forward, as values. */
module Navigation {
  import opened Basics

  datatype Route = Home | Session(id: string) | NoSession

  const CAPACITY := 50

  // ----- RouteHistory

  datatype History = History(entries: seq<Route>, index: nat) {
    ghost predicate Valid() { index < |entries| <= CAPACITY }

    function Current(): Route
      requires index < |entries|
    {
      entries[index]
    }
  }

  /** The last `n` elements, or all of them. */
  function Newest<T>(s: seq<T>, n: nat): seq<T> {
    if |s| <= n then s else s[|s| - n..]
  }

  function Pushed(h: History, r: Route): (h': History)
    requires h.Valid()
    ensures h'.Valid() && h'.Current() == r
  {
    if r == h.Current() then h
    else
      var entries := Newest(h.entries[..h.index + 1] + [r], CAPACITY);
      History(entries, |entries| - 1)
  }

  function Replaced(h: History, r: Route): History
    requires h.Valid()
  {
    h.(entries := h.entries[h.index := r])
  }

  function Backed(h: History): History {
    if h.index > 0 then h.(index := h.index - 1) else h
  }

  function Forwarded(h: History): History {
    if h.index + 1 < |h.entries| then h.(index := h.index + 1) else h
  }

  /** What `remove` has kept after the first `n` entries: no occurrence of `r`, and no repetition in a row. */
  function Kept(entries: seq<Route>, r: Route, n: nat): (k: seq<Route>)
    requires n <= |entries|
    ensures r !in k && |k| <= n
    ensures forall i :: 0 < i < |k| ==> k[i - 1] != k[i]
    ensures forall i :: 0 <= i < |k| ==> k[i] in entries[..n]
  {
    if n == 0 then []
    else
      var k, e := Kept(entries, r, n - 1), entries[n - 1];
      assert entries[..n] == entries[..n - 1] + [e];
      if e == r || (k != [] && k[|k| - 1] == e) then k else k + [e]
  }

  /** The index `remove` has settled on after the first `n` entries. */
  function KeptIndex(h: History, r: Route, n: nat): int
    requires n <= |h.entries|
  {
    if n == 0 then 0
    else if n - 1 > h.index then KeptIndex(h, r, n - 1)
    else if h.entries[n - 1] == r then Max(0, |Kept(h.entries, r, n - 1)| - 1)
    else |Kept(h.entries, r, n)| - 1
  }

  function Removed(h: History, r: Route): (h': History)
    requires h.Valid()
    ensures h'.Valid()
  {
    if r !in h.entries then h
    else
      var kept := Kept(h.entries, r, |h.entries|);
      var entries := if kept == [] then [Home] else kept;
      History(entries, Min(Max(0, KeptIndex(h, r, |h.entries|)), |entries| - 1))
  }

  // ----- AppState

  datatype Nav = Nav(route: Route, lastSessionId: Option<string>, history: History)

  function Start(route: Route): Nav {
    Nav(route, if route.Session? then Some(route.id) else None, History([route], 0))
  }

  function Adopt(n: Nav, h: History, r: Route): Nav {
    Nav(r, if r.Session? then Some(r.id) else n.lastSessionId, h)
  }

  function Navigated(n: Nav, r: Route): Nav
    requires n.history.Valid()
  {
    if r == n.route then n else Adopt(n, Pushed(n.history, r), r)
  }

  function Forgotten(n: Nav, id: string): Nav
    requires n.history.Valid()
  {
    var h := Removed(n.history, Session(id));
    Nav(if n.route == Session(id) then h.Current() else n.route,
        if n.lastSessionId == Some(id) then None else n.lastSessionId, h)
  }

  datatype Action = Navigate(route: Route) | Replace(route: Route) | Back | Forward | Forget(id: string)
                  | SelectHome | SelectCode

  function Step(n: Nav, a: Action): Nav
    requires n.history.Valid()
  {
    match a
    case Navigate(r) => Navigated(n, r)
    case Replace(r) => if r == n.route then n else Adopt(n, Replaced(n.history, r), r)
    case Back => if n.history.index > 0 then Adopt(n, Backed(n.history), Backed(n.history).Current()) else n
    case Forward =>
      if n.history.index + 1 < |n.history.entries| then
        Adopt(n, Forwarded(n.history), Forwarded(n.history).Current())
      else n
    case Forget(id) => Forgotten(n, id)
    case SelectHome => Navigated(n, Home)
    case SelectCode => Navigated(n, if n.lastSessionId.Some? then Session(n.lastSessionId.value) else NoSession)
  }

  // ----- removal keeps the user's place

  lemma {:induction false} KeptHasCurrent(h: History, r: Route, n: nat)
    requires h.index < n <= |h.entries| && h.entries[h.index] != r
    ensures var k, i := Kept(h.entries, r, n), KeptIndex(h, r, n);
            0 <= i < |k| && k[i] == h.entries[h.index]
  {
    if n - 1 > h.index {
      KeptHasCurrent(h, r, n - 1);
    }
  }

  lemma {:induction false} KeptIndexBounded(h: History, r: Route, n: nat)
    requires n <= |h.entries|
    ensures 0 <= KeptIndex(h, r, n) <= Max(0, |Kept(h.entries, r, n)| - 1)
  {
    if n > 0 { KeptIndexBounded(h, r, n - 1); }
  }

  lemma {:induction false} KeptMembers(entries: seq<Route>, r: Route, n: nat, e: Route)
    requires n <= |entries| && e in entries[..n] && e != r
    ensures e in Kept(entries, r, n)
  {
    assert entries[..n] == entries[..n - 1] + [entries[n - 1]];
    if e in entries[..n - 1] { KeptMembers(entries, r, n - 1, e); }
  }

  /** Removing a route: it is gone, every other route stays, neighbours differ, the index is valid, and
      a current route that was not removed is still the current one. */
  lemma RemovalIsSafe(h: History, r: Route)
    requires h.Valid()
    ensures var h' := Removed(h, r);
            && h'.Valid()
            && (r != Home ==> r !in h'.entries)
            && (forall e :: e in h.entries && e != r ==> e in h'.entries)
            && (r in h.entries ==> forall i :: 0 < i < |h'.entries| ==> h'.entries[i - 1] != h'.entries[i])
            && (h.Current() != r ==> h'.Current() == h.Current())
            && (r !in h.entries ==> h' == h)
  {
    if r in h.entries {
      var n := |h.entries|;
      assert h.entries[..n] == h.entries;
      KeptIndexBounded(h, r, n);
      forall e | e in h.entries && e != r ensures e in Kept(h.entries, r, n) { KeptMembers(h.entries, r, n, e); }
      if h.Current() != r { KeptHasCurrent(h, r, n); }
    }
  }

  /** `kept` are the entries at these positions, in order. */
  ghost predicate PicksInOrder(entries: seq<Route>, kept: seq<Route>, at: seq<nat>, n: nat) {
    && |at| == |kept| && (forall k :: 0 <= k < |at| ==> at[k] < n <= |entries| && kept[k] == entries[at[k]])
    && (forall i, j :: 0 <= i < j < |at| ==> at[i] < at[j])
  }

  lemma PickNext(entries: seq<Route>, kept: seq<Route>, at: seq<nat>, n: nat)
    requires n < |entries| && PicksInOrder(entries, kept, at, n)
    ensures PicksInOrder(entries, kept, at, n + 1) && PicksInOrder(entries, kept + [entries[n]], at + [n], n + 1)
  {
  }

  lemma KeptNext(entries: seq<Route>, r: Route, n: nat)
    requires n < |entries|
    ensures var k := Kept(entries, r, n); Kept(entries, r, n + 1) in [k, k + [entries[n]]]
  {
  }

  /** The places that stay keep their order. */
  lemma {:induction false} KeptInOrder(entries: seq<Route>, r: Route, n: nat)
    requires n <= |entries|
    ensures exists at :: PicksInOrder(entries, Kept(entries, r, n), at, n)
  {
    if n == 0 {
      assert PicksInOrder(entries, Kept(entries, r, n), [], n);
    } else {
      KeptInOrder(entries, r, n - 1);
      var kept := Kept(entries, r, n - 1);
      var at :| PicksInOrder(entries, kept, at, n - 1);
      KeptNext(entries, r, n - 1);
      PickNext(entries, kept, at, n - 1);
    }
  }

  lemma {:induction false} KeptGrows(entries: seq<Route>, r: Route, m: nat, n: nat)
    requires m <= n <= |entries|
    ensures Kept(entries, r, m) <= Kept(entries, r, n)
    ensures (forall i :: m <= i < n ==> entries[i] == r) ==> Kept(entries, r, m) == Kept(entries, r, n)
    decreases n - m
  {
    if m < n { KeptGrows(entries, r, m, n - 1); }
  }

  lemma {:induction false} KeptIndexSettles(h: History, r: Route, n: nat)
    requires h.index < n <= |h.entries|
    ensures KeptIndex(h, r, n) == KeptIndex(h, r, h.index + 1)
  {
    if n > h.index + 1 { KeptIndexSettles(h, r, n - 1); }
  }

  lemma LastKept(entries: seq<Route>, r: Route, n: nat)
    requires 0 < n <= |entries| && entries[n - 1] != r
    ensures var k := Kept(entries, r, n); k != [] && k[|k| - 1] == entries[n - 1]
  {
  }

  /** When the current route itself is removed, the nearest earlier survivor becomes current. */
  lemma RemovalFallsBack(h: History, r: Route, j: nat)
    requires h.Valid() && j < h.index && h.entries[j] != r
    requires forall i :: j < i <= h.index ==> h.entries[i] == r
    ensures Removed(h, r).Current() == h.entries[j]
  {
    assert h.entries[h.index] == r && h.entries[h.index] in h.entries;
    KeptIndexSettles(h, r, |h.entries|);
    KeptAtIndex(h, r, j);
  }

  /** With no earlier survivor, the first later one becomes current, and home when there is none at all. */
  lemma RemovalGoesOn(h: History, r: Route)
    requires h.Valid() && forall i :: 0 <= i <= h.index ==> h.entries[i] == r
    ensures (forall i :: 0 <= i < |h.entries| ==> h.entries[i] == r) ==> Removed(h, r).Current() == Home
    ensures forall j :: h.index < j < |h.entries| && h.entries[j] != r && (forall i :: 0 <= i < j ==> h.entries[i] == r)
              ==> Removed(h, r).Current() == h.entries[j]
  {
    var n := |h.entries|;
    assert h.entries[0] == r && h.entries[0] in h.entries;
    KeptGrows(h.entries, r, 0, h.index);
    KeptGrows(h.entries, r, 0, n);
    KeptIndexSettles(h, r, n);
    assert KeptIndex(h, r, n) == 0;
    forall j | h.index < j < n && h.entries[j] != r && (forall i :: 0 <= i < j ==> h.entries[i] == r)
      ensures Removed(h, r).Current() == h.entries[j]
    {
      FirstKept(h.entries, r, j);
    }
  }

  lemma FirstKept(entries: seq<Route>, r: Route, j: nat)
    requires j < |entries| && entries[j] != r && forall i :: 0 <= i < j ==> entries[i] == r
    ensures var k := Kept(entries, r, |entries|); k != [] && k[0] == entries[j]
  {
    KeptGrows(entries, r, 0, j);
    KeptGrows(entries, r, j + 1, |entries|);
    assert Kept(entries, r, j + 1) == [entries[j]];
  }

  lemma KeptAtIndex(h: History, r: Route, j: nat)
    requires h.Valid() && j < h.index && h.entries[j] != r
    requires forall i :: j < i <= h.index ==> h.entries[i] == r
    ensures var k, i := Kept(h.entries, r, |h.entries|), KeptIndex(h, r, h.index + 1);
            0 <= i < |k| && k[i] == h.entries[j]
  {
    var before := Kept(h.entries, r, h.index);
    KeptBefore(h.entries, r, j, h.index);
    KeptGrows(h.entries, r, h.index, |h.entries|);
    assert KeptIndex(h, r, h.index + 1) == |before| - 1;
  }

  lemma KeptBefore(entries: seq<Route>, r: Route, j: nat, n: nat)
    requires j < n <= |entries| && entries[j] != r && forall i :: j < i < n ==> entries[i] == r
    ensures var k := Kept(entries, r, n); k != [] && k[|k| - 1] == entries[j]
  {
    KeptGrows(entries, r, j + 1, n);
    LastKept(entries, r, j + 1);
  }

  // ----- navigation safety over every run

  ghost predicate Consistent(n: Nav) {
    n.history.Valid() && n.route == n.history.Current()
  }

  lemma StepKeepsConsistent(n: Nav, a: Action)
    requires Consistent(n)
    ensures Consistent(Step(n, a))
  {
    if a.Forget? { RemovalIsSafe(n.history, Session(a.id)); }
  }

  function Run(n: Nav, actions: seq<Action>): Nav
    requires n.history.Valid()
    decreases |actions|
  {
    if actions == [] then n else Run(Step(n, actions[0]), actions[1..])
  }

  /** In every reachable state the shown route is the history's current one, the index is valid and the
      history is within its capacity. */
  lemma {:induction false} RunKeepsConsistent(route: Route, actions: seq<Action>)
    ensures Consistent(Run(Start(route), actions))
  {
    RunFromConsistent(Start(route), actions);
  }

  lemma {:induction false} RunFromConsistent(n: Nav, actions: seq<Action>)
    requires Consistent(n)
    ensures Consistent(Run(n, actions))
    decreases |actions|
  {
    if actions != [] {
      StepKeepsConsistent(n, actions[0]);
      RunFromConsistent(Step(n, actions[0]), actions[1..]);
    }
  }

  /** The session is in no place navigation can return to. */
  ghost predicate Unreachable(n: Nav, id: string) {
    n.route != Session(id) && n.lastSessionId != Some(id) && Session(id) !in n.history.entries
  }

  predicate GoesTo(a: Action, id: string) {
    (a.Navigate? || a.Replace?) && a.route == Session(id)
  }

  lemma ForgetMakesUnreachable(n: Nav, id: string)
    requires Consistent(n)
    ensures Unreachable(Step(n, Forget(id)), id)
  {
    RemovalIsSafe(n.history, Session(id));
  }

  lemma StepKeepsUnreachable(n: Nav, a: Action, id: string)
    requires Consistent(n) && Unreachable(n, id) && !GoesTo(a, id)
    ensures Unreachable(Step(n, a), id)
  {
    if a.Forget? { RemovalOnlyRemoves(n.history, Session(a.id), Session(id)); RemovalIsSafe(n.history, Session(a.id)); }
  }

  lemma RemovalOnlyRemoves(h: History, r: Route, e: Route)
    requires h.Valid() && e !in h.entries && e != Home
    ensures e !in Removed(h, r).entries
  {
    assert h.entries[..|h.entries|] == h.entries;
  }

  /** Forgetting is final: whatever happens afterwards, the session is reached again only if something
      navigates or replaces to it. */
  lemma {:induction false} ForgottenStaysUnreachable(n: Nav, id: string, actions: seq<Action>)
    requires Consistent(n) && Unreachable(n, id)
    requires forall a :: a in actions ==> !GoesTo(a, id)
    ensures Consistent(Run(n, actions)) && Unreachable(Run(n, actions), id)
    decreases |actions|
  {
    if actions != [] {
      StepKeepsConsistent(n, actions[0]);
      StepKeepsUnreachable(n, actions[0], id);
      assert forall a :: a in actions[1..] ==> a in actions;
      ForgottenStaysUnreachable(Step(n, actions[0]), id, actions[1..]);
    }
  }
}
