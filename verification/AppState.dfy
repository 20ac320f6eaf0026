/** The navigation objects, updated in place and proved against their value-level descriptions. */
module AppState {
  import opened Basics
  import opened Navigation
  import opened HistoryRefinement

  class RouteHistory {
    var entries: seq<Route>
    var index: nat

    function Value(): History
      reads this
    {
      History(entries, index)
    }

    constructor (root: Route)
      ensures Value() == History([root], 0)
    {
      entries, index := [root], 0;
    }

    method Push(route: Route)
      requires Value().Valid()
      modifies this
      ensures Value() == Pushed(old(Value()), route)
    {
      if route == entries[index] { return; }
      if index + 1 < |entries| {
        entries := entries[..index + 1];
      }
      assert entries == old(entries)[..index + 1];
      entries := entries + [route];
      if |entries| > CAPACITY {
        entries := entries[|entries| - CAPACITY..];
      }
      index := |entries| - 1;
    }

    method ReplaceCurrent(route: Route)
      requires Value().Valid()
      modifies this`entries
      ensures Value() == Replaced(old(Value()), route)
    {
      entries := entries[index := route];
    }

    method Back() returns (route: Option<Route>)
      requires Value().Valid()
      modifies this`index
      ensures Value() == Backed(old(Value()))
      ensures route == if old(index) > 0 then Some(Value().Current()) else None
    {
      if index == 0 { return None; }
      index := index - 1;
      return Some(entries[index]);
    }

    method Forward() returns (route: Option<Route>)
      requires Value().Valid()
      modifies this`index
      ensures Value() == Forwarded(old(Value()))
      ensures route == if old(index) + 1 < |entries| then Some(Value().Current()) else None
    {
      if index + 1 >= |entries| { return None; }
      index := index + 1;
      return Some(entries[index]);
    }

    method Remove(route: Route)
      requires Value().Valid()
      modifies this
      ensures Value() == Removed(old(Value()), route)
    {
      if route !in entries { return; }
      var kept: seq<Route> := [];
      var newIndex: int := 0;
      for position := 0 to |entries|
        invariant kept == Kept(entries, route, position)
        invariant newIndex == KeptIndex(Value(), route, position)
        invariant entries == old(entries) && index == old(index)
      {
        var entry := entries[position];
        if entry == route {
          if position <= index { newIndex := Max(0, |kept| - 1); }
        } else {
          if kept == [] || kept[|kept| - 1] != entry { kept := kept + [entry]; }
          if position <= index { newIndex := |kept| - 1; }
        }
      }
      var next := if kept == [] then [Home] else kept;
      entries, index := next, Min(Max(0, newIndex), |next| - 1);
    }
  }

  class AppState {
    var route: Route
    var lastSessionId: Option<string>
    const history: RouteHistory

    function Value(): Nav
      reads this, history
    {
      Nav(route, lastSessionId, history.Value())
    }

    ghost predicate Valid()
      reads this, history
    {
      Consistent(Value())
    }

    constructor (route: Route)
      ensures Value() == Start(route) && Valid() && fresh(history)
    {
      this.route := route;
      lastSessionId := if route.Session? then Some(route.id) else None;
      history := new RouteHistory(route);
    }

    method AdoptRoute(r: Route)
      modifies this
      ensures route == r
      ensures lastSessionId == if r.Session? then Some(r.id) else old(lastSessionId)
    {
      route := r;
      if r.Session? { lastSessionId := Some(r.id); }
    }

    method NavigateTo(r: Route)
      requires Valid()
      modifies this, history
      ensures Value() == Step(old(Value()), Navigate(r)) && Valid()
    {
      StepKeepsConsistent(Value(), Navigate(r));
      if r == route { return; }
      history.Push(r);
      AdoptRoute(r);
    }

    method ReplaceRoute(r: Route)
      requires Valid()
      modifies this, history
      ensures Value() == Step(old(Value()), Replace(r)) && Valid()
    {
      StepKeepsConsistent(Value(), Replace(r));
      if r == route { return; }
      history.ReplaceCurrent(r);
      AdoptRoute(r);
    }

    method GoBack()
      requires Valid()
      modifies this, history
      ensures Value() == Step(old(Value()), Action.Back) && Valid()
    {
      StepKeepsConsistent(Value(), Action.Back);
      var r := history.Back();
      if r.None? { return; }
      AdoptRoute(r.value);
    }

    method GoForward()
      requires Valid()
      modifies this, history
      ensures Value() == Step(old(Value()), Action.Forward) && Valid()
    {
      StepKeepsConsistent(Value(), Action.Forward);
      var r := history.Forward();
      if r.None? { return; }
      AdoptRoute(r.value);
    }

    method ForgetSession(id: string)
      requires Valid()
      modifies this, history
      ensures Value() == Step(old(Value()), Forget(id)) && Valid()
      ensures Unreachable(Value(), id)
    {
      StepKeepsConsistent(Value(), Forget(id));
      ForgetMakesUnreachable(Value(), id);
      if lastSessionId == Some(id) { lastSessionId := None; }
      history.Remove(Session(id));
      if route == Session(id) { route := history.entries[history.index]; }
    }

    method SelectSegment(home: bool)
      requires Valid()
      modifies this, history
      ensures Value() == Step(old(Value()), if home then SelectHome else SelectCode) && Valid()
    {
      if home {
        NavigateTo(Home);
      } else {
        NavigateTo(if lastSessionId.Some? then Session(lastSessionId.value) else NoSession);
      }
    }
  }

  /** The reference implementation for previews and tests. */
  class PreviewAppState {
    var route: Route
    var back: seq<Route>
    var forward: seq<Route>

    function Value(): Preview
      reads this
    {
      Preview(route, back, forward)
    }

    constructor (route: Route)
      ensures Value() == Preview(route, [], [])
    {
      this.route, back, forward := route, [], [];
    }

    method NavigateTo(next: Route)
      modifies this
      ensures Value() == PreviewStep(old(Value()), Show(next))
    {
      if next == route { return; }
      back := back + [route];
      if |back| > HISTORY_LIMIT { back := back[|back| - HISTORY_LIMIT..]; }
      forward := [];
      route := next;
    }

    method GoBack()
      modifies this
      ensures Value() == PreviewStep(old(Value()), Op.GoBack)
    {
      if back == [] { return; }
      var previous := back[|back| - 1];
      back := back[..|back| - 1];
      forward := forward + [route];
      route := previous;
    }

    method GoForward()
      modifies this
      ensures Value() == PreviewStep(old(Value()), Op.GoForward)
    {
      if forward == [] { return; }
      var next := forward[|forward| - 1];
      forward := forward[..|forward| - 1];
      back := back + [route];
      route := next;
    }
  }
}
