/** Runs of the app's navigation: they are runs of its history, so the reference describes them; and what
    the segmented control brings back. */
module NavigationRuns {
  import opened Basics
  import opened Navigation
  import opened HistoryRefinement

  lemma {:induction false} RunSnoc(n: Nav, actions: seq<Action>, a: Action)
    requires Consistent(n)
    ensures Consistent(Run(n, actions)) && Run(n, actions + [a]) == Step(Run(n, actions), a)
    decreases |actions|
  {
    var all := actions + [a];
    if actions == [] {
      assert all == [a] && all[1..] == [];
    } else {
      assert all[1..] == actions[1..] + [a];
      StepKeepsConsistent(n, actions[0]);
      RunSnoc(Step(n, actions[0]), actions[1..], a);
    }
  }

  // ----- navigating, back and forward

  function AsAction(op: Op): Action {
    match op
    case Show(r) => Navigate(r)
    case GoBack => Back
    case GoForward => Forward
  }

  function AsActions(ops: seq<Op>): (r: seq<Action>)
    ensures |r| == |ops| && forall k :: 0 <= k < |r| ==> r[k] == AsAction(ops[k])
  {
    seq(|ops|, k requires 0 <= k < |ops| => AsAction(ops[k]))
  }

  lemma StepIsHistoryStep(n: Nav, op: Op)
    requires Consistent(n)
    ensures Step(n, AsAction(op)).history == HistoryStep(n.history, op)
  {
  }

  /** The history inside the app after any run of navigations, backs and forwards is the history alone
      after the same operations, and its current entry is what is shown. */
  lemma {:induction false} AppRunsItsHistory(route: Route, ops: seq<Op>)
    ensures var n := Run(Start(route), AsActions(ops));
            n.history == RunHistory(History([route], 0), ops) && n.history.Valid() && n.route == n.history.Current()
    decreases |ops|
  {
    if ops != [] {
      var front, op := ops[..|ops| - 1], ops[|ops| - 1];
      AppRunsItsHistory(route, front);
      assert AsActions(ops) == AsActions(front) + [AsAction(op)];
      RunSnoc(Start(route), AsActions(front), AsAction(op));
      var n := Run(Start(route), AsActions(front));
      StepIsHistoryStep(n, op);
      StepKeepsConsistent(n, AsAction(op));
    }
  }

  /** So the app shows what the reference shows, for every run up to the first back step that the bound
      makes it refuse. */
  lemma AppShowsWhatPreviewShows(route: Route, ops: seq<Op>)
    requires NeverRefuses(History([route], 0), Preview(route, [], []), ops)
    ensures Run(Start(route), AsActions(ops)).route == RunPreview(Preview(route, [], []), ops).route
    ensures Agrees(Run(Start(route), AsActions(ops)).history, RunPreview(Preview(route, [], []), ops))
  {
    AppRunsItsHistory(route, ops);
    HistoryRefinesPreview(route, ops);
  }

  /** In particular, going back undoes navigating. */
  lemma BackUndoesNavigate(n: Nav, r: Route)
    requires Consistent(n) && r != n.route
    ensures Step(n, Navigate(r)).route == r && Step(Step(n, Navigate(r)), Back).route == n.route
    ensures Step(Step(Step(n, Navigate(r)), Back), Forward).route == r
  {
    PushedBack(n.history, r);
    var stack := n.history.entries[..n.history.index + 1];
    assert stack[|stack| - 1] == n.route;
  }

  /** Replacing the route changes exactly the current entry. */
  lemma ReplaceChangesCurrent(n: Nav, r: Route)
    requires Consistent(n)
    ensures var n' := Step(n, Replace(r));
            && n'.route == r && n'.history.index == n.history.index
            && |n'.history.entries| == |n.history.entries|
            && n'.history.entries[n.history.index] == r
            && forall j :: 0 <= j < |n.history.entries| && j != n.history.index ==>
                 n'.history.entries[j] == n.history.entries[j]
  {
  }

  // ----- the segmented control

  /** A session on screen is the one remembered. */
  ghost predicate Remembers(n: Nav) {
    n.route.Session? ==> n.lastSessionId == Some(n.route.id)
  }

  /** The one way to lose it: the session on screen is forgotten and another takes its place. */
  predicate FallsOntoSession(n: Nav, a: Action)
    requires n.history.Valid()
  {
    a.Forget? && n.route == Session(a.id) && Removed(n.history, Session(a.id)).Current().Session?
  }

  lemma RemembersIff(n: Nav, a: Action)
    requires Consistent(n) && Remembers(n)
    ensures Remembers(Step(n, a)) <==> !FallsOntoSession(n, a)
  {
    if a.Forget? {
      StepKeepsConsistent(n, a);
      ForgetMakesUnreachable(n, a.id);
    }
  }

  /** In every reachable state of a run in which that never happens, the session on screen is remembered. */
  lemma {:induction false} RunRemembers(n: Nav, actions: seq<Action>)
    requires Consistent(n) && Remembers(n)
    requires forall k :: 0 <= k < |actions| ==> !Falls(n, actions, k)
    ensures Consistent(Run(n, actions)) && Remembers(Run(n, actions))
    decreases |actions|
  {
    if actions != [] {
      var front, a := actions[..|actions| - 1], actions[|actions| - 1];
      forall k | 0 <= k < |front| ensures !Falls(n, front, k) {
        assert !Falls(n, actions, k);
        assert front[..k] == actions[..k];
      }
      RunRemembers(n, front);
      RunSnoc(n, front, a);
      assert actions == front + [a];
      assert !Falls(n, actions, |front|);
      StepKeepsConsistent(Run(n, front), a);
      RemembersIff(Run(n, front), a);
    }
  }

  /** Step `k` of the run forgets the session on screen and lands on another. */
  ghost predicate Falls(n: Nav, actions: seq<Action>, k: nat)
    requires k < |actions|
  {
    Consistent(n) && (RunFromConsistent(n, actions[..k]); FallsOntoSession(Run(n, actions[..k]), actions[k]))
  }

  lemma QuietStepKeepsLast(n: Nav, a: Action, id: string)
    requires Consistent(n) && n.lastSessionId == Some(id) && a != Forget(id)
    requires !Step(n, a).route.Session?
    ensures Step(n, a).lastSessionId == Some(id)
  {
  }

  lemma {:induction false} LastIsKept(n: Nav, id: string, actions: seq<Action>)
    requires Consistent(n) && n.lastSessionId == Some(id) && Forget(id) !in actions
    requires forall k :: 0 < k <= |actions| ==> !Run(n, actions[..k]).route.Session?
    ensures Consistent(Run(n, actions)) && Run(n, actions).lastSessionId == Some(id)
    decreases |actions|
  {
    if actions != [] {
      var front, a := actions[..|actions| - 1], actions[|actions| - 1];
      forall k | 0 < k <= |front| ensures !Run(n, front[..k]).route.Session? { assert front[..k] == actions[..k]; }
      assert a in actions && forall x :: x in front ==> x in actions;
      LastIsKept(n, id, front);
      RunSnoc(n, front, a);
      assert actions == front + [a] && actions[..|actions|] == actions;
      StepKeepsConsistent(Run(n, front), a);
      QuietStepKeepsLast(Run(n, front), a, id);
    }
  }

  /** From a session on screen, through any places that are not sessions, the `Code` segment returns to that
      session unless it has been forgotten; `Home` and `Code` alone are the shortest such way. */
  lemma CodeReturnsToLastShown(n: Nav, id: string, actions: seq<Action>)
    requires Consistent(n) && Remembers(n) && n.route == Session(id) && Forget(id) !in actions
    requires forall k :: 0 < k <= |actions| ==> !Run(n, actions[..k]).route.Session?
    ensures Consistent(Run(n, actions)) && Step(Run(n, actions), SelectCode).route == Session(id)
  {
    LastIsKept(n, id, actions);
  }

  lemma HomeThenCode(n: Nav, id: string)
    requires Consistent(n) && Remembers(n) && n.route == Session(id)
    ensures Step(n, SelectHome).route == Home && Consistent(Step(n, SelectHome))
    ensures Step(Step(n, SelectHome), SelectCode).route == Session(id)
  {
    StepKeepsConsistent(n, SelectHome);
  }

  /** The exception is real: forget the session on screen, land on another, go home and choose `Code`. The
      other session was the last one shown, and the empty state comes up. */
  lemma CodeMissesTheFallback(a: string, b: string)
    requires a != b
    ensures var n := Step(Step(Start(Session(b)), Navigate(Session(a))), Forget(a));
            && Consistent(n) && n.route == Session(b)
            && Consistent(Step(n, SelectHome)) && Step(Step(n, SelectHome), SelectCode).route == NoSession
  {
    var n0 := Start(Session(b));
    var n1 := Step(n0, Navigate(Session(a)));
    assert n0.history.entries[..1] + [Session(a)] == [Session(b), Session(a)];
    assert n1.history == History([Session(b), Session(a)], 1);
    RemovalFallsBack(n1.history, Session(a), 0);
    var n := Step(n1, Forget(a));
    StepKeepsConsistent(n1, Forget(a));
    StepKeepsConsistent(n, SelectHome);
  }
}
