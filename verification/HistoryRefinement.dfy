/** The two implementations of the route stack: the bounded history against the reference's two stacks. */
module HistoryRefinement {
  import opened Basics
  import opened Navigation

  const HISTORY_LIMIT := 50

  /** `PreviewAppState`: the top of each stack is its last element. */
  datatype Preview = Preview(route: Route, back: seq<Route>, forward: seq<Route>)

  datatype Op = Show(route: Route) | GoBack | GoForward

  function PreviewStep(p: Preview, op: Op): Preview {
    match op
    case Show(r) => if r == p.route then p else Preview(r, Newest(p.back + [p.route], HISTORY_LIMIT), [])
    case GoBack =>
      if p.back == [] then p
      else Preview(p.back[|p.back| - 1], p.back[..|p.back| - 1], p.forward + [p.route])
    case GoForward =>
      if p.forward == [] then p
      else Preview(p.forward[|p.forward| - 1], p.back + [p.route], p.forward[..|p.forward| - 1])
  }

  function HistoryStep(h: History, op: Op): (h': History)
    requires h.Valid()
    ensures h'.Valid()
  {
    match op
    case Show(r) => Pushed(h, r)
    case GoBack => Backed(h)
    case GoForward => Forwarded(h)
  }

  // ----- the refinement relation

  predicate IsSuffix<T(==)>(a: seq<T>, b: seq<T>) {
    |a| <= |b| && b[|b| - |a|..] == a
  }

  /** Same route, same forward list, and a back list that is the most recent part of the reference's. */
  ghost predicate Agrees(h: History, p: Preview) {
    && h.Valid() && p.route == h.Current()
    && |p.forward| == |h.entries| - h.index - 1
    && (forall k :: 0 <= k < |p.forward| ==> p.forward[k] == h.entries[|h.entries| - 1 - k])
    && IsSuffix(h.entries[..h.index], p.back)
  }

  /** The bound makes the history refuse a back step that the reference takes. */
  predicate Refuses(h: History, p: Preview, op: Op) {
    op.GoBack? && h.index == 0 && p.back != []
  }

  lemma SuffixSnoc<T>(a: seq<T>, b: seq<T>, x: T)
    requires IsSuffix(a, b)
    ensures IsSuffix(a + [x], b + [x])
  {
    var c := b + [x];
    assert c[|c| - |a| - 1..] == b[|b| - |a|..] + [x];
  }

  lemma SuffixPop<T>(a: seq<T>, b: seq<T>)
    requires IsSuffix(a, b) && a != []
    ensures a[|a| - 1] == b[|b| - 1] && IsSuffix(a[..|a| - 1], b[..|b| - 1])
  {
    var d := |b| - |a|;
    assert b[..|b| - 1][d..] == b[d..][..|a| - 1];
  }

  lemma SuffixNewest<T>(a: seq<T>, b: seq<T>, m: nat, n: nat)
    requires IsSuffix(a, b) && m <= n
    ensures IsSuffix(Newest(a, m), Newest(b, n))
  {
    var a', b' := Newest(a, m), Newest(b, n);
    assert a' == b[|b| - |a'|..];
    assert b' == b[|b| - |b'|..];
  }

  /** The back list after a push: the old one with the old route on top, its newest forty-nine. */
  lemma PushedBack(h: History, r: Route)
    requires h.Valid() && r != h.Current()
    ensures var h' := Pushed(h, r);
            h'.index + 1 == |h'.entries| && h'.entries[..h'.index] == Newest(h.entries[..h.index + 1], CAPACITY - 1)
  {
    var stack := h.entries[..h.index + 1];
    var all := stack + [r];
    var e := Newest(all, CAPACITY);
    assert e[..|e| - 1] == Newest(stack, CAPACITY - 1);
  }

  lemma ShowAgrees(h: History, p: Preview, r: Route)
    requires Agrees(h, p)
    ensures Agrees(Pushed(h, r), PreviewStep(p, Show(r)))
  {
    if r != p.route {
      PushedBack(h, r);
      assert h.entries[..h.index + 1] == h.entries[..h.index] + [p.route];
      SuffixSnoc(h.entries[..h.index], p.back, p.route);
      SuffixNewest(h.entries[..h.index + 1], p.back + [p.route], CAPACITY - 1, HISTORY_LIMIT);
    }
  }

  lemma BackAgrees(h: History, p: Preview)
    requires Agrees(h, p) && !Refuses(h, p, GoBack)
    ensures Agrees(Backed(h), PreviewStep(p, GoBack))
  {
    if h.index > 0 {
      var front, front' := h.entries[..h.index], h.entries[..h.index - 1];
      assert front[..h.index - 1] == front' && front[h.index - 1] == h.entries[h.index - 1];
      SuffixPop(front, p.back);
    }
  }

  lemma ForwardAgrees(h: History, p: Preview)
    requires Agrees(h, p)
    ensures Agrees(Forwarded(h), PreviewStep(p, GoForward))
  {
    if p.forward != [] {
      SuffixSnoc(h.entries[..h.index], p.back, p.route);
      assert h.entries[..h.index + 1] == h.entries[..h.index] + [p.route];
    }
  }

  lemma StepAgrees(h: History, p: Preview, op: Op)
    requires Agrees(h, p) && !Refuses(h, p, op)
    ensures Agrees(HistoryStep(h, op), PreviewStep(p, op))
  {
    match op
    case Show(r) => ShowAgrees(h, p, r);
    case GoBack => BackAgrees(h, p);
    case GoForward => ForwardAgrees(h, p);
  }

  function RunHistory(h: History, ops: seq<Op>): (r: History)
    requires h.Valid()
    ensures r.Valid()
    decreases |ops|
  {
    if ops == [] then h else HistoryStep(RunHistory(h, ops[..|ops| - 1]), ops[|ops| - 1])
  }

  function RunPreview(p: Preview, ops: seq<Op>): Preview
    decreases |ops|
  {
    if ops == [] then p else PreviewStep(RunPreview(p, ops[..|ops| - 1]), ops[|ops| - 1])
  }

  /** No back step of the run was refused because of the bound. */
  ghost predicate NeverRefuses(h: History, p: Preview, ops: seq<Op>)
    requires h.Valid()
  {
    forall n :: 0 <= n < |ops| ==> !Refuses(RunHistory(h, ops[..n]), RunPreview(p, ops[..n]), ops[n])
  }

  /** The refinement: the two agree after every run, up to the first refused back step. */
  lemma {:induction false} HistoryRefinesPreview(route: Route, ops: seq<Op>)
    requires NeverRefuses(History([route], 0), Preview(route, [], []), ops)
    ensures Agrees(RunHistory(History([route], 0), ops), RunPreview(Preview(route, [], []), ops))
    decreases |ops|
  {
    var h, p := History([route], 0), Preview(route, [], []);
    if ops != [] {
      var n := |ops| - 1;
      NeverRefusesPrefix(h, p, ops, n);
      HistoryRefinesPreview(route, ops[..n]);
      assert ops[..n] == ops[..|ops| - 1];
      StepAgrees(RunHistory(h, ops[..n]), RunPreview(p, ops[..n]), ops[n]);
    }
  }

  lemma NeverRefusesPrefix(h: History, p: Preview, ops: seq<Op>, n: nat)
    requires h.Valid() && n <= |ops| && NeverRefuses(h, p, ops)
    ensures NeverRefuses(h, p, ops[..n])
  {
    forall m | 0 <= m < n ensures !Refuses(RunHistory(h, ops[..n][..m]), RunPreview(p, ops[..n][..m]), ops[..n][m]) {
      assert ops[..n][..m] == ops[..m];
    }
  }

  // ----- full agreement

  /** Nothing has fallen off: the back lists are equal too. */
  ghost predicate AgreesFully(h: History, p: Preview) {
    Agrees(h, p) && |p.back| == h.index
  }

  /** Full agreement is lost exactly by showing a new route when the history's back list is full. */
  lemma FullAgreementKeptIff(h: History, p: Preview, op: Op)
    requires AgreesFully(h, p)
    ensures !Refuses(h, p, op)
    ensures AgreesFully(HistoryStep(h, op), PreviewStep(p, op)) <==>
              !(op.Show? && op.route != p.route && h.index == CAPACITY - 1)
  {
    StepAgrees(h, p, op);
    var h', p' := HistoryStep(h, op), PreviewStep(p, op);
    if op.Show? && op.route != p.route {
      PushedBack(h, op.route);
      assert h'.index == Min(h.index + 1, CAPACITY - 1) && |p'.back| == Min(h.index + 1, HISTORY_LIMIT);
    }
  }

  // ----- full agreement over whole runs

  /** The one step that cuts the history: a new route when the back list is full. */
  predicate Overflows(h: History, p: Preview, op: Op) {
    op.Show? && op.route != p.route && h.index == CAPACITY - 1
  }

  function HistoryAt(route: Route, ops: seq<Op>, n: nat): (r: History)
    requires n <= |ops|
    ensures r.Valid()
  {
    RunHistory(History([route], 0), ops[..n])
  }

  function PreviewAt(route: Route, ops: seq<Op>, n: nat): Preview
    requires n <= |ops|
  {
    RunPreview(Preview(route, [], []), ops[..n])
  }

  lemma RunNext(route: Route, ops: seq<Op>, n: nat)
    requires n < |ops|
    ensures HistoryAt(route, ops, n + 1) == HistoryStep(HistoryAt(route, ops, n), ops[n])
    ensures PreviewAt(route, ops, n + 1) == PreviewStep(PreviewAt(route, ops, n), ops[n])
  {
    assert ops[..n + 1][..n] == ops[..n];
  }

  /** No step among the first `n` cuts the history. */
  ghost predicate NeverOverflows(route: Route, ops: seq<Op>, n: nat)
    requires n <= |ops|
  {
    forall m :: 0 <= m < n ==> !Overflows(HistoryAt(route, ops, m), PreviewAt(route, ops, m), ops[m])
  }

  /** A run of any length in which the history is never cut agrees fully. */
  lemma {:induction false} UncutRunsAgreeFully(route: Route, ops: seq<Op>, n: nat)
    requires n <= |ops| && NeverOverflows(route, ops, n)
    ensures AgreesFully(HistoryAt(route, ops, n), PreviewAt(route, ops, n))
  {
    if n > 0 {
      UncutRunsAgreeFully(route, ops, n - 1);
      RunNext(route, ops, n - 1);
      FullAgreementKeptIff(HistoryAt(route, ops, n - 1), PreviewAt(route, ops, n - 1), ops[n - 1]);
    }
  }

  /** The two agree fully throughout a run if and only if the history is never cut. */
  lemma FullAgreementThroughoutIff(route: Route, ops: seq<Op>)
    ensures (forall n :: 0 <= n <= |ops| ==> AgreesFully(HistoryAt(route, ops, n), PreviewAt(route, ops, n))) <==>
            NeverOverflows(route, ops, |ops|)
  {
    if NeverOverflows(route, ops, |ops|) {
      forall n | 0 <= n <= |ops| ensures AgreesFully(HistoryAt(route, ops, n), PreviewAt(route, ops, n)) {
        UncutRunsAgreeFully(route, ops, n);
      }
    } else {
      var m :| 0 <= m < |ops| && Overflows(HistoryAt(route, ops, m), PreviewAt(route, ops, m), ops[m]);
      RunNext(route, ops, m);
      if AgreesFully(HistoryAt(route, ops, m), PreviewAt(route, ops, m)) {
        FullAgreementKeptIff(HistoryAt(route, ops, m), PreviewAt(route, ops, m), ops[m]);
        assert !AgreesFully(HistoryAt(route, ops, m + 1), PreviewAt(route, ops, m + 1));
      }
    }
  }

  /** The reference can go back further than the history. */
  ghost predicate Behind(h: History, p: Preview) {
    Agrees(h, p) && h.index < |p.back|
  }

  /** What the cut has taken does not come back while no back step is refused. */
  lemma BehindStays(h: History, p: Preview, op: Op)
    requires !Refuses(h, p, op)
    requires Behind(h, p) || (AgreesFully(h, p) && Overflows(h, p, op))
    ensures Behind(HistoryStep(h, op), PreviewStep(p, op))
  {
    StepAgrees(h, p, op);
    if op.Show? && op.route != p.route { PushedBack(h, op.route); }
  }

  ghost predicate BehindAt(route: Route, ops: seq<Op>, n: nat)
    requires n <= |ops|
  {
    Behind(HistoryAt(route, ops, n), PreviewAt(route, ops, n))
  }

  lemma {:induction false} StayBehind(route: Route, ops: seq<Op>, m: nat, n: nat)
    requires m <= n <= |ops| && NeverRefuses(History([route], 0), Preview(route, [], []), ops)
    requires BehindAt(route, ops, m)
    ensures BehindAt(route, ops, n)
    decreases n - m
  {
    if m < n {
      BehindNext(route, ops, m);
      StayBehind(route, ops, m + 1, n);
    }
  }

  lemma BehindNext(route: Route, ops: seq<Op>, n: nat)
    requires n < |ops| && NeverRefuses(History([route], 0), Preview(route, [], []), ops)
    requires var h, p := HistoryAt(route, ops, n), PreviewAt(route, ops, n);
             Behind(h, p) || (AgreesFully(h, p) && Overflows(h, p, ops[n]))
    ensures BehindAt(route, ops, n + 1)
  {
    RunNext(route, ops, n);
    BehindStays(HistoryAt(route, ops, n), PreviewAt(route, ops, n), ops[n]);
  }

  lemma {:induction false} FirstOverflow(route: Route, ops: seq<Op>, n: nat) returns (m: nat)
    requires n <= |ops| && !NeverOverflows(route, ops, n)
    ensures m < n && NeverOverflows(route, ops, m)
    ensures Overflows(HistoryAt(route, ops, m), PreviewAt(route, ops, m), ops[m])
  {
    if NeverOverflows(route, ops, n - 1) { m := n - 1; } else { m := FirstOverflow(route, ops, n - 1); }
  }

  /** At the end of a run without a refused back step, the two agree fully if and only if the history
      was never cut: one cut is never made up for. A run that was never cut has no refused step. */
  lemma FullAgreementIff(route: Route, ops: seq<Op>)
    ensures NeverOverflows(route, ops, |ops|) ==> NeverRefuses(History([route], 0), Preview(route, [], []), ops)
    ensures NeverRefuses(History([route], 0), Preview(route, [], []), ops) ==>
              (AgreesFully(HistoryAt(route, ops, |ops|), PreviewAt(route, ops, |ops|)) <==>
               NeverOverflows(route, ops, |ops|))
  {
    if NeverOverflows(route, ops, |ops|) {
      UncutRunsAgreeFully(route, ops, |ops|);
      forall n | 0 <= n < |ops| ensures !Refuses(HistoryAt(route, ops, n), PreviewAt(route, ops, n), ops[n]) {
        UncutRunsAgreeFully(route, ops, n);
      }
    } else if NeverRefuses(History([route], 0), Preview(route, [], []), ops) {
      var m := FirstOverflow(route, ops, |ops|);
      UncutRunsAgreeFully(route, ops, m);
      BehindNext(route, ops, m);
      StayBehind(route, ops, m + 1, |ops|);
    }
  }

  /** In particular, runs of fewer than fifty operations agree fully. */
  lemma ShortRunsAgreeFully(route: Route, ops: seq<Op>)
    requires |ops| < CAPACITY
    ensures NeverOverflows(route, ops, |ops|)
    ensures AgreesFully(HistoryAt(route, ops, |ops|), PreviewAt(route, ops, |ops|))
  {
    forall m | 0 <= m < |ops| ensures HistoryAt(route, ops, m).index <= m { IndexGrowsSlowly(route, ops, m); }
    UncutRunsAgreeFully(route, ops, |ops|);
  }

  lemma {:induction false} IndexGrowsSlowly(route: Route, ops: seq<Op>, n: nat)
    requires n <= |ops|
    ensures HistoryAt(route, ops, n).index <= n
  {
    if n > 0 {
      IndexGrowsSlowly(route, ops, n - 1);
      RunNext(route, ops, n - 1);
      StepGrowsIndex(HistoryAt(route, ops, n - 1), ops[n - 1]);
    }
  }

  lemma StepGrowsIndex(h: History, op: Op)
    requires h.Valid()
    ensures HistoryStep(h, op).index <= h.index + 1
  {
  }

  // ----- after a refused step the two can meet again

  /** Two places in turn. */
  function Alternate(j: nat): Route {
    if j == 0 then Home else if Alternate(j - 1) == Home then NoSession else Home
  }

  function Places(k: nat, n: nat): (r: seq<Route>)
    ensures |r| == n && forall j :: 0 <= j < n ==> r[j] == Alternate(k + j)
  {
    seq(n, j requires 0 <= j => Alternate(k + j))
  }

  function Shows(k: nat, n: nat): (r: seq<Op>)
    ensures |r| == n && forall j :: 0 <= j < n ==> r[j] == Show(Alternate(k + j))
  {
    seq(n, j requires 0 <= j => Show(Alternate(k + j)))
  }

  function Backs(n: nat): (r: seq<Op>)
    ensures |r| == n && forall j :: 0 <= j < n ==> r[j] == GoBack
  {
    seq(n, _ => GoBack)
  }

  lemma {:induction false} RunsCompose(h: History, p: Preview, a: seq<Op>, b: seq<Op>)
    requires h.Valid()
    ensures RunHistory(h, a + b) == RunHistory(RunHistory(h, a), b)
    ensures RunPreview(p, a + b) == RunPreview(RunPreview(p, a), b)
    decreases |b|
  {
    if b == [] {
      assert a + b == a;
    } else {
      assert (a + b)[..|a + b| - 1] == a + b[..|b| - 1];
      RunsCompose(h, p, a, b[..|b| - 1]);
    }
  }

  lemma PlacesSnoc(k: nat, n: nat)
    requires n > 0
    ensures Places(k, n) == Places(k, n - 1) + [Alternate(k + n - 1)]
    ensures Shows(k, n)[..n - 1] == Shows(k, n - 1)
  {
  }

  /** One more place at the end of a history with room for it. */
  lemma PushLast(es: seq<Route>, r: Route)
    requires 0 < |es| < CAPACITY && es[|es| - 1] != r
    ensures Pushed(History(es, |es| - 1), r) == History(es + [r], |es|)
  {
    assert es[..|es|] == es;
  }

  /** One more place at the end of a full history. */
  lemma PushFull(es: seq<Route>, r: Route)
    requires |es| == CAPACITY && es[CAPACITY - 1] != r
    ensures Pushed(History(es, CAPACITY - 1), r) == History(es[1..] + [r], CAPACITY - 1)
  {
    assert es[..CAPACITY] == es;
    assert (es + [r])[1..] == es[1..] + [r];
  }

  lemma ShowsNext(h: History, k: nat, n: nat)
    requires h.Valid() && n > 0
    ensures RunHistory(h, Shows(k, n)) == Pushed(RunHistory(h, Shows(k, n - 1)), Alternate(k + n - 1))
  {
    PlacesSnoc(k, n);
    assert Shows(k, n)[n - 1] == Show(Alternate(k + n - 1));
  }

  lemma {:induction false} FirstShows(n: nat)
    requires n < CAPACITY
    ensures RunHistory(History([Home], 0), Shows(1, n)) == History(Places(0, n + 1), n)
  {
    if n == 0 {
      assert Places(0, 1) == [Home];
    } else {
      FirstShows(n - 1);
      ShowsNext(History([Home], 0), 1, n);
      PushLast(Places(0, n), Alternate(n));
      PlacesSnoc(0, n + 1);
    }
  }

  lemma FirstCut()
    ensures RunHistory(History([Home], 0), Shows(1, CAPACITY)) == History(Places(1, CAPACITY), CAPACITY - 1)
  {
    FirstShows(CAPACITY - 1);
    ShowsNext(History([Home], 0), 1, CAPACITY);
    PushFull(Places(0, CAPACITY), Alternate(CAPACITY));
    assert Places(0, CAPACITY)[1..] + [Alternate(CAPACITY)] == Places(1, CAPACITY);
  }

  lemma {:induction false} FirstShowsPreview(n: nat)
    requires n <= CAPACITY
    ensures RunPreview(Preview(Home, [], []), Shows(1, n)) == Preview(Alternate(n), Places(0, n), [])
  {
    if n > 0 {
      FirstShowsPreview(n - 1);
      PreviewNext(Preview(Home, [], []), 1, n);
      PlacesSnoc(0, n);
    }
  }

  lemma {:induction false} ThenBacks(n: nat, p: Preview)
    requires n <= CAPACITY && p.route == Alternate(CAPACITY) && p.back == Places(0, CAPACITY)
    ensures RunHistory(History(Places(1, CAPACITY), CAPACITY - 1), Backs(n)) ==
              History(Places(1, CAPACITY), Max(0, CAPACITY - 1 - n))
    ensures RunPreview(p, Backs(n)).route == Alternate(CAPACITY - n)
    ensures RunPreview(p, Backs(n)).back == Places(0, CAPACITY - n)
  {
    if n > 0 {
      ThenBacks(n - 1, p);
      assert Backs(n)[..n - 1] == Backs(n - 1);
      assert Places(0, CAPACITY - n + 1)[..CAPACITY - n] == Places(0, CAPACITY - n);
    }
  }

  lemma FirstShown()
    ensures RunHistory(History(Places(1, CAPACITY), 0), Shows(0, 1)) == History([NoSession] + Places(0, 1), 1)
  {
    var h := History(Places(1, CAPACITY), 0);
    ShowsNext(h, 0, 1);
    assert Shows(0, 0) == [] && h.entries[..1] == [NoSession] && Places(0, 1) == [Home];
  }

  lemma {:induction false} ThenShows(h: History, n: nat)
    requires h.Valid() && RunHistory(h, Shows(0, 1)) == History([NoSession] + Places(0, 1), 1)
    requires 0 < n < CAPACITY
    ensures RunHistory(h, Shows(0, n)) == History([NoSession] + Places(0, n), n)
  {
    if n > 1 {
      ThenShows(h, n - 1);
      ShowsNext(h, 0, n);
      OnePlaceMore(n);
    }
  }

  lemma OnePlaceMore(n: nat)
    requires 1 < n < CAPACITY
    ensures Pushed(History([NoSession] + Places(0, n - 1), n - 1), Alternate(n - 1)) ==
              History([NoSession] + Places(0, n), n)
  {
    var es := [NoSession] + Places(0, n - 1);
    assert es[|es| - 1] == Alternate(n - 2);
    PushLast(es, Alternate(n - 1));
    PlacesSnoc(0, n);
    assert [NoSession] + Places(0, n) == es + [Alternate(n - 1)];
  }

  lemma SecondCut()
    ensures RunHistory(History(Places(1, CAPACITY), 0), Shows(0, CAPACITY)) ==
              History(Places(0, CAPACITY), CAPACITY - 1)
  {
    var h, es := History(Places(1, CAPACITY), 0), [NoSession] + Places(0, CAPACITY - 1);
    FirstShown();
    ThenShows(h, CAPACITY - 1);
    ShowsNext(h, 0, CAPACITY);
    PushFull(es, Alternate(CAPACITY - 1));
    PlacesSnoc(0, CAPACITY);
    assert es[1..] == Places(0, CAPACITY - 1);
  }

  lemma {:induction false} ThenShowsPreview(n: nat, p: Preview)
    requires 0 < n <= CAPACITY && p.route == Home && p.back == []
    ensures RunPreview(p, Shows(0, n)) == Preview(Alternate(n - 1), Places(0, n - 1), if n == 1 then p.forward else [])
  {
    PreviewNext(p, 0, n);
    if n == 1 {
      assert Shows(0, 0) == [] && Places(0, 0) == [];
    } else {
      ThenShowsPreview(n - 1, p);
      PlacesSnoc(0, n - 1);
    }
  }

  lemma PreviewNext(p: Preview, k: nat, n: nat)
    requires n > 0
    ensures RunPreview(p, Shows(k, n)) == PreviewStep(RunPreview(p, Shows(k, n - 1)), Show(Alternate(k + n - 1)))
  {
    PlacesSnoc(k, n);
    assert Shows(k, n)[n - 1] == Show(Alternate(k + n - 1));
  }

  /** The condition on refused steps cannot be dropped: cut the history, go back until it refuses, and
      show places again until the history is full. At the end nothing tells the two apart. */
  lemma AgreementRegained()
    ensures var ops := Shows(1, CAPACITY) + Backs(CAPACITY) + Shows(0, CAPACITY);
            && !NeverOverflows(Home, ops, |ops|)
            && AgreesFully(HistoryAt(Home, ops, |ops|), PreviewAt(Home, ops, |ops|))
  {
    var a, b, c := Shows(1, CAPACITY), Backs(CAPACITY), Shows(0, CAPACITY);
    var ops, h0, p0 := a + b + c, History([Home], 0), Preview(Home, [], []);
    OverflowIsReached(ops);
    RunsCompose(h0, p0, a, b);
    RunsCompose(h0, p0, a + b, c);
    FirstCut();
    FirstShowsPreview(CAPACITY);
    var p1 := RunPreview(p0, a);
    ThenBacks(CAPACITY, p1);
    SecondCut();
    ThenShowsPreview(CAPACITY, RunPreview(p1, b));
    assert Places(0, CAPACITY)[..CAPACITY - 1] == Places(0, CAPACITY - 1);
    assert ops[..|ops|] == ops;
  }

  lemma OverflowIsReached(ops: seq<Op>)
    requires Shows(1, CAPACITY) <= ops
    ensures !NeverOverflows(Home, ops, |ops|)
  {
    var m := CAPACITY - 1;
    assert ops[..m] == Shows(1, m);
    FirstShows(m);
    FirstShowsPreview(m);
    assert ops[m] == Show(Alternate(CAPACITY));
    assert Overflows(HistoryAt(Home, ops, m), PreviewAt(Home, ops, m), ops[m]);
  }
}
