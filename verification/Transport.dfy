/**
 The callback lifetime protocol between the transport and the core, as interleaved steps of any number
 of threads. Each critical section and each call into the core is split at the points where another
 thread, or a delivery, can come in between.
 */
module Transport {
  import opened Basics

  type Token = nat
  type Box = nat
  type Thread = nat

  /** Where a thread stands inside `subscribe`, `unsubscribe` or `shutdown`. */
  datatype Pc =
    | Idle
    | SubLocked(box: Box)                       // holds the lock, saw that nothing is shut down
    | SubIssued(box: Box, token: Token)         // the core returned a token; the box is not stored yet
    | UnsubLocked(token: Token)                 // holds the lock, found the token
    | UnsubCalled(token: Token)                 // inside the core's unsubscribe
    | UnsubReturned(token: Token)               // the core has returned; the box is still stored
    | ShutUnsub(todo: set<Token>)               // between two unsubscribe calls of the shutdown loop
    | ShutCalled(token: Token, todo: set<Token>)
    | ShutFree                                  // boxes released, the handle about to be freed
  {
    predicate HoldsLock() { SubLocked? || SubIssued? || UnsubLocked? || UnsubCalled? || UnsubReturned? }
    predicate Closing() { ShutUnsub? || ShutCalled? || ShutFree? }
    /** The next or current thing the thread does is a call into the core. */
    predicate UsesHandle() { SubLocked? || UnsubLocked? || UnsubCalled? || ShutUnsub? || ShutCalled? || ShutFree? }
  }

  datatype State = State(
    lock: Option<Thread>, isShutDown: bool, boxes: map<Token, Box>, pcs: map<Thread, Pc>,
    nextBox: Box,
    // the core's side: who may be called back, and whether a callback is running
    nextToken: Token, registered: map<Token, Box>, inFlight: Option<Token>, freed: nat,
    // history: tokens passed to the core's unsubscribe, in order, and the thread that closes
    unsubscribed: seq<Token>, closer: Option<Thread>)
  {
    function PcOf(t: Thread): Pc { if t in pcs then pcs[t] else Idle }

    function At(t: Thread, pc: Pc): State { this.(pcs := pcs[t := pc]) }

    /** Something on the Swift side keeps the box alive. */
    ghost predicate Retained(b: Box) {
      (exists k :: k in boxes && boxes[k] == b) ||
      (exists t :: t in pcs && (pcs[t] == SubLocked(b) || (pcs[t].SubIssued? && pcs[t].box == b)))
    }
  }

  const START := State(None, false, map[], map[], 0, 1, map[], None, 0, [], None)

  datatype Step =
    | SubscribeEnter(t: Thread)
    | SubscribeIssue(t: Thread)
    | SubscribeFail(t: Thread)
    | SubscribeStore(t: Thread)
    | UnsubscribeEnter(t: Thread, token: Token)
    | UnsubscribeCall(t: Thread)
    | UnsubscribeReturn(t: Thread)
    | UnsubscribeDone(t: Thread)
    | ShutdownEnter(t: Thread)
    | ShutdownCall(t: Thread, token: Token)
    | ShutdownReturn(t: Thread)
    | ShutdownClear(t: Thread)
    | ShutdownFree(t: Thread)
    | DeliverBegin(token: Token)
    | DeliverEnd

  predicate Enabled(s: State, a: Step) {
    match a
    case SubscribeEnter(t) => s.PcOf(t).Idle? && s.lock.None? && !s.isShutDown
    case SubscribeIssue(t) => s.PcOf(t).SubLocked?
    case SubscribeFail(t) => s.PcOf(t).SubLocked?
    case SubscribeStore(t) => s.PcOf(t).SubIssued?
    case UnsubscribeEnter(t, k) => s.PcOf(t).Idle? && s.lock.None? && !s.isShutDown && k in s.boxes
    case UnsubscribeCall(t) => s.PcOf(t).UnsubLocked?
    // the core's unsubscribe returns only once no callback for that token is running
    case UnsubscribeReturn(t) => s.PcOf(t).UnsubCalled? && s.inFlight != Some(s.PcOf(t).token)
    case UnsubscribeDone(t) => s.PcOf(t).UnsubReturned?
    case ShutdownEnter(t) => s.PcOf(t).Idle? && s.lock.None? && !s.isShutDown
    case ShutdownCall(t, k) => s.PcOf(t).ShutUnsub? && k in s.PcOf(t).todo
    case ShutdownReturn(t) => s.PcOf(t).ShutCalled? && s.inFlight != Some(s.PcOf(t).token)
    case ShutdownClear(t) => s.PcOf(t) == ShutUnsub({}) && s.lock.None?
    case ShutdownFree(t) => s.PcOf(t).ShutFree?
    case DeliverBegin(k) => k in s.registered && s.inFlight.None?
    case DeliverEnd => s.inFlight.Some?
  }

  function Apply(s: State, a: Step): State
    requires Enabled(s, a)
  {
    match a
    case SubscribeEnter(t) => s.(lock := Some(t), nextBox := s.nextBox + 1).At(t, SubLocked(s.nextBox))
    case SubscribeIssue(t) =>
      var b := s.PcOf(t).box;
      s.(registered := s.registered[s.nextToken := b], nextToken := s.nextToken + 1).At(t, SubIssued(b, s.nextToken))
    case SubscribeFail(t) => s.(lock := None).At(t, Idle)
    case SubscribeStore(t) => s.(boxes := s.boxes[s.PcOf(t).token := s.PcOf(t).box], lock := None).At(t, Idle)
    case UnsubscribeEnter(t, k) => s.(lock := Some(t)).At(t, UnsubLocked(k))
    case UnsubscribeCall(t) =>
      var k := s.PcOf(t).token;
      s.(unsubscribed := s.unsubscribed + [k]).At(t, UnsubCalled(k))
    case UnsubscribeReturn(t) =>
      var k := s.PcOf(t).token;
      s.(registered := s.registered - {k}).At(t, UnsubReturned(k))
    case UnsubscribeDone(t) => s.(boxes := s.boxes - {s.PcOf(t).token}, lock := None).At(t, Idle)
    case ShutdownEnter(t) => s.(isShutDown := true, closer := Some(t)).At(t, ShutUnsub(s.boxes.Keys))
    case ShutdownCall(t, k) =>
      s.(unsubscribed := s.unsubscribed + [k]).At(t, ShutCalled(k, s.PcOf(t).todo - {k}))
    case ShutdownReturn(t) =>
      var pc := s.PcOf(t);
      s.(registered := s.registered - {pc.token}).At(t, ShutUnsub(pc.todo))
    case ShutdownClear(t) => s.(boxes := map[]).At(t, ShutFree)
    case ShutdownFree(t) => s.(freed := s.freed + 1, closer := None).At(t, Idle)
    case DeliverBegin(k) => s.(inFlight := Some(k))
    case DeliverEnd => s.(inFlight := None)
  }

  // ----- the inductive invariant

  /** Exactly the lock's holder is inside a critical section; exactly the closer is shutting down. */
  ghost predicate Exclusive(s: State) {
    && (forall t :: t in s.pcs && s.pcs[t].HoldsLock() ==> s.lock == Some(t))
    && (forall t :: t in s.pcs && s.pcs[t].Closing() ==> s.closer == Some(t))
    && (s.lock.Some? ==> s.PcOf(s.lock.value).HoldsLock())
    && (s.closer.Some? ==> s.PcOf(s.closer.value).Closing())
  }

  /** Tokens are handed out once and in order. */
  ghost predicate Counted(s: State) {
    && s.nextToken > 0
    && (forall k :: k in s.registered || k in s.boxes || k in s.unsubscribed ==> k < s.nextToken)
    && (forall i, j :: 0 <= i < j < |s.unsubscribed| ==> s.unsubscribed[i] != s.unsubscribed[j])
    && (s.inFlight.Some? ==> s.inFlight.value in s.registered)
  }

  /** While open, what the core may call back is what is stored, up to the holder's half-done step. */
  ghost predicate OpenInv(s: State) {
    && s.freed == 0 && s.closer.None?
    && var pc := if s.lock.Some? then s.PcOf(s.lock.value) else Idle;
       match pc
       case SubIssued(b, k) => k !in s.boxes && s.registered == s.boxes[k := b] && Fresh(s, s.registered.Keys)
       case UnsubLocked(k) => k in s.boxes && s.registered == s.boxes && Fresh(s, s.registered.Keys)
       case UnsubCalled(k) => k in s.boxes && s.registered == s.boxes && Fresh(s, s.registered.Keys - {k})
       case UnsubReturned(k) => k in s.boxes && s.registered == s.boxes - {k} && Fresh(s, s.registered.Keys)
       case _ => s.registered == s.boxes && Fresh(s, s.registered.Keys)
  }

  /** After shutdown began, the core may call back exactly what is left to unsubscribe. */
  ghost predicate ClosedInv(s: State) {
    && s.lock.None?
    && match (if s.closer.Some? then s.PcOf(s.closer.value) else Idle)
       case ShutUnsub(todo) =>
         s.freed == 0 && s.registered.Keys == todo && Stored(s, todo) && Fresh(s, todo)
       case ShutCalled(k, todo) =>
         s.freed == 0 && k !in todo && s.registered.Keys == todo + {k} && Stored(s, todo + {k}) && Fresh(s, todo)
       case ShutFree => s.freed == 0 && s.registered == map[] && s.boxes == map[]
       case _ => s.freed == 1 && s.registered == map[] && s.boxes == map[]
  }

  ghost predicate Fresh(s: State, ks: set<Token>) {
    forall k :: k in ks ==> k !in s.unsubscribed
  }

  ghost predicate Stored(s: State, ks: set<Token>) {
    forall k :: k in ks ==> k in s.boxes && k in s.registered && s.boxes[k] == s.registered[k]
  }

  ghost predicate Inv(s: State) {
    Exclusive(s) && Counted(s) && (if s.isShutDown then ClosedInv(s) else OpenInv(s))
  }

  predicate IsShutdownStep(a: Step) {
    a.ShutdownEnter? || a.ShutdownCall? || a.ShutdownReturn? || a.ShutdownClear? || a.ShutdownFree?
  }

  lemma ExclusiveKeptOpen(s: State, a: Step)
    requires Inv(s) && Enabled(s, a) && !IsShutdownStep(a)
    ensures Exclusive(Apply(s, a))
  {
  }

  lemma ExclusiveKeptClosing(s: State, a: Step)
    requires Inv(s) && Enabled(s, a) && IsShutdownStep(a)
    ensures Exclusive(Apply(s, a))
  {
  }

  lemma CountedKept(s: State, a: Step)
    requires Inv(s) && Enabled(s, a)
    ensures Counted(Apply(s, a))
  {
  }

  lemma PhaseKeptOpen(s: State, a: Step)
    requires Inv(s) && Enabled(s, a) && !IsShutdownStep(a)
    ensures var s' := Apply(s, a); if s'.isShutDown then ClosedInv(s') else OpenInv(s')
  {
  }

  lemma PhaseKeptClosing(s: State, a: Step)
    requires Inv(s) && Enabled(s, a) && IsShutdownStep(a)
    ensures var s' := Apply(s, a); if s'.isShutDown then ClosedInv(s') else OpenInv(s')
  {
  }

  lemma StepKeepsInv(s: State, a: Step)
    requires Inv(s) && Enabled(s, a)
    ensures Inv(Apply(s, a))
  {
    CountedKept(s, a);
    if IsShutdownStep(a) {
      ExclusiveKeptClosing(s, a);
      PhaseKeptClosing(s, a);
    } else {
      ExclusiveKeptOpen(s, a);
      PhaseKeptOpen(s, a);
    }
  }

  /** Every token ever issued is still registered or has been unsubscribed. */
  ghost predicate Accounted(s: State) {
    && (forall k :: 0 < k < s.nextToken ==> k in s.registered || k in s.unsubscribed)
    && (forall t :: t in s.pcs && (s.pcs[t].UnsubCalled? || s.pcs[t].ShutCalled?) ==> s.pcs[t].token in s.unsubscribed)
  }

  /** The list of unsubscribed tokens only grows. */
  lemma StaysUnsubscribed(s: State, a: Step, k: Token)
    requires Enabled(s, a) && k in s.unsubscribed
    ensures k in Apply(s, a).unsubscribed
  {
    var i :| 0 <= i < |s.unsubscribed| && s.unsubscribed[i] == k;
    assert Apply(s, a).unsubscribed[i] == k;
  }

  lemma TokensStayAccounted(s: State, a: Step, k: Token)
    requires Enabled(s, a) && Accounted(s) && 0 < k < Apply(s, a).nextToken
    ensures k in Apply(s, a).registered || k in Apply(s, a).unsubscribed
  {
    if k in s.unsubscribed { StaysUnsubscribed(s, a, k); }
  }

  lemma CallsStayRecorded(s: State, a: Step, t: Thread)
    requires Enabled(s, a) && Accounted(s) && t in Apply(s, a).pcs
    requires Apply(s, a).pcs[t].UnsubCalled? || Apply(s, a).pcs[t].ShutCalled?
    ensures Apply(s, a).pcs[t].token in Apply(s, a).unsubscribed
  {
    var s' := Apply(s, a);
    if (a.UnsubscribeCall? || a.ShutdownCall?) && t == a.t {
      assert s'.unsubscribed[|s.unsubscribed|] == s'.pcs[t].token;
    } else {
      assert t in s.pcs && s.pcs[t] == s'.pcs[t];
      StaysUnsubscribed(s, a, s.pcs[t].token);
    }
  }

  lemma AccountedKept(s: State, a: Step)
    requires Enabled(s, a) && Accounted(s)
    ensures Accounted(Apply(s, a))
  {
    var s' := Apply(s, a);
    forall k | 0 < k < s'.nextToken ensures k in s'.registered || k in s'.unsubscribed {
      TokensStayAccounted(s, a, k);
    }
    forall t | t in s'.pcs && (s'.pcs[t].UnsubCalled? || s'.pcs[t].ShutCalled?)
      ensures s'.pcs[t].token in s'.unsubscribed
    {
      CallsStayRecorded(s, a, t);
    }
  }

  // ----- what it gives on every run

  ghost predicate IsRun(states: seq<State>, steps: seq<Step>) {
    && |states| == |steps| + 1 && states[0] == START
    && forall n :: 0 <= n < |steps| ==> Enabled(states[n], steps[n]) && states[n + 1] == Apply(states[n], steps[n])
  }

  lemma {:induction false} RunKeepsInv(states: seq<State>, steps: seq<Step>, n: nat)
    requires IsRun(states, steps) && n <= |steps|
    ensures Inv(states[n]) && Accounted(states[n])
  {
    if n > 0 {
      RunKeepsInv(states, steps, n - 1);
      AccountedKept(states[n - 1], steps[n - 1]);
      StepKeepsInv(states[n - 1], steps[n - 1]);
    }
  }

  /** Every box the core may still be handed is kept alive. */
  lemma RegisteredIsRetained(s: State, k: Token)
    requires Inv(s) && k in s.registered
    ensures s.Retained(s.registered[k])
  {
    if k in s.boxes && s.boxes[k] == s.registered[k] {
    } else {
      var t := s.lock.value;
      assert t in s.pcs && s.pcs[t].SubIssued? && s.pcs[t].box == s.registered[k];
    }
  }

  /** No thread is about to call, or is inside, the core once the handle is freed. */
  lemma FreedIsUnused(s: State, t: Thread)
    requires Inv(s) && s.freed > 0
    ensures !s.PcOf(t).UsesHandle()
  {
    if t in s.pcs {
      assert !s.pcs[t].HoldsLock() && !s.pcs[t].Closing();
    }
  }

  /** The callback lifetime theorem, in every state of every interleaving: a box is retained whenever
      the core may still deliver on its token, and in particular while a delivery runs; each token is
      passed to the core's unsubscribe at most once; the handle is freed at most once, with every token
      unsubscribed, nothing registered, nothing in flight and nobody using it. */
  lemma CallbackLifetime(states: seq<State>, steps: seq<Step>, n: nat)
    requires IsRun(states, steps) && n <= |steps|
    ensures var s := states[n];
            && (forall k :: k in s.registered ==> s.Retained(s.registered[k]))
            && (s.inFlight.Some? ==> s.inFlight.value in s.registered)
            && (forall i, j :: 0 <= i < j < |s.unsubscribed| ==> s.unsubscribed[i] != s.unsubscribed[j])
            && s.freed <= 1
            && (s.freed == 1 ==>
                  && s.registered == map[] && s.boxes == map[] && s.inFlight.None?
                  && (forall k :: 0 < k < s.nextToken ==> k in s.unsubscribed)
                  && forall t :: !s.PcOf(t).UsesHandle())
            && (!s.isShutDown && s.lock.None? ==> s.boxes == s.registered)
  {
    var s := states[n];
    RunKeepsInv(states, steps, n);
    forall k | k in s.registered ensures s.Retained(s.registered[k]) {
      RegisteredIsRetained(s, k);
    }
    if s.freed == 1 {
      forall t ensures !s.PcOf(t).UsesHandle() { FreedIsUnused(s, t); }
    }
  }
}
