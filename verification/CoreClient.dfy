/**
 The event plumbing: two drop-oldest buffers in series, a decode pump between them, and the loss
 counters. The core's dispatcher thread, the pump and the consumer interleave freely; a yield and the
 counter it may have to bump are separate steps.
 */
module CoreClient {
  import opened Basics

  const BUFFER_CAPACITY := 4096

  /** A value with the position at which its payload was emitted. */
  datatype Tagged<T> = Tagged(no: nat, value: T)

  /** What the pump task is doing. `Owing`: its yield dropped an event that is not counted yet. */
  datatype Pump<E> = Waiting | Holding(json: Tagged<string>) | Decoded(event: Tagged<E>) | Owing

  datatype Pipeline<E> = Pipeline(
    emitted: seq<string>,
    raw: seq<Tagged<string>>,
    callbackOwes: bool,
    pump: Pump<E>,
    events: seq<Tagged<E>>,
    received: seq<Tagged<E>>,
    droppedEvents: nat, decodeFailures: nat, eventsDelivered: nat)
  {
    predicate IsHealthy() { droppedEvents == 0 && decodeFailures == 0 }

    /** Drops that have happened and are not counted yet. */
    function Owed(): nat { (if callbackOwes then 1 else 0) + (if pump.Owing? then 1 else 0) }

    function InHand(): nat { if pump.Holding? || pump.Decoded? then 1 else 0 }
  }

  /** `.bufferingNewest`: a full buffer loses its oldest element. */
  function Yielded<T>(buffer: seq<T>, x: T): seq<T> {
    if |buffer| < BUFFER_CAPACITY then buffer + [x] else buffer[1..] + [x]
  }

  datatype Step =
    | Emit(json: string)
    | CountCallbackDrop
    | Take
    | Decode
    | YieldEvent
    | CountPumpDrop
    | Receive

  predicate Enabled<E>(s: Pipeline<E>, a: Step) {
    match a
    case Emit(_) => !s.callbackOwes
    case CountCallbackDrop => s.callbackOwes
    case Take => s.pump.Waiting? && s.raw != []
    case Decode => s.pump.Holding?
    case YieldEvent => s.pump.Decoded?
    case CountPumpDrop => s.pump.Owing?
    case Receive => s.events != []
  }

  function Apply<E>(decode: string -> Option<E>, s: Pipeline<E>, a: Step): Pipeline<E>
    requires Enabled(s, a)
  {
    match a
    case Emit(json) =>
      s.(emitted := s.emitted + [json], raw := Yielded(s.raw, Tagged(|s.emitted|, json)),
         callbackOwes := |s.raw| >= BUFFER_CAPACITY)
    case CountCallbackDrop => s.(callbackOwes := false, droppedEvents := s.droppedEvents + 1)
    case Take => s.(pump := Holding(s.raw[0]), raw := s.raw[1..])
    case Decode =>
      (match decode(s.pump.json.value)
       case None => s.(pump := Waiting, decodeFailures := s.decodeFailures + 1)
       case Some(e) => s.(pump := Decoded(Tagged(s.pump.json.no, e)), eventsDelivered := s.eventsDelivered + 1))
    case YieldEvent =>
      s.(events := Yielded(s.events, s.pump.event), pump := if |s.events| >= BUFFER_CAPACITY then Owing else Waiting)
    case CountPumpDrop => s.(pump := Waiting, droppedEvents := s.droppedEvents + 1)
    case Receive => s.(received := s.received + [s.events[0]], events := s.events[1..])
  }

  /** Each buffer keeps the newest: after a yield it is the last part, of at most the buffer's size, of what
      it held with the new element behind. Nothing else moves it but taking its first element. */
  lemma BuffersKeepNewest<E>(decode: string -> Option<E>, s: Pipeline<E>, a: Step)
    requires Enabled(s, a) && |s.raw| <= BUFFER_CAPACITY && |s.events| <= BUFFER_CAPACITY
    ensures var s' := Apply(decode, s, a);
            match a
            case Emit(json) => s'.events == s.events && IsNewest(s'.raw, s.raw + [Tagged(|s.emitted|, json)])
            case YieldEvent => s'.raw == s.raw && IsNewest(s'.events, s.events + [s.pump.event])
            case Take => s'.events == s.events && s'.pump.Holding? && s.raw == [s'.pump.json] + s'.raw
            case Receive => s'.raw == s.raw && s.events == [s'.received[|s.received|]] + s'.events
            case _ => s'.raw == s.raw && s'.events == s.events
  {
  }

  predicate IsNewest<T(==)>(kept: seq<T>, all: seq<T>) {
    |kept| == Min(|all|, BUFFER_CAPACITY) && kept == all[|all| - |kept|..]
  }

  // ----- what is still in the line, from the consumer's hand back to the callback

  function Numbers<T>(xs: seq<Tagged<T>>): (r: seq<nat>)
    ensures |r| == |xs| && forall k :: 0 <= k < |r| ==> r[k] == xs[k].no
  {
    seq(|xs|, k requires 0 <= k < |xs| => xs[k].no)
  }

  function HandNumbers<E>(p: Pump<E>): seq<nat> {
    match p
    case Holding(j) => [j.no]
    case Decoded(e) => [e.no]
    case _ => []
  }

  function Join(a: seq<nat>, b: seq<nat>, c: seq<nat>, d: seq<nat>): seq<nat> {
    a + (b + (c + d))
  }

  function Line<E>(s: Pipeline<E>): seq<nat> {
    Join(Numbers(s.received), Numbers(s.events), HandNumbers(s.pump), Numbers(s.raw))
  }

  ghost predicate Increasing(xs: seq<nat>) {
    forall i, j :: 0 <= i < j < |xs| ==> xs[i] < xs[j]
  }

  ghost predicate Bounded(xs: seq<nat>, n: nat) {
    forall i :: 0 <= i < |xs| ==> xs[i] < n
  }

  /** Payloads and decoded events are those of the emission they are tagged with. */
  ghost predicate Genuine<E>(decode: string -> Option<E>, s: Pipeline<E>) {
    && (forall x :: x in s.raw ==> x.no < |s.emitted| && x.value == s.emitted[x.no])
    && (s.pump.Holding? ==> s.pump.json.no < |s.emitted| && s.pump.json.value == s.emitted[s.pump.json.no])
    && (s.pump.Decoded? ==>
          s.pump.event.no < |s.emitted| && decode(s.emitted[s.pump.event.no]) == Some(s.pump.event.value))
    && (forall x :: x in s.events ==> x.no < |s.emitted| && decode(s.emitted[x.no]) == Some(x.value))
    && (forall x :: x in s.received ==> x.no < |s.emitted| && decode(s.emitted[x.no]) == Some(x.value))
  }

  // ----- order survives each kind of step

  /** At most one element has gone, from anywhere. */
  ghost predicate Shrinks(before: seq<nat>, after: seq<nat>) {
    after == before || exists k :: 0 <= k < |before| && after == before[..k] + before[k + 1..]
  }

  lemma ShrinkKeepsOrder(before: seq<nat>, after: seq<nat>, n: nat)
    requires Shrinks(before, after) && Increasing(before) && Bounded(before, n)
    ensures Increasing(after) && Bounded(after, n)
  {
    if after != before {
      var k :| 0 <= k < |before| && after == before[..k] + before[k + 1..];
      forall i | 0 <= i < |after| ensures after[i] == before[if i < k then i else i + 1] {}
    }
  }

  lemma GrowKeepsOrder(a: seq<nat>, n: nat)
    requires Increasing(a) && Bounded(a, n)
    ensures Increasing(a + [n]) && Bounded(a + [n], n + 1)
  {
  }

  lemma NumbersHead<T>(xs: seq<Tagged<T>>)
    requires xs != []
    ensures Numbers(xs) == [xs[0].no] + Numbers(xs[1..])
  {
  }

  lemma NumbersSnoc<T>(xs: seq<Tagged<T>>, x: Tagged<T>)
    ensures Numbers(xs + [x]) == Numbers(xs) + [x.no]
  {
  }

  // Elements moving between neighbouring segments, and segments losing their oldest element.

  lemma MoveToFirst(a: seq<nat>, x: nat, b: seq<nat>, c: seq<nat>, d: seq<nat>)
    ensures Join(a + [x], b, c, d) == Join(a, [x] + b, c, d)
  {
  }

  lemma MoveToSecond(a: seq<nat>, b: seq<nat>, x: nat, d: seq<nat>)
    ensures Join(a, b + [x], [], d) == Join(a, b, [x], d)
  {
  }

  lemma MoveToThird(a: seq<nat>, b: seq<nat>, x: nat, d: seq<nat>)
    ensures Join(a, b, [x], d) == Join(a, b, [], [x] + d)
  {
  }

  lemma LoseFromSecond(a: seq<nat>, x: nat, b: seq<nat>, c: seq<nat>, d: seq<nat>)
    ensures Shrinks(Join(a, [x] + b, c, d), Join(a, b, c, d))
  {
    var all := Join(a, [x] + b, c, d);
    assert all[..|a|] == a && all[|a| + 1..] == b + (c + d);
  }

  lemma LoseThird(a: seq<nat>, b: seq<nat>, x: nat, d: seq<nat>)
    ensures Shrinks(Join(a, b, [x], d), Join(a, b, [], d))
  {
    var all, k := Join(a, b, [x], d), |a| + |b|;
    assert all[..k] == a + b && all[k + 1..] == d;
    assert Join(a, b, [], d) == all[..k] + all[k + 1..];
  }

  lemma LoseFromFourth(a: seq<nat>, b: seq<nat>, c: seq<nat>, x: nat, d: seq<nat>)
    ensures Shrinks(Join(a, b, c, [x] + d), Join(a, b, c, d))
  {
    var all, k := Join(a, b, c, [x] + d), |a| + |b| + |c|;
    assert all[..k] == a + b + c && all[k + 1..] == d;
    assert Join(a, b, c, d) == all[..k] + all[k + 1..];
  }

  lemma GrowFourth(a: seq<nat>, b: seq<nat>, c: seq<nat>, d: seq<nat>, x: nat)
    ensures Join(a, b, c, d + [x]) == Join(a, b, c, d) + [x]
  {
  }

  lemma EmitMoves<E>(decode: string -> Option<E>, s: Pipeline<E>, json: string) returns (rest: seq<nat>)
    requires Enabled(s, Emit(json))
    ensures Shrinks(Line(s), rest) && Line(Apply(decode, s, Emit(json))) == rest + [|s.emitted|]
  {
    var a, b, c := Numbers(s.received), Numbers(s.events), HandNumbers(s.pump);
    var x := Tagged(|s.emitted|, json);
    if |s.raw| < BUFFER_CAPACITY {
      rest := Line(s);
      NumbersSnoc(s.raw, x);
      GrowFourth(a, b, c, Numbers(s.raw), x.no);
    } else {
      rest := Join(a, b, c, Numbers(s.raw[1..]));
      NumbersHead(s.raw);
      LoseFromFourth(a, b, c, s.raw[0].no, Numbers(s.raw[1..]));
      NumbersSnoc(s.raw[1..], x);
      GrowFourth(a, b, c, Numbers(s.raw[1..]), x.no);
    }
  }

  lemma YieldMoves<E>(decode: string -> Option<E>, s: Pipeline<E>)
    requires Enabled(s, YieldEvent)
    ensures Shrinks(Line(s), Line(Apply(decode, s, YieldEvent)))
  {
    var a, d, x := Numbers(s.received), Numbers(s.raw), s.pump.event;
    if |s.events| < BUFFER_CAPACITY {
      NumbersSnoc(s.events, x);
      MoveToSecond(a, Numbers(s.events), x.no, d);
    } else {
      NumbersHead(s.events);
      LoseFromSecond(a, s.events[0].no, Numbers(s.events[1..]), [x.no], d);
      NumbersSnoc(s.events[1..], x);
      MoveToSecond(a, Numbers(s.events[1..]), x.no, d);
    }
  }

  lemma OtherMoves<E>(decode: string -> Option<E>, s: Pipeline<E>, a: Step)
    requires Enabled(s, a) && !a.Emit? && !a.YieldEvent?
    ensures Shrinks(Line(s), Line(Apply(decode, s, a)))
  {
    match a
    case Take =>
      NumbersHead(s.raw);
      MoveToThird(Numbers(s.received), Numbers(s.events), s.raw[0].no, Numbers(s.raw[1..]));
    case Receive =>
      NumbersHead(s.events);
      NumbersSnoc(s.received, s.events[0]);
      MoveToFirst(Numbers(s.received), s.events[0].no, Numbers(s.events[1..]), HandNumbers(s.pump), Numbers(s.raw));
    case Decode => LoseThird(Numbers(s.received), Numbers(s.events), s.pump.json.no, Numbers(s.raw));
    case CountCallbackDrop =>
    case CountPumpDrop =>
  }

  lemma GenuineKept<E>(decode: string -> Option<E>, s: Pipeline<E>, a: Step)
    requires Enabled(s, a) && Genuine(decode, s)
    ensures Genuine(decode, Apply(decode, s, a))
  {
  }

  /** Nothing appears or disappears without being counted, or owed to a counter. */
  ghost predicate Conserved<E>(s: Pipeline<E>) {
    && |s.emitted| == |s.received| + |s.events| + s.InHand() + |s.raw| + s.droppedEvents + s.decodeFailures + s.Owed()
    && |s.raw| <= BUFFER_CAPACITY && |s.events| <= BUFFER_CAPACITY
    && |s.received| + |s.events| + (if s.pump.Decoded? then 1 else 0) <= s.eventsDelivered
    && s.eventsDelivered + s.decodeFailures + |s.raw| + (if s.pump.Holding? then 1 else 0) <= |s.emitted|
  }

  lemma ConservedKept<E>(decode: string -> Option<E>, s: Pipeline<E>, a: Step)
    requires Enabled(s, a) && Conserved(s)
    ensures Conserved(Apply(decode, s, a))
  {
  }

  ghost predicate Inv<E>(decode: string -> Option<E>, s: Pipeline<E>) {
    Genuine(decode, s) && Conserved(s) && Increasing(Line(s)) && Bounded(Line(s), |s.emitted|)
  }

  lemma OrderKept<E>(decode: string -> Option<E>, s: Pipeline<E>, a: Step)
    requires Enabled(s, a) && Increasing(Line(s)) && Bounded(Line(s), |s.emitted|)
    ensures var s' := Apply(decode, s, a); Increasing(Line(s')) && Bounded(Line(s'), |s'.emitted|)
  {
    var s' := Apply(decode, s, a);
    if a.Emit? {
      var rest := EmitMoves(decode, s, a.json);
      ShrinkKeepsOrder(Line(s), rest, |s.emitted|);
      GrowKeepsOrder(rest, |s.emitted|);
    } else {
      if a.YieldEvent? { YieldMoves(decode, s); } else { OtherMoves(decode, s, a); }
      ShrinkKeepsOrder(Line(s), Line(s'), |s.emitted|);
    }
  }

  // ----- every run

  ghost predicate IsRun<E(!new)>(decode: string -> Option<E>, states: seq<Pipeline<E>>, steps: seq<Step>) {
    && |states| == |steps| + 1
    && states[0] == Pipeline([], [], false, Waiting, [], [], 0, 0, 0)
    && forall n :: 0 <= n < |steps| ==>
         Enabled(states[n], steps[n]) && states[n + 1] == Apply(decode, states[n], steps[n])
  }

  lemma {:induction false} RunKeepsInv<E(!new)>(decode: string -> Option<E>, states: seq<Pipeline<E>>,
                                         steps: seq<Step>, n: nat)
    requires IsRun(decode, states, steps) && n <= |steps|
    ensures Inv(decode, states[n])
  {
    if n > 0 {
      RunKeepsInv(decode, states, steps, n - 1);
      GenuineKept(decode, states[n - 1], steps[n - 1]);
      ConservedKept(decode, states[n - 1], steps[n - 1]);
      OrderKept(decode, states[n - 1], steps[n - 1]);
    }
  }

  /** Conservation and order in every reachable state: each emission is received, buffered, in hand,
      counted as lost, or about to be counted; and the consumer has seen an in-order subsequence of
      the emissions, each decoded from its own payload. */
  lemma EveryEventIsAccountedFor<E(!new)>(decode: string -> Option<E>, states: seq<Pipeline<E>>, steps: seq<Step>,
                                   n: nat)
    requires IsRun(decode, states, steps) && n <= |steps|
    ensures var s := states[n];
            && |s.emitted| == |s.received| + |s.events| + s.InHand() + |s.raw| +
                              s.droppedEvents + s.decodeFailures + s.Owed()
            && (forall i :: 0 <= i < |s.received| ==>
                  s.received[i].no < |s.emitted| && decode(s.emitted[s.received[i].no]) == Some(s.received[i].value))
            && (forall i, j :: 0 <= i < j < |s.received| ==> s.received[i].no < s.received[j].no)
            && |s.received| + |s.events| <= s.eventsDelivered <= |s.emitted| - s.decodeFailures - |s.raw|
  {
    var s := states[n];
    RunKeepsInv(decode, states, steps, n);
    forall i, j | 0 <= i < j < |s.received| ensures s.received[i].no < s.received[j].no {
      assert Line(s)[i] == s.received[i].no && Line(s)[j] == s.received[j].no;
    }
  }

  /** Strictly increasing numbers below their own count are all of them. */
  lemma {:induction false} FullLine(xs: seq<nat>, i: nat)
    requires Increasing(xs) && Bounded(xs, |xs|) && i < |xs|
    ensures xs[i] == i
  {
    AtLeast(xs, i);
    AtMost(xs, i);
  }

  lemma {:induction false} AtLeast(xs: seq<nat>, i: nat)
    requires Increasing(xs) && i < |xs|
    ensures xs[i] >= i
  {
    if i > 0 { AtLeast(xs, i - 1); }
  }

  lemma {:induction false} AtMost(xs: seq<nat>, i: nat)
    requires Increasing(xs) && Bounded(xs, |xs|) && i < |xs|
    ensures xs[i] <= i
    decreases |xs| - i
  {
    if i + 1 < |xs| { AtMost(xs, i + 1); }
  }

  /** While the diagnostics are healthy, and no drop is still between its yield and its counter, the
      consumer has received an exact prefix of what was emitted. */
  lemma HealthyMeansExactPrefix<E(!new)>(decode: string -> Option<E>, states: seq<Pipeline<E>>, steps: seq<Step>,
                                  n: nat, i: nat)
    requires IsRun(decode, states, steps) && n <= |steps|
    requires states[n].IsHealthy() && states[n].Owed() == 0 && i < |states[n].received|
    ensures i < |states[n].emitted| && decode(states[n].emitted[i]) == Some(states[n].received[i].value)
  {
    var s := states[n];
    RunKeepsInv(decode, states, steps, n);
    assert |Line(s)| == |s.emitted|;
    FullLine(Line(s), i);
    assert Line(s)[i] == s.received[i].no;
  }

  // ----- exactly when the consumer holds a prefix

  /** The emissions that are nowhere in the line any more. */
  ghost function Missing(xs: seq<nat>, n: nat): set<nat> {
    set m: nat | m < n && m !in xs
  }

  lemma {:induction false} MissingCount(xs: seq<nat>, n: nat)
    requires Increasing(xs) && Bounded(xs, n)
    ensures |Missing(xs, n)| == n - |xs|
    decreases |xs|, n
  {
    if xs == [] {
      if n > 0 {
        MissingCount(xs, n - 1);
        assert Missing(xs, n) == Missing(xs, n - 1) + {n - 1};
      }
    } else {
      var front, last := xs[..|xs| - 1], xs[|xs| - 1];
      MissingCount(front, n);
      assert xs == front + [last];
      assert Missing(front, n) == Missing(xs, n) + {last};
    }
  }

  /** A prefix of an increasing line counts up from zero exactly when everything missing comes later. */
  lemma PrefixIff(xs: seq<nat>, n: nat, r: nat)
    requires Increasing(xs) && Bounded(xs, n) && r <= |xs|
    ensures (forall i :: 0 <= i < r ==> xs[i] == i) <==> (forall m :: m in Missing(xs, n) ==> r <= m)
  {
    if forall i :: 0 <= i < r ==> xs[i] == i {
      forall m: nat | m < r ensures m !in Missing(xs, n) { assert xs[m] in xs; }
    }
    if forall m :: m in Missing(xs, n) ==> r <= m {
      forall i | 0 <= i < r ensures xs[i] == i { NothingSkipped(xs, n, r, i); }
    }
  }

  lemma {:induction false} NothingSkipped(xs: seq<nat>, n: nat, r: nat, i: nat)
    requires Increasing(xs) && Bounded(xs, n) && i < r <= |xs|
    requires forall m :: m in Missing(xs, n) ==> r <= m
    ensures xs[i] == i
  {
    AtLeast(xs, i);
    if i > 0 { NothingSkipped(xs, n, r, i - 1); }
    assert i !in Missing(xs, n);
    var k :| 0 <= k < |xs| && xs[k] == i;
    assert forall j :: 0 <= j < i ==> xs[j] <= xs[i - 1];
    assert forall j :: i < j < |xs| ==> xs[i] < xs[j];
  }

  /** The consumer has received the first emissions, none skipped. */
  predicate ExactPrefix<E>(s: Pipeline<E>) {
    forall i :: 0 <= i < |s.received| ==> s.received[i].no == i
  }

  /** In every reachable state: what is missing is what the counters and the owed drops say, and the
      consumer holds an exact prefix if and only if it has not got past the first missing emission. */
  lemma PrefixUntilFirstMissing<E(!new)>(decode: string -> Option<E>, states: seq<Pipeline<E>>, steps: seq<Step>,
                                  n: nat)
    requires IsRun(decode, states, steps) && n <= |steps|
    ensures var s := states[n];
            var missing := Missing(Line(s), |s.emitted|);
            && |missing| == s.droppedEvents + s.decodeFailures + s.Owed()
            && (ExactPrefix(s) <==> forall m :: m in missing ==> |s.received| <= m)
  {
    var s := states[n];
    RunKeepsInv(decode, states, steps, n);
    MissingCount(Line(s), |s.emitted|);
    PrefixIff(Line(s), |s.emitted|, |s.received|);
    assert forall i :: 0 <= i < |s.received| ==> Line(s)[i] == s.received[i].no;
  }

  /** Healthy diagnostics: nothing is missing if and only if no drop awaits its counter, and then the
      consumer holds an exact prefix; otherwise it does so until it gets past the gap. */
  lemma HealthyLineIsGaplessIff<E(!new)>(decode: string -> Option<E>, states: seq<Pipeline<E>>, steps: seq<Step>,
                                  n: nat)
    requires IsRun(decode, states, steps) && n <= |steps| && states[n].IsHealthy()
    ensures var s := states[n];
            var missing := Missing(Line(s), |s.emitted|);
            && (missing == {} <==> s.Owed() == 0)
            && (s.Owed() == 0 ==> ExactPrefix(s))
            && (ExactPrefix(s) <==> forall m :: m in missing ==> |s.received| <= m)
  {
    PrefixUntilFirstMissing(decode, states, steps, n);
  }

  // ----- a healthy reading with an event lost

  /** The pipeline after `n` emissions that nobody has taken up. */
  function Filled<E>(json: string, n: nat): Pipeline<E> {
    Pipeline(seq(n, _ => json), seq(n, k requires 0 <= k => Tagged(k, json)), false, Waiting, [], [], 0, 0, 0)
  }

  lemma FilledNext<E>(decode: string -> Option<E>, json: string, n: nat)
    requires n < BUFFER_CAPACITY
    ensures Enabled<E>(Filled(json, n), Emit(json))
    ensures Apply(decode, Filled(json, n), Emit(json)) == Filled(json, n + 1)
  {
  }

  /** The five steps after the buffer is full: the emission that drops the oldest payload, and the next
      payload's way to the consumer before that drop is counted. */
  lemma PastTheGap<E>(decode: string -> Option<E>, json: string, e: E) returns (states: seq<Pipeline<E>>,
                      steps: seq<Step>)
    requires decode(json) == Some(e)
    ensures steps == [Emit(json), Take, Decode, YieldEvent, Receive] && |states| == 6
    ensures states[0] == Filled(json, BUFFER_CAPACITY)
    ensures forall n :: 0 <= n < 5 ==>
              Enabled(states[n], steps[n]) && states[n + 1] == Apply(decode, states[n], steps[n])
    ensures states[5].IsHealthy() && states[5].Owed() == 1 && states[5].received == [Tagged(1, e)]
  {
    var s0 := Filled<E>(json, BUFFER_CAPACITY);
    var s1 := Apply(decode, s0, Emit(json));
    assert s1.raw[0] == Tagged(1, json);
    var s2 := Apply(decode, s1, Take);
    var s3 := Apply(decode, s2, Decode);
    var s4 := Apply(decode, s3, YieldEvent);
    var s5 := Apply(decode, s4, Receive);
    states, steps := [s0, s1, s2, s3, s4, s5], [Emit(json), Take, Decode, YieldEvent, Receive];
  }

  /** The exception is reachable, with any payload that decodes: the counters read healthy while the
      first event the consumer received is the second one emitted. */
  lemma HealthyPastTheGap<E(!new)>(decode: string -> Option<E>, json: string, e: E)
    returns (states: seq<Pipeline<E>>, steps: seq<Step>)
    requires decode(json) == Some(e)
    ensures IsRun(decode, states, steps)
    ensures var s := states[|steps|]; s.IsHealthy() && s.received == [Tagged(1, e)] && !ExactPrefix(s)
  {
    var more, last := PastTheGap(decode, json, e);
    var fill := seq(BUFFER_CAPACITY, n requires 0 <= n => Filled<E>(json, n));
    states, steps := fill + more, seq(BUFFER_CAPACITY, _ => Emit(json)) + last;
    assert states[0] == Filled(json, 0);
    assert states[|steps|] == more[5] && more[5].received[0].no == 1;
    forall n | 0 <= n < |steps|
      ensures Enabled(states[n], steps[n]) && states[n + 1] == Apply(decode, states[n], steps[n])
    {
      if n < BUFFER_CAPACITY {
        FilledNext(decode, json, n);
        assert states[n] == Filled(json, n) && states[n + 1] == Filled(json, n + 1);
      } else {
        var k := n - BUFFER_CAPACITY;
        assert states[n] == more[k] && states[n + 1] == more[k + 1] && steps[n] == last[k];
      }
    }
  }
}
