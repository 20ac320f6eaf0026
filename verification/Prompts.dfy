/** Prompt conservation: a ledger that follows every accepted prompt through the store. */
module Prompts {
  import opened Basics
  import opened Wire
  import opened ChatModel

  /** An accepted prompt, numbered in order of acceptance. */
  datatype Ticket = Ticket(no: nat, text: string)

  /** Where each accepted prompt has gone. `drained` is the part of `dispatched` that went through the queue. */
  datatype Ledger = Ledger(
    accepted: seq<Ticket>, queue: seq<Ticket>, dispatched: seq<Ticket>, drained: seq<Ticket>,
    removed: seq<Ticket>, discarded: seq<Ticket>, runEnds: nat)

  const OPEN := Ledger([], [], [], [], [], [], 0)

  predicate Accepts(s: State, a: Action) {
    a.Send? && Trim(a.text, IsBlankOrNewline) != "" && s.sessionId.Some?
  }

  predicate EndsRun(s: State, a: Action) {
    a.Receive? && a.event.RunEnd? && s.sessionId == Some(a.event.sessionId)
  }

  function Accept(l: Ledger, text: string, queues: bool): Ledger {
    var t := Ticket(|l.accepted|, text);
    if queues then l.(accepted := l.accepted + [t], queue := l.queue + [t])
    else l.(accepted := l.accepted + [t], dispatched := l.dispatched + [t])
  }

  function EndRun(l: Ledger): Ledger {
    if l.queue == [] then l.(runEnds := l.runEnds + 1)
    else l.(runEnds := l.runEnds + 1, queue := l.queue[1..],
            dispatched := l.dispatched + [l.queue[0]], drained := l.drained + [l.queue[0]])
  }

  function Remove(l: Ledger, i: nat): Ledger
    requires i < |l.queue|
  {
    l.(queue := l.queue[..i] + l.queue[i + 1..], removed := l.removed + [l.queue[i]])
  }

  function Discard(l: Ledger): Ledger {
    l.(queue := [], discarded := l.discarded + l.queue)
  }

  function Post(l: Ledger, s: State, a: Action): Ledger {
    if Accepts(s, a) then Accept(l, Trim(a.text, IsBlankOrNewline), s.isStreaming)
    else if EndsRun(s, a) then EndRun(l)
    else if a.RemoveQueued? && 0 <= a.index < |l.queue| then Remove(l, a.index)
    else if a.LoadBegin? && s.sessionId != Some(a.sessionId) then Discard(l)
    else l
  }

  function Books(s: State, actions: seq<Action>): Ledger {
    if actions == [] then OPEN
    else
      var front := actions[..|actions| - 1];
      Post(Books(s, front), Run(s, front), actions[|actions| - 1])
  }

  // ----- what the ledger must agree with

  function Texts(ts: seq<Ticket>): (r: seq<string>)
    ensures |r| == |ts| && forall k :: 0 <= k < |r| ==> r[k] == ts[k].text
  {
    seq(|ts|, k requires 0 <= k < |ts| => ts[k].text)
  }

  /** The prompts among the commands handed to the core, in order. */
  function PromptsIn(sent: seq<Command>): seq<string> {
    if sent == [] then []
    else
      var front, last := PromptsIn(sent[..|sent| - 1]), sent[|sent| - 1];
      if last.SendPrompt? then front + [last.text] else front
  }

  lemma PromptsSnoc(sent: seq<Command>, c: Command)
    ensures PromptsIn(sent + [c]) == if c.SendPrompt? then PromptsIn(sent) + [c.text] else PromptsIn(sent)
  {
    assert (sent + [c])[..|sent|] == sent;
  }

  /** The ledger describes the store: its queue is the queue, its dispatches are the prompts sent. */
  ghost predicate Describes(l: Ledger, s: State, base: seq<Command>) {
    Texts(l.queue) == s.queued && PromptsIn(s.sent) == PromptsIn(base) + Texts(l.dispatched)
  }

  ghost predicate Increasing(ts: seq<Ticket>) {
    forall i, j :: 0 <= i < j < |ts| ==> ts[i].no < ts[j].no
  }

  /** Every accepted prompt is in exactly one place, and the queue drains in order. */
  ghost predicate Balanced(l: Ledger) {
    && (forall k :: 0 <= k < |l.accepted| ==> l.accepted[k].no == k)
    && multiset(l.queue) + multiset(l.dispatched) + multiset(l.removed) + multiset(l.discarded) == multiset(l.accepted)
    && Increasing(l.drained + l.queue)
    && (forall t :: t in l.drained + l.queue ==> t.no < |l.accepted|)
    && |l.drained| <= l.runEnds
  }

  lemma TextsSnoc(ts: seq<Ticket>, t: Ticket)
    ensures Texts(ts + [t]) == Texts(ts) + [t.text]
  {
  }

  lemma QueueDescribes(l: Ledger, s: State, text: string, sent: seq<Command>, base: seq<Command>)
    requires Describes(l, s, base) && PromptsIn(sent) == PromptsIn(s.sent)
    ensures Describes(Accept(l, text, true), s.(queued := s.queued + [text], sent := sent), base)
  {
    TextsSnoc(l.queue, Ticket(|l.accepted|, text));
  }

  lemma DispatchDescribes(l: Ledger, s: State, sid: string, text: string, attachments: seq<string>, base: seq<Command>)
    requires Describes(l, s, base)
    ensures Describes(Accept(l, text, false), s.(sent := s.sent + [SendPrompt(sid, text, attachments)]), base)
  {
    PromptsSnoc(s.sent, SendPrompt(sid, text, attachments));
    TextsSnoc(l.dispatched, Ticket(|l.accepted|, text));
  }

  lemma AcceptDescribes(l: Ledger, s: State, text: string, attachments: seq<string>, base: seq<Command>)
    requires Describes(l, s, base) && Accepts(s, Send(text, attachments))
    ensures Describes(Accept(l, Trim(text, IsBlankOrNewline), s.isStreaming), Prompted(s, text, attachments), base)
  {
    var sid, trimmed, s' := s.sessionId.value, Trim(text, IsBlankOrNewline), Prompted(s, text, attachments);
    if s.isStreaming {
      PromptsSnoc(s.sent, AbortRun(sid));
      assert s' == s.(queued := s.queued + [trimmed], sent := s'.sent);
      QueueDescribes(l, s, trimmed, s'.sent, base);
    } else {
      assert s' == s.(sent := s.sent + [SendPrompt(sid, trimmed, attachments)]);
      DispatchDescribes(l, s, sid, trimmed, attachments, base);
    }
  }

  lemma EndRunDescribes(l: Ledger, s: State, base: seq<Command>)
    requires Describes(l, s, base) && s.sessionId.Some?
    ensures Describes(EndRun(l), Drained(s), base)
  {
    if l.queue != [] {
      PromptsSnoc(s.sent, SendPrompt(s.sessionId.value, s.queued[0], []));
      assert Texts(EndRun(l).dispatched) == Texts(l.dispatched) + [s.queued[0]];
      assert Texts(EndRun(l).queue) == s.queued[1..];
    }
  }

  lemma PostDescribes(l: Ledger, s: State, a: Action, base: seq<Command>)
    requires Describes(l, s, base)
    ensures Describes(Post(l, s, a), Step(s, a), base)
  {
    match a
    case Send(text, attachments) => SendDescribes(l, s, text, attachments, base);
    case Receive(e) => ReceiveDescribes(l, s, e, base);
    case RemoveQueued(i) => RemoveDescribes(l, s, i, base);
    case LoadBegin(_) =>
    case LoadFinish(_, _) =>
  }

  lemma SendDescribes(l: Ledger, s: State, text: string, attachments: seq<string>, base: seq<Command>)
    requires Describes(l, s, base)
    ensures Describes(Post(l, s, Send(text, attachments)), Prompted(s, text, attachments), base)
  {
    if Accepts(s, Send(text, attachments)) { AcceptDescribes(l, s, text, attachments, base); }
  }

  lemma ReceiveDescribes(l: Ledger, s: State, e: CoreEvent, base: seq<Command>)
    requires Describes(l, s, base)
    ensures Describes(Post(l, s, Receive(e)), OnEvent(s, e), base)
  {
    if EndsRun(s, Receive(e)) {
      EndRunDescribes(l, s.(isStreaming := false, streamingEntryId := None, streamingIndex := None), base);
    } else {
      OtherEventsKeepQueue(s, e);
    }
  }

  lemma RemoveDescribes(l: Ledger, s: State, i: int, base: seq<Command>)
    requires Describes(l, s, base)
    ensures Describes(Post(l, s, RemoveQueued(i)), Unqueued(s, i), base)
  {
    if 0 <= i < |l.queue| { assert Texts(Remove(l, i).queue) == s.queued[..i] + s.queued[i + 1..]; }
  }

  lemma OtherEventsKeepQueue(s: State, e: CoreEvent)
    requires !EndsRun(s, Receive(e))
    ensures OnEvent(s, e).queued == s.queued && OnEvent(s, e).sent == s.sent
  {
  }

  lemma IncreasingSnoc(ts: seq<Ticket>, t: Ticket)
    requires Increasing(ts) && forall k :: 0 <= k < |ts| ==> ts[k].no < t.no
    ensures Increasing(ts + [t])
  {
  }

  lemma AcceptKeepsOrder(l: Ledger, text: string, queues: bool)
    requires Balanced(l)
    ensures var l' := Accept(l, text, queues);
            && Increasing(l'.drained + l'.queue)
            && forall t :: t in l'.drained + l'.queue ==> t.no < |l'.accepted|
  {
    var l', t, all := Accept(l, text, queues), Ticket(|l.accepted|, text), l.drained + l.queue;
    if queues {
      assert forall k :: 0 <= k < |all| ==> all[k] in all;
      IncreasingSnoc(all, t);
      assert l'.drained + l'.queue == all + [t];
    }
  }

  lemma AcceptBalances(l: Ledger, text: string, queues: bool)
    requires Balanced(l)
    ensures Balanced(Accept(l, text, queues))
  {
    AcceptKeepsOrder(l, text, queues);
    var t := Ticket(|l.accepted|, text);
    assert multiset(l.accepted + [t]) == multiset(l.accepted) + multiset{t};
    assert multiset(l.queue + [t]) == multiset(l.queue) + multiset{t};
    assert multiset(l.dispatched + [t]) == multiset(l.dispatched) + multiset{t};
  }

  lemma EndRunBalances(l: Ledger)
    requires Balanced(l)
    ensures Balanced(EndRun(l))
  {
    if l.queue != [] {
      assert l.queue == [l.queue[0]] + l.queue[1..];
      assert EndRun(l).drained + EndRun(l).queue == l.drained + l.queue;
    }
  }

  /** Taking one out of a row keeps the rest in order. */
  lemma IncreasingWithout(front: seq<Ticket>, back: seq<Ticket>, i: nat)
    requires i < |back| && Increasing(front + back)
    ensures Increasing(front + (back[..i] + back[i + 1..]))
  {
    var all, rest, cut := front + back, front + (back[..i] + back[i + 1..]), |front| + i;
    forall m | 0 <= m < |rest| ensures rest[m] == if m < cut then all[m] else all[m + 1] {}
    forall m, n | 0 <= m < n < |rest| ensures rest[m].no < rest[n].no {
      assert all[if m < cut then m else m + 1].no < all[if n < cut then n else n + 1].no;
    }
  }

  lemma RemoveBalances(l: Ledger, i: nat)
    requires Balanced(l) && i < |l.queue|
    ensures Balanced(Remove(l, i))
  {
    var rest := l.queue[..i] + l.queue[i + 1..];
    assert l.queue == l.queue[..i] + [l.queue[i]] + l.queue[i + 1..];
    IncreasingWithout(l.drained, l.queue, i);
    forall t | t in l.drained + rest ensures t in l.drained + l.queue {
      assert t in rest ==> t in l.queue;
    }
  }

  lemma DiscardBalances(l: Ledger)
    requires Balanced(l)
    ensures Balanced(Discard(l))
  {
    var all := l.drained + l.queue;
    assert Discard(l).drained + Discard(l).queue == all[..|l.drained|];
    assert forall t :: t in all[..|l.drained|] ==> t in all;
  }

  lemma PostBalances(l: Ledger, s: State, a: Action)
    requires Balanced(l)
    ensures Balanced(Post(l, s, a))
  {
    if Accepts(s, a) {
      AcceptBalances(l, Trim(a.text, IsBlankOrNewline), s.isStreaming);
    } else if EndsRun(s, a) {
      EndRunBalances(l);
    } else if a.RemoveQueued? && 0 <= a.index < |l.queue| {
      RemoveBalances(l, a.index);
    } else if a.LoadBegin? {
      DiscardBalances(l);
    }
  }

  /** The theorem: over every run from an empty queue, each accepted prompt is exactly one of
      dispatched, queued, removed or discarded; queued prompts leave in acceptance order, at most one
      per run end; and the ledger's queue and dispatches are the store's. */
  lemma {:induction false} PromptsAreConserved(s: State, actions: seq<Action>)
    requires s.queued == []
    ensures Balanced(Books(s, actions))
    ensures Describes(Books(s, actions), Run(s, actions), s.sent)
    decreases |actions|
  {
    if actions == [] {
      assert PromptsIn(s.sent) == PromptsIn(s.sent) + Texts([]);
    } else {
      var front, a := actions[..|actions| - 1], actions[|actions| - 1];
      PromptsAreConserved(s, front);
      PostBalances(Books(s, front), Run(s, front), a);
      PostDescribes(Books(s, front), Run(s, front), a, s.sent);
    }
  }

  // ----- dispatch order

  /** Prompts sent and waiting are in order of acceptance. */
  ghost predicate InOrder(l: Ledger) {
    Increasing(l.dispatched + l.queue)
  }

  /** Every ticket in the books has a number already given out. */
  lemma Numbered(l: Ledger, t: Ticket)
    requires Balanced(l) && (t in l.dispatched || t in l.queue)
    ensures t.no < |l.accepted|
  {
    assert t in multiset(l.queue) + multiset(l.dispatched) + multiset(l.removed) + multiset(l.discarded);
    assert t in l.accepted;
  }

  lemma AllNumbered(l: Ledger)
    requires Balanced(l)
    ensures var all := l.dispatched + l.queue; forall k :: 0 <= k < |all| ==> all[k].no < |l.accepted|
  {
    var all := l.dispatched + l.queue;
    forall k | 0 <= k < |all| ensures all[k].no < |l.accepted| {
      assert all[k] in l.dispatched || all[k] in l.queue;
      Numbered(l, all[k]);
    }
  }

  /** A prompt sent while the store is idle with prompts queued overtakes the queue; no other does. */
  lemma AcceptInOrderIff(l: Ledger, text: string, queues: bool)
    requires Balanced(l) && InOrder(l)
    ensures InOrder(Accept(l, text, queues)) <==> queues || l.queue == []
  {
    var l', t, all := Accept(l, text, queues), Ticket(|l.accepted|, text), l.dispatched + l.queue;
    AllNumbered(l);
    if queues || l.queue == [] {
      IncreasingSnoc(all, t);
      assert l'.dispatched + l'.queue == all + [t];
    } else {
      Numbered(l, l.queue[0]);
      var after, n := l'.dispatched + l'.queue, |l.dispatched|;
      assert after[n] == t && after[n + 1] == l.queue[0];
    }
  }

  lemma EndRunInOrder(l: Ledger)
    requires InOrder(l)
    ensures InOrder(EndRun(l))
  {
    if l.queue != [] {
      assert l.queue == [l.queue[0]] + l.queue[1..];
      assert EndRun(l).dispatched + EndRun(l).queue == l.dispatched + l.queue;
    }
  }

  lemma RemoveInOrder(l: Ledger, i: nat)
    requires InOrder(l) && i < |l.queue|
    ensures InOrder(Remove(l, i))
  {
    IncreasingWithout(l.dispatched, l.queue, i);
  }

  lemma DiscardInOrder(l: Ledger)
    requires InOrder(l)
    ensures InOrder(Discard(l))
  {
    var all := l.dispatched + l.queue;
    assert Discard(l).dispatched + Discard(l).queue == all[..|l.dispatched|];
  }

  /** The prompt is sent to the core past others that wait. */
  predicate Overtakes(s: State, a: Action) {
    Accepts(s, a) && !s.isStreaming && s.queued != []
  }

  /** One step loses the order if and only if it overtakes. */
  lemma SendOvertakesQueue(l: Ledger, s: State, a: Action, base: seq<Command>)
    requires Balanced(l) && Describes(l, s, base) && InOrder(l)
    ensures InOrder(Post(l, s, a)) <==> !Overtakes(s, a)
  {
    assert |l.queue| == |s.queued|;
    if Accepts(s, a) {
      AcceptInOrderIff(l, Trim(a.text, IsBlankOrNewline), s.isStreaming);
    } else if EndsRun(s, a) {
      EndRunInOrder(l);
    } else if a.RemoveQueued? && 0 <= a.index < |l.queue| {
      RemoveInOrder(l, a.index);
    } else if a.LoadBegin? {
      DiscardInOrder(l);
    }
  }

  ghost predicate NeverOvertakes(s: State, actions: seq<Action>, n: nat)
    requires n <= |actions|
  {
    forall m :: 0 <= m < n ==> !Overtakes(Run(s, actions[..m]), actions[m])
  }

  lemma BooksNext(s: State, actions: seq<Action>, n: nat)
    requires n < |actions|
    ensures Books(s, actions[..n + 1]) == Post(Books(s, actions[..n]), Run(s, actions[..n]), actions[n])
  {
    assert actions[..n + 1][..n] == actions[..n];
  }

  lemma OrderNext(s: State, actions: seq<Action>, n: nat)
    requires s.queued == [] && n < |actions| && InOrder(Books(s, actions[..n]))
    ensures InOrder(Books(s, actions[..n + 1])) <==> !Overtakes(Run(s, actions[..n]), actions[n])
  {
    PromptsAreConserved(s, actions[..n]);
    BooksNext(s, actions, n);
    SendOvertakesQueue(Books(s, actions[..n]), Run(s, actions[..n]), actions[n], s.sent);
  }

  lemma {:induction false} OrderedUntilOvertaken(s: State, actions: seq<Action>, n: nat)
    requires s.queued == [] && n <= |actions| && NeverOvertakes(s, actions, n)
    ensures InOrder(Books(s, actions[..n]))
  {
    if n > 0 {
      OrderedUntilOvertaken(s, actions, n - 1);
      OrderNext(s, actions, n - 1);
    }
  }

  /** Over whole runs: dispatch keeps to acceptance order throughout if and only if no prompt is ever
      sent while the store is idle with prompts queued. */
  lemma DispatchOrderIff(s: State, actions: seq<Action>)
    requires s.queued == []
    ensures (forall n :: 0 <= n <= |actions| ==> InOrder(Books(s, actions[..n]))) <==>
              NeverOvertakes(s, actions, |actions|)
  {
    if NeverOvertakes(s, actions, |actions|) {
      forall n | 0 <= n <= |actions| ensures InOrder(Books(s, actions[..n])) { OrderedUntilOvertaken(s, actions, n); }
    } else {
      var m :| 0 <= m < |actions| && Overtakes(Run(s, actions[..m]), actions[m]);
      if InOrder(Books(s, actions[..m])) {
        OrderNext(s, actions, m);
        assert !InOrder(Books(s, actions[..m + 1]));
      }
    }
  }

  // ----- a run in which it happens

  const OPENING := [LoadBegin("s"), Receive(RunStart("s")), Send("a", []), Send("b", []), Receive(RunEnd("s"))]

  const EMPTY_STORE := State(None, [], false, false, None, None, map[], [], Queue, 0, [])

  lemma RunSnoc(s: State, actions: seq<Action>, a: Action)
    ensures Run(s, actions + [a]) == Step(Run(s, actions), a)
  {
    assert (actions + [a])[..|actions|] == actions;
  }

  lemma TrimWord(c: char)
    requires !IsBlankOrNewline(c)
    ensures Trim([c], IsBlankOrNewline) == [c]
  {
  }

  lemma OpeningLeavesAQueue()
    ensures var s := Run(EMPTY_STORE, OPENING);
            s.sessionId == Some("s") && !s.isStreaming && s.queued == ["b"] && s.sent == [SendPrompt("s", "a", [])]
  {
    var s1 := Step(EMPTY_STORE, OPENING[0]);
    var s2 := Step(s1, OPENING[1]);
    TrimWord('a');
    TrimWord('b');
    var s3 := Step(s2, OPENING[2]);
    assert s3 == s2.(queued := ["a"]);
    var s4 := Step(s3, OPENING[3]);
    assert s4 == s2.(queued := ["a", "b"]);
    var s5 := Step(s4, OPENING[4]);
    RunSnoc(EMPTY_STORE, [], OPENING[0]);
    RunSnoc(EMPTY_STORE, OPENING[..1], OPENING[1]);
    RunSnoc(EMPTY_STORE, OPENING[..2], OPENING[2]);
    RunSnoc(EMPTY_STORE, OPENING[..3], OPENING[3]);
    RunSnoc(EMPTY_STORE, OPENING[..4], OPENING[4]);
    assert OPENING[..1] == [] + [OPENING[0]] && OPENING[..2] == OPENING[..1] + [OPENING[1]];
    assert OPENING[..3] == OPENING[..2] + [OPENING[2]] && OPENING[..4] == OPENING[..3] + [OPENING[3]];
    assert OPENING == OPENING[..4] + [OPENING[4]];
  }

  /** The third prompt reaches the core while the second still waits. */
  lemma ThirdOvertakesSecond()
    ensures var s := Run(EMPTY_STORE, OPENING + [Send("c", [])]);
            s.sent == [SendPrompt("s", "a", []), SendPrompt("s", "c", [])] && s.queued == ["b"]
  {
    OpeningLeavesAQueue();
    RunSnoc(EMPTY_STORE, OPENING, Send("c", []));
    TrimWord('c');
  }

  lemma ThirdOvertakes()
    ensures !NeverOvertakes(EMPTY_STORE, OPENING + [Send("c", [])], 6)
  {
    var actions := OPENING + [Send("c", [])];
    OpeningLeavesAQueue();
    TrimWord('c');
    assert actions[..5] == OPENING;
    assert Overtakes(Run(EMPTY_STORE, actions[..5]), actions[5]);
  }
}
