/** What the store keeps beside the transcript while a run streams: the live entry, the arguments of a tool
    call as they arrive, and what a send hands to the core. */
module Streaming {
  import opened Basics
  import opened Wire
  import opened ChatModel
  import opened ChatTheorems

  // ----- the run in flight and the entry being streamed

  /** The event takes the live mark from the entry: its own end, the end of the run, or another assistant
      message's start. */
  predicate Retires(sid: string, id: string, e: CoreEvent) {
    match e
    case MessageStart(s, entry) => s == sid && entry.IsAssistant()
    case MessageEnd(s, entry) => s == sid && entry.id == id
    case RunEnd(s) => s == sid
    case _ => false
  }

  lemma LiveEntryKept(s: State, sid: string, id: string, e: CoreEvent)
    requires s.sessionId == Some(sid) && s.streamingEntryId == Some(id)
    ensures !Retires(sid, id, e) ==> OnEvent(s, e).streamingEntryId == Some(id)
    ensures e == RunEnd(sid) || (e.MessageEnd? && Retires(sid, id, e)) ==> OnEvent(s, e).streamingEntryId == None
    ensures (e.MessageStart? || e.MessageEnd?) && Retires(sid, id, e) ==> OnEvent(s, e).partialToolArguments == map[]
  {
  }

  /** From its start an assistant message is the live entry, whatever else arrives, until its end, the
      run's end, or the start of another. */
  lemma {:induction false} LiveUntilRetired(s: State, sid: string, e: Entry, later: seq<CoreEvent>)
    requires s.sessionId == Some(sid) && e.IsAssistant() && forall x :: x in later ==> !Retires(sid, e.id, x)
    ensures var t := Run(OnEvent(s, MessageStart(sid, e)), Receives(later));
            t.sessionId == Some(sid) && t.streamingEntryId == Some(e.id)
    decreases |later|
  {
    if later != [] {
      var n := |later| - 1;
      var start := OnEvent(s, MessageStart(sid, e));
      assert later[n] in later && forall x :: x in later[..n] ==> x in later;
      LiveUntilRetired(s, sid, e, later[..n]);
      EventsLast(start, later);
      EventKeepsSession(Run(start, Receives(later[..n])), later[n]);
      LiveEntryKept(Run(start, Receives(later[..n])), sid, e.id, later[n]);
    }
  }

  lemma FlightKept(s: State, sid: string, e: CoreEvent)
    requires s.sessionId == Some(sid) && s.isStreaming
    ensures OnEvent(s, e).isStreaming <==> e != RunEnd(sid)
  {
  }

  /** A run is in flight from its start to its end. */
  lemma {:induction false} InFlightUntilEnd(s: State, sid: string, later: seq<CoreEvent>)
    requires s.sessionId == Some(sid) && RunEnd(sid) !in later
    ensures var t := Run(OnEvent(s, RunStart(sid)), Receives(later)); t.sessionId == Some(sid) && t.isStreaming
    ensures var t := Run(OnEvent(s, RunStart(sid)), Receives(later));
            !OnEvent(t, RunEnd(sid)).isStreaming && OnEvent(t, RunEnd(sid)).streamingEntryId == None
    decreases |later|
  {
    if later != [] {
      var n := |later| - 1;
      var start := OnEvent(s, RunStart(sid));
      assert later[n] in later && forall x :: x in later[..n] ==> x in later;
      InFlightUntilEnd(s, sid, later[..n]);
      EventsLast(start, later);
      EventKeepsSession(Run(start, Receives(later[..n])), later[n]);
      FlightKept(Run(start, Receives(later[..n])), sid, later[n]);
    }
  }

  // ----- tool arguments

  /** The argument fragments that arrive for one tool block. */
  function Fragments(i: nat, evs: seq<MessageEvent>): seq<string> {
    if evs == [] then []
    else
      var front, last := Fragments(i, evs[..|evs| - 1]), evs[|evs| - 1];
      if last.ToolDelta? && last.i == i then front + [last.delta] else front
  }

  /** The event starts or ends the tool block, or the message. */
  predicate Bounds(i: nat, ev: MessageEvent) {
    ((ev.ToolStart? || ev.ToolEnd?) && ev.i == i) || ev.IsTerminal()
  }

  function Updates(sid: string, id: string, evs: seq<MessageEvent>): (r: seq<CoreEvent>)
    ensures |r| == |evs| && forall k :: 0 <= k < |r| ==> r[k] == MessageUpdate(sid, id, evs[k])
  {
    seq(|evs|, k requires 0 <= k < |evs| => MessageUpdate(sid, id, evs[k]))
  }

  /** A message event for an entry in the transcript. */
  lemma UpdateStep(s: State, sid: string, id: string, ev: MessageEvent)
    requires s.sessionId == Some(sid) && IndexOf(s.entries, id).Some?
    ensures var t := OnEvent(s, MessageUpdate(sid, id, ev));
            && t.sessionId == Some(sid) && Ids(t.entries) == Ids(s.entries)
            && (ev.IsTerminal() ==> t.partialToolArguments == map[])
            && (forall i :: !Bounds(i, ev) && i in s.partialToolArguments ==>
                  i in t.partialToolArguments &&
                  t.partialToolArguments[i] == s.partialToolArguments[i] + Concat(Fragments(i, [ev])))
            && (ev.ToolStart? ==> ev.i in t.partialToolArguments && t.partialToolArguments[ev.i] == "")
            && (ev.ToolEnd? ==> ev.i !in t.partialToolArguments)
  {
    UpdateKeepsIds(s, id, ev);
    forall i ensures Concat(Fragments(i, [ev])) == if ev.ToolDelta? && ev.i == i then ev.delta else "" {
      FragmentOf(i, ev);
    }
  }

  lemma FragmentOf(i: nat, ev: MessageEvent)
    ensures Concat(Fragments(i, [ev])) == if ev.ToolDelta? && ev.i == i then ev.delta else ""
  {
    assert [ev][..0] == [];
    if ev.ToolDelta? && ev.i == i {
      assert Fragments(i, [ev]) == [] + [ev.delta];
      ConcatSnoc([], ev.delta);
    }
  }

  lemma FragmentsSnoc(i: nat, evs: seq<MessageEvent>, ev: MessageEvent)
    ensures Concat(Fragments(i, evs + [ev])) == Concat(Fragments(i, evs)) + Concat(Fragments(i, [ev]))
  {
    assert (evs + [ev])[..|evs|] == evs;
    FragmentOf(i, ev);
    if ev.ToolDelta? && ev.i == i { ConcatSnoc(Fragments(i, evs), ev.delta); }
  }

  /** The session on screen, the ids of its transcript, and what has arrived of tool block `i`. */
  function View(t: State, i: nat): (Option<string>, seq<string>, Option<string>) {
    (t.sessionId, Ids(t.entries),
     if i in t.partialToolArguments then Some(t.partialToolArguments[i]) else None)
  }

  ghost predicate Holds(t: State, sid: string, ids: seq<string>, i: nat, text: string) {
    View(t, i) == (Some(sid), ids, Some(text))
  }

  lemma IndexFromIds(entries: seq<Entry>, ids: seq<string>, id: string)
    requires Ids(entries) == ids && id in ids
    ensures IndexOf(entries, id).Some?
  {
    var k :| 0 <= k < |ids| && ids[k] == id;
    assert entries[k].id == Ids(entries)[k];
  }

  lemma ToolTextStep(t: State, sid: string, ids: seq<string>, id: string, i: nat, text: string, ev: MessageEvent)
    requires Holds(t, sid, ids, i, text) && id in ids && !Bounds(i, ev)
    ensures Holds(OnEvent(t, MessageUpdate(sid, id, ev)), sid, ids, i, text + Concat(Fragments(i, [ev])))
  {
    IndexFromIds(t.entries, ids, id);
    UpdateStep(t, sid, id, ev);
  }

  /** The store after message events for one entry, one by one. */
  function After(t: State, sid: string, id: string, evs: seq<MessageEvent>): State {
    if evs == [] then t
    else OnEvent(After(t, sid, id, evs[..|evs| - 1]), MessageUpdate(sid, id, evs[|evs| - 1]))
  }

  lemma {:induction false} AfterIsRun(t: State, sid: string, id: string, evs: seq<MessageEvent>)
    ensures After(t, sid, id, evs) == Run(t, Receives(Updates(sid, id, evs)))
    decreases |evs|
  {
    if evs != [] {
      AfterIsRun(t, sid, id, evs[..|evs| - 1]);
      UpdatesLast(t, sid, id, evs);
    }
  }

  lemma UpdatesLast(t: State, sid: string, id: string, evs: seq<MessageEvent>)
    requires evs != []
    ensures Run(t, Receives(Updates(sid, id, evs))) ==
              OnEvent(Run(t, Receives(Updates(sid, id, evs[..|evs| - 1]))), MessageUpdate(sid, id, evs[|evs| - 1]))
  {
    var all := Updates(sid, id, evs);
    assert all[..|evs| - 1] == Updates(sid, id, evs[..|evs| - 1]);
    EventsLast(t, all);
  }

  lemma {:induction false} ToolTextRun(t: State, sid: string, ids: seq<string>, id: string, i: nat,
                                       evs: seq<MessageEvent>)
    requires Holds(t, sid, ids, i, "") && id in ids && forall ev :: ev in evs ==> !Bounds(i, ev)
    ensures Holds(After(t, sid, id, evs), sid, ids, i, Concat(Fragments(i, evs)))
    decreases |evs|
  {
    if evs != [] {
      var front, ev := evs[..|evs| - 1], evs[|evs| - 1];
      assert ev in evs && forall x :: x in front ==> x in evs;
      ToolTextRun(t, sid, ids, id, i, front);
      ToolTextLast(After(t, sid, id, front), sid, ids, id, i, front, ev);
      assert evs == front + [ev];
      AfterLast(t, sid, id, evs);
    }
  }

  lemma AfterLast(t: State, sid: string, id: string, evs: seq<MessageEvent>)
    requires evs != []
    ensures After(t, sid, id, evs) ==
              OnEvent(After(t, sid, id, evs[..|evs| - 1]), MessageUpdate(sid, id, evs[|evs| - 1]))
  {
  }

  lemma ToolTextLast(t: State, sid: string, ids: seq<string>, id: string, i: nat, front: seq<MessageEvent>,
                     ev: MessageEvent)
    requires Holds(t, sid, ids, i, Concat(Fragments(i, front))) && id in ids && !Bounds(i, ev)
    ensures Holds(OnEvent(t, MessageUpdate(sid, id, ev)), sid, ids, i, Concat(Fragments(i, front + [ev])))
  {
    ToolTextStep(t, sid, ids, id, i, Concat(Fragments(i, front)), ev);
    FragmentsSnoc(i, front, ev);
  }

  /** The arguments of a tool call, as they arrive: after the block's start and any events that do not start
      or end it, the stored text is the concatenation of its fragments, in order, and of no other's. */
  lemma ToolTextAccumulates(s: State, sid: string, id: string, i: nat, p: AssistantMessage, evs: seq<MessageEvent>)
    requires s.sessionId == Some(sid) && IndexOf(s.entries, id).Some?
    requires forall ev :: ev in evs ==> !Bounds(i, ev)
    ensures var t := Run(OnEvent(s, MessageUpdate(sid, id, ToolStart(i, p))), Receives(Updates(sid, id, evs)));
            i in t.partialToolArguments && t.partialToolArguments[i] == Concat(Fragments(i, evs))
  {
    UpdateStep(s, sid, id, ToolStart(i, p));
    assert Ids(s.entries)[IndexOf(s.entries, id).value] == id;
    var start := OnEvent(s, MessageUpdate(sid, id, ToolStart(i, p)));
    ToolTextRun(start, sid, Ids(s.entries), id, i, evs);
    AfterIsRun(start, sid, id, evs);
  }

  // ----- sends

  /** A prompt sent while nothing runs reaches the core at once, for the session on screen, with its
      attachments; the queue is not touched. */
  lemma IdleSendCarriesEverything(s: State, sid: string, text: string, attachments: seq<string>)
    requires s.sessionId == Some(sid) && !s.isStreaming && Trim(text, IsBlankOrNewline) != ""
    ensures var t := Step(s, Send(text, attachments));
            && t.sent == s.sent + [SendPrompt(sid, Trim(text, IsBlankOrNewline), attachments)]
            && t == s.(sent := t.sent)
  {
  }

  /** A prompt sent during a run waits, and the run is asked to stop exactly in interrupt mode. */
  lemma QueuedSendAbortsIff(s: State, sid: string, text: string, attachments: seq<string>)
    requires s.sessionId == Some(sid) && s.isStreaming && Trim(text, IsBlankOrNewline) != ""
    ensures var t := Step(s, Send(text, attachments));
            && t.queued == s.queued + [Trim(text, IsBlankOrNewline)]
            && (t.sent == s.sent + [AbortRun(sid)] <==> s.queueMode == Interrupt)
            && (t.sent == s.sent <==> s.queueMode == QueueMode.Queue)
  {
  }

  /** A blank prompt, or one without a session, does nothing. */
  lemma BlankSendIsIgnored(s: State, text: string, attachments: seq<string>)
    requires Trim(text, IsBlankOrNewline) == "" || s.sessionId == None
    ensures Step(s, Send(text, attachments)) == s
  {
  }

  /** A prompt that has waited is sent without attachments. */
  lemma DrainedCarriesNothing(s: State, sid: string)
    requires s.sessionId == Some(sid) && s.queued != []
    ensures var t := OnEvent(s, RunEnd(sid));
            t.sent == s.sent + [SendPrompt(sid, s.queued[0], [])] && t.queued == s.queued[1..]
  {
  }

  function Last(sent: seq<Command>): Option<Command> {
    if sent == [] then None else Some(sent[|sent| - 1])
  }

  /** So the attachments of a prompt reach the core only if nothing was running: what the end of the run
      hands over has lost them. */
  lemma QueueingDropsAttachments(s: State, sid: string, text: string, attachments: seq<string>)
    requires s.sessionId == Some(sid) && s.queued == [] && Trim(text, IsBlankOrNewline) != ""
    ensures Last(OnEvent(Step(s, Send(text, attachments)), RunEnd(sid)).sent) ==
              Some(SendPrompt(sid, Trim(text, IsBlankOrNewline), if s.isStreaming then [] else attachments))
  {
    if s.isStreaming {
      QueuedSendAbortsIff(s, sid, text, attachments);
      DrainedCarriesNothing(Step(s, Send(text, attachments)), sid);
    } else {
      IdleSendCarriesEverything(s, sid, text, attachments);
    }
  }
}
