/** The recorded run that previews replay: a stream generator whose `partial` is the core's own. */
module MockRun {
  import opened Basics
  import opened Wire
  import opened Replica
  import opened ChatModel
  import opened ChatTheorems

  function Blanks(s: string): nat {
    if s == [] then 0 else Blanks(s[..|s| - 1]) + if IsBlankOrNewline(s[|s| - 1]) then 1 else 0
  }

  lemma {:induction false} BlanksAppend(a: string, b: string)
    ensures Blanks(a + b) == Blanks(a) + Blanks(b)
  {
    if b == [] {
      assert a + b == a;
    } else {
      BlanksAppend(a, b[..|b| - 1]);
      assert (a + b)[..|a + b| - 1] == a + b[..|b| - 1];
    }
  }

  lemma BlanksSnoc(a: string, c: char)
    ensures Blanks(a + [c]) == Blanks(a) + if IsBlankOrNewline(c) then 1 else 0
  {
    assert (a + [c])[..|a|] == a;
  }

  /** A chunk the splitter emits mid-text: the wanted number of words, cut right after whitespace. */
  ghost predicate FullChunk(chunk: string, words: nat) {
    chunk != [] && IsBlankOrNewline(chunk[|chunk| - 1]) && Blanks(chunk) == words
  }

  ghost predicate AllFull(chunks: seq<string>, words: nat) {
    forall k :: 0 <= k < |chunks| ==> FullChunk(chunks[k], words)
  }

  lemma Flushed(out: seq<string>, current: string)
    ensures Concat(out + [current]) + ("" + "") == Concat(out) + current
  {
    ConcatSnoc(out, current);
  }

  /** `chunked`: nothing is lost, nothing is empty, and every chunk but the last is full. */
  method Chunked(text: string, wordsPerChunk: int) returns (out: seq<string>)
    ensures Concat(out) == text
    ensures out != [] ==> out[|out| - 1] != [] && Blanks(out[|out| - 1]) <= Max(1, wordsPerChunk)
    ensures AllFull(out[..Max(0, |out| - 1)], Max(1, wordsPerChunk))
  {
    out := [];
    var current, count, word := "", 0, "";
    for i := 0 to |text|
      invariant Concat(out) + (current + word) == text[..i]
      invariant AllFull(out, Max(1, wordsPerChunk))
      invariant Blanks(current) == count && 0 <= count < Max(1, wordsPerChunk)
      invariant Blanks(word) == 0
    {
      ghost var pending := current + word;
      assert text[..i + 1] == text[..i] + [text[i]];
      BlanksSnoc(word, text[i]);
      word := word + [text[i]];
      assert current + word == pending + [text[i]];
      if IsBlankOrNewline(text[i]) {
        BlanksAppend(current, word);
        current, word, count := current + word, "", count + 1;
        assert current + word == current;
        if count >= wordsPerChunk {
          Flushed(out, current);
          out, current, count := out + [current], "", 0;
        }
      }
    }
    BlanksAppend(current, word);
    current := current + word;
    assert text[..|text|] == text;
    if current != "" {
      ConcatSnoc(out, current);
      assert (out + [current])[..|out|] == out;
      out := out + [current];
    }
  }

  const ASSISTANT_ID := "ent_mock_assistant"
  const USER_ID := "ent_mock_user"

  /** The growing log, the message accumulated so far, and what an observer of the log would record. */
  ghost predicate Recording(sid: string, events: seq<CoreEvent>, content: seq<Content>) {
    var record := RecordAfter(sid, map[], events);
    && TruthfulRun(sid, map[], events)
    && AllFamiliar(sid, events)
    && ASSISTANT_ID in record && record[ASSISTANT_ID] == content && Known(content)
  }

  /** The log has only grown, and by nothing that addresses the prompt's entry. */
  ghost predicate Continues(log: seq<CoreEvent>, r: seq<CoreEvent>) {
    log <= r && forall k :: |log| <= k < |r| ==> !Addresses(r[k], USER_ID)
  }

  method Update(ghost sid: string, session: string, events: seq<CoreEvent>, ghost before: seq<Content>,
                ev: MessageEvent)
    returns (r: seq<CoreEvent>)
    requires session == sid && Recording(sid, events, before)
    requires ev.HasPartial() && Known(ev.partial.content) && Accumulates(before, ev, ev.partial.content)
    ensures r == events + [MessageUpdate(session, ASSISTANT_ID, ev)] && Continues(events, r)
    ensures Recording(sid, r, ev.partial.content)
  {
    r := events + [MessageUpdate(session, ASSISTANT_ID, ev)];
    TruthfulSnoc(sid, map[], events, MessageUpdate(session, ASSISTANT_ID, ev));
  }

  function Prose(thinking: bool, text: string): Content {
    if thinking then Thinking(text, None, false) else Text(text, None)
  }

  function ProseStart(thinking: bool, i: nat, p: AssistantMessage): MessageEvent {
    if thinking then ThinkingStart(i, p) else TextStart(i, p)
  }

  function ProseDelta(thinking: bool, i: nat, chunk: string, p: AssistantMessage): MessageEvent {
    if thinking then ThinkingDelta(i, chunk, p) else TextDelta(i, chunk, p)
  }

  function ProseEnd(thinking: bool, i: nat, full: string, p: AssistantMessage): MessageEvent {
    if thinking then ThinkingEnd(i, full, p) else TextEnd(i, full, p)
  }

  /** The three forms of prose event all carry the core's own accumulation. */
  lemma ProseAccumulates(thinking: bool, front: seq<Content>, so: string, chunk: string, p: AssistantMessage)
    requires Known(front)
    ensures Known(front + [Prose(thinking, so)])
    ensures p.content == front + [Prose(thinking, "")] ==>
              Accumulates(front, ProseStart(thinking, |front|, p), p.content)
    ensures p.content == front + [Prose(thinking, so + chunk)] ==>
              Accumulates(front + [Prose(thinking, so)], ProseDelta(thinking, |front|, chunk, p), p.content)
    ensures p.content == front + [Prose(thinking, so)] ==>
              Accumulates(p.content, ProseEnd(thinking, |front|, so, p), p.content)
  {
    AlikeItself(front + [Prose(thinking, "")]);
    AlikeItself(front + [Prose(thinking, so)]);
    AlikeItself(front + [Prose(thinking, so + chunk)]);
    var before := front + [Prose(thinking, so)];
    assert before[|front| := Prose(thinking, so + chunk)] == front + [Prose(thinking, so + chunk)];
  }

  /** Streams one thinking or text block, chunk by chunk, onto the end of the message. The end event
      carries the whole text, so the log is truthful only because the chunks add up to it. */
  method StreamProse(session: string, events: seq<CoreEvent>, partial: AssistantMessage, chunks: seq<string>,
                     full: string, thinking: bool)
    returns (r: seq<CoreEvent>, p: AssistantMessage)
    requires Recording(session, events, partial.content) && Concat(chunks) == full
    ensures Recording(session, r, p.content) && Continues(events, r)
    ensures p == partial.(content := partial.content + [Prose(thinking, full)])
  {
    var i := |partial.content|;
    p := partial.(content := partial.content + [Prose(thinking, "")]);
    ProseAccumulates(thinking, partial.content, "", "", p);
    r := Update(session, session, events, partial.content, ProseStart(thinking, i, p));
    r, p := StreamChunks(session, r, partial, chunks, thinking);
    ProseAccumulates(thinking, partial.content, full, "", p);
    r := Update(session, session, r, p.content, ProseEnd(thinking, i, full, p));
  }

  /** The loop over the chunks, from an empty block at the end of the message. */
  method StreamChunks(session: string, events: seq<CoreEvent>, partial: AssistantMessage, chunks: seq<string>,
                      thinking: bool)
    returns (r: seq<CoreEvent>, p: AssistantMessage)
    requires Known(partial.content) && Recording(session, events, partial.content + [Prose(thinking, "")])
    ensures p == partial.(content := partial.content + [Prose(thinking, Concat(chunks))])
    ensures Recording(session, r, p.content) && Continues(events, r)
  {
    var text := "";
    r, p := events, partial.(content := partial.content + [Prose(thinking, "")]);
    for k := 0 to |chunks|
      invariant Recording(session, r, p.content) && Continues(events, r)
      invariant text == Concat(chunks[..k])
      invariant p == partial.(content := partial.content + [Prose(thinking, text)])
    {
      assert chunks[..k + 1] == chunks[..k] + [chunks[k]];
      ConcatSnoc(chunks[..k], chunks[k]);
      r, p := StreamChunk(session, r, partial, text, chunks[k], thinking);
      text := text + chunks[k];
    }
    assert chunks[..|chunks|] == chunks;
  }

  /** One delta: the block at the end of the message grows by the chunk. */
  method StreamChunk(session: string, events: seq<CoreEvent>, partial: AssistantMessage, soFar: string, chunk: string,
                     thinking: bool)
    returns (r: seq<CoreEvent>, p: AssistantMessage)
    requires Known(partial.content) && Recording(session, events, partial.content + [Prose(thinking, soFar)])
    ensures p == partial.(content := partial.content + [Prose(thinking, soFar + chunk)])
    ensures Recording(session, r, p.content) && Continues(events, r)
  {
    p := partial.(content := partial.content + [Prose(thinking, soFar + chunk)]);
    ProseAccumulates(thinking, partial.content, soFar, chunk, p);
    ProseAccumulates(thinking, partial.content, soFar + chunk, "", p);
    r := Update(session, session, events, partial.content + [Prose(thinking, soFar)],
                ProseDelta(thinking, |partial.content|, chunk, p));
  }

  lemma AlikeItself(c: seq<Content>)
    ensures AllAlike(c, c)
  {
  }

  method StreamTool(session: string, events: seq<CoreEvent>, partial: AssistantMessage, call: ToolCall,
                    fragments: seq<string>)
    returns (r: seq<CoreEvent>, p: AssistantMessage)
    requires Recording(session, events, partial.content)
    ensures Recording(session, r, p.content) && Continues(events, r)
    ensures p == partial.(content := partial.content + [Tool(call)])
  {
    var i := |partial.content|;
    p := partial.(content := partial.content + [Tool(call)]);
    AlikeItself(p.content);
    r := Update(session, session, events, partial.content, ToolStart(i, p));
    assert p.content[i := p.content[i]] == p.content;
    for k := 0 to |fragments|
      invariant Recording(session, r, p.content) && Continues(events, r)
    {
      r := Update(session, session, r, p.content, ToolDelta(i, fragments[k], p));
    }
    r := Update(session, session, r, p.content, ToolEnd(i, call, p));
  }

  /** Events that repeat what the log already says about the assistant message. */
  predicate Restates(e: CoreEvent, content: seq<Content>) {
    match e
    case Ignored(_) => true
    case RunEnd(_) => true
    case MessageUpdate(_, id, ev) => id == ASSISTANT_ID && ev.Done? && ev.message.content == content
    case MessageEnd(_, entry) => entry.id == ASSISTANT_ID && entry.IsAssistant() && entry.Content() == content
    case _ => false
  }

  method Push(session: string, events: seq<CoreEvent>, e: CoreEvent,
              ghost content: seq<Content>) returns (r: seq<CoreEvent>)
    requires Recording(session, events, content) && Restates(e, content)
    ensures r == events + [e] && Recording(session, r, content) && Continues(events, r)
  {
    r := events + [e];
    TruthfulSnoc(session, map[], events, e);
  }

  lemma ContinuesOn(a: seq<CoreEvent>, b: seq<CoreEvent>, c: seq<CoreEvent>)
    requires Continues(a, b) && Continues(b, c)
    ensures Continues(a, c)
  {
    forall k | |a| <= k < |c| ensures !Addresses(c[k], USER_ID) {
      if k < |b| { assert b[k] == c[k]; }
    }
  }

  method PushAll(session: string, events: seq<CoreEvent>, more: seq<CoreEvent>, ghost content: seq<Content>)
    returns (r: seq<CoreEvent>)
    requires Recording(session, events, content) && forall e :: e in more ==> Restates(e, content)
    ensures r == events + more && Recording(session, r, content) && Continues(events, r)
  {
    r := events;
    for k := 0 to |more|
      invariant r == events + more[..k] && Recording(session, r, content)
    {
      assert events + more[..k + 1] == (events + more[..k]) + [more[k]];
      r := Push(session, r, more[k], content);
    }
    assert more[..|more|] == more;
    RestatesContinues(events, more, content);
  }

  lemma RestatesContinues(events: seq<CoreEvent>, more: seq<CoreEvent>, content: seq<Content>)
    requires forall e :: e in more ==> Restates(e, content)
    ensures Continues(events, events + more)
  {
    forall k | |events| <= k < |events + more| ensures !Addresses((events + more)[k], USER_ID) {
      assert Restates(more[k - |events|], content);
    }
  }

  lemma {:induction false} QuietStart(sid: string, events: seq<CoreEvent>)
    requires forall e :: e in events ==> !e.MessageUpdate?
    ensures TruthfulRun(sid, map[], events)
  {
  }

  const THOUGHTS := ["Looking at the request", " and the workspace", " to plan an approach."]
  const TOOL_CALL := ToolCall("toolu_mock_read", "read", "{\"path\":\"src/router.rs\"}", None, None)
  const TOOL_EVENTS := 5 // one start, three updates, one end
  const FRAGMENTS := ["{\"path\":", "\"src/", "router.rs\"}"]

  /** Up to and including the first message event of the assistant's turn. */
  method Opening(session: string, user: Entry, entry: Entry) returns (events: seq<CoreEvent>)
    requires entry.id == ASSISTANT_ID && entry.IsAssistant() && entry.Content() == []
    ensures Recording(session, events, [])
    ensures Continues([MessageStart(session, user), MessageEnd(session, user)], events)
  {
    events := [MessageStart(session, user), MessageEnd(session, user), RunStart(session), Ignored(Some(session))];
    QuietStart(session, events);
    TruthfulSnoc(session, map[], events, MessageStart(session, entry));
    events := events + [MessageStart(session, entry)];
    events := Update(session, session, events, [], Start(entry.kind.message.assistant));
  }

  /** The log ends with the run's end; what follows is no session's. */
  ghost predicate Ends(session: string, events: seq<CoreEvent>) {
    |events| >= 2 && events[|events| - 2] == RunEnd(session) && events[|events| - 1] == Ignored(None)
  }

  /** From the terminal event to the end of the log. */
  method Closing(session: string, log: seq<CoreEvent>, entry: Entry) returns (events: seq<CoreEvent>)
    requires entry.id == ASSISTANT_ID && entry.IsAssistant() && Recording(session, log, entry.Content())
    ensures Recording(session, events, entry.Content()) && Continues(log, events) && Ends(session, events)
  {
    var tools := seq(TOOL_EVENTS, _ => Ignored(Some(session)));
    var ending := [MessageEnd(session, entry), Ignored(Some(session)), RunEnd(session), Ignored(None)];
    var final := MessageUpdate(session, ASSISTANT_ID, Done(entry.kind.message.assistant));
    var rest := [final] + tools + ending;
    forall e | e in rest ensures Restates(e, entry.Content()) {
      assert e == final || e == Ignored(Some(session)) || e in ending;
    }
    events := PushAll(session, log, rest, entry.Content());
    assert events == log + [final] + tools + ending;
  }

  /** `recordedRun`, for any reply text: a truthful log whose final message holds exactly the reply. */
  method RecordedRun(session: string, prompt: string, seqNo: int, clock: int, opening: Envelope, closing: Envelope,
                     reply: string)
    returns (events: seq<CoreEvent>)
    ensures Recording(session, events,
                      [Thinking(Concat(THOUGHTS), None, false), Text(reply, None), Tool(TOOL_CALL)])
    ensures var user := Entry(USER_ID, session, seqNo, None, clock, MessageEntry(User(prompt)));
            Continues([MessageStart(session, user), MessageEnd(session, user)], events)
    ensures Ends(session, events)
  {
    var user := Entry(USER_ID, session, seqNo, None, clock, MessageEntry(User(prompt)));
    var partial := AssistantMessage([], opening);
    var entry := Entry(ASSISTANT_ID, session, seqNo + 1, Some(user.id), clock, MessageEntry(Assistant(partial)));
    events := Opening(session, user, entry);
    ghost var begun := events;
    events, partial := Reply(session, events, partial, reply);
    ContinuesOn([MessageStart(session, user), MessageEnd(session, user)], begun, events);
    ghost var replied := events;
    events := Closing(session, events, entry.WithAssistant(partial.(envelope := closing)));
    ContinuesOn([MessageStart(session, user), MessageEnd(session, user)], replied, events);
  }

  /** The assistant's turn: thinking, the reply in chunks, one tool call. */
  method Reply(session: string, log: seq<CoreEvent>, start: AssistantMessage, reply: string)
    returns (events: seq<CoreEvent>, partial: AssistantMessage)
    requires start.content == [] && Recording(session, log, [])
    ensures partial.content == [Thinking(Concat(THOUGHTS), None, false), Text(reply, None), Tool(TOOL_CALL)]
    ensures Recording(session, events, partial.content) && Continues(log, events)
  {
    events, partial := ThinkAndReply(session, log, start, reply);
    ghost var said := events;
    events, partial := StreamTool(session, events, partial, TOOL_CALL, FRAGMENTS);
    ContinuesOn(log, said, events);
  }

  method ThinkAndReply(session: string, log: seq<CoreEvent>, start: AssistantMessage, reply: string)
    returns (events: seq<CoreEvent>, partial: AssistantMessage)
    requires start.content == [] && Recording(session, log, [])
    ensures partial.content == [Thinking(Concat(THOUGHTS), None, false), Text(reply, None)]
    ensures Recording(session, events, partial.content) && Continues(log, events)
  {
    events, partial := StreamProse(session, log, start, THOUGHTS, Concat(THOUGHTS), true);
    ghost var thought := events;
    var chunks := Chunked(reply, 6);
    events, partial := StreamProse(session, events, partial, chunks, reply, false);
    ContinuesOn(log, thought, events);
  }

  /** Replaying any such log into a store on that session repairs nothing and leaves the reply on screen. */
  lemma ReplayReconcilesClean(s: State, session: string, events: seq<CoreEvent>, content: seq<Content>)
    requires DistinctIds(s.entries) && s.sessionId == Some(session)
    requires Recording(session, events, content)
    ensures Run(s, Receives(events)).repairs == s.repairs
    ensures Shows(Run(s, Receives(events)).entries, ASSISTANT_ID, content)
  {
    TruthfulRunsMirror(s, session, map[], events);
    TruthfulRunsNeverRepair(s, session, map[], events);
  }

  /** The prompt is on screen from its announcement to the end of the log. */
  lemma {:induction false} PromptStays(s: State, session: string, user: Entry, events: seq<CoreEvent>, n: nat)
    requires s.sessionId == Some(session) && user.id == USER_ID && 2 <= n <= |events|
    requires Continues([MessageStart(session, user), MessageEnd(session, user)], events)
    ensures user in Run(s, Receives(events[..n])).entries
    ensures Run(s, Receives(events[..n])).sessionId == Some(session)
  {
    if n == 2 {
      PromptAnnounced(s, session, user);
      assert events[..2] == [MessageStart(session, user), MessageEnd(session, user)];
    } else {
      PromptStays(s, session, user, events, n - 1);
      var t := Run(s, Receives(events[..n - 1]));
      EventsLast(s, events[..n]);
      assert events[..n][..n - 1] == events[..n - 1] && events[..n][n - 1] == events[n - 1];
      EventKeepsSession(t, events[n - 1]);
      var k :| 0 <= k < |t.entries| && t.entries[k] == user;
      OtherEntriesUntouched(t, events[n - 1], k);
    }
  }

  lemma PromptAnnounced(s: State, session: string, user: Entry)
    requires s.sessionId == Some(session)
    ensures var t := Run(s, Receives([MessageStart(session, user), MessageEnd(session, user)]));
            user in t.entries && t.sessionId == Some(session)
  {
    var both := [MessageStart(session, user), MessageEnd(session, user)];
    EventsLast(s, both);
    assert both[..1] == [both[0]] && both[..1][..0] == [];
    EventsLast(s, both[..1]);
    assert Receives([]) == [];
    UpsertHas(OnEvent(s, both[0]).entries, user);
  }

  lemma UpsertHas(entries: seq<Entry>, e: Entry)
    ensures e in Upserted(entries, e)
  {
    match IndexOf(entries, e.id)
    case Some(k) => assert entries[k := e][k] == e;
    case None => assert (entries + [e])[|entries|] == e;
  }

  /** Replaying a recorded run into a store on its session ends with the prompt on screen and no run in
      flight, whatever was there before. */
  lemma ReplayShowsPrompt(s: State, session: string, user: Entry, events: seq<CoreEvent>)
    requires s.sessionId == Some(session) && user.id == USER_ID
    requires Continues([MessageStart(session, user), MessageEnd(session, user)], events) && Ends(session, events)
    ensures user in Run(s, Receives(events)).entries && !Run(s, Receives(events)).isStreaming
  {
    PromptStays(s, session, user, events, |events|);
    assert events[..|events|] == events;
    ReplayEndsIdle(s, session, events);
  }

  lemma ReplayEndsIdle(s: State, session: string, events: seq<CoreEvent>)
    requires s.sessionId == Some(session) && Ends(session, events)
    ensures !Run(s, Receives(events)).isStreaming
  {
    var n := |events|;
    ReplayKeepsSession(s, session, events[..n - 2]);
    EventsLast(s, events[..n - 1]);
    assert events[..n - 1][..n - 2] == events[..n - 2];
    EventsLast(s, events);
  }

  lemma {:induction false} ReplayKeepsSession(s: State, session: string, events: seq<CoreEvent>)
    requires s.sessionId == Some(session)
    ensures Run(s, Receives(events)).sessionId == Some(session)
    decreases |events|
  {
    if events != [] {
      var n := |events| - 1;
      ReplayKeepsSession(s, session, events[..n]);
      EventsLast(s, events);
      EventKeepsSession(Run(s, Receives(events[..n])), events[n]);
    }
  }
}
