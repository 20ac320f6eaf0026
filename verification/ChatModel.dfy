/**
 The chat store as a state machine on values: one action at a time, with the fetch in `load`
 split into the step before it suspends and the step after it resumes.
 */
module ChatModel {
  import opened Basics
  import opened Wire
  import opened Replica

  datatype QueueMode = Queue | Interrupt

  /** What the store asks of the core. */
  datatype Command =
    | SendPrompt(sessionId: string, text: string, attachments: seq<string>)
    | AbortRun(sessionId: string)

  datatype State = State(
    sessionId: Option<string>,
    entries: seq<Entry>,
    isLoaded: bool,
    isStreaming: bool,
    streamingEntryId: Option<string>,
    streamingIndex: Option<nat>,
    partialToolArguments: map<nat, string>,
    queued: seq<string>,
    queueMode: QueueMode,
    repairs: nat,
    sent: seq<Command>)

  // ----- transcript lookup and update

  function IndexOf(entries: seq<Entry>, id: string): (r: Option<nat>)
    ensures r.Some? ==> r.value < |entries| && entries[r.value].id == id
    ensures r.Some? ==> forall k :: 0 <= k < r.value ==> entries[k].id != id
    ensures r.None? ==> forall k :: 0 <= k < |entries| ==> entries[k].id != id
  {
    if entries == [] then None
    else
      match IndexOf(entries[..|entries| - 1], id)
      case Some(k) => Some(k)
      case None => if entries[|entries| - 1].id == id then Some(|entries| - 1) else None
  }

  function Upserted(entries: seq<Entry>, e: Entry): seq<Entry> {
    match IndexOf(entries, e.id)
    case Some(k) => entries[k := e]
    case None => entries + [e]
  }

  function UpsertAll(entries: seq<Entry>, more: seq<Entry>): seq<Entry> {
    if more == [] then entries
    else Upserted(UpsertAll(entries, more[..|more| - 1]), more[|more| - 1])
  }

  /** The cached lookup: the cache is trusted only when the entry it points at has the right id. */
  function Located(s: State, id: string): (r: Option<nat>)
    ensures r.Some? ==> r.value < |s.entries| && s.entries[r.value].id == id
  {
    if s.streamingIndex.Some? && s.streamingIndex.value < |s.entries| && s.entries[s.streamingIndex.value].id == id
    then s.streamingIndex
    else IndexOf(s.entries, id)
  }

  // ----- one message event

  function ToolArguments(args: map<nat, string>, ev: MessageEvent): map<nat, string> {
    match ev
    case ToolStart(i, _) => args[i := ""]
    case ToolDelta(i, delta, _) => args[i := (if i in args then args[i] else "") + delta]
    case ToolEnd(i, _, _) => args - {i}
    case _ => args
  }

  /** Assert-and-repair on one entry: adopt the core's message when anything differs. */
  function Reconciled(local: AssistantMessage, partial: AssistantMessage): AssistantMessage {
    if local.content == partial.content && SameShape(local.content, partial.content) then local else partial
  }

  /** One entry after one message event: only its message can change. */
  function EntryAfter(e: Entry, ev: MessageEvent): (r: Entry)
    ensures r.id == e.id
  {
    if ev.IsTerminal() then e.WithAssistant(ev.message)
    else if !e.IsAssistant() || !ev.HasPartial() then e
    else
      var m := e.kind.message.assistant;
      e.WithAssistant(Reconciled(m.(content := ApplyDelta(m.content, ev)), ev.partial))
  }

  /** How much the repair counter rises: one when the deltas built another shape than `partial`. */
  function Drift(e: Entry, ev: MessageEvent): nat {
    if e.IsAssistant() && ev.HasPartial() && !SameShape(ApplyDelta(e.Content(), ev), ev.partial.content) then 1 else 0
  }

  function OnMessageEvent(s: State, id: string, ev: MessageEvent): State {
    match Located(s, id)
    case None => s.(streamingIndex := None)
    case Some(k) =>
      s.(streamingIndex := Some(k),
         entries := s.entries[k := EntryAfter(s.entries[k], ev)],
         repairs := s.repairs + Drift(s.entries[k], ev),
         partialToolArguments :=
           if ev.IsTerminal() then map[] else ToolArguments(s.partialToolArguments, ev))
  }

  // ----- actions

  function Drained(s: State): State {
    if s.queued == [] || s.sessionId.None? then s
    else s.(queued := s.queued[1..], sent := s.sent + [SendPrompt(s.sessionId.value, s.queued[0], [])])
  }

  function Started(s: State, e: Entry): State {
    var s := s.(entries := Upserted(s.entries, e), isLoaded := true);
    if e.IsAssistant() then
      s.(streamingEntryId := Some(e.id), streamingIndex := IndexOf(s.entries, e.id), partialToolArguments := map[])
    else s
  }

  function Ended(s: State, e: Entry): State {
    var s := s.(entries := Upserted(s.entries, e), isLoaded := true);
    if s.streamingEntryId == Some(e.id) then
      s.(streamingEntryId := None, streamingIndex := None, partialToolArguments := map[])
    else s
  }

  function OnEvent(s: State, event: CoreEvent): State {
    if s.sessionId.None? || event.Session() != s.sessionId then s
    else
      match event
      case RunStart(_) => s.(isStreaming := true)
      case MessageStart(_, e) => Started(s, e)
      case MessageUpdate(_, id, ev) => OnMessageEvent(s, id, ev)
      case MessageEnd(_, e) => Ended(s, e)
      case RunEnd(_) => Drained(s.(isStreaming := false, streamingEntryId := None, streamingIndex := None))
      case Ignored(_) => s
  }

  function LoadBegun(s: State, id: string): State {
    if s.sessionId == Some(id) then s
    else State(Some(id), [], false, false, None, None, map[], [], s.queueMode, s.repairs, s.sent)
  }

  function LoadFinished(s: State, id: string, fetched: Option<seq<Entry>>): State {
    if s.sessionId != Some(id) || fetched.None? then s
    else s.(entries := UpsertAll(fetched.value, s.entries), isLoaded := true)
  }

  function Prompted(s: State, text: string, attachments: seq<string>): State {
    var trimmed := Trim(text, IsBlankOrNewline);
    if trimmed == "" || s.sessionId.None? then s
    else if s.isStreaming then
      s.(queued := s.queued + [trimmed],
         sent := if s.queueMode.Interrupt? then s.sent + [AbortRun(s.sessionId.value)] else s.sent)
    else s.(sent := s.sent + [SendPrompt(s.sessionId.value, trimmed, attachments)])
  }

  function Unqueued(s: State, i: int): State {
    if 0 <= i < |s.queued| then s.(queued := s.queued[..i] + s.queued[i + 1..]) else s
  }

  datatype Action =
    | Receive(event: CoreEvent)
    | LoadBegin(sessionId: string)
    | LoadFinish(sessionId: string, fetched: Option<seq<Entry>>)
    | Send(text: string, attachments: seq<string>)
    | RemoveQueued(index: int)

  function Step(s: State, a: Action): State {
    match a
    case Receive(e) => OnEvent(s, e)
    case LoadBegin(id) => LoadBegun(s, id)
    case LoadFinish(id, fetched) => LoadFinished(s, id, fetched)
    case Send(text, attachments) => Prompted(s, text, attachments)
    case RemoveQueued(i) => Unqueued(s, i)
  }

  function Run(s: State, actions: seq<Action>): State {
    if actions == [] then s
    else Step(Run(s, actions[..|actions| - 1]), actions[|actions| - 1])
  }
}
