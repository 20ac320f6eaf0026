/** The chat store as the object it is: fields updated in place, each method proved against `ChatModel`. */
module ChatStore {
  import opened Basics
  import opened Wire
  import opened Replica
  import opened ChatModel

  class ChatStore {
    var sessionId: Option<string>
    var entries: seq<Entry>
    var isLoaded: bool
    var isStreaming: bool
    var streamingEntryId: Option<string>
    var streamingIndex: Option<nat>
    var partialToolArguments: map<nat, string>
    var queued: seq<string>
    var queueMode: QueueMode
    var reconciliationRepairs: nat
    var sent: seq<Command>

    function Model(): State
      reads this
    {
      State(sessionId, entries, isLoaded, isStreaming, streamingEntryId, streamingIndex,
            partialToolArguments, queued, queueMode, reconciliationRepairs, sent)
    }

    constructor (mode: QueueMode)
      ensures Model() == State(None, [], false, false, None, None, map[], [], mode, 0, [])
    {
      sessionId, entries, isLoaded, isStreaming := None, [], false, false;
      streamingEntryId, streamingIndex, partialToolArguments := None, None, map[];
      queued, queueMode, reconciliationRepairs, sent := [], mode, 0, [];
    }

    // ----- lookup

    method FirstIndex(id: string) returns (r: Option<nat>)
      ensures r == IndexOf(entries, id)
    {
      var k := 0;
      while k < |entries|
        invariant 0 <= k <= |entries|
        invariant forall j :: 0 <= j < k ==> entries[j].id != id
      {
        if entries[k].id == id {
          var found := IndexOf(entries, id);
          assert found.Some? && !(found.value < k) && !(k < found.value);
          return Some(k);
        }
        k := k + 1;
      }
      return None;
    }

    method AssistantIndex(id: string) returns (r: Option<nat>)
      modifies this`streamingIndex
      ensures r == Located(old(Model()), id)
      ensures streamingIndex == r
    {
      if streamingIndex.Some? && streamingIndex.value < |entries| && entries[streamingIndex.value].id == id {
        return streamingIndex;
      }
      r := FirstIndex(id);
      streamingIndex := r;
    }

    // ----- transcript updates

    method Upsert(e: Entry)
      modifies this`entries, this`isLoaded
      ensures entries == Upserted(old(entries), e) && isLoaded
    {
      var i := FirstIndex(e.id);
      if i.Some? {
        entries := entries[i.value := e];
      } else {
        entries := entries + [e];
      }
      isLoaded := true;
    }

    method SetAssistant(m: AssistantMessage, index: nat)
      requires index < |entries|
      modifies this`entries
      ensures entries == old(entries)[index := old(entries)[index].WithAssistant(m)]
    {
      entries := entries[index := entries[index].WithAssistant(m)];
    }

    method SetContent(content: seq<Content>, index: nat)
      requires index < |entries| && entries[index].IsAssistant()
      modifies this`entries
      ensures |entries| == |old(entries)| && entries[index].IsAssistant()
      ensures entries == old(entries)[index := old(entries)[index].WithAssistant(
                           old(entries)[index].kind.message.assistant.(content := content))]
    {
      SetAssistant(entries[index].kind.message.assistant.(content := content), index);
    }

    /** Pads until position `i` exists; does nothing on an entry that is not an assistant message. */
    method EnsureBlock(i: nat, index: nat, block: Content)
      requires index < |entries|
      modifies this`entries
      ensures !old(entries)[index].IsAssistant() ==> entries == old(entries)
      ensures old(entries)[index].IsAssistant() ==>
                entries == old(entries)[index := old(entries)[index].WithAssistant(
                  old(entries)[index].kind.message.assistant.(
                    content := Padded(old(entries)[index].Content(), i, block)))]
    {
      if entries[index].IsAssistant() {
        var content := entries[index].Content();
        while |content| <= i
          invariant Padded(content, i, block) == Padded(entries[index].Content(), i, block)
          decreases i + 1 - |content|
        {
          ghost var before := content;
          content := content + [if |content| == i then block else EMPTY_TEXT];
          assert Padded(before, i, block) == Padded(content, i, block);
        }
        SetContent(content, index);
      }
    }

    // ----- message events

    method ApplyContent(ev: MessageEvent, index: nat)
      requires index < |entries| && entries[index].IsAssistant() && ev.HasPartial()
      modifies this`entries
      ensures entries == old(entries)[index := old(entries)[index].WithAssistant(
                old(entries)[index].kind.message.assistant.(content := ApplyDelta(old(entries)[index].Content(), ev)))]
    {
      match ev {
        case TextStart(i, _) => EnsureBlock(i, index, EMPTY_TEXT);
        case TextDelta(i, delta, _) =>
          EnsureBlock(i, index, EMPTY_TEXT);
          var c := entries[index].Content();
          if c[i].Text? { SetContent(c[i := c[i].(text := c[i].text + delta)], index); }
        case TextEnd(i, full, _) =>
          EnsureBlock(i, index, EMPTY_TEXT);
          var c := entries[index].Content();
          if c[i].Text? { SetContent(c[i := c[i].(text := full)], index); }
        case ThinkingStart(i, _) => EnsureBlock(i, index, EMPTY_THINKING);
        case ThinkingDelta(i, delta, _) =>
          EnsureBlock(i, index, EMPTY_THINKING);
          var c := entries[index].Content();
          if c[i].Thinking? { SetContent(c[i := c[i].(thinking := c[i].thinking + delta)], index); }
        case ThinkingEnd(i, full, _) =>
          EnsureBlock(i, index, EMPTY_THINKING);
          var c := entries[index].Content();
          if c[i].Thinking? { SetContent(c[i := c[i].(thinking := full)], index); }
        case ToolStart(i, p) =>
          EnsureBlock(i, index,
                      if i < |p.content| then p.content[i] else Tool(ToolCall("", "", "{}", None, None)));
        case ToolDelta(i, _, p) =>
          if i < |p.content| {
            EnsureBlock(i, index, p.content[i]);
            SetContent(entries[index].Content()[i := p.content[i]], index);
          } else {
            assert ApplyDelta(entries[index].Content(), ev) == entries[index].Content();
          }
        case ToolEnd(i, call, _) =>
          EnsureBlock(i, index, Tool(call));
          SetContent(entries[index].Content()[i := Tool(call)], index);
        case Start(_) =>
      }
    }

    method Reconcile(index: nat, partial: AssistantMessage)
      requires index < |entries| && entries[index].IsAssistant()
      modifies this`entries, this`reconciliationRepairs
      ensures entries == old(entries)[index := old(entries)[index].WithAssistant(
                Reconciled(old(entries)[index].kind.message.assistant, partial))]
      ensures reconciliationRepairs ==
                old(reconciliationRepairs) + if SameShape(old(entries)[index].Content(), partial.content) then 0 else 1
    {
      var local := entries[index].kind.message.assistant;
      var drifted := ShapeDiffers(local.content, partial.content);
      if !drifted {
        if local.content != partial.content {
          SetAssistant(partial, index);
        }
        return;
      }
      reconciliationRepairs := reconciliationRepairs + 1;
      SetAssistant(partial, index);
    }

    method UpdateToolArguments(ev: MessageEvent)
      modifies this`partialToolArguments
      ensures partialToolArguments == ToolArguments(old(partialToolArguments), ev)
    {
      match ev {
        case ToolStart(i, _) => partialToolArguments := partialToolArguments[i := ""];
        case ToolDelta(i, delta, _) =>
          var soFar := if i in partialToolArguments then partialToolArguments[i] else "";
          partialToolArguments := partialToolArguments[i := soFar + delta];
        case ToolEnd(i, _, _) => partialToolArguments := partialToolArguments - {i};
        case _ =>
      }
    }

    method UpdateEntry(ev: MessageEvent, k: nat)
      requires k < |entries| && !ev.IsTerminal()
      modifies this`entries, this`reconciliationRepairs
      ensures entries == old(entries)[k := EntryAfter(old(entries)[k], ev)]
      ensures reconciliationRepairs == old(reconciliationRepairs) + Drift(old(entries)[k], ev)
    {
      if entries[k].IsAssistant() && ev.HasPartial() {
        ApplyContent(ev, k);
        Reconcile(k, ev.partial);
      }
    }

    method ApplyMessageEvent(ev: MessageEvent, id: string)
      modifies this`entries, this`reconciliationRepairs, this`partialToolArguments, this`streamingIndex
      ensures Model() == OnMessageEvent(old(Model()), id, ev)
    {
      var found := AssistantIndex(id);
      if found.None? { return; }
      if ev.IsTerminal() {
        SetAssistant(ev.message, found.value);
        partialToolArguments := map[];
        return;
      }
      UpdateToolArguments(ev);
      UpdateEntry(ev, found.value);
    }

    // ----- events, loading and prompts

    method DrainQueue()
      modifies this`queued, this`sent
      ensures Model() == Drained(old(Model()))
    {
      if queued == [] || sessionId.None? { return; }
      var next := queued[0];
      queued := queued[1..];
      sent := sent + [SendPrompt(sessionId.value, next, [])];
    }

    method StartMessage(e: Entry)
      modifies this`entries, this`isLoaded, this`streamingEntryId, this`streamingIndex, this`partialToolArguments
      ensures Model() == Started(old(Model()), e)
    {
      Upsert(e);
      if e.IsAssistant() {
        streamingEntryId := Some(e.id);
        streamingIndex := FirstIndex(e.id);
        partialToolArguments := map[];
      }
    }

    method EndMessage(e: Entry)
      modifies this`entries, this`isLoaded, this`streamingEntryId, this`streamingIndex, this`partialToolArguments
      ensures Model() == Ended(old(Model()), e)
    {
      Upsert(e);
      if streamingEntryId == Some(e.id) {
        streamingEntryId, streamingIndex, partialToolArguments := None, None, map[];
      }
    }

    method Apply(event: CoreEvent)
      modifies this
      ensures Model() == OnEvent(old(Model()), event)
    {
      if sessionId.None? || event.Session() != sessionId { return; }
      match event {
        case RunStart(_) => isStreaming := true;
        case MessageStart(_, e) => StartMessage(e);
        case MessageUpdate(_, id, ev) => ApplyMessageEvent(ev, id);
        case MessageEnd(_, e) => EndMessage(e);
        case RunEnd(_) =>
          isStreaming, streamingEntryId, streamingIndex := false, None, None;
          DrainQueue();
        case Ignored(_) =>
      }
    }

    /** `load` up to the point where it suspends on the query. */
    method BeginLoad(id: string)
      modifies this
      ensures Model() == LoadBegun(old(Model()), id)
    {
      if sessionId == Some(id) { return; }
      sessionId, entries, queued, isStreaming, isLoaded := Some(id), [], [], false, false;
      streamingEntryId, streamingIndex, partialToolArguments := None, None, map[];
    }

    /** `load` from the query's answer on; `None` is a failed query. */
    method FinishLoad(id: string, fetched: Option<seq<Entry>>)
      modifies this`entries, this`isLoaded
      ensures Model() == LoadFinished(old(Model()), id, fetched)
    {
      if fetched.None? || sessionId != Some(id) { return; }
      var streamed := entries;
      entries := fetched.value;
      UpsertEach(streamed);
      isLoaded := true;
    }

    method UpsertEach(more: seq<Entry>)
      modifies this`entries, this`isLoaded
      ensures entries == UpsertAll(old(entries), more)
    {
      for k := 0 to |more|
        invariant entries == UpsertAll(old(entries), more[..k])
      {
        Upsert(more[k]);
        assert more[..k + 1][..k] == more[..k];
      }
      assert more[..|more|] == more;
    }

    method SendPromptText(text: string, attachments: seq<string>)
      modifies this`queued, this`sent
      ensures Model() == Prompted(old(Model()), text, attachments)
    {
      var trimmed := Trim(text, IsBlankOrNewline);
      if trimmed == "" || sessionId.None? { return; }
      if isStreaming {
        queued := queued + [trimmed];
        if queueMode.Interrupt? {
          sent := sent + [AbortRun(sessionId.value)];
        }
        return;
      }
      sent := sent + [SendPrompt(sessionId.value, trimmed, attachments)];
    }

    method RemoveQueuedAt(index: int)
      modifies this`queued
      ensures Model() == Unqueued(old(Model()), index)
    {
      if 0 <= index < |queued| {
        queued := queued[..index] + queued[index + 1..];
      }
    }
  }
}
