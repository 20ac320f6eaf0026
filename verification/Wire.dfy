/** The assistant-message wire types that the chat store replicates. */
module Wire {
  import opened Basics

  datatype ToolCall = ToolCall(
    id: string, name: string, arguments: string,
    thoughtSignature: Option<string>, namespace: Option<string>)

  /** One content block of an assistant message. */
  datatype Content =
    | Text(text: string, textSignature: Option<string>)
    | Thinking(thinking: string, thinkingSignature: Option<string>, redacted: bool)
    | Tool(call: ToolCall)
    | Unknown(kind: string, raw: string)

  const EMPTY_TEXT := Text("", None)
  const EMPTY_THINKING := Thinking("", None, false)

  /** The fields of an assistant message that no delta touches. */
  datatype Envelope = Envelope(
    api: string, provider: string, model: string, responseId: Option<string>,
    usage: nat, stopReason: string, errorMessage: Option<string>, timestamp: int)

  datatype AssistantMessage = AssistantMessage(content: seq<Content>, envelope: Envelope)

  datatype Message =
    | User(text: string)
    | Assistant(assistant: AssistantMessage)
    | ToolResult(result: string)
    | UnknownRole(role: string, body: string)

  datatype EntryKind = MessageEntry(message: Message) | OtherEntry(payload: string)

  datatype Entry = Entry(
    id: string, sessionId: string, seqNo: int, parentId: Option<string>, timestamp: int, kind: EntryKind)
  {
    predicate IsAssistant() {
      kind.MessageEntry? && kind.message.Assistant?
    }

    function Content(): seq<Content>
      requires IsAssistant()
    {
      kind.message.assistant.content
    }

    function WithAssistant(m: AssistantMessage): Entry {
      this.(kind := MessageEntry(Assistant(m)))
    }
  }

  /** A streaming event. Every form but the terminal ones and `Novel` carries `partial`. */
  datatype MessageEvent =
    | Start(partial: AssistantMessage)
    | TextStart(i: nat, partial: AssistantMessage)
    | TextDelta(i: nat, delta: string, partial: AssistantMessage)
    | TextEnd(i: nat, full: string, partial: AssistantMessage)
    | ThinkingStart(i: nat, partial: AssistantMessage)
    | ThinkingDelta(i: nat, delta: string, partial: AssistantMessage)
    | ThinkingEnd(i: nat, full: string, partial: AssistantMessage)
    | ToolStart(i: nat, partial: AssistantMessage)
    | ToolDelta(i: nat, delta: string, partial: AssistantMessage)
    | ToolEnd(i: nat, call: ToolCall, partial: AssistantMessage)
    | Done(message: AssistantMessage)
    | Error(message: AssistantMessage)
    | Novel(kind: string)
  {
    predicate IsTerminal() { Done? || Error? }
    predicate HasPartial() { !Done? && !Error? && !Novel? }
  }

  /** The events the chat store distinguishes; everything else is `Ignored`. */
  datatype CoreEvent =
    | RunStart(sessionId: string)
    | MessageStart(sessionId: string, entry: Entry)
    | MessageUpdate(sessionId: string, entryId: string, event: MessageEvent)
    | MessageEnd(sessionId: string, entry: Entry)
    | RunEnd(sessionId: string)
    | Ignored(session: Option<string>)
  {
    function Session(): Option<string> {
      if Ignored? then session else Some(sessionId)
    }
  }
}
