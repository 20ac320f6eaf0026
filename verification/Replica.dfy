/**
 Content-level half of the streaming replica: what one event does to the local copy of a
 message, what the core itself accumulates, and why the two keep the same shape.
 */
module Replica {
  import opened Basics
  import opened Wire

  // ----- shape: what the reader sees, ignoring provider metadata

  predicate SameBlock(x: Content, y: Content) {
    match (x, y)
    case (Text(p, _), Text(q, _)) => p == q
    case (Thinking(p, _, _), Thinking(q, _, _)) => p == q
    case (Tool(p), Tool(q)) => p.id == q.id
    case _ => false
  }

  predicate SameShape(a: seq<Content>, b: seq<Content>) {
    |a| == |b| && forall k :: 0 <= k < |a| ==> SameBlock(a[k], b[k])
  }

  /** `shapeDiffers`: the early-return comparison loop decides `SameShape`. */
  method ShapeDiffers(a: seq<Content>, b: seq<Content>) returns (differs: bool)
    ensures differs <==> !SameShape(a, b)
  {
    if |a| != |b| { return true; }
    for k := 0 to |a|
      invariant forall j :: 0 <= j < k ==> SameBlock(a[j], b[j])
    {
      match (a[k], b[k]) {
        case (Text(p, _), Text(q, _)) => if p != q { return true; }
        case (Thinking(p, _, _), Thinking(q, _, _)) => if p != q { return true; }
        case (Tool(p), Tool(q)) => if p.id != q.id { return true; }
        case _ => return true;
      }
    }
    return false;
  }

  /** Shape comparison is an equality except on blocks the app does not know:
      such a block differs even from itself. */
  lemma ShapeOfSelf(a: seq<Content>)
    ensures SameShape(a, a) <==> forall k :: 0 <= k < |a| ==> !a[k].Unknown?
  {
    if SameShape(a, a) {
      forall k | 0 <= k < |a| ensures !a[k].Unknown? { assert SameBlock(a[k], a[k]); }
    }
  }

  /** No block of a kind the app does not know. */
  ghost predicate Known(content: seq<Content>) {
    forall k :: 0 <= k < |content| ==> !content[k].Unknown?
  }

  /** Equality up to provider metadata, on every kind of block: a block the app does not know is the
      same as an identical one. */
  predicate Alike(x: Content, y: Content) {
    SameBlock(x, y) || (x.Unknown? && x == y)
  }

  predicate AllAlike(a: seq<Content>, b: seq<Content>) {
    |a| == |b| && forall k :: 0 <= k < |a| ==> Alike(a[k], b[k])
  }

  /** Of two contents that are alike, the store's comparison says they differ exactly when there is a
      block it does not know. */
  lemma AlikeDiffersIff(a: seq<Content>, b: seq<Content>)
    requires AllAlike(a, b)
    ensures SameShape(a, b) <==> Known(b)
  {
    forall k | 0 <= k < |a| ensures SameBlock(a[k], b[k]) <==> !b[k].Unknown? {
      assert Alike(a[k], b[k]);
    }
  }

  // ----- the store's side: incremental application

  /** The closed form of the padding loop: `block` lands at `i`, skipped positions become empty text,
      and nothing happens when position `i` exists already. */
  function Padded(content: seq<Content>, i: nat, block: Content): (r: seq<Content>)
    ensures |r| == Max(|content|, i + 1) && content <= r
    ensures forall k :: |content| <= k < |r| ==> r[k] == if k == i then block else EMPTY_TEXT
  {
    if i < |content| then content
    else content + seq(i - |content|, _ => EMPTY_TEXT) + [block]
  }

  function WithText(content: seq<Content>, i: nat, text: string): seq<Content>
    requires i < |content|
  {
    if content[i].Text? then content[i := content[i].(text := text)] else content
  }

  function WithThinking(content: seq<Content>, i: nat, text: string): seq<Content>
    requires i < |content|
  {
    if content[i].Thinking? then content[i := content[i].(thinking := text)] else content
  }

  /** The local content after the switch in `applyMessageEvent`, before reconciliation. */
  function ApplyDelta(content: seq<Content>, ev: MessageEvent): seq<Content> {
    match ev
    case TextStart(i, _) => Padded(content, i, EMPTY_TEXT)
    case TextDelta(i, delta, _) =>
      var c := Padded(content, i, EMPTY_TEXT);
      if c[i].Text? then WithText(c, i, c[i].text + delta) else c
    case TextEnd(i, full, _) => WithText(Padded(content, i, EMPTY_TEXT), i, full)
    case ThinkingStart(i, _) => Padded(content, i, EMPTY_THINKING)
    case ThinkingDelta(i, delta, _) =>
      var c := Padded(content, i, EMPTY_THINKING);
      if c[i].Thinking? then WithThinking(c, i, c[i].thinking + delta) else c
    case ThinkingEnd(i, full, _) => WithThinking(Padded(content, i, EMPTY_THINKING), i, full)
    case ToolStart(i, p) =>
      Padded(content, i, if i < |p.content| then p.content[i] else Tool(ToolCall("", "", "{}", None, None)))
    case ToolDelta(i, _, p) =>
      if i < |p.content| then Padded(content, i, p.content[i])[i := p.content[i]] else content
    case ToolEnd(i, call, _) => Padded(content, i, Tool(call))[i := Tool(call)]
    case _ => content
  }

  // ----- the core's side: an independent account of what `partial` is

  /** `after` is what the core holds once it has processed `ev`, up to provider metadata: a start
      appends an empty block at the next index, a delta extends exactly the block it names, an end
      repeats the text accumulated so far, and a tool block is whatever the core says until its end. */
  ghost predicate Accumulates(before: seq<Content>, ev: MessageEvent, after: seq<Content>) {
    match ev
    case Start(_) => AllAlike(before, after)
    case TextStart(i, _) => i == |before| && AllAlike(before + [EMPTY_TEXT], after)
    case TextDelta(i, delta, _) =>
      i < |before| && before[i].Text? &&
      AllAlike(before[i := Text(before[i].text + delta, None)], after)
    case TextEnd(i, full, _) =>
      i < |before| && before[i].Text? && before[i].text == full && AllAlike(before, after)
    case ThinkingStart(i, _) => i == |before| && AllAlike(before + [EMPTY_THINKING], after)
    case ThinkingDelta(i, delta, _) =>
      i < |before| && before[i].Thinking? &&
      AllAlike(before[i := Thinking(before[i].thinking + delta, None, false)], after)
    case ThinkingEnd(i, full, _) =>
      i < |before| && before[i].Thinking? && before[i].thinking == full && AllAlike(before, after)
    case ToolStart(i, _) =>
      i == |before| && |after| == i + 1 && AllAlike(before + [after[i]], after)
    case ToolDelta(i, _, _) =>
      i < |before| == |after| && AllAlike(before[i := after[i]], after)
    case ToolEnd(i, call, _) =>
      i < |before| == |after| && after[i].Tool? && after[i].call.id == call.id &&
      AllAlike(before[i := after[i]], after)
    case _ => false
  }

  /** Simulation step: from any local copy alike, applying the event incrementally yields a content
      alike to the core's accumulation; so the store sees drift exactly if it does not know a block. */
  lemma StepSimulates(local: seq<Content>, before: seq<Content>, ev: MessageEvent)
    requires ev.HasPartial()
    requires AllAlike(local, before)
    requires Accumulates(before, ev, ev.partial.content)
    ensures AllAlike(ApplyDelta(local, ev), ev.partial.content)
    ensures SameShape(ApplyDelta(local, ev), ev.partial.content) <==> Known(ev.partial.content)
  {
    forall k | 0 <= k < |ev.partial.content| ensures Alike(ApplyDelta(local, ev)[k], ev.partial.content[k]) {
      BlockSimulates(local, before, ev, k);
    }
    AlikeDiffersIff(ApplyDelta(local, ev), ev.partial.content);
  }

  lemma BlockSimulates(local: seq<Content>, before: seq<Content>, ev: MessageEvent, k: nat)
    requires ev.HasPartial() && k < |ev.partial.content| == |ApplyDelta(local, ev)|
    requires AllAlike(local, before)
    requires Accumulates(before, ev, ev.partial.content)
    ensures Alike(ApplyDelta(local, ev)[k], ev.partial.content[k])
  {
    var after := ev.partial.content;
    if k < |local| { assert Alike(local[k], before[k]); }
    match ev {
      case TextStart(_, _) => assert Alike((before + [EMPTY_TEXT])[k], after[k]);
      case ThinkingStart(_, _) => assert Alike((before + [EMPTY_THINKING])[k], after[k]);
      case TextDelta(i, delta, _) => assert Alike(before[i := Text(before[i].text + delta, None)][k], after[k]);
      case ThinkingDelta(i, delta, _) =>
        assert Alike(before[i := Thinking(before[i].thinking + delta, None, false)][k], after[k]);
      case ToolStart(i, _) => assert Alike((before + [after[i]])[k], after[k]);
      case ToolDelta(i, _, _) => assert Alike(before[i := after[i]][k], after[k]);
      case ToolEnd(i, _, _) => assert Alike(before[i := after[i]][k], after[k]);
      case Start(_) => assert Alike(before[k], after[k]);
      case TextEnd(_, _, _) => assert Alike(before[k], after[k]);
      case ThinkingEnd(_, _, _) => assert Alike(before[k], after[k]);
      case _ =>
    }
  }

  /** The two contents may differ at block `i`, and agree everywhere else. */
  ghost predicate AlikeBut(i: nat, a: seq<Content>, b: seq<Content>) {
    |a| == |b| && forall k :: 0 <= k < |a| && k != i ==> Alike(a[k], b[k])
  }

  /** The event says all there is to say of its block: the whole text at the end of one, the block itself
      for a tool call. */
  predicate Restores(ev: MessageEvent, block: Content) {
    match ev
    case TextEnd(_, full, _) => block.Text?
    case ThinkingEnd(_, full, _) => block.Thinking?
    case ToolDelta(_, _, _) => true
    case ToolEnd(_, _, _) => true
    case _ => false
  }

  /** So whatever went wrong with a block before, lost or doubled deltas, such an event puts it right
      without the help of `partial`: the local copy is then alike to the core's accumulation. */
  lemma EndHeals(local: seq<Content>, before: seq<Content>, ev: MessageEvent)
    requires ev.HasPartial() && !ev.Start? && ev.i < |local| && AlikeBut(ev.i, local, before)
    requires Restores(ev, local[ev.i]) && Accumulates(before, ev, ev.partial.content)
    ensures AllAlike(ApplyDelta(local, ev), ev.partial.content)
  {
    var after, r := ev.partial.content, ApplyDelta(local, ev);
    forall k | 0 <= k < |after| ensures |r| == |after| && Alike(r[k], after[k]) {
      HealedBlock(local, before, ev, k);
    }
  }

  lemma HealedBlock(local: seq<Content>, before: seq<Content>, ev: MessageEvent, k: nat)
    requires ev.HasPartial() && !ev.Start? && ev.i < |local| && AlikeBut(ev.i, local, before)
    requires Restores(ev, local[ev.i]) && Accumulates(before, ev, ev.partial.content) && k < |ev.partial.content|
    ensures |ApplyDelta(local, ev)| == |ev.partial.content|
    ensures Alike(ApplyDelta(local, ev)[k], ev.partial.content[k])
  {
    var after := ev.partial.content;
    if k != ev.i { assert Alike(local[k], before[k]); }
    match ev {
      case TextEnd(_, _, _) => assert Alike(before[k], after[k]);
      case ThinkingEnd(_, _, _) => assert Alike(before[k], after[k]);
      case ToolDelta(i, _, _) => assert Alike(before[i := after[i]][k], after[k]);
      case ToolEnd(i, _, _) => assert Alike(before[i := after[i]][k], after[k]);
      case _ =>
    }
  }

  // ----- whole streams

  /** Every event's `partial` is the core's accumulation of the one before it. */
  ghost predicate CleanStream(before: seq<Content>, events: seq<MessageEvent>)
    decreases |events|
  {
    events == [] ||
    (events[0].HasPartial() && Accumulates(before, events[0], events[0].partial.content) &&
     CleanStream(events[0].partial.content, events[1..]))
  }

  ghost function LastPartial(before: seq<Content>, events: seq<MessageEvent>): seq<Content>
    requires CleanStream(before, events)
    decreases |events|
  {
    if events == [] then before else LastPartial(events[0].partial.content, events[1..])
  }

  /** The deltas alone, with reconciliation switched off. */
  function DeltaOnly(content: seq<Content>, events: seq<MessageEvent>): seq<Content>
    decreases |events|
  {
    if events == [] then content else DeltaOnly(ApplyDelta(content, events[0]), events[1..])
  }

  /** Simulation over whole streams: even if `partial` were never consulted, the deltas alone would
      rebuild what the core ends with. */
  lemma {:induction false} DeltasRebuildPartial(local: seq<Content>, before: seq<Content>, events: seq<MessageEvent>)
    requires AllAlike(local, before) && CleanStream(before, events)
    ensures AllAlike(DeltaOnly(local, events), LastPartial(before, events))
    decreases |events|
  {
    if events != [] {
      StepSimulates(local, before, events[0]);
      DeltasRebuildPartial(ApplyDelta(local, events[0]), events[0].partial.content, events[1..]);
    }
  }
}
