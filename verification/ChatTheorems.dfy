/** What every run of the chat store keeps: transcript identity, convergence, simulation. */
module ChatTheorems {
  import opened Basics
  import opened Wire
  import opened Replica
  import opened ChatModel

  ghost predicate DistinctIds(entries: seq<Entry>) {
    forall i, j :: 0 <= i < j < |entries| ==> entries[i].id != entries[j].id
  }

  function Ids(entries: seq<Entry>): (r: seq<string>)
    ensures |r| == |entries| && forall k :: 0 <= k < |r| ==> r[k] == entries[k].id
  {
    seq(|entries|, k requires 0 <= k < |entries| => entries[k].id)
  }

  // ----- transcript identity

  /** However stale the cached index is, on a transcript with distinct ids the cached lookup
      finds exactly what a plain search finds. */
  lemma CachedLookupIsSearch(s: State, id: string)
    requires DistinctIds(s.entries)
    ensures Located(s, id) == IndexOf(s.entries, id)
  {
    if Located(s, id).Some? {
      var k := Located(s, id).value;
      var j := IndexOf(s.entries, id).value;
      assert !(j < k) && !(k < j);
    }
  }

  lemma UpsertKeepsIdentity(entries: seq<Entry>, e: Entry)
    requires DistinctIds(entries)
    ensures DistinctIds(Upserted(entries, e))
    ensures Ids(entries) <= Ids(Upserted(entries, e))
    ensures e in Upserted(entries, e)
  {
    var r := Upserted(entries, e);
    match IndexOf(entries, e.id) {
      case Some(k) =>
        assert r[k] == e;
        assert Ids(r) == Ids(entries);
      case None =>
        assert r[|entries|] == e;
        assert Ids(r)[..|entries|] == Ids(entries);
    }
  }

  lemma EventKeepsIdentity(s: State, event: CoreEvent)
    requires DistinctIds(s.entries)
    ensures DistinctIds(OnEvent(s, event).entries)
    ensures Ids(s.entries) <= Ids(OnEvent(s, event).entries)
  {
    match event
    case MessageStart(_, e) => UpsertKeepsIdentity(s.entries, e);
    case MessageEnd(_, e) => UpsertKeepsIdentity(s.entries, e);
    case MessageUpdate(_, id, ev) => assert Ids(OnEvent(s, event).entries) == Ids(s.entries);
    case _ =>
  }

  /** The fold of events alone, as the event pump feeds them. */
  function Receives(events: seq<CoreEvent>): (r: seq<Action>)
    ensures |r| == |events| && forall k :: 0 <= k < |r| ==> r[k] == Receive(events[k])
  {
    seq(|events|, k requires 0 <= k < |events| => Receive(events[k]))
  }

  lemma EventsLast(s: State, events: seq<CoreEvent>)
    requires events != []
    ensures var n := |events| - 1;
            Run(s, Receives(events)) == OnEvent(Run(s, Receives(events[..n])), events[n])
  {
    var n := |events| - 1;
    assert Receives(events)[..n] == Receives(events[..n]);
  }

  lemma EventKeepsSession(s: State, e: CoreEvent)
    ensures OnEvent(s, e).sessionId == s.sessionId
  {
  }

  lemma {:induction false} EventsKeepIdentity(s: State, events: seq<CoreEvent>)
    requires DistinctIds(s.entries)
    ensures DistinctIds(Run(s, Receives(events)).entries)
    ensures Ids(s.entries) <= Ids(Run(s, Receives(events)).entries)
    decreases |events|
  {
    if events != [] {
      var n := |events| - 1;
      EventsLast(s, events);
      EventsKeepIdentity(s, events[..n]);
      EventKeepsIdentity(Run(s, Receives(events[..n])), events[n]);
    }
  }

  /** Ids of `more` that are not already in `base`, in order. */
  function NewIds(base: seq<string>, more: seq<string>): seq<string> {
    if more == [] then []
    else
      var front := NewIds(base, more[..|more| - 1]);
      var last := more[|more| - 1];
      if last in base then front else front + [last]
  }

  lemma {:induction false} NewIdsMembers(base: seq<string>, more: seq<string>, id: string)
    ensures id in NewIds(base, more) <==> id in more && id !in base
  {
    if more != [] {
      NewIdsMembers(base, more[..|more| - 1], id);
      assert more == more[..|more| - 1] + [more[|more| - 1]];
    }
  }

  /** `load`: the fetched transcript is the base, and streamed-only entries follow it in the order
      they arrived. */
  lemma {:induction false} LoadOrder(fetched: seq<Entry>, streamed: seq<Entry>)
    requires DistinctIds(fetched) && DistinctIds(streamed)
    ensures DistinctIds(UpsertAll(fetched, streamed))
    ensures Ids(UpsertAll(fetched, streamed)) == Ids(fetched) + NewIds(Ids(fetched), Ids(streamed))
    decreases |streamed|
  {
    if streamed != [] {
      var n := |streamed| - 1;
      LoadOrder(fetched, streamed[..n]);
      var mid := UpsertAll(fetched, streamed[..n]);
      UpsertKeepsIdentity(mid, streamed[n]);
      NewIdsMembers(Ids(fetched), Ids(streamed[..n]), streamed[n].id);
      assert streamed[n].id !in Ids(streamed[..n]);
      LoadOrderStep(fetched, streamed, mid);
    }
  }

  /** `load`: what was streamed while the query was in flight wins over what was fetched. */
  lemma {:induction false} LoadStreamedWins(fetched: seq<Entry>, streamed: seq<Entry>, x: Entry)
    requires DistinctIds(fetched) && DistinctIds(streamed) && x in streamed
    ensures x in UpsertAll(fetched, streamed)
    decreases |streamed|
  {
    var n := |streamed| - 1;
    var mid := UpsertAll(fetched, streamed[..n]);
    LoadOrder(fetched, streamed[..n]);
    UpsertKeepsIdentity(mid, streamed[n]);
    if x != streamed[n] {
      LoadStreamedWins(fetched, streamed[..n], x);
      var j :| 0 <= j < n && streamed[j] == x;
      UpsertKeepsOther(mid, streamed[n], x);
    }
  }

  lemma UpsertKeepsOther(entries: seq<Entry>, e: Entry, x: Entry)
    requires x in entries && x.id != e.id
    ensures x in Upserted(entries, e)
  {
    var m :| 0 <= m < |entries| && entries[m] == x;
    assert Upserted(entries, e)[m] == x;
  }

  /** `load`: a fetched entry that was not streamed meanwhile is kept where the fetch had it. */
  lemma {:induction false} LoadKeepsFetched(fetched: seq<Entry>, streamed: seq<Entry>, k: nat)
    requires DistinctIds(fetched) && DistinctIds(streamed)
    requires k < |fetched| && fetched[k].id !in Ids(streamed)
    ensures k < |UpsertAll(fetched, streamed)| && UpsertAll(fetched, streamed)[k] == fetched[k]
    decreases |streamed|
  {
    if streamed != [] {
      var n := |streamed| - 1;
      assert Ids(streamed[..n]) == Ids(streamed)[..n];
      assert Ids(streamed)[n] == streamed[n].id;
      LoadKeepsFetched(fetched, streamed[..n], k);
    }
  }

  lemma LoadOrderStep(fetched: seq<Entry>, streamed: seq<Entry>, mid: seq<Entry>)
    requires streamed != []
    requires var n := |streamed| - 1; Ids(mid) == Ids(fetched) + NewIds(Ids(fetched), Ids(streamed[..n]))
    requires var n := |streamed| - 1; streamed[n].id !in NewIds(Ids(fetched), Ids(streamed[..n]))
    ensures Ids(Upserted(mid, streamed[|streamed| - 1])) == Ids(fetched) + NewIds(Ids(fetched), Ids(streamed))
  {
    var n := |streamed| - 1;
    var e := streamed[n];
    assert Ids(streamed)[..n] == Ids(streamed[..n]);
    match IndexOf(mid, e.id) {
      case Some(k) =>
        assert Ids(mid)[k] == e.id;
        assert e.id in Ids(fetched);
        assert Ids(Upserted(mid, e)) == Ids(mid);
      case None =>
        assert forall j :: 0 <= j < |fetched| ==> Ids(fetched)[j] == Ids(mid)[j] == mid[j].id;
        assert Ids(Upserted(mid, e)) == Ids(mid) + [e.id];
    }
  }

  /** Over every run, as long as fetched transcripts have distinct ids, the store's do. */
  lemma {:induction false} RunKeepsDistinctIds(s: State, actions: seq<Action>)
    requires DistinctIds(s.entries)
    requires forall a :: a in actions && a.LoadFinish? && a.fetched.Some? ==> DistinctIds(a.fetched.value)
    ensures DistinctIds(Run(s, actions).entries)
    decreases |actions|
  {
    if actions != [] {
      var n := |actions| - 1;
      assert forall a :: a in actions[..n] ==> a in actions;
      RunKeepsDistinctIds(s, actions[..n]);
      var t := Run(s, actions[..n]);
      assert actions[n] in actions;
      match actions[n]
      case Receive(e) => EventKeepsIdentity(t, e);
      case LoadFinish(_, fetched) => if fetched.Some? { LoadOrder(fetched.value, t.entries); }
      case _ =>
    }
  }

  // ----- convergence on arbitrary streams

  /** After any event carrying `partial` for an assistant entry, whatever its index and delta say,
      the entry holds the core's content, no other entry has changed, and the counter rose by one
      exactly when the deltas had built a different shape. The rest of the message is the core's too,
      unless the deltas had built the very same content: then it is left alone. */
  lemma Converges(s: State, id: string, ev: MessageEvent, k: nat)
    requires ev.HasPartial()
    requires Located(s, id) == Some(k) && s.entries[k].IsAssistant()
    ensures var s' := OnMessageEvent(s, id, ev);
            && |s'.entries| == |s.entries|
            && s'.entries[k].IsAssistant() && s'.entries[k].Content() == ev.partial.content
            && s'.entries[k] == s.entries[k].(kind := s'.entries[k].kind) && s'.entries[k].id == id
            && s'.entries[k].kind.message.assistant.envelope ==
                 (if ApplyDelta(s.entries[k].Content(), ev) == ev.partial.content && Known(ev.partial.content)
                  then s.entries[k].kind.message.assistant.envelope else ev.partial.envelope)
            && (forall j :: 0 <= j < |s.entries| && j != k ==> s'.entries[j] == s.entries[j])
            && (s'.repairs == s.repairs <==> SameShape(ApplyDelta(s.entries[k].Content(), ev), ev.partial.content))
            && s.repairs <= s'.repairs <= s.repairs + 1
            && s'.queued == s.queued && s'.sent == s.sent
  {
    ShapeOfSelf(ev.partial.content);
  }

  /** A block the app does not know counts a repair on every event that shows it, even where the store
      holds the very same content. */
  lemma UnknownAlwaysRepairs(s: State, id: string, ev: MessageEvent, k: nat, j: nat)
    requires ev.HasPartial() && j < |ev.partial.content| && ev.partial.content[j].Unknown?
    requires Located(s, id) == Some(k) && s.entries[k].IsAssistant()
    ensures OnMessageEvent(s, id, ev).repairs == s.repairs + 1
  {
    var local := ApplyDelta(s.entries[k].Content(), ev);
    assert j < |local| ==> !SameBlock(local[j], ev.partial.content[j]);
  }

  /** A terminal event leaves exactly the terminal message, whatever was there before. */
  lemma TerminalAdopts(s: State, id: string, ev: MessageEvent, k: nat)
    requires ev.IsTerminal() && Located(s, id) == Some(k)
    ensures var s' := OnMessageEvent(s, id, ev);
            && s'.entries == s.entries[k := s.entries[k].(kind := MessageEntry(Assistant(ev.message)))]
            && s'.repairs == s.repairs && s'.partialToolArguments == map[]
  {
  }

  /** The same, over a whole interleaved run: the last event that carried a message for an assistant
      entry decides its content, provided nothing later in the run addresses the entry. */
  lemma {:induction false} LastPartialWins(s: State, sid: string, id: string, ev: MessageEvent, later: seq<CoreEvent>)
    requires DistinctIds(s.entries) && s.sessionId == Some(sid) && ev.HasPartial()
    requires IndexOf(s.entries, id).Some? && s.entries[IndexOf(s.entries, id).value].IsAssistant()
    requires forall e :: e in later ==> !Addresses(e, id)
    ensures var k := IndexOf(s.entries, id).value;
            var s' := Run(OnEvent(s, MessageUpdate(sid, id, ev)), Receives(later));
            k < |s'.entries| && s'.entries[k].id == id && s'.entries[k].IsAssistant()
            && s'.entries[k].Content() == ev.partial.content
    decreases |later|
  {
    CachedLookupIsSearch(s, id);
    var k := IndexOf(s.entries, id).value;
    var start := OnEvent(s, MessageUpdate(sid, id, ev));
    if later == [] {
      Converges(s, id, ev, k);
    } else {
      var n := |later| - 1;
      EventsLast(start, later);
      assert forall e :: e in later[..n] ==> e in later;
      LastPartialWins(s, sid, id, ev, later[..n]);
      var t := Run(start, Receives(later[..n]));
      assert later[n] in later;
      EventKeepsIdentity(s, MessageUpdate(sid, id, ev));
      EventsKeepIdentity(start, later[..n]);
      OtherEntriesUntouched(t, later[n], k);
    }
  }

  predicate Addresses(e: CoreEvent, id: string) {
    match e
    case MessageStart(_, entry) => entry.id == id
    case MessageEnd(_, entry) => entry.id == id
    case MessageUpdate(_, entryId, _) => entryId == id
    case _ => false
  }

  /** An event changes only the entry it addresses. */
  lemma OtherEntriesUntouched(s: State, e: CoreEvent, k: nat)
    requires k < |s.entries| && !Addresses(e, s.entries[k].id)
    ensures k < |OnEvent(s, e).entries| && OnEvent(s, e).entries[k] == s.entries[k]
  {
  }

  // ----- simulation over whole interleaved runs

  /** What the core has recorded for each entry it has announced. */
  type Record = map<string, seq<Content>>

  /** The event says what the core would say for session `sid`: message events address announced entries, and every
      `partial` is the accumulation of that entry's previous content. */
  ghost predicate Truthful(sid: string, record: Record, e: CoreEvent) {
    e.Session() == Some(sid) && e.MessageUpdate? && e.event.HasPartial() ==>
      && e.entryId in record
      && Accumulates(record[e.entryId], e.event, e.event.partial.content)
  }

  ghost function Announced(record: Record, entry: Entry): Record {
    if entry.IsAssistant() then record[entry.id := entry.Content()] else record - {entry.id}
  }

  ghost function Updated(record: Record, id: string, ev: MessageEvent): Record {
    if id in record && ev.HasPartial() then record[id := ev.partial.content]
    else if id in record && ev.IsTerminal() then record[id := ev.message.content]
    else record
  }

  ghost function Recorded(sid: string, record: Record, e: CoreEvent): Record {
    if e.Session() != Some(sid) then record
    else
      match e
      case MessageStart(_, entry) => Announced(record, entry)
      case MessageEnd(_, entry) => Announced(record, entry)
      case MessageUpdate(_, id, ev) => Updated(record, id, ev)
      case _ => record
  }

  ghost function RecordAfter(sid: string, record: Record, events: seq<CoreEvent>): Record {
    if events == [] then record
    else Recorded(sid, RecordAfter(sid, record, events[..|events| - 1]), events[|events| - 1])
  }

  ghost predicate TruthfulRun(sid: string, record: Record, events: seq<CoreEvent>) {
    forall n :: 0 <= n < |events| ==> Truthful(sid, RecordAfter(sid, record, events[..n]), events[n])
  }

  ghost predicate Shows(entries: seq<Entry>, id: string, content: seq<Content>) {
    var r := IndexOf(entries, id);
    r.Some? && entries[r.value].IsAssistant() && entries[r.value].Content() == content
  }

  /** The store shows what the core has recorded, for every announced entry. */
  ghost predicate Mirrors(entries: seq<Entry>, record: Record) {
    DistinctIds(entries) && forall id :: id in record ==> Shows(entries, id, record[id])
  }

  lemma IndexIsUnique(entries: seq<Entry>, k: nat)
    requires DistinctIds(entries) && k < |entries|
    ensures IndexOf(entries, entries[k].id) == Some(k)
  {
    var j := IndexOf(entries, entries[k].id).value;
    assert !(j < k);
  }

  lemma UpsertShows(entries: seq<Entry>, e: Entry, id: string)
    requires DistinctIds(entries)
    ensures DistinctIds(Upserted(entries, e))
    ensures e.IsAssistant() ==> Shows(Upserted(entries, e), e.id, e.Content())
    ensures id != e.id && IndexOf(entries, id).Some? ==>
              var k := IndexOf(entries, id).value;
              IndexOf(Upserted(entries, e), id) == Some(k) && Upserted(entries, e)[k] == entries[k]
  {
    UpsertKeepsIdentity(entries, e);
    var r := Upserted(entries, e);
    var k :| 0 <= k < |r| && r[k] == e;
    IndexIsUnique(r, k);
    if id != e.id && IndexOf(entries, id).Some? {
      IndexIsUnique(r, IndexOf(entries, id).value);
    }
  }

  lemma UpsertMirrors(entries: seq<Entry>, record: Record, e: Entry)
    requires Mirrors(entries, record)
    ensures Mirrors(Upserted(entries, e), Announced(record, e))
  {
    UpsertShows(entries, e, e.id);
    forall id | id in Announced(record, e) ensures Shows(Upserted(entries, e), id, Announced(record, e)[id]) {
      UpsertShows(entries, e, id);
    }
  }

  /** One for an event whose `partial` holds a block the app does not know, otherwise zero. */
  ghost function Unfamiliar(ev: MessageEvent): nat {
    if ev.HasPartial() && !Known(ev.partial.content) then 1 else 0
  }

  ghost function UnfamiliarTo(sid: string, e: CoreEvent): nat {
    if e.MessageUpdate? && e.sessionId == sid then Unfamiliar(e.event) else 0
  }

  /** How many events of a session show a block the app does not know. */
  ghost function UnfamiliarEvents(sid: string, events: seq<CoreEvent>): nat {
    if events == [] then 0
    else UnfamiliarEvents(sid, events[..|events| - 1]) + UnfamiliarTo(sid, events[|events| - 1])
  }

  lemma UpdateShows(s: State, id: string, content: seq<Content>, ev: MessageEvent)
    requires DistinctIds(s.entries) && Shows(s.entries, id, content)
    requires ev.HasPartial() ==> Accumulates(content, ev, ev.partial.content)
    ensures var s' := OnMessageEvent(s, id, ev);
            && s'.repairs == s.repairs + Unfamiliar(ev)
            && Shows(s'.entries, id, if ev.HasPartial() then ev.partial.content
                                     else if ev.IsTerminal() then ev.message.content else content)
  {
    var k := IndexOf(s.entries, id).value;
    var s' := OnMessageEvent(s, id, ev);
    CachedLookupIsSearch(s, id);
    if ev.HasPartial() {
      StepSimulates(content, content, ev);
      Converges(s, id, ev, k);
    }
    assert Ids(s'.entries) == Ids(s.entries);
    assert s'.entries[k].id == id;
    IndexIsUnique(s'.entries, k);
  }

  /** A message event moves only the entry it names; ids and order stay. */
  lemma UpdateKeepsIds(s: State, id: string, ev: MessageEvent)
    ensures Ids(OnMessageEvent(s, id, ev).entries) == Ids(s.entries)
  {
  }

  lemma UpdateShowsOther(s: State, id: string, ev: MessageEvent, other: string, content: seq<Content>)
    requires DistinctIds(s.entries) && other != id && Shows(s.entries, other, content)
    ensures Shows(OnMessageEvent(s, id, ev).entries, other, content)
  {
    var k := IndexOf(s.entries, other).value;
    var t := OnMessageEvent(s, id, ev).entries;
    UpdateKeepsIds(s, id, ev);
    assert t[k] == s.entries[k];
    IndexIsUnique(t, k);
  }

  /** The event is the core's own for an announced entry, or carries no `partial`. */
  ghost predicate Reported(record: Record, id: string, ev: MessageEvent) {
    ev.HasPartial() ==> id in record && Accumulates(record[id], ev, ev.partial.content)
  }

  lemma UpdateShowsEach(s: State, record: Record, id: string, ev: MessageEvent, each: string)
    requires Mirrors(s.entries, record) && Reported(record, id, ev) && each in Updated(record, id, ev)
    ensures Shows(OnMessageEvent(s, id, ev).entries, each, Updated(record, id, ev)[each])
  {
    assert Shows(s.entries, each, record[each]);
    if each == id {
      UpdateShows(s, id, record[id], ev);
    } else {
      UpdateShowsOther(s, id, ev, each, record[each]);
    }
  }

  lemma UpdateRepairs(s: State, record: Record, id: string, ev: MessageEvent)
    requires Mirrors(s.entries, record) && Reported(record, id, ev)
    ensures OnMessageEvent(s, id, ev).repairs == s.repairs + Unfamiliar(ev)
  {
    if ev.HasPartial() {
      assert Shows(s.entries, id, record[id]);
      UpdateShows(s, id, record[id], ev);
    } else {
      UnannouncedNeverRepairs(s, id, ev);
    }
  }

  lemma UpdateMirrors(s: State, record: Record, id: string, ev: MessageEvent)
    requires Mirrors(s.entries, record) && Reported(record, id, ev)
    ensures Mirrors(OnMessageEvent(s, id, ev).entries, Updated(record, id, ev))
  {
    var t, record' := OnMessageEvent(s, id, ev).entries, Updated(record, id, ev);
    UpdateKeepsIds(s, id, ev);
    SameIdsDistinct(s.entries, t);
    forall each | each in record' ensures Shows(t, each, record'[each]) {
      UpdateShowsEach(s, record, id, ev, each);
    }
  }

  lemma UnannouncedNeverRepairs(s: State, id: string, ev: MessageEvent)
    requires !ev.HasPartial()
    ensures OnMessageEvent(s, id, ev).repairs == s.repairs
  {
  }

  lemma SameIdsDistinct(a: seq<Entry>, b: seq<Entry>)
    requires Ids(a) == Ids(b) && DistinctIds(a)
    ensures DistinctIds(b)
  {
    forall i, j | 0 <= i < j < |b| ensures b[i].id != b[j].id {
      assert a[i].id == Ids(b)[i] && a[j].id == Ids(b)[j];
    }
  }

  lemma StepMirrors(s: State, sid: string, record: Record, e: CoreEvent)
    requires Mirrors(s.entries, record) && Truthful(sid, record, e)
    requires s.sessionId == Some(sid)
    ensures Mirrors(OnEvent(s, e).entries, Recorded(sid, record, e))
    ensures OnEvent(s, e).repairs == s.repairs + UnfamiliarTo(sid, e)
  {
    if e.Session() == Some(sid) {
      match e
      case MessageStart(_, entry) => UpsertMirrors(s.entries, record, entry);
      case MessageEnd(_, entry) => UpsertMirrors(s.entries, record, entry);
      case MessageUpdate(_, id, ev) =>
        UpdateMirrors(s, record, id, ev);
        UpdateRepairs(s, record, id, ev);
      case _ =>
    }
  }

  /** The theorem: on every run in which the core reports its own accumulation, interleaved over any
      number of messages and with other sessions' traffic, the store mirrors the core after the run,
      and the counter has risen by exactly the number of events that show an unknown block. */
  lemma {:induction false} TruthfulRunsMirror(s: State, sid: string, record: Record, events: seq<CoreEvent>)
    requires Mirrors(s.entries, record) && s.sessionId == Some(sid)
    requires TruthfulRun(sid, record, events)
    ensures Run(s, Receives(events)).repairs == s.repairs + UnfamiliarEvents(sid, events)
    ensures Mirrors(Run(s, Receives(events)).entries, RecordAfter(sid, record, events))
    ensures Run(s, Receives(events)).sessionId == s.sessionId
    decreases |events|
  {
    if events != [] {
      var n := |events| - 1;
      var front, e := events[..n], events[n];
      EventsLast(s, events);
      assert RecordAfter(sid, record, events) == Recorded(sid, RecordAfter(sid, record, front), e);
      TruthfulPrefix(sid, record, events, n);
      TruthfulRunsMirror(s, sid, record, front);
      var t := Run(s, Receives(front));
      EventKeepsSession(t, e);
      StepMirrors(t, sid, RecordAfter(sid, record, front), e);
    }
  }

  ghost predicate AllFamiliar(sid: string, events: seq<CoreEvent>) {
    forall n :: 0 <= n < |events| ==> UnfamiliarTo(sid, events[n]) == 0
  }

  lemma {:induction false} FamiliarIff(sid: string, events: seq<CoreEvent>)
    ensures UnfamiliarEvents(sid, events) == 0 <==> AllFamiliar(sid, events)
    decreases |events|
  {
    if events != [] {
      var front := events[..|events| - 1];
      FamiliarIff(sid, front);
      if AllFamiliar(sid, events) { assert AllFamiliar(sid, front); }
      if UnfamiliarEvents(sid, events) == 0 {
        forall n | 0 <= n < |events| ensures UnfamiliarTo(sid, events[n]) == 0 {
          if n < |front| { assert UnfamiliarTo(sid, front[n]) == 0; }
        }
      }
    }
  }

  /** So the counter of a truthful run stays put if and only if every `partial` is of known blocks. */
  lemma TruthfulRunsNeverRepair(s: State, sid: string, record: Record, events: seq<CoreEvent>)
    requires Mirrors(s.entries, record) && s.sessionId == Some(sid)
    requires TruthfulRun(sid, record, events)
    ensures Run(s, Receives(events)).repairs == s.repairs <==> AllFamiliar(sid, events)
  {
    TruthfulRunsMirror(s, sid, record, events);
    FamiliarIff(sid, events);
  }

  lemma TruthfulPrefix(sid: string, record: Record, events: seq<CoreEvent>, n: nat)
    requires n <= |events| && TruthfulRun(sid, record, events)
    ensures TruthfulRun(sid, record, events[..n])
  {
    forall m | 0 <= m < n ensures Truthful(sid, RecordAfter(sid, record, events[..n][..m]), events[..n][m]) {
      assert events[..n][..m] == events[..m];
    }
  }

  lemma TruthfulSnoc(sid: string, record: Record, events: seq<CoreEvent>, e: CoreEvent)
    requires TruthfulRun(sid, record, events) && Truthful(sid, RecordAfter(sid, record, events), e)
    ensures TruthfulRun(sid, record, events + [e])
    ensures RecordAfter(sid, record, events + [e]) == Recorded(sid, RecordAfter(sid, record, events), e)
  {
    var all := events + [e];
    assert all[..|events|] == events;
    forall m | 0 <= m < |all| ensures Truthful(sid, RecordAfter(sid, record, all[..m]), all[m]) {
      if m < |events| { assert all[..m] == events[..m]; }
    }
  }
}
