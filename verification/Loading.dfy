/** Loading a transcript: what a fetch in flight, the stream beside it and the answer come to together. */
module Loading {
  import opened Basics
  import opened Wire
  import opened ChatModel
  import opened ChatTheorems

  // ----- the step that ends a load

  /** The answer of the query becomes the base: its ids come first, then the ids that were only streamed.
      Every entry streamed meanwhile is kept as streamed, every other fetched entry stays where the fetch
      had it, and nothing else of the store changes but that it counts as loaded. */
  lemma LoadFinishMerges(s: State, id: string, fetched: seq<Entry>)
    requires s.sessionId == Some(id) && DistinctIds(fetched) && DistinctIds(s.entries)
    ensures var t := Step(s, LoadFinish(id, Some(fetched)));
            && Ids(t.entries) == Ids(fetched) + NewIds(Ids(fetched), Ids(s.entries))
            && t == s.(entries := t.entries, isLoaded := true)
    ensures forall x :: x in s.entries ==> x in Step(s, LoadFinish(id, Some(fetched))).entries
    ensures forall k :: 0 <= k < |fetched| && fetched[k].id !in Ids(s.entries) ==>
              k < |Step(s, LoadFinish(id, Some(fetched))).entries| &&
              Step(s, LoadFinish(id, Some(fetched))).entries[k] == fetched[k]
  {
    LoadOrder(fetched, s.entries);
    forall x | x in s.entries ensures x in UpsertAll(fetched, s.entries) {
      LoadStreamedWins(fetched, s.entries, x);
    }
    forall k | 0 <= k < |fetched| && fetched[k].id !in Ids(s.entries)
      ensures k < |UpsertAll(fetched, s.entries)| && UpsertAll(fetched, s.entries)[k] == fetched[k]
    {
      LoadKeepsFetched(fetched, s.entries, k);
    }
  }

  /** An answer for a session no longer on screen, or a failed query, changes nothing. */
  lemma LateOrFailedLoadIsIgnored(s: State, id: string, fetched: Option<seq<Entry>>)
    requires s.sessionId != Some(id) || fetched.None?
    ensures Step(s, LoadFinish(id, fetched)) == s
  {
  }

  /** Showing another session starts over, and showing the same one does nothing. What has been handed to
      the core, the repairs counted and the mode stay. */
  lemma LoadBeginStartsOver(s: State, sid: string)
    ensures s.sessionId == Some(sid) ==> Step(s, LoadBegin(sid)) == s
    ensures s.sessionId != Some(sid) ==>
              var t := Step(s, LoadBegin(sid));
              && t.entries == [] && t.queued == [] && t.partialToolArguments == map[]
              && !t.isLoaded && !t.isStreaming && t.streamingEntryId == None
              && t.sent == s.sent && t.repairs == s.repairs && t.queueMode == s.queueMode
  {
  }

  // ----- the whole load

  /** The entry an action announces on the session, if it does. */
  function Announces(sid: string, a: Action): Option<string> {
    if a.Receive? && a.event.MessageStart? && a.event.sessionId == sid then Some(a.event.entry.id)
    else if a.Receive? && a.event.MessageEnd? && a.event.sessionId == sid then Some(a.event.entry.id)
    else None
  }

  /** The ids announced on a session, in order of first appearance. */
  function AnnouncedIds(sid: string, actions: seq<Action>): seq<string> {
    if actions == [] then []
    else
      var front, last := AnnouncedIds(sid, actions[..|actions| - 1]), Announces(sid, actions[|actions| - 1]);
      if last.Some? && last.value !in front then front + [last.value] else front
  }

  /** What may happen while the query is in flight: anything but another session or the answer itself.
      Answers of earlier loads may still arrive. */
  predicate Meanwhile(sid: string, a: Action) {
    !(a.LoadBegin? && a.sessionId != sid) && !(a.LoadFinish? && a.sessionId == sid && a.fetched.Some?)
  }

  lemma IdsOfUpserted(entries: seq<Entry>, e: Entry)
    ensures Ids(Upserted(entries, e)) == if e.id in Ids(entries) then Ids(entries) else Ids(entries) + [e.id]
  {
    match IndexOf(entries, e.id)
    case Some(k) => assert Ids(entries)[k] == e.id;
    case None => assert forall k :: 0 <= k < |entries| ==> Ids(entries)[k] == entries[k].id;
  }

  lemma MeanwhileStep(s: State, sid: string, a: Action)
    requires s.sessionId == Some(sid) && Meanwhile(sid, a)
    ensures Step(s, a).sessionId == Some(sid)
    ensures Step(s, a).isLoaded <==> s.isLoaded || Announces(sid, a).Some?
    ensures Ids(Step(s, a).entries) ==
              match Announces(sid, a)
              case Some(id) => if id in Ids(s.entries) then Ids(s.entries) else Ids(s.entries) + [id]
              case None => Ids(s.entries)
  {
    if a.Receive? {
      EventKeepsSession(s, a.event);
      AnnouncementStep(s, sid, a.event);
    }
  }

  lemma AnnouncementStep(s: State, sid: string, e: CoreEvent)
    requires s.sessionId == Some(sid)
    ensures Ids(OnEvent(s, e).entries) ==
              match Announces(sid, Receive(e))
              case Some(id) => if id in Ids(s.entries) then Ids(s.entries) else Ids(s.entries) + [id]
              case None => Ids(s.entries)
  {
    match e
    case MessageStart(_, entry) => IdsOfUpserted(s.entries, entry);
    case MessageEnd(_, entry) => IdsOfUpserted(s.entries, entry);
    case MessageUpdate(_, id, ev) => UpdateKeepsIds(s, id, ev);
    case _ =>
  }

  /** From the moment a session is shown, its transcript is exactly what has been announced on it since:
      nothing of the session before remains, whatever the other actions were. It counts as loaded from
      the first announcement on. */
  lemma {:induction false} ShowsWhatWasAnnounced(s: State, sid: string, actions: seq<Action>)
    requires s.sessionId != Some(sid) && forall a :: a in actions ==> Meanwhile(sid, a)
    ensures Run(Step(s, LoadBegin(sid)), actions).sessionId == Some(sid)
    ensures Ids(Run(Step(s, LoadBegin(sid)), actions).entries) == AnnouncedIds(sid, actions)
    ensures Run(Step(s, LoadBegin(sid)), actions).isLoaded <==> AnnouncedIds(sid, actions) != []
    decreases |actions|
  {
    if actions == [] {
      assert Ids([]) == [];
    } else {
      var front, last := actions[..|actions| - 1], actions[|actions| - 1];
      assert last in actions && forall a :: a in front ==> a in actions;
      ShowsWhatWasAnnounced(s, sid, front);
      MeanwhileStep(Run(Step(s, LoadBegin(sid)), front), sid, last);
    }
  }

  predicate Once(ids: seq<string>) {
    forall i, j :: 0 <= i < j < |ids| ==> ids[i] != ids[j]
  }

  lemma OnceMore(ids: seq<string>, id: string)
    requires Once(ids) && id !in ids
    ensures Once(ids + [id])
  {
  }

  lemma {:induction false} AnnouncedOnce(sid: string, actions: seq<Action>)
    ensures Once(AnnouncedIds(sid, actions))
    decreases |actions|
  {
    if actions != [] {
      var front, last := AnnouncedIds(sid, actions[..|actions| - 1]), Announces(sid, actions[|actions| - 1]);
      AnnouncedOnce(sid, actions[..|actions| - 1]);
      if last.Some? && last.value !in front { OnceMore(front, last.value); }
    }
  }

  lemma DistinctById(entries: seq<Entry>, ids: seq<string>)
    requires Ids(entries) == ids && Once(ids)
    ensures DistinctIds(entries)
  {
    forall i, j | 0 <= i < j < |entries| ensures entries[i].id != entries[j].id {
      assert Ids(entries)[i] == entries[i].id && Ids(entries)[j] == entries[j].id;
    }
  }

  /** The whole load, over every run: show a session, let anything happen meanwhile, receive the answer.
      The transcript is the fetched one followed by what only the stream announced, with the streamed
      values where both have an entry. */
  lemma LoadOverRun(s: State, sid: string, actions: seq<Action>, fetched: seq<Entry>)
    requires s.sessionId != Some(sid) && DistinctIds(fetched) && forall a :: a in actions ==> Meanwhile(sid, a)
    ensures var before := Run(Step(s, LoadBegin(sid)), actions);
            var after := Step(before, LoadFinish(sid, Some(fetched)));
            && Ids(after.entries) == Ids(fetched) + NewIds(Ids(fetched), AnnouncedIds(sid, actions))
            && (forall x :: x in before.entries ==> x in after.entries)
            && DistinctIds(after.entries)
  {
    var before := Run(Step(s, LoadBegin(sid)), actions);
    ShowsWhatWasAnnounced(s, sid, actions);
    AnnouncedOnce(sid, actions);
    DistinctById(before.entries, AnnouncedIds(sid, actions));
    LoadFinishMerges(before, sid, fetched);
    LoadOrder(fetched, before.entries);
  }
}
