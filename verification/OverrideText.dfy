/** The texts of the override settings: what a blank, an unreadable and a readable one do to the command. */
module OverrideText {
  import opened Basics
  import opened KeyBinding
  import opened ShortcutResolver

  // ----- trimming

  lemma {:induction false} BlankTrimsLeft(s: string)
    requires forall k :: 0 <= k < |s| ==> IsBlank(s[k])
    ensures TrimLeft(s, IsBlank) == ""
    decreases |s|
  {
    if s != "" { BlankTrimsLeft(s[1..]); }
  }

  predicate AllBlank(s: string) {
    forall k :: 0 <= k < |s| ==> IsBlank(s[k])
  }

  lemma TrimIsEmptyIff(s: string)
    ensures Trim(s, IsBlank) == "" <==> AllBlank(s)
  {
    var t := TrimLeft(s, IsBlank);
    if AllBlank(s) {
      BlankTrimsLeft(s);
    } else {
      assert t == "" ==> AllBlank(s);
      TrimRightKeepsFirst(t);
    }
  }

  lemma {:induction false} TrimRightKeepsFirst(t: string)
    requires t != "" && !IsBlank(t[0])
    ensures TrimRight(t, IsBlank) != "" && TrimRight(t, IsBlank)[0] == t[0]
    decreases |t|
  {
    if IsBlank(t[|t| - 1]) { TrimRightKeepsFirst(t[..|t| - 1]); }
  }

  lemma TrimTwice(s: string)
    ensures Trim(Trim(s, IsBlank), IsBlank) == Trim(s, IsBlank)
  {
    var t := Trim(s, IsBlank);
    if t != "" { TrimIdentity(t, IsBlank); }
  }

  /** Trimming before parsing changes nothing. */
  lemma ParsedTrimmed(cs: Casing, s: string)
    ensures Parsed(cs, Trim(s, IsBlank)) == Parsed(cs, s)
  {
    TrimTwice(s);
  }

  // ----- resolution depends on the choices only, one by one

  lemma {:induction false} SameOverridePass(want: Choices, want': Choices, cmds: seq<AppCommand>)
    requires forall id :: want(id) == want'(id)
    ensures OverridePass(want, cmds) == OverridePass(want', cmds)
    decreases |cmds|
  {
    if cmds != [] { SameOverridePass(want, want', cmds[..|cmds| - 1]); }
  }

  lemma SameResolution(want: Choices, want': Choices, cmds: seq<AppCommand>)
    requires forall id :: want(id) == want'(id)
    ensures Resolve(want, cmds) == Resolve(want', cmds)
  {
    SameOverridePass(want, want', cmds);
  }

  /** What the app answers to under these overrides. */
  function Resolved(cs: Casing, ov: Overrides, cmds: seq<AppCommand>): Resolution {
    Resolve(ChoicesOf(cs, ov), cmds)
  }

  // ----- the three kinds of text

  /** A text of nothing but blanks unbinds: the command answers to no key, and none is reported as lost. */
  lemma BlankTextUnbinds(cs: Casing, ov: Overrides, cmds: seq<AppCommand>, id: string)
    requires id in ov && AllBlank(ov[id])
    ensures Keys(Resolved(cs, ov, cmds).effective, id) == [] && Keys(Resolved(cs, ov, cmds).displaced, id) == []
  {
    TrimIsEmptyIff(ov[id]);
    UnboundOutcome(ChoicesOf(cs, ov), cmds, id);
  }

  lemma UnreadableChoice(cs: Casing, ov: Overrides, id: string, other: string)
    requires id in ov && !AllBlank(ov[id]) && Parsed(cs, ov[id]) == None
    ensures ChoiceOf(cs, ov, other) == ChoiceOf(cs, ov - {id}, other)
  {
    if other == id { DefaultChoice(cs, ov, id); }
  }

  /** A text that reads as no key counts as no override at all: every command, not just this one, resolves
      as if the setting were not there. */
  lemma UnreadableTextIsIgnored(cs: Casing, ov: Overrides, cmds: seq<AppCommand>, id: string)
    requires id in ov && !AllBlank(ov[id]) && Parsed(cs, ov[id]) == None
    ensures Resolved(cs, ov, cmds) == Resolved(cs, ov - {id}, cmds)
  {
    var want, want' := ChoicesOf(cs, ov), ChoicesOf(cs, ov - {id});
    forall other ensures want(other) == want'(other) { UnreadableChoice(cs, ov, id, other); }
    SameResolution(want, want', cmds);
  }

  /** The override text of a command reads as this key. */
  predicate AsksFor(cs: Casing, ov: Overrides, id: string, b: KeyBinding) {
    id in ov && !AllBlank(ov[id]) && Parsed(cs, ov[id]) == Some(b)
  }

  lemma ReadableChoice(cs: Casing, ov: Overrides, id: string, b: KeyBinding)
    ensures ChoiceOf(cs, ov, id) == Wants(b) <==> AsksFor(cs, ov, id, b)
  {
    if id in ov {
      TrimIsEmptyIff(ov[id]);
      ParsedTrimmed(cs, ov[id]);
    }
  }

  /** A text that reads as a key: the command has exactly that key, unless the text of an earlier command in
      the table reads as the same one; then it has none, and the key is reported as lost. */
  lemma ReadableTextBinds(cs: Casing, ov: Overrides, cmds: seq<AppCommand>, i: nat, b: KeyBinding)
    requires i < |cmds| && AsksFor(cs, ov, cmds[i].id, b)
    requires forall j :: 0 <= j < i ==> cmds[j].id != cmds[i].id
    ensures var id, r := cmds[i].id, Resolved(cs, ov, cmds);
            if forall j :: 0 <= j < i ==> !AsksFor(cs, ov, cmds[j].id, b)
            then Keys(r.effective, id) == [b] && Keys(r.displaced, id) == []
            else Keys(r.effective, id) == [] && b in Keys(r.displaced, id)
  {
    var id, want := cmds[i].id, ChoicesOf(cs, ov);
    ReadableChoice(cs, ov, id, b);
    forall j | 0 <= j < i ensures want(cmds[j].id) == Wants(b) <==> AsksFor(cs, ov, cmds[j].id, b) {
      ReadableChoice(cs, ov, cmds[j].id, b);
    }
    FirstWantingIndex(want, cmds, b, i);
    assert cmds[i] in cmds && Lists(cmds, id);
    OverrideOutcome(want, cmds, id);
  }

  /** A command without a readable override: a key it declares is effective exactly if no command's text
      reads as the key and no earlier command that goes by its defaults declares it; otherwise it is
      reported as lost. */
  lemma DefaultBinds(cs: Casing, ov: Overrides, cmds: seq<AppCommand>, i: nat, b: KeyBinding)
    requires i < |cmds| && GoesByDefault(cs, ov, cmds[i].id) && b in cmds[i].declaredKeys && DistinctIds(cmds)
    ensures b in Keys(Resolved(cs, ov, cmds).effective, cmds[i].id) <==>
              (forall j :: 0 <= j < |cmds| ==> !AsksFor(cs, ov, cmds[j].id, b)) &&
              (forall j :: 0 <= j < i && b in cmds[j].declaredKeys ==> !GoesByDefault(cs, ov, cmds[j].id))
    ensures b in Keys(Resolved(cs, ov, cmds).effective, cmds[i].id) <==>
              b !in Keys(Resolved(cs, ov, cmds).displaced, cmds[i].id)
  {
    var want, id := ChoicesOf(cs, ov), cmds[i].id;
    FirstWithIndex(cmds, i);
    DefaultChoice(cs, ov, id);
    DefaultOutcome(want, cmds, id, b);
    NobodyAsksIff(cs, ov, cmds, b);
    FirstWantingWants(want, cmds, b);
    FirstDeclaringIndex(cs, ov, cmds, i, b);
  }

  /** No override, or one that does not read as a key. */
  predicate GoesByDefault(cs: Casing, ov: Overrides, id: string) {
    id !in ov || (!AllBlank(ov[id]) && Parsed(cs, ov[id]) == None)
  }

  lemma DefaultChoice(cs: Casing, ov: Overrides, id: string)
    ensures ChoiceOf(cs, ov, id).Default? <==> GoesByDefault(cs, ov, id)
  {
    if id in ov {
      TrimIsEmptyIff(ov[id]);
      ParsedTrimmed(cs, ov[id]);
    }
  }

  lemma {:induction false} FirstWithIndex(cmds: seq<AppCommand>, i: nat)
    requires i < |cmds| && forall j :: 0 <= j < i ==> cmds[j].id != cmds[i].id
    ensures FirstWith(cmds, cmds[i].id) == Some(cmds[i])
    decreases |cmds|
  {
    var front := cmds[..|cmds| - 1];
    if i < |front| {
      FirstWithIndex(front, i);
    } else {
      forall c | c in front ensures c.id != cmds[i].id {
        var j :| 0 <= j < |front| && front[j] == c;
        assert cmds[j] == c;
      }
    }
  }

  lemma NobodyAsksIff(cs: Casing, ov: Overrides, cmds: seq<AppCommand>, b: KeyBinding)
    ensures FirstWanting(ChoicesOf(cs, ov), cmds, b) == None <==>
              forall j :: 0 <= j < |cmds| ==> !AsksFor(cs, ov, cmds[j].id, b)
  {
    var want := ChoicesOf(cs, ov);
    forall j | 0 <= j < |cmds| ensures want(cmds[j].id) == Wants(b) <==> AsksFor(cs, ov, cmds[j].id, b) {
      ReadableChoice(cs, ov, cmds[j].id, b);
    }
    if FirstWanting(want, cmds, b).Some? {
      FirstWantingAt(want, cmds, b);
    } else {
      forall j | 0 <= j < |cmds| ensures want(cmds[j].id) != Wants(b) {
        if want(cmds[j].id) == Wants(b) { FirstWantingSome(want, cmds, b, j); }
      }
    }
  }

  /** By position: the command is the first of those that go by their defaults to declare the key. */
  lemma {:induction false} FirstDeclaringIndex(cs: Casing, ov: Overrides, cmds: seq<AppCommand>, i: nat, b: KeyBinding)
    requires i < |cmds| && GoesByDefault(cs, ov, cmds[i].id) && b in cmds[i].declaredKeys && DistinctIds(cmds)
    ensures FirstDeclaring(ChoicesOf(cs, ov), cmds, b) == Some(cmds[i].id) <==>
              forall j :: 0 <= j < i && b in cmds[j].declaredKeys ==> !GoesByDefault(cs, ov, cmds[j].id)
    decreases |cmds|
  {
    var want, front := ChoicesOf(cs, ov), cmds[..|cmds| - 1];
    if i < |front| {
      FirstDeclaringIndex(cs, ov, front, i, b);
      DeclarerFound(cs, ov, front, i, b);
    } else {
      DeclarerAt(cs, ov, front, b);
      DefaultChoice(cs, ov, cmds[i].id);
      NotListedBefore(cmds);
      forall j | 0 <= j < i && b in cmds[j].declaredKeys && GoesByDefault(cs, ov, cmds[j].id)
        ensures FirstDeclaring(want, front, b).Some?
      {
        DeclarerFound(cs, ov, front, j, b);
      }
    }
  }

  lemma NotListedBefore(cmds: seq<AppCommand>)
    requires cmds != [] && DistinctIds(cmds)
    ensures !Lists(cmds[..|cmds| - 1], cmds[|cmds| - 1].id)
  {
    var front, last := cmds[..|cmds| - 1], cmds[|cmds| - 1];
    forall c | c in front ensures c.id != last.id {
      var j :| 0 <= j < |front| && front[j] == c;
      assert cmds[j].id != cmds[|cmds| - 1].id;
    }
  }

  lemma {:induction false} DeclarerFound(cs: Casing, ov: Overrides, cmds: seq<AppCommand>, j: nat, b: KeyBinding)
    requires j < |cmds| && GoesByDefault(cs, ov, cmds[j].id) && b in cmds[j].declaredKeys && DistinctIds(cmds)
    ensures FirstDeclaring(ChoicesOf(cs, ov), cmds, b).Some?
    decreases |cmds|
  {
    if j < |cmds| - 1 {
      DeclarerFound(cs, ov, cmds[..|cmds| - 1], j, b);
    } else {
      DefaultChoice(cs, ov, cmds[j].id);
      NotListedBefore(cmds);
    }
  }

  lemma {:induction false} DeclarerAt(cs: Casing, ov: Overrides, cmds: seq<AppCommand>, b: KeyBinding)
    ensures var w := FirstDeclaring(ChoicesOf(cs, ov), cmds, b);
            w.Some? ==> exists j :: 0 <= j < |cmds| && cmds[j].id == w.value &&
                                    b in cmds[j].declaredKeys && GoesByDefault(cs, ov, cmds[j].id)
    decreases |cmds|
  {
    var want, w := ChoicesOf(cs, ov), FirstDeclaring(ChoicesOf(cs, ov), cmds, b);
    if w.Some? {
      var front := cmds[..|cmds| - 1];
      if FirstDeclaring(want, front, b).Some? {
        DeclarerAt(cs, ov, front, b);
        var j :| 0 <= j < |front| && front[j].id == w.value &&
                 b in front[j].declaredKeys && GoesByDefault(cs, ov, front[j].id);
        assert cmds[j] == front[j];
      } else {
        DefaultChoice(cs, ov, cmds[|cmds| - 1].id);
        assert cmds[|cmds| - 1].id == w.value;
      }
    }
  }
}
