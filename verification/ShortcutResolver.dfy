/** The table of commands and the user's overrides, resolved into the key equivalents that fire. */
module ShortcutResolver {
  import opened Basics
  import opened KeyBinding

  datatype AppCommand = AppCommand(id: string, declaredKeys: seq<KeyBinding>)

  type Overrides = map<string, string>

  function Lookup<K, V>(m: map<K, V>, k: K): Option<V> {
    if k in m then Some(m[k]) else None
  }

  function Keys(m: map<string, seq<KeyBinding>>, id: string): seq<KeyBinding> {
    if id in m then m[id] else []
  }

  // ----- what a command asks for

  /** `Default` also stands for an override that does not parse. */
  datatype Choice = Default | Unbound | Wants(binding: KeyBinding)

  function ChoiceOf(cs: Casing, ov: Overrides, id: string): Choice {
    if id !in ov then Default
    else if Trim(ov[id], IsBlank) == "" then Unbound
    else match Parsed(cs, Trim(ov[id], IsBlank)) case Some(b) => Wants(b) case None => Default
  }

  /** What each id asks for. */
  type Choices = string -> Choice

  function ChoicesOf(cs: Casing, ov: Overrides): Choices {
    id => ChoiceOf(cs, ov, id)
  }

  // ----- the two passes

  datatype Resolution = Resolution(owner: map<KeyBinding, string>,
                                   effective: map<string, seq<KeyBinding>>,
                                   displaced: map<string, seq<KeyBinding>>)

  predicate TakenByOther(owner: map<KeyBinding, string>, id: string, b: KeyBinding) {
    b in owner && owner[b] != id
  }

  function Displace(displaced: map<string, seq<KeyBinding>>, id: string, b: KeyBinding): map<string, seq<KeyBinding>> {
    displaced[id := Keys(displaced, id) + [b]]
  }

  function OverrideStep(want: Choices, s: Resolution, id: string): Resolution {
    match want(id)
    case Default => s
    case Unbound => s.(effective := s.effective[id := []])
    case Wants(b) =>
      if TakenByOther(s.owner, id, b)
      then s.(effective := s.effective[id := []], displaced := Displace(s.displaced, id, b))
      else s.(owner := s.owner[b := id], effective := s.effective[id := [b]])
  }

  function OverridePass(want: Choices, cmds: seq<AppCommand>): Resolution {
    if cmds == [] then Resolution(map[], map[], map[])
    else OverrideStep(want, OverridePass(want, cmds[..|cmds| - 1]), cmds[|cmds| - 1].id)
  }

  datatype Claims = Claims(owner: map<KeyBinding, string>, displaced: map<string, seq<KeyBinding>>,
                           mine: seq<KeyBinding>)

  function ClaimStep(c: Claims, id: string, b: KeyBinding): Claims {
    if TakenByOther(c.owner, id, b)
    then c.(displaced := Displace(c.displaced, id, b))
    else c.(owner := c.owner[b := id], mine := c.mine + [b])
  }

  function ClaimAll(s: Resolution, id: string, keys: seq<KeyBinding>): Claims {
    if keys == [] then Claims(s.owner, s.displaced, [])
    else ClaimStep(ClaimAll(s, id, keys[..|keys| - 1]), id, keys[|keys| - 1])
  }

  function DefaultStep(s: Resolution, c: AppCommand): Resolution {
    if c.id in s.effective then s
    else
      var claims := ClaimAll(s, c.id, c.declaredKeys);
      Resolution(claims.owner, s.effective[c.id := claims.mine], claims.displaced)
  }

  function DefaultPass(s: Resolution, cmds: seq<AppCommand>): Resolution {
    if cmds == [] then s
    else DefaultStep(DefaultPass(s, cmds[..|cmds| - 1]), cmds[|cmds| - 1])
  }

  function Resolve(want: Choices, cmds: seq<AppCommand>): Resolution {
    DefaultPass(OverridePass(want, cmds), cmds)
  }

  // ----- the rule, stated without passes

  /** The first command in the table with the given id. */
  function FirstWith(cmds: seq<AppCommand>, id: string): (r: Option<AppCommand>)
    ensures r.Some? ==> r.value in cmds && r.value.id == id
    ensures r.None? ==> forall c :: c in cmds ==> c.id != id
  {
    if cmds == [] then None
    else
      var front, last := cmds[..|cmds| - 1], cmds[|cmds| - 1];
      assert cmds == front + [last];
      match FirstWith(front, id)
      case Some(c) => Some(c)
      case None => if last.id == id then Some(last) else None
  }

  predicate Lists(cmds: seq<AppCommand>, id: string) {
    FirstWith(cmds, id).Some?
  }

  /** The first command whose override is this binding. */
  function FirstWanting(want: Choices, cmds: seq<AppCommand>, b: KeyBinding): Option<string> {
    if cmds == [] then None
    else
      var front, last := cmds[..|cmds| - 1], cmds[|cmds| - 1];
      if FirstWanting(want, front, b).Some? then FirstWanting(want, front, b)
      else if want(last.id) == Wants(b) then Some(last.id)
      else None
  }

  /** The first command that goes by its defaults and declares this binding. */
  function FirstDeclaring(want: Choices, cmds: seq<AppCommand>, b: KeyBinding): Option<string> {
    if cmds == [] then None
    else
      var front, last := cmds[..|cmds| - 1], cmds[|cmds| - 1];
      if FirstDeclaring(want, front, b).Some? then FirstDeclaring(want, front, b)
      else if want(last.id).Default? && !Lists(front, last.id) && b in last.declaredKeys then Some(last.id)
      else None
  }

  /** Overrides win over defaults; among equals the earlier command wins. */
  function Winner(want: Choices, cmds: seq<AppCommand>, b: KeyBinding): Option<string> {
    match FirstWanting(want, cmds, b)
    case Some(id) => Some(id)
    case None => FirstDeclaring(want, cmds, b)
  }

  /** The keys, in order, that belong to a command. */
  function Owned(owner: map<KeyBinding, string>, id: string, keys: seq<KeyBinding>): seq<KeyBinding> {
    if keys == [] then []
    else
      var b := keys[|keys| - 1];
      Owned(owner, id, keys[..|keys| - 1]) + if Lookup(owner, b) == Some(id) then [b] else []
  }

  /** The keys, in order, that belong to some other command. */
  function TakenFrom(owner: map<KeyBinding, string>, id: string, keys: seq<KeyBinding>): seq<KeyBinding> {
    if keys == [] then []
    else
      var b := keys[|keys| - 1];
      TakenFrom(owner, id, keys[..|keys| - 1]) + if TakenByOther(owner, id, b) then [b] else []
  }

  // ----- pass 1

  predicate OverridesSettled(want: Choices, cmds: seq<AppCommand>, s: Resolution, id: string) {
    match want(id)
    case Default => id !in s.effective && id !in s.displaced
    case Unbound => Lookup(s.effective, id) == (if Lists(cmds, id) then Some([]) else None) && id !in s.displaced
    case Wants(b) =>
      && (id in s.effective <==> Lists(cmds, id))
      && (id in s.displaced <==> Lists(cmds, id) && Lookup(s.owner, b) != Some(id))
      && (Lists(cmds, id) ==> b in s.owner && s.effective[id] == if s.owner[b] == id then [b] else [])
      && (forall k :: k in Keys(s.displaced, id) ==> k == b)
      && (id in s.displaced ==> s.displaced[id] != [])
  }

  ghost predicate OverridesDone(want: Choices, cmds: seq<AppCommand>, s: Resolution) {
    && (forall b :: Lookup(s.owner, b) == FirstWanting(want, cmds, b))
    && (forall id :: OverridesSettled(want, cmds, s, id))
  }

  lemma {:induction false} FirstWantingWants(want: Choices, cmds: seq<AppCommand>, b: KeyBinding)
    ensures var w := FirstWanting(want, cmds, b);
            w.Some? ==> Lists(cmds, w.value) && want(w.value) == Wants(b)
    decreases |cmds|
  {
    if cmds != [] { FirstWantingWants(want, cmds[..|cmds| - 1], b); }
  }

  lemma ListsSnoc(front: seq<AppCommand>, last: AppCommand, id: string)
    ensures Lists(front + [last], id) <==> Lists(front, id) || last.id == id
  {
    assert (front + [last])[..|front|] == front;
  }

  lemma OverrideStepOwners(want: Choices, front: seq<AppCommand>, last: AppCommand, s: Resolution, b: KeyBinding)
    requires Lookup(s.owner, b) == FirstWanting(want, front, b)
    ensures Lookup(OverrideStep(want, s, last.id).owner, b) == FirstWanting(want, front + [last], b)
  {
    assert (front + [last])[..|front|] == front;
  }

  /** Nobody loses a binding, and the other commands' entries stay. */
  lemma OverrideStepFrame(want: Choices, s: Resolution, own: string, id: string)
    requires id != own
    ensures var t := OverrideStep(want, s, own);
            && Lookup(t.effective, id) == Lookup(s.effective, id)
            && Lookup(t.displaced, id) == Lookup(s.displaced, id)
            && forall b :: b in s.owner ==> b in t.owner && t.owner[b] == s.owner[b]
  {
  }

  lemma OverrideStepKeeps(want: Choices, front: seq<AppCommand>, last: AppCommand, s: Resolution, id: string)
    requires OverridesSettled(want, front, s, id) && id != last.id
    ensures OverridesSettled(want, front + [last], OverrideStep(want, s, last.id), id)
  {
    ListsSnoc(front, last, id);
    OverrideStepFrame(want, s, last.id, id);
    SettledTransfers(want, front, front + [last], s, OverrideStep(want, s, last.id), id);
  }

  lemma SettledTransfers(want: Choices, a: seq<AppCommand>, b: seq<AppCommand>, s: Resolution, t: Resolution,
                         id: string)
    requires OverridesSettled(want, a, s, id) && (Lists(a, id) <==> Lists(b, id))
    requires Lookup(t.effective, id) == Lookup(s.effective, id)
    requires Lookup(t.displaced, id) == Lookup(s.displaced, id)
    requires forall k :: k in s.owner ==> k in t.owner && t.owner[k] == s.owner[k]
    ensures OverridesSettled(want, b, t, id)
  {
    if want(id).Wants? {
      var k := want(id).binding;
      assert Keys(t.displaced, id) == Keys(s.displaced, id);
      assert k in s.owner ==> Lookup(t.owner, k) == Lookup(s.owner, k);
      assert Lists(b, id) ==> k in t.owner;
      assert Lists(b, id) ==> t.effective[id] == s.effective[id];
      assert id in t.effective <==> Lists(b, id);
      assert id in t.displaced <==> Lists(b, id) && Lookup(t.owner, k) != Some(id);
      assert id in t.displaced ==> t.displaced[id] != [];
      assert forall x :: x in Keys(t.displaced, id) ==> x == k;
      assert Lists(b, id) ==> t.effective[id] == if t.owner[k] == id then [k] else [];
    }
  }

  lemma OverrideStepSettlesOwn(want: Choices, front: seq<AppCommand>, last: AppCommand, s: Resolution)
    requires OverridesDone(want, front, s)
    ensures OverridesSettled(want, front + [last], OverrideStep(want, s, last.id), last.id)
  {
    assert OverridesSettled(want, front, s, last.id);
    ListsSnoc(front, last, last.id);
    if want(last.id).Wants? {
      var b := want(last.id).binding;
      FirstWantingWants(want, front, b);
      assert Lookup(s.owner, b) == FirstWanting(want, front, b);
    }
  }

  lemma OverrideStepSettles(want: Choices, front: seq<AppCommand>, last: AppCommand, s: Resolution)
    requires OverridesDone(want, front, s)
    ensures OverridesDone(want, front + [last], OverrideStep(want, s, last.id))
  {
    var cmds, t := front + [last], OverrideStep(want, s, last.id);
    forall b ensures Lookup(t.owner, b) == FirstWanting(want, cmds, b) {
      OverrideStepOwners(want, front, last, s, b);
    }
    forall id ensures OverridesSettled(want, cmds, t, id) {
      if id == last.id {
        OverrideStepSettlesOwn(want, front, last, s);
      } else {
        OverrideStepKeeps(want, front, last, s, id);
      }
    }
  }

  lemma {:induction false} OverridePassSettles(want: Choices, cmds: seq<AppCommand>)
    ensures OverridesDone(want, cmds, OverridePass(want, cmds))
    decreases |cmds|
  {
    if cmds != [] {
      var front, last := cmds[..|cmds| - 1], cmds[|cmds| - 1];
      OverridePassSettles(want, front);
      OverrideStepSettles(want, front, last, OverridePass(want, front));
      assert front + [last] == cmds;
    }
  }

  // ----- pass 2

  /** `later` knows every owner that `owner` knows. */
  predicate Extends(later: map<KeyBinding, string>, owner: map<KeyBinding, string>) {
    forall b :: b in owner ==> b in later && later[b] == owner[b]
  }

  predicate Covers(owner: map<KeyBinding, string>, keys: seq<KeyBinding>) {
    forall b :: b in keys ==> b in owner
  }

  /** The split of a command's keys into its own and taken ones does not change as more keys find owners. */
  lemma {:induction false} SplitIsStable(later: map<KeyBinding, string>, owner: map<KeyBinding, string>, id: string,
                                         keys: seq<KeyBinding>)
    requires Extends(later, owner) && Covers(owner, keys)
    ensures Owned(later, id, keys) == Owned(owner, id, keys)
    ensures TakenFrom(later, id, keys) == TakenFrom(owner, id, keys)
    decreases |keys|
  {
    if keys != [] { SplitIsStable(later, owner, id, keys[..|keys| - 1]); }
  }

  /** A declared key is either the command's own or taken, never both and never neither. */
  lemma {:induction false} SplitPartitions(owner: map<KeyBinding, string>, id: string, keys: seq<KeyBinding>,
                                           b: KeyBinding)
    ensures b in Owned(owner, id, keys) <==> b in keys && Lookup(owner, b) == Some(id)
    ensures b in TakenFrom(owner, id, keys) <==> b in keys && TakenByOther(owner, id, b)
    decreases |keys|
  {
    if keys != [] {
      SplitPartitions(owner, id, keys[..|keys| - 1], b);
      assert keys == keys[..|keys| - 1] + [keys[|keys| - 1]];
    }
  }

  ghost predicate ClaimsSettled(s: Resolution, id: string, keys: seq<KeyBinding>, c: Claims) {
    && (forall b :: Lookup(c.owner, b) ==
                    if b in s.owner then Some(s.owner[b]) else if b in keys then Some(id) else None)
    && c.mine == Owned(c.owner, id, keys)
    && Keys(c.displaced, id) == TakenFrom(c.owner, id, keys)
    && (forall other :: other != id ==> Lookup(c.displaced, other) == Lookup(s.displaced, other))
  }

  lemma ClaimStepOwners(s: Resolution, id: string, front: seq<KeyBinding>, last: KeyBinding, c: Claims, b: KeyBinding)
    requires ClaimsSettled(s, id, front, c)
    ensures Lookup(ClaimStep(c, id, last).owner, b) ==
              if b in s.owner then Some(s.owner[b]) else if b in front + [last] then Some(id) else None
  {
    assert Lookup(c.owner, b) == if b in s.owner then Some(s.owner[b]) else if b in front then Some(id) else None;
    assert Lookup(c.owner, last) ==
           if last in s.owner then Some(s.owner[last]) else if last in front then Some(id) else None;
  }

  lemma ClaimStepExtends(s: Resolution, id: string, front: seq<KeyBinding>, last: KeyBinding, c: Claims)
    requires ClaimsSettled(s, id, front, c)
    ensures Extends(ClaimStep(c, id, last).owner, c.owner) && Covers(c.owner, front)
  {
    forall b | b in front ensures b in c.owner {
      assert Lookup(c.owner, b).Some?;
    }
  }

  lemma SplitSnoc(owner: map<KeyBinding, string>, id: string, front: seq<KeyBinding>, last: KeyBinding)
    requires last in owner
    ensures owner[last] == id ==> Owned(owner, id, front + [last]) == Owned(owner, id, front) + [last]
                                  && TakenFrom(owner, id, front + [last]) == TakenFrom(owner, id, front)
    ensures owner[last] != id ==> Owned(owner, id, front + [last]) == Owned(owner, id, front)
                                  && TakenFrom(owner, id, front + [last]) == TakenFrom(owner, id, front) + [last]
  {
    var keys := front + [last];
    assert keys[..|keys| - 1] == front && keys[|keys| - 1] == last;
  }

  lemma ClaimStepSplits(id: string, front: seq<KeyBinding>, last: KeyBinding, c: Claims, d: Claims)
    requires d == ClaimStep(c, id, last)
    requires c.mine == Owned(d.owner, id, front) && Keys(c.displaced, id) == TakenFrom(d.owner, id, front)
    ensures d.mine == Owned(d.owner, id, front + [last])
    ensures Keys(d.displaced, id) == TakenFrom(d.owner, id, front + [last])
  {
    SplitSnoc(d.owner, id, front, last);
  }

  lemma ClaimStepSettles(s: Resolution, id: string, front: seq<KeyBinding>, last: KeyBinding, c: Claims)
    requires ClaimsSettled(s, id, front, c)
    ensures ClaimsSettled(s, id, front + [last], ClaimStep(c, id, last))
  {
    var d, keys := ClaimStep(c, id, last), front + [last];
    forall b
      ensures Lookup(d.owner, b) == if b in s.owner then Some(s.owner[b]) else if b in keys then Some(id) else None
    {
      ClaimStepOwners(s, id, front, last, c, b);
    }
    ClaimStepExtends(s, id, front, last, c);
    SplitIsStable(d.owner, c.owner, id, front);
    ClaimStepSplits(id, front, last, c, d);
    forall other | other != id ensures Lookup(d.displaced, other) == Lookup(s.displaced, other) {
      assert Lookup(c.displaced, other) == Lookup(s.displaced, other);
    }
  }

  lemma {:induction false} ClaimAllSettles(s: Resolution, id: string, keys: seq<KeyBinding>)
    requires Keys(s.displaced, id) == []
    ensures ClaimsSettled(s, id, keys, ClaimAll(s, id, keys))
    decreases |keys|
  {
    if keys != [] {
      var front, last := keys[..|keys| - 1], keys[|keys| - 1];
      ClaimAllSettles(s, id, front);
      ClaimStepSettles(s, id, front, last, ClaimAll(s, id, front));
      assert front + [last] == keys;
    }
  }

  /** The owner of a binding once the defaults of `pre` have been handed out around the overrides. */
  function WinnerSoFar(want: Choices, all: seq<AppCommand>, pre: seq<AppCommand>, b: KeyBinding): Option<string> {
    if FirstWanting(want, all, b).Some? then FirstWanting(want, all, b) else FirstDeclaring(want, pre, b)
  }

  predicate DefaultsSettled(want: Choices, base: Resolution, pre: seq<AppCommand>, s: Resolution, id: string) {
    if want(id).Default? then
      match FirstWith(pre, id)
      case None => id !in s.effective && id !in s.displaced
      case Some(c) =>
        && Covers(s.owner, c.declaredKeys)
        && Lookup(s.effective, id) == Some(Owned(s.owner, id, c.declaredKeys))
        && Keys(s.displaced, id) == TakenFrom(s.owner, id, c.declaredKeys)
    else
      Lookup(s.effective, id) == Lookup(base.effective, id) && Lookup(s.displaced, id) == Lookup(base.displaced, id)
  }

  ghost predicate DefaultsDone(want: Choices, all: seq<AppCommand>, base: Resolution, pre: seq<AppCommand>,
                               s: Resolution) {
    && (forall b :: Lookup(s.owner, b) == WinnerSoFar(want, all, pre, b))
    && (forall id :: DefaultsSettled(want, base, pre, s, id))
  }

  /** Whether the second pass skips a command. */
  lemma SkippedIff(want: Choices, all: seq<AppCommand>, base: Resolution, pre: seq<AppCommand>, s: Resolution,
                   id: string)
    requires OverridesDone(want, all, base) && DefaultsDone(want, all, base, pre, s) && Lists(all, id)
    ensures id in s.effective <==> !want(id).Default? || Lists(pre, id)
  {
    assert OverridesSettled(want, all, base, id);
    assert DefaultsSettled(want, base, pre, s, id);
  }

  lemma DefaultStepSkips(want: Choices, all: seq<AppCommand>, base: Resolution, pre: seq<AppCommand>,
                         last: AppCommand, s: Resolution)
    requires DefaultsDone(want, all, base, pre, s) && (!want(last.id).Default? || Lists(pre, last.id))
    ensures DefaultsDone(want, all, base, pre + [last], s)
  {
    assert (pre + [last])[..|pre|] == pre;
    forall b ensures Lookup(s.owner, b) == WinnerSoFar(want, all, pre + [last], b) {
      assert Lookup(s.owner, b) == WinnerSoFar(want, all, pre, b);
    }
    forall id ensures DefaultsSettled(want, base, pre + [last], s, id) {
      assert DefaultsSettled(want, base, pre, s, id);
    }
  }

  lemma DefaultStepOwners(want: Choices, all: seq<AppCommand>, pre: seq<AppCommand>, last: AppCommand, s: Resolution,
                          c: Claims, b: KeyBinding)
    requires Lookup(s.owner, b) == WinnerSoFar(want, all, pre, b)
    requires want(last.id).Default? && !Lists(pre, last.id)
    requires ClaimsSettled(s, last.id, last.declaredKeys, c)
    ensures Lookup(c.owner, b) == WinnerSoFar(want, all, pre + [last], b)
  {
    assert (pre + [last])[..|pre|] == pre;
    assert Lookup(c.owner, b) ==
           if b in s.owner then Some(s.owner[b]) else if b in last.declaredKeys then Some(last.id) else None;
  }

  lemma ClaimsExtend(s: Resolution, id: string, keys: seq<KeyBinding>, c: Claims)
    requires ClaimsSettled(s, id, keys, c)
    ensures Extends(c.owner, s.owner) && Covers(c.owner, keys)
  {
    forall b | b in s.owner || b in keys
      ensures b in c.owner && (b in s.owner ==> c.owner[b] == s.owner[b])
    {
      assert Lookup(c.owner, b) == if b in s.owner then Some(s.owner[b]) else if b in keys then Some(id) else None;
    }
  }

  lemma DefaultStepKeeps(want: Choices, base: Resolution, pre: seq<AppCommand>, last: AppCommand, s: Resolution,
                         c: Claims, id: string)
    requires DefaultsSettled(want, base, pre, s, id) && id != last.id
    requires ClaimsSettled(s, last.id, last.declaredKeys, c)
    ensures DefaultsSettled(want, base, pre + [last],
                            Resolution(c.owner, s.effective[last.id := c.mine], c.displaced), id)
  {
    assert (pre + [last])[..|pre|] == pre;
    ClaimsExtend(s, last.id, last.declaredKeys, c);
    assert Lookup(c.displaced, id) == Lookup(s.displaced, id);
    if want(id).Default? && Lists(pre, id) {
      SplitIsStable(c.owner, s.owner, id, FirstWith(pre, id).value.declaredKeys);
    }
  }

  lemma DefaultStepSettlesOwn(want: Choices, base: Resolution, pre: seq<AppCommand>, last: AppCommand, s: Resolution,
                              c: Claims)
    requires want(last.id).Default? && !Lists(pre, last.id)
    requires ClaimsSettled(s, last.id, last.declaredKeys, c)
    ensures DefaultsSettled(want, base, pre + [last],
                            Resolution(c.owner, s.effective[last.id := c.mine], c.displaced), last.id)
  {
    assert (pre + [last])[..|pre|] == pre;
    ClaimsExtend(s, last.id, last.declaredKeys, c);
  }

  lemma DefaultStepSettles(want: Choices, all: seq<AppCommand>, base: Resolution, pre: seq<AppCommand>,
                           last: AppCommand, s: Resolution)
    requires OverridesDone(want, all, base) && DefaultsDone(want, all, base, pre, s) && Lists(all, last.id)
    ensures DefaultsDone(want, all, base, pre + [last], DefaultStep(s, last))
  {
    SkippedIff(want, all, base, pre, s, last.id);
    if last.id in s.effective {
      DefaultStepSkips(want, all, base, pre, last, s);
    } else {
      assert DefaultsSettled(want, base, pre, s, last.id);
      ClaimAllSettles(s, last.id, last.declaredKeys);
      var c := ClaimAll(s, last.id, last.declaredKeys);
      forall b ensures Lookup(c.owner, b) == WinnerSoFar(want, all, pre + [last], b) {
        DefaultStepOwners(want, all, pre, last, s, c, b);
      }
      forall id ensures DefaultsSettled(want, base, pre + [last], DefaultStep(s, last), id) {
        if id == last.id {
          DefaultStepSettlesOwn(want, base, pre, last, s, c);
        } else {
          DefaultStepKeeps(want, base, pre, last, s, c, id);
        }
      }
    }
  }

  lemma DefaultsStart(want: Choices, all: seq<AppCommand>, base: Resolution)
    requires OverridesDone(want, all, base)
    ensures DefaultsDone(want, all, base, [], base)
  {
    forall b ensures Lookup(base.owner, b) == WinnerSoFar(want, all, [], b) {
      assert Lookup(base.owner, b) == FirstWanting(want, all, b);
    }
    forall id ensures DefaultsSettled(want, base, [], base, id) {
      assert OverridesSettled(want, all, base, id);
    }
  }

  lemma {:induction false} DefaultPassSettles(want: Choices, all: seq<AppCommand>, base: Resolution,
                                              pre: seq<AppCommand>)
    requires OverridesDone(want, all, base) && pre <= all
    ensures DefaultsDone(want, all, base, pre, DefaultPass(base, pre))
    decreases |pre|
  {
    if pre == [] {
      DefaultsStart(want, all, base);
    } else {
      var front, last := pre[..|pre| - 1], pre[|pre| - 1];
      DefaultPassSettles(want, all, base, front);
      assert last in all;
      DefaultStepSettles(want, all, base, front, last, DefaultPass(base, front));
      assert front + [last] == pre;
    }
  }

  // ----- what the resolution comes to

  lemma ResolveSettles(want: Choices, cmds: seq<AppCommand>)
    ensures OverridesDone(want, cmds, OverridePass(want, cmds))
    ensures DefaultsDone(want, cmds, OverridePass(want, cmds), cmds, Resolve(want, cmds))
  {
    OverridePassSettles(want, cmds);
    DefaultPassSettles(want, cmds, OverridePass(want, cmds), cmds);
  }

  /** The owner of every binding is the one the rule names, for every table and every set of overrides. */
  lemma OwnerIsWinner(want: Choices, cmds: seq<AppCommand>, b: KeyBinding)
    ensures Lookup(Resolve(want, cmds).owner, b) == Winner(want, cmds, b)
  {
    ResolveSettles(want, cmds);
    assert Lookup(Resolve(want, cmds).owner, b) == WinnerSoFar(want, cmds, cmds, b);
  }

  /** An override gets its key exactly when it is the first to ask; otherwise the key is reported as
      displaced and the command has none. */
  lemma OverrideOutcome(want: Choices, cmds: seq<AppCommand>, id: string)
    requires want(id).Wants? && Lists(cmds, id)
    ensures var r, b := Resolve(want, cmds), want(id).binding;
            if FirstWanting(want, cmds, b) == Some(id)
            then Keys(r.effective, id) == [b] && Keys(r.displaced, id) == []
            else Keys(r.effective, id) == [] && b in Keys(r.displaced, id)
  {
    var base, r, b := OverridePass(want, cmds), Resolve(want, cmds), want(id).binding;
    ResolveSettles(want, cmds);
    assert OverridesSettled(want, cmds, base, id);
    assert DefaultsSettled(want, base, cmds, r, id);
    assert Lookup(base.owner, b) == FirstWanting(want, cmds, b);
    if id in base.displaced { assert base.displaced[id][0] in Keys(base.displaced, id); }
  }

  /** A command set to the empty string has no key. */
  lemma UnboundOutcome(want: Choices, cmds: seq<AppCommand>, id: string)
    requires want(id).Unbound?
    ensures Keys(Resolve(want, cmds).effective, id) == [] && Keys(Resolve(want, cmds).displaced, id) == []
  {
    var base, r := OverridePass(want, cmds), Resolve(want, cmds);
    ResolveSettles(want, cmds);
    assert OverridesSettled(want, cmds, base, id);
    assert DefaultsSettled(want, base, cmds, r, id);
  }

  /** Each default of a command without an effective override is effective or displaced, never both:
      effective exactly when the rule gives it to the command. No other key is either. */
  lemma DefaultOutcome(want: Choices, cmds: seq<AppCommand>, id: string, b: KeyBinding)
    requires want(id).Default? && Lists(cmds, id)
    ensures var r, declared := Resolve(want, cmds), FirstWith(cmds, id).value.declaredKeys;
            && (b in Keys(r.effective, id) <==> b in declared && Winner(want, cmds, b) == Some(id))
            && (b in Keys(r.displaced, id) <==> b in declared && Winner(want, cmds, b) != Some(id))
            && Keys(r.effective, id) == Owned(r.owner, id, declared)
  {
    var base, r, declared := OverridePass(want, cmds), Resolve(want, cmds), FirstWith(cmds, id).value.declaredKeys;
    ResolveSettles(want, cmds);
    assert DefaultsSettled(want, base, cmds, r, id);
    OwnerIsWinner(want, cmds, b);
    SplitPartitions(r.owner, id, declared, b);
    if b in declared { assert b in r.owner; }
  }

  lemma {:induction false} FirstDeclaringDeclares(want: Choices, cmds: seq<AppCommand>, b: KeyBinding)
    ensures var w := FirstDeclaring(want, cmds, b);
            w.Some? ==> want(w.value).Default? && Lists(cmds, w.value) &&
                        b in FirstWith(cmds, w.value).value.declaredKeys
    decreases |cmds|
  {
    if cmds != [] { FirstDeclaringDeclares(want, cmds[..|cmds| - 1], b); }
  }

  lemma UnlistedHasNoKeys(want: Choices, cmds: seq<AppCommand>, id: string)
    requires !Lists(cmds, id)
    ensures Keys(Resolve(want, cmds).effective, id) == []
  {
    var base, r := OverridePass(want, cmds), Resolve(want, cmds);
    ResolveSettles(want, cmds);
    assert OverridesSettled(want, cmds, base, id);
    assert DefaultsSettled(want, base, cmds, r, id);
  }

  /** Owning a key and answering to it are the same thing. */
  lemma OwnerIffEffective(want: Choices, cmds: seq<AppCommand>, b: KeyBinding, id: string)
    ensures Lookup(Resolve(want, cmds).owner, b) == Some(id) <==> b in Keys(Resolve(want, cmds).effective, id)
  {
    OwnerIsWinner(want, cmds, b);
    FirstWantingWants(want, cmds, b);
    FirstDeclaringDeclares(want, cmds, b);
    if !Lists(cmds, id) {
      UnlistedHasNoKeys(want, cmds, id);
    } else {
      match want(id)
      case Default => DefaultOutcome(want, cmds, id, b);
      case Unbound => UnboundOutcome(want, cmds, id);
      case Wants(_) => OverrideOutcome(want, cmds, id);
    }
  }

  /** No key is effective for two commands. */
  lemma ConflictFree(want: Choices, cmds: seq<AppCommand>, b: KeyBinding, id: string, other: string)
    requires b in Keys(Resolve(want, cmds).effective, id) && b in Keys(Resolve(want, cmds).effective, other)
    ensures id == other
  {
    OwnerIffEffective(want, cmds, b, id);
    OwnerIffEffective(want, cmds, b, other);
  }

  // ----- every effective key in the app

  predicate NoRepeats<T(==)>(s: seq<T>) {
    forall i, j :: 0 <= i < j < |s| ==> s[i] != s[j]
  }

  predicate DistinctIds(cmds: seq<AppCommand>) {
    forall i, j :: 0 <= i < j < |cmds| ==> cmds[i].id != cmds[j].id
  }

  function AllKeys(effective: map<string, seq<KeyBinding>>, cmds: seq<AppCommand>): seq<KeyBinding> {
    if cmds == [] then []
    else AllKeys(effective, cmds[..|cmds| - 1]) + Keys(effective, cmds[|cmds| - 1].id)
  }

  lemma {:induction false} OwnedKeepsNoRepeats(owner: map<KeyBinding, string>, id: string, keys: seq<KeyBinding>)
    requires NoRepeats(keys)
    ensures NoRepeats(Owned(owner, id, keys))
    decreases |keys|
  {
    if keys != [] {
      var front, last := keys[..|keys| - 1], keys[|keys| - 1];
      OwnedKeepsNoRepeats(owner, id, front);
      SplitPartitions(owner, id, front, last);
    }
  }

  lemma CommandKeysNoRepeats(want: Choices, cmds: seq<AppCommand>, id: string)
    requires forall c :: c in cmds ==> NoRepeats(c.declaredKeys)
    ensures NoRepeats(Keys(Resolve(want, cmds).effective, id))
  {
    if !Lists(cmds, id) {
      UnlistedHasNoKeys(want, cmds, id);
    } else if want(id).Default? {
      var r, declared := Resolve(want, cmds), FirstWith(cmds, id).value.declaredKeys;
      DefaultOutcome(want, cmds, id, KeyBinding(' ', {}));
      OwnedKeepsNoRepeats(r.owner, id, declared);
    } else if want(id).Wants? {
      OverrideOutcome(want, cmds, id);
    } else {
      UnboundOutcome(want, cmds, id);
    }
  }

  lemma {:induction false} AllKeysMember(effective: map<string, seq<KeyBinding>>, cmds: seq<AppCommand>, b: KeyBinding)
    ensures b in AllKeys(effective, cmds) <==> exists c :: c in cmds && b in Keys(effective, c.id)
    decreases |cmds|
  {
    if cmds != [] {
      var front, last := cmds[..|cmds| - 1], cmds[|cmds| - 1];
      AllKeysMember(effective, front, b);
      assert cmds == front + [last];
      assert b in Keys(effective, last.id) ==> last in cmds;
    }
  }

  lemma NoRepeatsConcat<T>(a: seq<T>, b: seq<T>)
    requires NoRepeats(a) && NoRepeats(b) && forall x :: x in a ==> x !in b
    ensures NoRepeats(a + b)
  {
    forall i, j | 0 <= i < j < |a + b| ensures (a + b)[i] != (a + b)[j] {
      if i < |a| <= j { assert a[i] in a; }
    }
  }

  lemma {:induction false} AllKeysNoRepeats(want: Choices, all: seq<AppCommand>, cmds: seq<AppCommand>)
    requires cmds <= all && DistinctIds(all) && forall c :: c in all ==> NoRepeats(c.declaredKeys)
    ensures NoRepeats(AllKeys(Resolve(want, all).effective, cmds))
    decreases |cmds|
  {
    if cmds != [] {
      var front, last, eff := cmds[..|cmds| - 1], cmds[|cmds| - 1], Resolve(want, all).effective;
      AllKeysNoRepeats(want, all, front);
      CommandKeysNoRepeats(want, all, last.id);
      forall b | b in AllKeys(eff, front) ensures b !in Keys(eff, last.id) {
        AllKeysMember(eff, front, b);
        var k :| 0 <= k < |front| && b in Keys(eff, front[k].id);
        assert all[k] == front[k] && all[|front|] == last;
        if b in Keys(eff, last.id) { ConflictFree(want, all, b, front[k].id, last.id); }
      }
      NoRepeatsConcat(AllKeys(eff, front), Keys(eff, last.id));
    }
  }

  /** No duplicate effective bindings in the whole app, whatever the overrides. */
  lemma NoDuplicateBindings(want: Choices, cmds: seq<AppCommand>)
    requires DistinctIds(cmds) && forall c :: c in cmds ==> NoRepeats(c.declaredKeys)
    ensures NoRepeats(AllKeys(Resolve(want, cmds).effective, cmds))
  {
    AllKeysNoRepeats(want, cmds, cmds);
  }

  // ----- editing

  /** `settingsPatch(for:binding:)`. */
  function Patched(ov: Overrides, id: string, binding: Option<KeyBinding>): Overrides {
    match binding
    case Some(b) => ov[id := Serialized(b)]
    case None => ov - {id}
  }

  /** The first command to ask wins, by position. */
  lemma {:induction false} FirstWantingIndex(want: Choices, cmds: seq<AppCommand>, b: KeyBinding, i: nat)
    requires i < |cmds| && want(cmds[i].id) == Wants(b)
    requires forall j :: 0 <= j < i ==> cmds[j].id != cmds[i].id
    ensures FirstWanting(want, cmds, b) == Some(cmds[i].id) <==> forall j :: 0 <= j < i ==> want(cmds[j].id) != Wants(b)
    decreases |cmds|
  {
    var front, last := cmds[..|cmds| - 1], cmds[|cmds| - 1];
    if i < |front| {
      FirstWantingIndex(want, front, b, i);
      FirstWantingSome(want, front, b, i);
    } else if FirstWanting(want, front, b).Some? {
      FirstWantingAt(want, front, b);
    } else {
      forall j | 0 <= j < i ensures want(cmds[j].id) != Wants(b) {
        if want(cmds[j].id) == Wants(b) { FirstWantingSome(want, front, b, j); }
      }
    }
  }

  lemma {:induction false} FirstWantingSome(want: Choices, cmds: seq<AppCommand>, b: KeyBinding, i: nat)
    requires i < |cmds| && want(cmds[i].id) == Wants(b)
    ensures FirstWanting(want, cmds, b).Some?
    decreases |cmds|
  {
    if i < |cmds| - 1 { FirstWantingSome(want, cmds[..|cmds| - 1], b, i); }
  }

  lemma {:induction false} FirstWantingAt(want: Choices, cmds: seq<AppCommand>, b: KeyBinding)
    requires FirstWanting(want, cmds, b).Some?
    ensures exists j :: 0 <= j < |cmds| && Some(cmds[j].id) == FirstWanting(want, cmds, b) &&
                        want(cmds[j].id) == Wants(b)
    decreases |cmds|
  {
    var front := cmds[..|cmds| - 1];
    if FirstWanting(want, front, b).Some? {
      FirstWantingAt(want, front, b);
      var j :| 0 <= j < |front| && Some(front[j].id) == FirstWanting(want, front, b) && want(front[j].id) == Wants(b);
      assert cmds[j] == front[j];
    } else {
      assert cmds[|cmds| - 1].id == FirstWanting(want, cmds, b).value;
    }
  }

  /** A binding that the settings can hold: its text reads back as itself. */
  predicate Recordable(cs: Casing, b: KeyBinding) {
    Stored(cs, b) && !IsKeyGlyph(b.key) && (!IsBlank(b.key) || IsNamedCharacter(b.key))
  }

  lemma PatchedChoice(cs: Casing, ov: Overrides, id: string, b: KeyBinding)
    requires cs.Sane() && Recordable(cs, b)
    ensures ChoiceOf(cs, Patched(ov, id, Some(b)), id) == Wants(b)
  {
    SerializedTrims(b);
    SerializedRoundTrip(cs, b);
  }

  lemma PatchedFrame(cs: Casing, ov: Overrides, id: string, binding: Option<KeyBinding>, other: string)
    requires other != id
    ensures ChoiceOf(cs, Patched(ov, id, binding), other) == ChoiceOf(cs, ov, other)
  {
  }

  /** Recording a shortcut: once the patch is applied, the command answers to exactly that key, if and
      only if no earlier command in the table already has it as its override; otherwise the command
      has no key and the recorded one is reported as displaced. */
  lemma PatchTakesEffect(cs: Casing, ov: Overrides, cmds: seq<AppCommand>, i: nat, b: KeyBinding)
    requires cs.Sane() && Recordable(cs, b) && i < |cmds|
    requires forall j :: 0 <= j < i ==> cmds[j].id != cmds[i].id
    ensures var id := cmds[i].id;
            var r := Resolve(ChoicesOf(cs, Patched(ov, id, Some(b))), cmds);
            if forall j :: 0 <= j < i ==> ChoiceOf(cs, ov, cmds[j].id) != Wants(b)
            then Keys(r.effective, id) == [b] && Keys(r.displaced, id) == []
            else Keys(r.effective, id) == [] && b in Keys(r.displaced, id)
  {
    var id := cmds[i].id;
    var want := ChoicesOf(cs, Patched(ov, id, Some(b)));
    PatchedChoice(cs, ov, id, b);
    assert want(id) == Wants(b);
    forall j | 0 <= j < i ensures want(cmds[j].id) == ChoiceOf(cs, ov, cmds[j].id) {
      PatchedFrame(cs, ov, id, Some(b), cmds[j].id);
    }
    FirstWantingIndex(want, cmds, b, i);
    assert cmds[i] in cmds && Lists(cmds, id);
    OverrideOutcome(want, cmds, id);
  }

  /** Clearing an override: every default of the command is back, except those another command has. */
  lemma ClearRestoresDefaults(cs: Casing, ov: Overrides, cmds: seq<AppCommand>, id: string, b: KeyBinding)
    requires Lists(cmds, id) && b in FirstWith(cmds, id).value.declaredKeys
    ensures var want := ChoicesOf(cs, Patched(ov, id, None));
            b in Keys(Resolve(want, cmds).effective, id) <==> Winner(want, cmds, b) == Some(id)
  {
    DefaultOutcome(ChoicesOf(cs, Patched(ov, id, None)), cmds, id, b);
  }

  // ----- the resolver

  lemma OverridePassNext(want: Choices, cmds: seq<AppCommand>, i: nat)
    requires i < |cmds|
    ensures OverridePass(want, cmds[..i + 1]) == OverrideStep(want, OverridePass(want, cmds[..i]), cmds[i].id)
  {
    assert cmds[..i + 1][..i] == cmds[..i];
  }

  lemma DefaultPassNext(s: Resolution, cmds: seq<AppCommand>, i: nat)
    requires i < |cmds|
    ensures DefaultPass(s, cmds[..i + 1]) == DefaultStep(DefaultPass(s, cmds[..i]), cmds[i])
  {
    assert cmds[..i + 1][..i] == cmds[..i];
  }

  /** What an override asks for, through the imperative parser. */
  method Asked(cs: Casing, overrides: Overrides, id: string) returns (choice: Choice)
    ensures choice == ChoiceOf(cs, overrides, id)
  {
    if id !in overrides { return Default; }
    var trimmed := Trim(overrides[id], IsBlank);
    if trimmed == "" { return Unbound; }
    var parsed := Parse(cs, trimmed);
    choice := match parsed case Some(b) => Wants(b) case None => Default;
  }

  /** Pass 1: explicit overrides claim first, in table order. */
  method ClaimOverrides(cs: Casing, overrides: Overrides, commands: seq<AppCommand>)
    returns (claimed: map<KeyBinding, string>, resolved: map<string, seq<KeyBinding>>,
             lost: map<string, seq<KeyBinding>>)
    ensures Resolution(claimed, resolved, lost) == OverridePass(ChoicesOf(cs, overrides), commands)
  {
    ghost var want := ChoicesOf(cs, overrides);
    claimed, resolved, lost := map[], map[], map[];
    for i := 0 to |commands|
      invariant Resolution(claimed, resolved, lost) == OverridePass(want, commands[..i])
    {
      OverridePassNext(want, commands, i);
      var id := commands[i].id;
      var choice := Asked(cs, overrides, id);
      assert choice == want(id);
      match choice
      case Default =>
      case Unbound => resolved := resolved[id := []];
      case Wants(b) =>
        if b in claimed && claimed[b] != id {
          lost := lost[id := Keys(lost, id) + [b]];
          resolved := resolved[id := []];
        } else {
          claimed := claimed[b := id];
          resolved := resolved[id := [b]];
        }
    }
    assert commands[..|commands|] == commands;
  }

  /** One command's turn in the second pass. */
  method ClaimDefaults(c: AppCommand, claimed0: map<KeyBinding, string>, lost0: map<string, seq<KeyBinding>>,
                       ghost s: Resolution)
    returns (claimed: map<KeyBinding, string>, lost: map<string, seq<KeyBinding>>, mine: seq<KeyBinding>)
    requires s.owner == claimed0 && s.displaced == lost0
    ensures Claims(claimed, lost, mine) == ClaimAll(s, c.id, c.declaredKeys)
  {
    claimed, lost, mine := claimed0, lost0, [];
    var keys := c.declaredKeys;
    for k := 0 to |keys|
      invariant Claims(claimed, lost, mine) == ClaimAll(s, c.id, keys[..k])
    {
      assert keys[..k + 1][..k] == keys[..k];
      var b := keys[k];
      if b in claimed && claimed[b] != c.id {
        lost := lost[c.id := Keys(lost, c.id) + [b]];
      } else {
        claimed := claimed[b := c.id];
        mine := mine + [b];
      }
    }
    assert keys[..|keys|] == keys;
  }

  /** Pass 2: defaults fill in around the overrides. */
  method FillDefaults(commands: seq<AppCommand>, claimed0: map<KeyBinding, string>,
                      resolved0: map<string, seq<KeyBinding>>, lost0: map<string, seq<KeyBinding>>)
    returns (claimed: map<KeyBinding, string>, resolved: map<string, seq<KeyBinding>>,
             lost: map<string, seq<KeyBinding>>)
    ensures Resolution(claimed, resolved, lost) == DefaultPass(Resolution(claimed0, resolved0, lost0), commands)
  {
    ghost var base := Resolution(claimed0, resolved0, lost0);
    claimed, resolved, lost := claimed0, resolved0, lost0;
    for i := 0 to |commands|
      invariant Resolution(claimed, resolved, lost) == DefaultPass(base, commands[..i])
    {
      DefaultPassNext(base, commands, i);
      if commands[i].id !in resolved {
        var mine;
        claimed, lost, mine := ClaimDefaults(commands[i], claimed, lost, Resolution(claimed, resolved, lost));
        resolved := resolved[commands[i].id := mine];
      }
    }
    assert commands[..|commands|] == commands;
  }

  class ShortcutResolver {
    const cs: Casing
    const commands: seq<AppCommand>
    var overrides: Overrides
    var effectiveKeys: map<string, seq<KeyBinding>>
    var displaced: map<string, seq<KeyBinding>>
    var owner: map<KeyBinding, string>

    ghost function Result(): Resolution
      reads this
    {
      Resolution(owner, effectiveKeys, displaced)
    }

    ghost predicate Valid()
      reads this
    {
      Result() == Resolve(ChoicesOf(cs, overrides), commands)
    }

    constructor (cs: Casing, commands: seq<AppCommand>, overrides: Overrides)
      ensures Valid() && this.cs == cs && this.commands == commands && this.overrides == overrides
    {
      this.cs, this.commands, this.overrides := cs, commands, overrides;
      effectiveKeys, displaced, owner := map[], map[], map[];
      new;
      Recompute();
    }

    /** Called whenever the settings change; no settings means no overrides. */
    method Apply(next: Option<Overrides>)
      requires Valid()
      modifies this
      ensures Valid() && overrides == match next case Some(o) => o case None => map[]
    {
      var o := match next case Some(o) => o case None => map[];
      if o != overrides {
        overrides := o;
        Recompute();
      }
    }

    method Recompute()
      modifies this
      ensures Valid() && overrides == old(overrides)
    {
      var claimed, resolved, lost := ClaimOverrides(cs, overrides, commands);
      owner, effectiveKeys, displaced := FillDefaults(commands, claimed, resolved, lost);
    }

    function KeysFor(id: string): seq<KeyBinding>
      reads this
    {
      Keys(effectiveKeys, id)
    }

    /** Which command owns a candidate key: one that answers to it, or none when no command does. */
    method CommandBoundTo(b: KeyBinding) returns (r: Option<AppCommand>)
      requires Valid()
      ensures r.Some? ==> FirstWith(commands, r.value.id) == r && b in KeysFor(r.value.id)
      ensures r.None? ==> forall c :: c in commands ==> b !in KeysFor(c.id)
    {
      ghost var want := ChoicesOf(cs, overrides);
      forall id ensures Lookup(owner, b) == Some(id) <==> b in KeysFor(id) {
        OwnerIffEffective(want, commands, b, id);
      }
      OwnerIsWinner(want, commands, b);
      FirstWantingWants(want, commands, b);
      FirstDeclaringDeclares(want, commands, b);
      return if b in owner then FirstWith(commands, owner[b]) else None;
    }

    method SettingsPatch(id: string, binding: Option<KeyBinding>) returns (next: Overrides)
      ensures next == Patched(overrides, id, binding)
    {
      next := overrides;
      if binding.Some? {
        next := next[id := Serialized(binding.value)];
      } else {
        next := next - {id};
      }
    }
  }
}
