/** One key equivalent: its modifiers, its two printed forms, and the parser that accepts both. */
module KeyBinding {
  import opened Basics

  datatype Modifier = Control | Alt | Shift | Command

  const CONTROL_GLYPH := '⌃'
  const ALT_GLYPH := '⌥'
  const SHIFT_GLYPH := '⇧'
  const COMMAND_GLYPH := '⌘'

  datatype NamedKey = NamedKey(name: string, glyph: char, character: char)

  const NAMED_KEYS: seq<NamedKey> := [
    NamedKey("left", '←', '\U{F702}'), NamedKey("right", '→', '\U{F703}'),
    NamedKey("up", '↑', '\U{F700}'), NamedKey("down", '↓', '\U{F701}'),
    NamedKey("return", '⏎', '\r'), NamedKey("escape", '⎋', '\U{1B}'),
    NamedKey("tab", '⇥', '\t'), NamedKey("space", '␣', ' '), NamedKey("delete", '⌫', '\U{7F}')]

  // ----- casing

  /** Unicode casing, character by character. */
  datatype Casing = Casing(lower: char -> char, upper: char -> string) {
    function Lowered(s: string): (r: string)
      ensures |r| == |s| && forall k :: 0 <= k < |s| ==> r[k] == lower(s[k])
    {
      seq(|s|, k requires 0 <= k < |s| => lower(s[k]))
    }

    /** The facts about lowercasing that the parser relies on: it is idempotent, and it leaves small
        letters, blanks, `+`, `-`, the glyphs and the named characters alone. */
    ghost predicate Sane() {
      && (forall c :: lower(lower(c)) == lower(c))
      && (forall c :: Caseless(c) ==> lower(c) == c)
    }
  }

  predicate IsModifierGlyph(c: char) {
    c == CONTROL_GLYPH || c == ALT_GLYPH || c == SHIFT_GLYPH || c == COMMAND_GLYPH
  }

  /** The nine glyphs that named keys are displayed as. */
  predicate IsKeyGlyph(c: char) {
    c == '←' || c == '→' || c == '↑' || c == '↓' || c == '⏎' || c == '⎋' || c == '⇥' || c == '␣' || c == '⌫'
  }

  predicate IsNamedCharacter(c: char) {
    '\U{F700}' <= c <= '\U{F703}' || c == '\r' || c == '\U{1B}' || c == '\t' || c == ' ' || c == '\U{7F}'
  }

  predicate IsSmallLetter(c: char) { 'a' <= c <= 'z' }

  predicate Caseless(c: char) {
    IsSmallLetter(c) || IsBlank(c) || c == '+' || c == '-' || IsModifierGlyph(c) || IsKeyGlyph(c) || IsNamedCharacter(c)
  }

  // ----- the binding

  datatype KeyBinding = KeyBinding(key: char, modifiers: set<Modifier>)

  /** The initializer: keys are stored lowercased. */
  function Bind(cs: Casing, key: char, modifiers: set<Modifier>): KeyBinding {
    KeyBinding(cs.lower(key), modifiers)
  }

  /** A binding as the initializer leaves it. */
  predicate Stored(cs: Casing, b: KeyBinding) {
    cs.lower(b.key) == b.key
  }

  // ----- printing

  function If<T>(cond: bool, x: T): seq<T> {
    if cond then [x] else []
  }

  function Tokens(ms: set<Modifier>): seq<string> {
    If(Control in ms, "ctrl") + If(Alt in ms, "opt") + If(Shift in ms, "shift") + If(Command in ms, "cmd")
  }

  function Glyphs(ms: set<Modifier>): string {
    If(Control in ms, CONTROL_GLYPH) + If(Alt in ms, ALT_GLYPH) +
    If(Shift in ms, SHIFT_GLYPH) + If(Command in ms, COMMAND_GLYPH)
  }

  /** The first named key with the given character. */
  function NamedFor(c: char, k: nat): (r: Option<NamedKey>)
    requires k <= |NAMED_KEYS|
    ensures r.Some? ==> r.value in NAMED_KEYS && r.value.character == c
    ensures r.None? ==> forall j :: k <= j < |NAMED_KEYS| ==> NAMED_KEYS[j].character != c
    decreases |NAMED_KEYS| - k
  {
    if k == |NAMED_KEYS| then None
    else if NAMED_KEYS[k].character == c then Some(NAMED_KEYS[k])
    else NamedFor(c, k + 1)
  }

  function KeyToken(key: char): string {
    match NamedFor(key, 0)
    case Some(n) => n.name
    case None => [key]
  }

  function KeyGlyph(cs: Casing, key: char): string {
    match NamedFor(key, 0)
    case Some(n) => [n.glyph]
    case None => cs.upper(key)
  }

  function Joined(parts: seq<string>): string {
    if parts == [] then "" else if |parts| == 1 then parts[0] else parts[0] + "+" + Joined(parts[1..])
  }

  /** `"cmd+shift+n"`. */
  function Serialized(b: KeyBinding): string {
    Joined(Tokens(b.modifiers) + [KeyToken(b.key)])
  }

  /** `"⌘⇧N"`. */
  function Display(cs: Casing, b: KeyBinding): string {
    Glyphs(b.modifiers) + KeyGlyph(cs, b.key)
  }

  // ----- parsing

  function ParseToken(cs: Casing, token: string): Option<Modifier> {
    var t := cs.Lowered(token);
    if t == "cmd" || t == "command" || t == "meta" || t == [COMMAND_GLYPH] then Some(Command)
    else if t == "shift" || t == [SHIFT_GLYPH] then Some(Shift)
    else if t == "opt" || t == "option" || t == "alt" || t == [ALT_GLYPH] then Some(Alt)
    else if t == "ctrl" || t == "control" || t == [CONTROL_GLYPH] then Some(Control)
    else None
  }

  /** `components(separatedBy: "+")`. */
  function Split(s: string): (r: seq<string>)
    ensures r != []
  {
    if s == "" then [""]
    else
      var rest := Split(s[1..]);
      if s[0] == '+' then [""] + rest else [[s[0]] + rest[0]] + rest[1..]
  }

  function NonEmpty(parts: seq<string>): seq<string> {
    if parts == [] then []
    else if parts[0] == "" then NonEmpty(parts[1..])
    else [parts[0]] + NonEmpty(parts[1..])
  }

  /** All tokens as modifiers, or nothing. */
  function ParseAll(cs: Casing, tokens: seq<string>): Option<set<Modifier>> {
    if tokens == [] then Some({})
    else
      match (ParseToken(cs, tokens[0]), ParseAll(cs, tokens[1..]))
      case (Some(m), Some(ms)) => Some({m} + ms)
      case _ => None
  }

  /** Token form: modifiers and the key part, or the whole text when it is not token form after all. */
  function TokenForm(cs: Casing, s: string): (set<Modifier>, string) {
    if |s| <= 1 || '+' !in s then ({}, s)
    else
      var parts := NonEmpty(Split(if s[|s| - 1] == '+' then s[..|s| - 1] else s));
      var tokens, keyPart :=
        if s[|s| - 1] == '+' then parts else if |parts| > 1 then parts[..|parts| - 1] else [],
        if s[|s| - 1] == '+' then "+" else if |parts| > 1 then parts[|parts| - 1] else s;
      if tokens == [] then ({}, s)
      else
        match ParseAll(cs, tokens)
        case Some(ms) => (ms, keyPart)
        case None => ({}, s)
  }

  /** Glyph form: leading modifier glyphs come off while something is left. */
  function StripGlyphs(cs: Casing, ms: set<Modifier>, s: string): (set<Modifier>, string)
    decreases |s|
  {
    if |s| <= 1 || ParseToken(cs, s[..1]).None? then (ms, s)
    else StripGlyphs(cs, ms + {ParseToken(cs, s[..1]).value}, s[1..])
  }

  /** The first named key whose name or glyph the text is. */
  function NamedBy(name: string, text: string, k: nat): (r: Option<NamedKey>)
    requires k <= |NAMED_KEYS|
    ensures r.Some? ==> r.value in NAMED_KEYS && (r.value.name == name || [r.value.glyph] == text)
    ensures r.None? ==> forall j :: k <= j < |NAMED_KEYS| ==>
                          NAMED_KEYS[j].name != name && [NAMED_KEYS[j].glyph] != text
    decreases |NAMED_KEYS| - k
  {
    if k == |NAMED_KEYS| then None
    else if NAMED_KEYS[k].name == name || [NAMED_KEYS[k].glyph] == text then Some(NAMED_KEYS[k])
    else NamedBy(name, text, k + 1)
  }

  function KeyPart(cs: Casing, ms: set<Modifier>, s: string): Option<KeyBinding> {
    var name := cs.Lowered(s);
    match NamedBy(name, s, 0)
    case Some(n) => Some(Bind(cs, n.character, ms))
    case None =>
      if name == "plus" then Some(Bind(cs, '+', ms))
      else if name == "minus" then Some(Bind(cs, '-', ms))
      else if name == "esc" then Some(Bind(cs, '\U{1B}', ms))
      else if name == "enter" then Some(Bind(cs, '\r', ms))
      else if |s| == 1 then Some(Bind(cs, s[0], ms))
      else None
  }

  function Parsed(cs: Casing, input: string): Option<KeyBinding> {
    var trimmed := Trim(input, IsBlank);
    if trimmed == "" then None
    else
      var (ms, remainder) := TokenForm(cs, trimmed);
      var (all, key) := StripGlyphs(cs, ms, remainder);
      KeyPart(cs, all, key)
  }

  /** `init?(parsing:)`, with its `remainder` consumed glyph by glyph. */
  method Parse(cs: Casing, input: string) returns (r: Option<KeyBinding>)
    ensures r == Parsed(cs, input)
  {
    var trimmed := Trim(input, IsBlank);
    if trimmed == "" { return None; }
    var (modifiers, remainder) := TokenForm(cs, trimmed);
    ghost var goal := StripGlyphs(cs, modifiers, remainder);
    while |remainder| > 1 && ParseToken(cs, remainder[..1]).Some?
      invariant StripGlyphs(cs, modifiers, remainder) == goal
      decreases |remainder|
    {
      modifiers := modifiers + {ParseToken(cs, remainder[..1]).value};
      remainder := remainder[1..];
    }
    return KeyPart(cs, modifiers, remainder);
  }

  // ----- round trip of the serialized form

  predicate NoPlus(s: string) { '+' !in s }

  lemma {:induction false} SplitHead(a: string, rest: string)
    requires NoPlus(a)
    ensures Split(a + "+" + rest) == [a] + Split(rest)
    decreases |a|
  {
    var s := a + "+" + rest;
    if a == "" {
      assert s[1..] == rest;
    } else {
      assert s[1..] == a[1..] + "+" + rest;
      SplitHead(a[1..], rest);
      assert a == [a[0]] + a[1..];
    }
  }

  lemma {:induction false} SplitWhole(a: string)
    requires NoPlus(a)
    ensures Split(a) == [a]
    decreases |a|
  {
    if a != "" {
      SplitWhole(a[1..]);
      assert a == [a[0]] + a[1..];
    }
  }

  predicate Plain(parts: seq<string>) {
    forall k :: 0 <= k < |parts| ==> parts[k] != "" && NoPlus(parts[k])
  }

  /** Splitting undoes joining, also with one more separator and anything after it. */
  lemma {:induction false} SplitJoined(parts: seq<string>)
    requires Plain(parts) && parts != []
    ensures Split(Joined(parts)) == parts
    ensures Split(Joined(parts) + "+") == parts + [""]
    ensures Joined(parts) != ""
    decreases |parts|
  {
    SplitWhole(parts[0]);
    if |parts| == 1 {
      SplitHead(parts[0], "");
      assert parts[0] + "+" + "" == parts[0] + "+";
      assert parts == [parts[0]];
    } else {
      var rest := Joined(parts[1..]);
      SplitJoined(parts[1..]);
      SplitHead(parts[0], rest);
      SplitHead(parts[0], rest + "+");
      assert parts[0] + "+" + rest + "+" == parts[0] + "+" + (rest + "+");
      assert parts == [parts[0]] + parts[1..];
      assert [parts[0]] + (parts[1..] + [""]) == parts + [""];
    }
  }

  lemma {:induction false} NonEmptyOfPlain(parts: seq<string>)
    requires Plain(parts)
    ensures NonEmpty(parts) == parts && NonEmpty(parts + [""]) == parts
    decreases |parts|
  {
    if parts == [] {
      assert parts + [""] == [""];
      assert [""][1..] == [];
    } else {
      NonEmptyOfPlain(parts[1..]);
      assert (parts + [""])[1..] == parts[1..] + [""];
      assert parts == [parts[0]] + parts[1..];
    }
  }

  lemma {:induction false} JoinedSnoc(parts: seq<string>, x: string)
    requires parts != []
    ensures Joined(parts + [x]) == Joined(parts) + "+" + x
    decreases |parts|
  {
    var all := parts + [x];
    if |parts| == 1 {
      assert all[1..] == [x];
    } else {
      assert all[1..] == parts[1..] + [x];
      JoinedSnoc(parts[1..], x);
      assert parts[0] + "+" + (Joined(parts[1..]) + "+" + x) == parts[0] + "+" + Joined(parts[1..]) + "+" + x;
    }
  }

  lemma TrimIdentity(s: string, blank: char -> bool)
    requires s != "" && !blank(s[0]) && !blank(s[|s| - 1])
    ensures Trim(s, blank) == s
  {
  }

  lemma LoweredFixes(cs: Casing, s: string)
    requires cs.Sane() && forall k :: 0 <= k < |s| ==> Caseless(s[k])
    ensures cs.Lowered(s) == s
  {
  }

  lemma TokenParses(cs: Casing)
    requires cs.Sane()
    ensures ParseToken(cs, "ctrl") == Some(Control) && ParseToken(cs, "opt") == Some(Alt)
    ensures ParseToken(cs, "shift") == Some(Shift) && ParseToken(cs, "cmd") == Some(Command)
  {
    LoweredFixes(cs, "ctrl");
    LoweredFixes(cs, "opt");
    LoweredFixes(cs, "shift");
    LoweredFixes(cs, "cmd");
  }

  lemma {:induction false} ParseAllAppend(cs: Casing, a: seq<string>, b: seq<string>)
    ensures ParseAll(cs, a + b) ==
              match (ParseAll(cs, a), ParseAll(cs, b))
              case (Some(x), Some(y)) => Some(x + y)
              case _ => None
    decreases |a|
  {
    if a == [] {
      assert a + b == b;
      if ParseAll(cs, b).Some? { assert {} + ParseAll(cs, b).value == ParseAll(cs, b).value; }
    } else {
      assert (a + b)[1..] == a[1..] + b;
      ParseAllAppend(cs, a[1..], b);
      var m, x, y := ParseToken(cs, a[0]), ParseAll(cs, a[1..]), ParseAll(cs, b);
      if m.Some? && x.Some? && y.Some? {
        assert {m.value} + (x.value + y.value) == {m.value} + x.value + y.value;
      }
    }
  }

  lemma ParseAllIf(cs: Casing, cond: bool, token: string, m: Modifier)
    requires ParseToken(cs, token) == Some(m)
    ensures ParseAll(cs, If(cond, token)) == Some(if cond then {m} else {})
  {
    if cond {
      assert [token][1..] == [] && ParseAll(cs, []) == Some({});
      assert {m} + {} == {m};
    }
  }

  /** The tokens of a modifier set parse back to the set. */
  lemma TokensRoundTrip(cs: Casing, ms: set<Modifier>)
    requires cs.Sane()
    ensures ParseAll(cs, Tokens(ms)) == Some(ms)
  {
    TokenParses(cs);
    var a, b := If(Control in ms, "ctrl"), If(Alt in ms, "opt");
    var c, d := If(Shift in ms, "shift"), If(Command in ms, "cmd");
    ParseAllIf(cs, Control in ms, "ctrl", Control);
    ParseAllIf(cs, Alt in ms, "opt", Alt);
    ParseAllIf(cs, Shift in ms, "shift", Shift);
    ParseAllIf(cs, Command in ms, "cmd", Command);
    ParseAllAppend(cs, a, b);
    ParseAllAppend(cs, a + b, c);
    ParseAllAppend(cs, a + b + c, d);
    UnionOfParts(ms);
  }

  function Only(ms: set<Modifier>, m: Modifier): set<Modifier> {
    if m in ms then {m} else {}
  }

  lemma UnionOfParts(ms: set<Modifier>)
    ensures Only(ms, Control) + Only(ms, Alt) + Only(ms, Shift) + Only(ms, Command) == ms
  {
    forall m | m in ms ensures m in Only(ms, Control) + Only(ms, Alt) + Only(ms, Shift) + Only(ms, Command) {
      match m
      case Control =>
      case Alt =>
      case Shift =>
      case Command =>
    }
  }

  // ----- the table of named keys

  lemma NamesAreWords(n: NamedKey)
    requires n in NAMED_KEYS
    ensures |n.name| > 1 && forall k :: 0 <= k < |n.name| ==> IsSmallLetter(n.name[k])
  {
    var k :| 0 <= k < |NAMED_KEYS| && NAMED_KEYS[k] == n;
  }

  lemma NamedKeyShape(n: NamedKey)
    requires n in NAMED_KEYS
    ensures IsKeyGlyph(n.glyph) && IsNamedCharacter(n.character)
  {
    var k :| 0 <= k < |NAMED_KEYS| && NAMED_KEYS[k] == n;
  }

  lemma GlyphOwner(c: char) returns (n: NamedKey)
    requires IsKeyGlyph(c)
    ensures n in NAMED_KEYS && n.glyph == c
  {
    var k: nat := if c == '←' then 0 else if c == '→' then 1 else if c == '↑' then 2 else if c == '↓' then 3
                  else if c == '⏎' then 4 else if c == '⎋' then 5 else if c == '⇥' then 6
                  else if c == '␣' then 7 else 8;
    n := NAMED_KEYS[k];
  }

  lemma CharacterOwner(c: char) returns (n: NamedKey)
    requires IsNamedCharacter(c)
    ensures n in NAMED_KEYS && n.character == c
  {
    var k: nat := if c == '\U{F702}' then 0 else if c == '\U{F703}' then 1 else if c == '\U{F700}' then 2
                  else if c == '\U{F701}' then 3 else if c == '\r' then 4 else if c == '\U{1B}' then 5
                  else if c == '\t' then 6 else if c == ' ' then 7 else 8;
    n := NAMED_KEYS[k];
  }

  lemma NamesDiffer(m: NamedKey, n: NamedKey)
    requires m in NAMED_KEYS && n in NAMED_KEYS && m.name == n.name
    ensures m == n
  {
    var i :| 0 <= i < |NAMED_KEYS| && NAMED_KEYS[i] == m;
    var j :| 0 <= j < |NAMED_KEYS| && NAMED_KEYS[j] == n;
    assert m.name[0] == n.name[0] && m.name[1] == n.name[1];
  }

  lemma GlyphsDiffer(m: NamedKey, n: NamedKey)
    requires m in NAMED_KEYS && n in NAMED_KEYS && m.glyph == n.glyph
    ensures m == n
  {
    var i :| 0 <= i < |NAMED_KEYS| && NAMED_KEYS[i] == m;
    var j :| 0 <= j < |NAMED_KEYS| && NAMED_KEYS[j] == n;
  }

  lemma NamedKeyOf(c: char)
    ensures NamedFor(c, 0).Some? <==> IsNamedCharacter(c)
  {
    if IsNamedCharacter(c) {
      var n := CharacterOwner(c);
      var k :| 0 <= k < |NAMED_KEYS| && NAMED_KEYS[k] == n;
    }
    if NamedFor(c, 0).Some? { NamedKeyShape(NamedFor(c, 0).value); }
  }

  // ----- the key part

  /** A name is read back as its character. */
  lemma KeyPartOfName(cs: Casing, ms: set<Modifier>, n: NamedKey)
    requires cs.Sane() && n in NAMED_KEYS
    ensures KeyPart(cs, ms, n.name) == Some(KeyBinding(n.character, ms))
  {
    NamesAreWords(n);
    NamedKeyShape(n);
    LoweredFixes(cs, n.name);
    var k :| 0 <= k < |NAMED_KEYS| && NAMED_KEYS[k] == n;
    var found := NamedBy(n.name, n.name, 0);
    assert found.Some?;
    NamesDiffer(found.value, n);
  }

  /** So is a display glyph. */
  lemma KeyPartOfGlyph(cs: Casing, ms: set<Modifier>, n: NamedKey)
    requires cs.Sane() && n in NAMED_KEYS
    ensures KeyPart(cs, ms, [n.glyph]) == Some(KeyBinding(n.character, ms))
  {
    NamedKeyShape(n);
    var k :| 0 <= k < |NAMED_KEYS| && NAMED_KEYS[k] == n;
    var found := NamedBy(cs.Lowered([n.glyph]), [n.glyph], 0);
    assert found.Some?;
    NamesAreWords(found.value);
    GlyphsDiffer(found.value, n);
  }

  /** A single character that is no display glyph is itself. */
  lemma KeyPartOfCharacter(cs: Casing, ms: set<Modifier>, c: char)
    requires cs.Sane() && !IsKeyGlyph(c)
    ensures KeyPart(cs, ms, [c]) == Some(KeyBinding(cs.lower(c), ms))
  {
    var name := cs.Lowered([c]);
    var named := NamedBy(name, [c], 0);
    assert named.None? by {
      if named.Some? {
        NamesAreWords(named.value);
        NamedKeyShape(named.value);
        assert false;
      }
    }
  }

  /** What the parser makes of the key part that `Serialized` writes. */
  lemma KeyPartOfToken(cs: Casing, ms: set<Modifier>, key: char)
    requires cs.Sane() && cs.lower(key) == key
    ensures KeyPart(cs, ms, KeyToken(key)) == Some(KeyBinding(key, ms)) <==> !IsKeyGlyph(key)
  {
    NamedKeyOf(key);
    if IsNamedCharacter(key) {
      KeyPartOfName(cs, ms, NamedFor(key, 0).value);
    } else if IsKeyGlyph(key) {
      var n := GlyphOwner(key);
      KeyPartOfGlyph(cs, ms, n);
      NamedKeyShape(n);
    } else {
      KeyPartOfCharacter(cs, ms, key);
    }
  }

  lemma NoModifier(cs: Casing, c: char)
    requires cs.lower(c) == c && !IsModifierGlyph(c)
    ensures ParseToken(cs, [c]).None?
  {
    assert cs.Lowered([c])[0] == c;
  }

  /** Nothing is stripped from a key part: a name starts with a letter, and a lone character stays. */
  lemma NothingToStrip(cs: Casing, ms: set<Modifier>, key: char)
    requires cs.Sane()
    ensures StripGlyphs(cs, ms, KeyToken(key)) == (ms, KeyToken(key))
  {
    if NamedFor(key, 0).Some? {
      var n := NamedFor(key, 0).value;
      NamesAreWords(n);
      assert Caseless(n.name[0]);
      NoModifier(cs, n.name[0]);
      assert n.name[..1] == [n.name[0]];
    }
  }

  // ----- token form of what `Serialized` writes

  lemma TokensArePlain(ms: set<Modifier>)
    ensures Plain(Tokens(ms))
    ensures Tokens(ms) == [] <==> ms == {}
    ensures forall k :: 0 <= k < |Tokens(ms)| ==> !IsBlank(Tokens(ms)[k][0])
  {
    if Tokens(ms) == [] {
      UnionOfParts(ms);
      assert ms == {};
    }
  }

  lemma JoinedEnds(parts: seq<string>, x: string)
    requires x != ""
    ensures var s := Joined(parts + [x]); s != "" && s[|s| - 1] == x[|x| - 1]
    ensures parts != [] ==> |Joined(parts + [x])| > 1 && '+' in Joined(parts + [x])
  {
    if parts == [] {
      assert parts + [x] == [x];
    } else {
      JoinedSnoc(parts, x);
      var s := Joined(parts) + "+" + x;
      assert s[|Joined(parts)|] == '+';
    }
  }

  lemma JoinedStarts(parts: seq<string>)
    requires parts != [] && parts[0] != ""
    ensures Joined(parts) != "" && Joined(parts)[0] == parts[0][0]
  {
  }

  /** The `+` key: a trailing `+` is the key, and what precedes it are the modifiers. */
  lemma TokenFormOfPlus(cs: Casing, ms: set<Modifier>)
    requires cs.Sane()
    ensures TokenForm(cs, Joined(Tokens(ms) + ["+"])) == (ms, "+")
  {
    var t := Tokens(ms);
    TokensArePlain(ms);
    if t == [] {
      assert t + ["+"] == ["+"];
    } else {
      JoinedSnoc(t, "+");
      JoinedEnds(t, "+");
      var s := Joined(t) + "+" + "+";
      assert s[..|s| - 1] == Joined(t) + "+";
      SplitJoined(t);
      NonEmptyOfPlain(t);
      TokensRoundTrip(cs, ms);
    }
  }

  /** Any other key part without a `+`: the last part is the key. */
  lemma TokenFormOfKey(cs: Casing, ms: set<Modifier>, k: string)
    requires cs.Sane() && k != "" && NoPlus(k)
    ensures TokenForm(cs, Joined(Tokens(ms) + [k])) == (ms, k)
  {
    TokensArePlain(ms);
    if Tokens(ms) == [] {
      assert [] + [k] == [k];
    } else {
      TokensRoundTrip(cs, ms);
      TokenFormOfParts(cs, Tokens(ms), k, ms);
    }
  }

  lemma TokenFormOfParts(cs: Casing, t: seq<string>, k: string, ms: set<Modifier>)
    requires Plain(t) && t != [] && k != "" && NoPlus(k) && ParseAll(cs, t) == Some(ms)
    ensures TokenForm(cs, Joined(t + [k])) == (ms, k)
  {
    JoinedEnds(t, k);
    assert k[|k| - 1] in k;
    SplitJoined(t + [k]);
    NonEmptyOfPlain(t + [k]);
    assert (t + [k])[..|t|] == t;
  }

  // ----- the round trip

  lemma KeyTokenIsSolid(key: char)
    requires !IsBlank(key) || IsNamedCharacter(key)
    ensures var k := KeyToken(key); k != "" && !IsBlank(k[0]) && !IsBlank(k[|k| - 1])
  {
    NamedKeyOf(key);
    if NamedFor(key, 0).Some? { NamesAreWords(NamedFor(key, 0).value); }
  }

  lemma JoinedIsSolid(t: seq<string>, k: string)
    requires Plain(t) && forall j :: 0 <= j < |t| ==> !IsBlank(t[j][0])
    requires k != "" && !IsBlank(k[0]) && !IsBlank(k[|k| - 1])
    ensures var s := Joined(t + [k]); s != "" && !IsBlank(s[0]) && !IsBlank(s[|s| - 1])
  {
    JoinedEnds(t, k);
    JoinedStarts(t + [k]);
  }

  lemma SerializedTrims(b: KeyBinding)
    requires !IsBlank(b.key) || IsNamedCharacter(b.key)
    ensures Trim(Serialized(b), IsBlank) == Serialized(b) && Serialized(b) != ""
  {
    KeyTokenIsSolid(b.key);
    TokensArePlain(b.modifiers);
    JoinedIsSolid(Tokens(b.modifiers), KeyToken(b.key));
    TrimIdentity(Serialized(b), IsBlank);
  }

  lemma SerializedRoundTripsUnlessBlank(cs: Casing, b: KeyBinding)
    requires cs.Sane() && Stored(cs, b) && (!IsBlank(b.key) || IsNamedCharacter(b.key))
    ensures Parsed(cs, Serialized(b)) == Some(b) <==> !IsKeyGlyph(b.key)
  {
    var ms, k := b.modifiers, KeyToken(b.key);
    SerializedTrims(b);
    NamedKeyOf(b.key);
    if k == "+" {
      TokenFormOfPlus(cs, ms);
    } else {
      if NamedFor(b.key, 0).Some? { NamesAreWords(NamedFor(b.key, 0).value); }
      assert NoPlus(k);
      TokenFormOfKey(cs, ms, k);
    }
    NothingToStrip(cs, ms, b.key);
    KeyPartOfToken(cs, ms, b.key);
  }

  /** A blank that has no name is trimmed away, and what is left reads as nothing or as the `+` key. */
  lemma BlankIsLost(cs: Casing, b: KeyBinding)
    requires cs.Sane() && IsBlank(b.key) && !IsNamedCharacter(b.key)
    ensures Parsed(cs, Serialized(b)) != Some(b)
  {
    NamedKeyOf(b.key);
    TokensArePlain(b.modifiers);
    if Tokens(b.modifiers) == [] {
      assert [] + [[b.key]] == [[b.key]];
      TrimLone(b.key);
    } else {
      BlankBecomesPlus(cs, b);
      KeyPartOfCharacter(cs, b.modifiers, '+');
    }
  }

  lemma BlankBecomesPlus(cs: Casing, b: KeyBinding)
    requires cs.Sane() && IsBlank(b.key) && KeyToken(b.key) == [b.key] && Tokens(b.modifiers) != []
    ensures Parsed(cs, Serialized(b)) == KeyPart(cs, b.modifiers, "+")
  {
    var t := Tokens(b.modifiers);
    TokensArePlain(b.modifiers);
    JoinedSnoc(t, [b.key]);
    JoinedStarts(t);
    TrimLast(Joined(t) + "+", b.key);
    TokenFormOfTrailingPlus(cs, b.modifiers);
  }

  lemma TokenFormOfTrailingPlus(cs: Casing, ms: set<Modifier>)
    requires cs.Sane() && Tokens(ms) != []
    ensures TokenForm(cs, Joined(Tokens(ms)) + "+") == (ms, "+")
  {
    var t := Tokens(ms);
    TokensArePlain(ms);
    SplitJoined(t);
    NonEmptyOfPlain(t);
    TokensRoundTrip(cs, ms);
    var s := Joined(t) + "+";
    assert s[..|s| - 1] == Joined(t) && s[|s| - 1] == '+';
  }

  lemma TrimLone(c: char)
    requires IsBlank(c)
    ensures Trim([c], IsBlank) == ""
  {
    assert [c][1..] == "";
  }

  lemma TrimLast(s: string, c: char)
    requires s != "" && !IsBlank(s[0]) && !IsBlank(s[|s| - 1]) && IsBlank(c)
    ensures Trim(s + [c], IsBlank) == s
  {
    var all := s + [c];
    assert TrimLeft(all, IsBlank) == all;
    assert all[..|all| - 1] == s;
    assert TrimRight(s, IsBlank) == s;
  }

  /** The shortcut text round trip: what is written to the settings reads back as the same binding,
      for every modifier set, exactly unless the key is one of the nine display glyphs or a blank
      without a name. */
  lemma SerializedRoundTrip(cs: Casing, b: KeyBinding)
    requires cs.Sane() && Stored(cs, b)
    ensures Parsed(cs, Serialized(b)) == Some(b) <==>
              !IsKeyGlyph(b.key) && (!IsBlank(b.key) || IsNamedCharacter(b.key))
  {
    if IsBlank(b.key) && !IsNamedCharacter(b.key) {
      BlankIsLost(cs, b);
    } else {
      SerializedRoundTripsUnlessBlank(cs, b);
    }
  }

  // ----- round trip of the displayed form

  lemma GlyphParses(cs: Casing, c: char)
    requires cs.Sane() && IsModifierGlyph(c)
    ensures ParseToken(cs, [c]) == Some(GlyphModifier(c))
  {
    assert Caseless(c);
    assert cs.Lowered([c])[0] == c;
    assert cs.Lowered([c]) == [c];
  }

  function GlyphModifier(c: char): Modifier
    requires IsModifierGlyph(c)
  {
    if c == CONTROL_GLYPH then Control else if c == ALT_GLYPH then Alt else if c == SHIFT_GLYPH then Shift else Command
  }

  predicate AllGlyphs(s: string) {
    forall k :: 0 <= k < |s| ==> IsModifierGlyph(s[k])
  }

  function GlyphSet(glyphs: string): set<Modifier>
    requires AllGlyphs(glyphs)
  {
    if glyphs == "" then {} else {GlyphModifier(glyphs[0])} + GlyphSet(glyphs[1..])
  }

  lemma {:induction false} GlyphSetAppend(a: string, b: string)
    requires AllGlyphs(a) && AllGlyphs(b)
    ensures AllGlyphs(a + b) && GlyphSet(a + b) == GlyphSet(a) + GlyphSet(b)
    decreases |a|
  {
    if a == "" {
      assert a + b == b;
    } else {
      assert (a + b)[1..] == a[1..] + b;
      GlyphSetAppend(a[1..], b);
    }
  }

  lemma GlyphSetIf(cond: bool, c: char)
    requires IsModifierGlyph(c)
    ensures AllGlyphs(If(cond, c)) && GlyphSet(If(cond, c)) == if cond then {GlyphModifier(c)} else {}
  {
    if cond { assert [c][1..] == ""; }
  }

  lemma GlyphsDenote(ms: set<Modifier>)
    ensures AllGlyphs(Glyphs(ms)) && GlyphSet(Glyphs(ms)) == ms
  {
    var a, b := If(Control in ms, CONTROL_GLYPH), If(Alt in ms, ALT_GLYPH);
    var c, d := If(Shift in ms, SHIFT_GLYPH), If(Command in ms, COMMAND_GLYPH);
    GlyphSetIf(Control in ms, CONTROL_GLYPH);
    GlyphSetIf(Alt in ms, ALT_GLYPH);
    GlyphSetIf(Shift in ms, SHIFT_GLYPH);
    GlyphSetIf(Command in ms, COMMAND_GLYPH);
    GlyphSetAppend(a, b);
    GlyphSetAppend(a + b, c);
    GlyphSetAppend(a + b + c, d);
    UnionOfParts(ms);
  }

  /** Stripping takes off exactly the leading modifier glyphs. */
  lemma {:induction false} StripsGlyphs(cs: Casing, ms: set<Modifier>, glyphs: string, k: char)
    requires cs.Sane() && AllGlyphs(glyphs)
    ensures StripGlyphs(cs, ms, glyphs + [k]) == (ms + GlyphSet(glyphs), [k])
    decreases |glyphs|
  {
    var s := glyphs + [k];
    if glyphs == "" {
      assert s == [k];
      assert ms + {} == ms;
    } else {
      var m := GlyphModifier(glyphs[0]);
      GlyphParses(cs, glyphs[0]);
      assert s[..1] == [glyphs[0]] && s[1..] == glyphs[1..] + [k];
      StripsGlyphs(cs, ms + {m}, glyphs[1..], k);
      assert ms + {m} + GlyphSet(glyphs[1..]) == ms + GlyphSet(glyphs);
    }
  }

  /** Glyph text is not token form, except that one glyph before `+` reads as one token: the result is
      the same either way. */
  lemma DisplayStrips(cs: Casing, g: string, k: char)
    requires cs.Sane() && AllGlyphs(g)
    ensures var (a, rest) := TokenForm(cs, g + [k]); StripGlyphs(cs, a, rest) == (GlyphSet(g), [k])
  {
    StripsGlyphs(cs, {}, g, k);
    assert {} + GlyphSet(g) == GlyphSet(g);
    if g != "" && k == '+' {
      PlusDisplayTokens(cs, g);
      if |g| == 1 {
        LoneGlyphToken(cs, g);
      } else {
        LongTokenFails(cs, g);
        assert ParseAll(cs, [g]) == None;
      }
    } else {
      assert g == "" || '+' !in g + [k];
    }
  }

  lemma LoneGlyphToken(cs: Casing, g: string)
    requires cs.Sane() && AllGlyphs(g) && |g| == 1
    ensures ParseAll(cs, [g]) == Some(GlyphSet(g))
  {
    GlyphParses(cs, g[0]);
    assert g == [g[0]] && g[1..] == "";
    ParseAllIf(cs, true, g, GlyphModifier(g[0]));
    assert {GlyphModifier(g[0])} + {} == {GlyphModifier(g[0])};
  }

  lemma PlusDisplayTokens(cs: Casing, g: string)
    requires g != "" && AllGlyphs(g)
    ensures TokenForm(cs, g + "+") == match ParseAll(cs, [g]) case Some(ms) => (ms, "+") case None => ({}, g + "+")
  {
    var s := g + "+";
    assert s[..|s| - 1] == g && s[|s| - 1] == '+';
    assert NoPlus(g);
    SplitWhole(g);
    assert NonEmpty([g]) == [g] by { assert [g][1..] == []; }
  }

  lemma LongTokenFails(cs: Casing, g: string)
    requires cs.Sane() && |g| > 1 && AllGlyphs(g)
    ensures ParseToken(cs, g).None?
  {
    assert Caseless(g[0]) && cs.Lowered(g)[0] == g[0];
  }

  /** What the parser makes of modifier glyphs followed by one character. */
  lemma GlyphTextParses(cs: Casing, input: string, g: string, k: char)
    requires cs.Sane() && AllGlyphs(g) && Trim(input, IsBlank) == g + [k]
    ensures Parsed(cs, input) == KeyPart(cs, GlyphSet(g), [k])
  {
    DisplayStrips(cs, g, k);
  }

  lemma DisplayParses(cs: Casing, ms: set<Modifier>, k: char)
    requires cs.Sane() && !IsBlank(k)
    ensures Parsed(cs, Glyphs(ms) + [k]) == KeyPart(cs, ms, [k])
  {
    var g := Glyphs(ms);
    GlyphsDenote(ms);
    assert g != "" ==> IsModifierGlyph(g[0]);
    TrimIdentity(g + [k], IsBlank);
    GlyphTextParses(cs, g + [k], g, k);
  }

  /** The order in which modifiers are shown. */
  function Rank(c: char): nat {
    if c == CONTROL_GLYPH then 0 else if c == ALT_GLYPH then 1 else if c == SHIFT_GLYPH then 2 else 3
  }

  ghost predicate Ascending(g: string) {
    forall i, j :: 0 <= i < j < |g| ==> Rank(g[i]) < Rank(g[j])
  }

  lemma GlyphsAscend(ms: set<Modifier>)
    ensures Ascending(Glyphs(ms))
  {
  }

  lemma {:induction false} NotInGlyphSet(g: string, m: Modifier)
    requires AllGlyphs(g) && forall k :: 0 <= k < |g| ==> GlyphModifier(g[k]) != m
    ensures m !in GlyphSet(g)
    decreases |g|
  {
    if g != "" {
      assert forall k :: 0 <= k < |g| - 1 ==> g[1..][k] == g[k + 1];
      NotInGlyphSet(g[1..], m);
    }
  }

  /** No modifier is shown twice, so without its last glyph the text denotes fewer. */
  lemma LastGlyphCounts(g: string, front: string, c: char)
    requires AllGlyphs(g) && Ascending(g) && g == front + [c]
    ensures AllGlyphs(front) && GlyphSet(front) != GlyphSet(g)
  {
    var m := GlyphModifier(c);
    assert g[|front|] == c;
    forall k | 0 <= k < |front| ensures IsModifierGlyph(front[k]) && GlyphModifier(front[k]) != m {
      assert front[k] == g[k] && Rank(g[k]) < Rank(g[|front|]);
    }
    NotInGlyphSet(front, m);
    GlyphSetAppend(front, [c]);
    assert [c][1..] == "" && m in GlyphSet([c]);
  }

  /** Glyphs alone: the last one is taken for the key. */
  lemma GlyphsAlone(cs: Casing, input: string, front: string, c: char)
    requires cs.Sane() && AllGlyphs(front) && IsModifierGlyph(c) && Trim(input, IsBlank) == front + [c]
    ensures Parsed(cs, input) == Some(KeyBinding(cs.lower(c), GlyphSet(front)))
  {
    GlyphTextParses(cs, input, front, c);
    KeyPartOfCharacter(cs, GlyphSet(front), c);
  }

  lemma GlyphsLoseOne(cs: Casing, b: KeyBinding, input: string, g: string)
    requires cs.Sane() && g != "" && AllGlyphs(g) && Ascending(g) && GlyphSet(g) == b.modifiers
    requires Trim(input, IsBlank) == g
    ensures Parsed(cs, input) != Some(b)
  {
    var front, c := g[..|g| - 1], g[|g| - 1];
    assert g == front + [c];
    LastGlyphCounts(g, front, c);
    GlyphsAlone(cs, input, front, c);
  }

  /** A blank capital is trimmed away, and a modifier with it. */
  lemma BlankCapitalIsLost(cs: Casing, b: KeyBinding, g: string, k: char)
    requires cs.Sane() && IsBlank(k) && AllGlyphs(g) && Ascending(g) && GlyphSet(g) == b.modifiers
    ensures Parsed(cs, g + [k]) != Some(b)
  {
    if g == "" {
      TrimLone(k);
      assert g + [k] == [k];
    } else {
      assert IsModifierGlyph(g[0]) && IsModifierGlyph(g[|g| - 1]);
      TrimLast(g, k);
      GlyphsLoseOne(cs, b, g + [k], g);
    }
  }

  /** The displayed form of a named key reads back. So does that of any other key whose capital is one
      character, if and only if the capital lowercases back to the key and is neither a display glyph
      nor blank. */
  lemma DisplayRoundTrip(cs: Casing, b: KeyBinding)
    requires cs.Sane() && Stored(cs, b) && (!IsNamedCharacter(b.key) ==> |cs.upper(b.key)| == 1)
    ensures Parsed(cs, Display(cs, b)) == Some(b) <==>
              IsNamedCharacter(b.key) ||
              (var k := cs.upper(b.key)[0]; cs.lower(k) == b.key && !IsKeyGlyph(k) && !IsBlank(k))
  {
    NamedKeyOf(b.key);
    if IsNamedCharacter(b.key) {
      NamedGlyphReads(cs, b, NamedFor(b.key, 0).value);
    } else {
      var k := cs.upper(b.key)[0];
      assert cs.upper(b.key) == [k];
      assert Display(cs, b) == Glyphs(b.modifiers) + [k];
      CapitalReads(cs, b, k);
    }
  }

  lemma NamedGlyphReads(cs: Casing, b: KeyBinding, n: NamedKey)
    requires cs.Sane() && n in NAMED_KEYS && n.character == b.key
    ensures Parsed(cs, Glyphs(b.modifiers) + [n.glyph]) == Some(b)
  {
    NamedKeyShape(n);
    DisplayParses(cs, b.modifiers, n.glyph);
    KeyPartOfGlyph(cs, b.modifiers, n);
  }

  lemma CapitalReads(cs: Casing, b: KeyBinding, k: char)
    requires cs.Sane() && !IsNamedCharacter(b.key)
    ensures Parsed(cs, Glyphs(b.modifiers) + [k]) == Some(b) <==>
              cs.lower(k) == b.key && !IsKeyGlyph(k) && !IsBlank(k)
  {
    if IsBlank(k) {
      GlyphsDenote(b.modifiers);
      GlyphsAscend(b.modifiers);
      BlankCapitalIsLost(cs, b, Glyphs(b.modifiers), k);
    } else {
      DisplayParses(cs, b.modifiers, k);
      if IsKeyGlyph(k) {
        var n := GlyphOwner(k);
        NamedKeyShape(n);
        KeyPartOfGlyph(cs, b.modifiers, n);
      } else {
        KeyPartOfCharacter(cs, b.modifiers, k);
      }
    }
  }
}
