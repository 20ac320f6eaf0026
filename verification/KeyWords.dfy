/** The vocabulary of shortcut texts, as tables, and what the parser makes of texts written with it. */
module KeyWords {
  import opened Basics
  import opened KeyBinding

  // ----- the tables

  /** The words and the glyph for each modifier. */
  function Words(m: Modifier): seq<string> {
    match m
    case Control => ["ctrl", "control", "⌃"]
    case Alt => ["opt", "option", "alt", "⌥"]
    case Shift => ["shift", "⇧"]
    case Command => ["cmd", "command", "meta", "⌘"]
  }

  /** The keys that are written as words. */
  const KEY_WORDS: seq<(string, char)> := [
    ("left", '\U{F702}'), ("right", '\U{F703}'), ("up", '\U{F700}'), ("down", '\U{F701}'),
    ("return", '\U{0D}'), ("enter", '\U{0D}'), ("escape", '\U{1B}'), ("esc", '\U{1B}'),
    ("tab", '\U{09}'), ("space", '\U{20}'), ("delete", '\U{7F}'), ("plus", '\U{2B}'), ("minus", '\U{2D}')]

  /** The keys that are drawn as glyphs. */
  const KEY_GLYPHS: seq<(char, char)> := [
    ('←', '\U{F702}'), ('→', '\U{F703}'), ('↑', '\U{F700}'), ('↓', '\U{F701}'), ('⏎', '\U{0D}'),
    ('⎋', '\U{1B}'), ('⇥', '\U{09}'), ('␣', '\U{20}'), ('⌫', '\U{7F}')]

  /** The word, in any case, stands for the modifier. */
  predicate IsModifierWord(cs: Casing, w: string, m: Modifier) {
    cs.Lowered(w) in Words(m)
  }

  /** The text stands for the key: a word in any case, a glyph, or any other single character. */
  predicate IsKeyText(cs: Casing, w: string, c: char) {
    || (cs.Lowered(w), c) in KEY_WORDS
    || (|w| == 1 && (w[0], c) in KEY_GLYPHS)
    || (|w| == 1 && !IsKeyGlyph(w[0]) && !IsBlank(w[0]) && c == cs.lower(w[0]))
  }

  // ----- modifier words

  lemma CommandWords(cs: Casing, w: string)
    requires IsModifierWord(cs, w, Command)
    ensures ParseToken(cs, w) == Some(Command)
  {
  }

  lemma ShiftWords(cs: Casing, w: string)
    requires IsModifierWord(cs, w, Shift)
    ensures ParseToken(cs, w) == Some(Shift)
  {
  }

  lemma AltWords(cs: Casing, w: string)
    requires IsModifierWord(cs, w, Alt)
    ensures ParseToken(cs, w) == Some(Alt)
  {
  }

  lemma ControlWords(cs: Casing, w: string)
    requires IsModifierWord(cs, w, Control)
    ensures ParseToken(cs, w) == Some(Control)
  {
  }

  /** A token is a modifier exactly if it is one of the modifier's words. */
  lemma TokenMeans(cs: Casing, w: string, m: Modifier)
    ensures ParseToken(cs, w) == Some(m) <==> IsModifierWord(cs, w, m)
  {
    if IsModifierWord(cs, w, m) {
      match m
      case Command => CommandWords(cs, w);
      case Shift => ShiftWords(cs, w);
      case Alt => AltWords(cs, w);
      case Control => ControlWords(cs, w);
    }
  }

  predicate IsWordCharacter(c: char) {
    IsSmallLetter(c) || IsModifierGlyph(c)
  }

  lemma WordCharacters(t: string, m: Modifier)
    requires t in Words(m)
    ensures t != "" && forall k :: 0 <= k < |t| ==> IsWordCharacter(t[k])
  {
  }

  /** A word has no `+` in it and no blank, in whatever case it is written. */
  lemma WordIsPlain(cs: Casing, w: string, m: Modifier)
    requires cs.Sane() && IsModifierWord(cs, w, m)
    ensures w != "" && NoPlus(w) && !IsBlank(w[0])
  {
    var t := cs.Lowered(w);
    WordCharacters(t, m);
    forall k | 0 <= k < |w| ensures w[k] != '+' && !IsBlank(w[k]) {
      assert IsWordCharacter(t[k]) && t[k] == cs.lower(w[k]);
      assert Caseless(w[k]) ==> t[k] == w[k];
    }
  }

  predicate AreModifierWords(cs: Casing, words: seq<string>, mods: seq<Modifier>) {
    |words| == |mods| && forall k :: 0 <= k < |words| ==> IsModifierWord(cs, words[k], mods[k])
  }

  function SetOf(mods: seq<Modifier>): set<Modifier> {
    set m | m in mods
  }

  lemma {:induction false} WordsParseAll(cs: Casing, words: seq<string>, mods: seq<Modifier>)
    requires AreModifierWords(cs, words, mods)
    ensures ParseAll(cs, words) == Some(SetOf(mods))
    decreases |words|
  {
    if words == [] {
      assert SetOf(mods) == {};
    } else {
      TokenMeans(cs, words[0], mods[0]);
      WordsParseAll(cs, words[1..], mods[1..]);
      SetOfHead(mods);
    }
  }

  lemma SetOfHead(mods: seq<Modifier>)
    requires mods != []
    ensures SetOf(mods) == {mods[0]} + SetOf(mods[1..])
  {
    assert mods == [mods[0]] + mods[1..];
  }

  lemma WordsArePlain(cs: Casing, words: seq<string>, mods: seq<Modifier>)
    requires cs.Sane() && AreModifierWords(cs, words, mods)
    ensures Plain(words) && forall k :: 0 <= k < |words| ==> !IsBlank(words[k][0])
  {
    forall k | 0 <= k < |words| ensures words[k] != "" && NoPlus(words[k]) && !IsBlank(words[k][0]) {
      WordIsPlain(cs, words[k], mods[k]);
    }
  }

  // ----- key texts

  lemma KeyWordCharacters(t: string, c: char)
    requires (t, c) in KEY_WORDS
    ensures |t| > 1 && forall k :: 0 <= k < |t| ==> IsSmallLetter(t[k])
    ensures IsNamedCharacter(c) || c == '+' || c == '-'
  {
    var k :| 0 <= k < |KEY_WORDS| && KEY_WORDS[k] == (t, c);
  }

  /** The names in the parser's own table are those of the vocabulary, with the same characters. */
  lemma NamesAgree(n: NamedKey, t: string, c: char)
    requires n in NAMED_KEYS && n.name == t && (t, c) in KEY_WORDS
    ensures n.character == c
  {
    var i :| 0 <= i < |NAMED_KEYS| && NAMED_KEYS[i] == n;
    var j :| 0 <= j < |KEY_WORDS| && KEY_WORDS[j] == (t, c);
    assert n.name[0] == t[0] && n.name[1] == t[1];
  }

  lemma NameFound(t: string, c: char)
    requires (t, c) in KEY_WORDS
    ensures (exists n :: n in NAMED_KEYS && n.name == t) ||
            (t == "plus" && c == '+') || (t == "minus" && c == '-') ||
            (t == "esc" && c == '\U{1B}') || (t == "enter" && c == '\r')
  {
    var j :| 0 <= j < |KEY_WORDS| && KEY_WORDS[j] == (t, c);
    var n := if j < 4 then NAMED_KEYS[j] else if j == 4 then NAMED_KEYS[4] else if j == 6 then NAMED_KEYS[5]
             else if 8 <= j <= 10 then NAMED_KEYS[j - 2] else NAMED_KEYS[0];
    assert n in NAMED_KEYS;
  }

  /** A key word, in any case, reads as its key. */
  lemma KeyWordReads(cs: Casing, ms: set<Modifier>, w: string, c: char)
    requires cs.Sane() && (cs.Lowered(w), c) in KEY_WORDS
    ensures KeyPart(cs, ms, w) == Some(KeyBinding(c, ms))
  {
    var t := cs.Lowered(w);
    KeyWordCharacters(t, c);
    NameFound(t, c);
    var named := NamedBy(t, w, 0);
    if named.Some? {
      NamesAgree(named.value, t, c);
      NamedKeyShape(named.value);
    } else {
      NoNameLeft(t, w);
    }
  }

  lemma NoNameLeft(t: string, w: string)
    requires NamedBy(t, w, 0).None?
    ensures forall n :: n in NAMED_KEYS ==> n.name != t
  {
    forall n | n in NAMED_KEYS ensures n.name != t {
      var k :| 0 <= k < |NAMED_KEYS| && NAMED_KEYS[k] == n;
    }
  }

  /** A display glyph reads as its key. */
  lemma KeyGlyphReads(cs: Casing, ms: set<Modifier>, g: char, c: char)
    requires cs.Sane() && (g, c) in KEY_GLYPHS
    ensures KeyPart(cs, ms, [g]) == Some(KeyBinding(c, ms))
  {
    var k :| 0 <= k < |KEY_GLYPHS| && KEY_GLYPHS[k] == (g, c);
    assert NAMED_KEYS[k].glyph == g && NAMED_KEYS[k].character == c && NAMED_KEYS[k] in NAMED_KEYS;
    KeyPartOfGlyph(cs, ms, NAMED_KEYS[k]);
  }

  lemma KeyTextReads(cs: Casing, ms: set<Modifier>, w: string, c: char)
    requires cs.Sane() && IsKeyText(cs, w, c)
    ensures KeyPart(cs, ms, w) == Some(KeyBinding(c, ms))
  {
    if (cs.Lowered(w), c) in KEY_WORDS {
      KeyWordReads(cs, ms, w, c);
    } else {
      assert w == [w[0]];
      if (w[0], c) in KEY_GLYPHS {
        KeyGlyphReads(cs, ms, w[0], c);
      } else {
        KeyPartOfCharacter(cs, ms, w[0]);
      }
    }
  }

  lemma GlyphTableShape(g: char, c: char)
    requires (g, c) in KEY_GLYPHS
    ensures IsKeyGlyph(g)
  {
    var k :| 0 <= k < |KEY_GLYPHS| && KEY_GLYPHS[k] == (g, c);
  }

  /** A key text begins and ends with something visible, and no modifier glyph comes off it. */
  lemma KeyTextIsSolid(cs: Casing, ms: set<Modifier>, w: string, c: char)
    requires cs.Sane() && IsKeyText(cs, w, c)
    ensures w != "" && !IsBlank(w[0]) && !IsBlank(w[|w| - 1])
    ensures StripGlyphs(cs, ms, w) == (ms, w)
    ensures w != "+" ==> NoPlus(w)
  {
    if (cs.Lowered(w), c) in KEY_WORDS {
      KeyWordIsSolid(cs, ms, w, c);
    } else if (w[0], c) in KEY_GLYPHS {
      GlyphTableShape(w[0], c);
    }
  }

  lemma KeyWordIsSolid(cs: Casing, ms: set<Modifier>, w: string, c: char)
    requires cs.Sane() && (cs.Lowered(w), c) in KEY_WORDS
    ensures |w| > 1 && NoPlus(w) && !IsBlank(w[0]) && !IsBlank(w[|w| - 1])
    ensures StripGlyphs(cs, ms, w) == (ms, w)
  {
    var t := cs.Lowered(w);
    KeyWordCharacters(t, c);
    forall k | 0 <= k < |w| ensures w[k] != '+' && !IsBlank(w[k]) {
      assert IsSmallLetter(t[k]) && t[k] == cs.lower(w[k]);
      assert Caseless(w[k]) ==> t[k] == w[k];
    }
    LetterIsNoModifier(cs, w[0]);
    assert w[..1] == [w[0]];
  }

  lemma LetterIsNoModifier(cs: Casing, c: char)
    requires IsSmallLetter(cs.lower(c))
    ensures ParseToken(cs, [c]).None?
  {
    assert cs.Lowered([c])[0] == cs.lower(c);
  }

  // ----- whole texts

  /** Every text of modifier words, any alias, any case, in any order and number, and a key, joined by `+`,
      reads as exactly the modifiers named and that key. */
  lemma WordsRead(cs: Casing, words: seq<string>, mods: seq<Modifier>, w: string, c: char)
    requires cs.Sane() && AreModifierWords(cs, words, mods) && IsKeyText(cs, w, c)
    ensures Parsed(cs, Joined(words + [w])) == Some(KeyBinding(c, SetOf(mods)))
  {
    var text := Joined(words + [w]);
    WordsArePlain(cs, words, mods);
    KeyTextIsSolid(cs, SetOf(mods), w, c);
    JoinedIsSolid(words, w);
    TrimIdentity(text, IsBlank);
    WordsTokenForm(cs, words, mods, w);
    KeyTextReads(cs, SetOf(mods), w, c);
  }

  lemma WordsTokenForm(cs: Casing, words: seq<string>, mods: seq<Modifier>, w: string)
    requires cs.Sane() && AreModifierWords(cs, words, mods) && w != "" && (w != "+" ==> NoPlus(w))
    ensures TokenForm(cs, Joined(words + [w])) == (SetOf(mods), w)
  {
    WordsArePlain(cs, words, mods);
    WordsParseAll(cs, words, mods);
    if words == [] {
      assert words + [w] == [w] && SetOf(mods) == {};
    } else if w == "+" {
      TokenFormOfPlusParts(cs, words, SetOf(mods));
    } else {
      TokenFormOfParts(cs, words, w, SetOf(mods));
    }
  }

  lemma TokenFormOfPlusParts(cs: Casing, t: seq<string>, ms: set<Modifier>)
    requires Plain(t) && t != [] && ParseAll(cs, t) == Some(ms)
    ensures TokenForm(cs, Joined(t + ["+"])) == (ms, "+")
  {
    JoinedSnoc(t, "+");
    JoinedEnds(t, "+");
    var s := Joined(t) + "+" + "+";
    assert s[..|s| - 1] == Joined(t) + "+";
    SplitJoined(t);
    NonEmptyOfPlain(t);
  }

  /** The drawn form: modifier glyphs in any order, then a key. */
  lemma GlyphsRead(cs: Casing, g: string, k: char, c: char)
    requires cs.Sane() && AllGlyphs(g) && IsKeyText(cs, [k], c)
    ensures Parsed(cs, g + [k]) == Some(KeyBinding(c, GlyphSet(g)))
  {
    KeyTextIsSolid(cs, GlyphSet(g), [k], c);
    assert g != "" ==> IsModifierGlyph(g[0]);
    TrimIdentity(g + [k], IsBlank);
    GlyphTextParses(cs, g + [k], g, k);
    KeyTextReads(cs, GlyphSet(g), [k], c);
  }

  /** The glyphs mean what the table says. */
  lemma GlyphMeans(g: char, m: Modifier)
    requires [g] in Words(m)
    ensures IsModifierGlyph(g) && GlyphModifier(g) == m
  {
    match m
    case Control => assert [g][0] == CONTROL_GLYPH;
    case Alt => assert [g][0] == ALT_GLYPH;
    case Shift => assert [g][0] == SHIFT_GLYPH;
    case Command => assert [g][0] == COMMAND_GLYPH;
  }

  // ----- texts that read as nothing

  predicate IsNoModifier(cs: Casing, w: string) {
    forall m :: !IsModifierWord(cs, w, m)
  }

  lemma {:induction false} OneBadWord(cs: Casing, words: seq<string>, k: nat)
    requires k < |words| && IsNoModifier(cs, words[k])
    ensures ParseAll(cs, words) == None
    decreases |words|
  {
    if k == 0 {
      if ParseToken(cs, words[0]).Some? { TokenMeans(cs, words[0], ParseToken(cs, words[0]).value); }
    } else {
      OneBadWord(cs, words[1..], k - 1);
    }
  }

  lemma PlusIsNoKey(cs: Casing, ms: set<Modifier>, s: string)
    requires cs.Sane() && |s| > 1 && '+' in s
    ensures KeyPart(cs, ms, s) == None
  {
    var name := cs.Lowered(s);
    var k :| 0 <= k < |s| && s[k] == '+';
    assert Caseless('+') && name[k] == '+';
    if NamedBy(name, s, 0).Some? {
      NamesAreWords(NamedBy(name, s, 0).value);
      assert false;
    }
  }

  lemma {:induction false} StripStopsAtPlus(cs: Casing, ms: set<Modifier>, s: string, k: nat)
    requires cs.Sane() && k + 1 < |s| && s[k] == '+'
    ensures var (_, rest) := StripGlyphs(cs, ms, s); |rest| > 1 && '+' in rest
    decreases |s|
  {
    if ParseToken(cs, s[..1]).Some? {
      if k == 0 {
        assert s[..1] == ['+'];
        NoModifier(cs, '+');
      } else {
        StripStopsAtPlus(cs, ms + {ParseToken(cs, s[..1]).value}, s[1..], k - 1);
      }
    }
  }

  /** One word that is no modifier spoils the whole text. */
  lemma UnknownWordFails(cs: Casing, words: seq<string>, k: nat, w: string)
    requires cs.Sane() && Plain(words) && k < |words| && IsNoModifier(cs, words[k])
    requires w != "" && NoPlus(w) && !IsBlank(w[|w| - 1]) && !IsBlank(words[0][0])
    ensures Parsed(cs, Joined(words + [w])) == None
  {
    var text := Joined(words + [w]);
    JoinedEnds(words, w);
    JoinedStarts(words + [w]);
    TrimIdentity(text, IsBlank);
    UnknownTokenForm(cs, words, k, w);
    JoinedSnoc(words, w);
    assert text[|Joined(words)|] == '+';
    StripStopsAtPlus(cs, {}, text, |Joined(words)|);
    var (ms, rest) := StripGlyphs(cs, {}, text);
    PlusIsNoKey(cs, ms, rest);
  }

  lemma UnknownTokenForm(cs: Casing, words: seq<string>, k: nat, w: string)
    requires Plain(words) && k < |words| && IsNoModifier(cs, words[k]) && w != "" && NoPlus(w)
    ensures TokenForm(cs, Joined(words + [w])) == ({}, Joined(words + [w]))
  {
    OneBadWord(cs, words, k);
    JoinedEnds(words, w);
    assert w[|w| - 1] in w;
    SplitJoined(words + [w]);
    NonEmptyOfPlain(words + [w]);
    assert (words + [w])[..|words|] == words;
  }

  /** A word that is neither a modifier glyph's beginning nor in the vocabulary is no key. */
  lemma UnknownKeyFails(cs: Casing, w: string)
    requires cs.Sane() && |w| > 1 && NoPlus(w) && !IsBlank(w[0]) && !IsBlank(w[|w| - 1])
    requires (forall c :: (cs.Lowered(w), c) !in KEY_WORDS) && IsNoModifier(cs, w[..1])
    ensures Parsed(cs, w) == None
  {
    TrimIdentity(w, IsBlank);
    if ParseToken(cs, w[..1]).Some? { TokenMeans(cs, w[..1], ParseToken(cs, w[..1]).value); }
    var named := NamedBy(cs.Lowered(w), w, 0);
    if named.Some? { NameInVocabulary(named.value); }
    Alternatives();
  }

  lemma NameInVocabulary(n: NamedKey)
    requires n in NAMED_KEYS
    ensures (n.name, n.character) in KEY_WORDS
  {
    var k :| 0 <= k < |NAMED_KEYS| && NAMED_KEYS[k] == n;
    var j := if k < 5 then k else if k == 5 then 6 else k + 2;
    assert KEY_WORDS[j] == (n.name, n.character);
  }

  lemma Alternatives()
    ensures ("plus", '+') in KEY_WORDS && ("minus", '-') in KEY_WORDS
    ensures ("esc", '\U{1B}') in KEY_WORDS && ("enter", '\r') in KEY_WORDS
  {
    assert KEY_WORDS[11] == ("plus", '+') && KEY_WORDS[12] == ("minus", '-');
    assert KEY_WORDS[7] == ("esc", '\U{1B}') && KEY_WORDS[5] == ("enter", '\r');
  }

  // ----- the printed forms use the vocabulary

  function Order(m: Modifier): nat {
    match m
    case Control => 0
    case Alt => 1
    case Shift => 2
    case Command => 3
  }

  function Glyph(m: Modifier): char {
    Words(m)[|Words(m)| - 1][0]
  }

  /** The words and the glyphs are those of the modifiers, which come in order and below the bound. */
  ghost predicate Prints(mods: seq<Modifier>, words: seq<string>, glyphs: string, bound: nat) {
    && |words| == |mods| == |glyphs|
    && (forall k :: 0 <= k < |mods| ==>
          Order(mods[k]) < bound && words[k] == Words(mods[k])[0] && glyphs[k] == Glyph(mods[k]))
    && (forall i, j :: 0 <= i < j < |mods| ==> Order(mods[i]) < Order(mods[j]))
  }

  lemma PrintsNext(mods: seq<Modifier>, words: seq<string>, glyphs: string,
                   m: Modifier, word: string, glyph: char, cond: bool)
    requires Prints(mods, words, glyphs, Order(m)) && word == Words(m)[0] && glyph == Glyph(m)
    ensures Prints(mods + If(cond, m), words + If(cond, word), glyphs + If(cond, glyph), Order(m) + 1)
  {
  }

  lemma CanonicalWords()
    ensures Words(Control)[0] == "ctrl" && Glyph(Control) == CONTROL_GLYPH
    ensures Words(Alt)[0] == "opt" && Glyph(Alt) == ALT_GLYPH
    ensures Words(Shift)[0] == "shift" && Glyph(Shift) == SHIFT_GLYPH
    ensures Words(Command)[0] == "cmd" && Glyph(Command) == COMMAND_GLYPH
  {
  }

  lemma SetOfIf(mods: seq<Modifier>, m: Modifier, cond: bool)
    ensures SetOf(mods + If(cond, m)) == SetOf(mods) + if cond then {m} else {}
  {
  }

  /** Both printed forms name the modifiers of the set, each once, in the order control, option, shift,
      command: the text by the first word of each, the drawing by its glyph. */
  lemma PrintedModifiers(ms: set<Modifier>) returns (mods: seq<Modifier>)
    ensures SetOf(mods) == ms && Prints(mods, Tokens(ms), Glyphs(ms), 4)
  {
    var m1, w1, g1 := If(Control in ms, Control), If(Control in ms, "ctrl"), If(Control in ms, CONTROL_GLYPH);
    var m2, w2, g2 := m1 + If(Alt in ms, Alt), w1 + If(Alt in ms, "opt"), g1 + If(Alt in ms, ALT_GLYPH);
    PrintsTwo(ms, m1, w1, g1, m2, w2, g2);
    var m3, w3, g3 := m2 + If(Shift in ms, Shift), w2 + If(Shift in ms, "shift"), g2 + If(Shift in ms, SHIFT_GLYPH);
    mods := m3 + If(Command in ms, Command);
    PrintsFour(m2, w2, g2, m3, w3, g3, Shift in ms, Command in ms);
    PrintedSet(ms, [], m1, m2, m3);
  }

  lemma PrintsFour(m2: seq<Modifier>, w2: seq<string>, g2: string, m3: seq<Modifier>, w3: seq<string>, g3: string,
                   shift: bool, command: bool)
    requires Prints(m2, w2, g2, 2)
    requires m3 == m2 + If(shift, Shift) && w3 == w2 + If(shift, "shift") && g3 == g2 + If(shift, SHIFT_GLYPH)
    ensures Prints(m3 + If(command, Command), w3 + If(command, "cmd"), g3 + If(command, COMMAND_GLYPH), 4)
  {
    CanonicalWords();
    PrintsNext(m2, w2, g2, Shift, "shift", SHIFT_GLYPH, shift);
    PrintsNext(m3, w3, g3, Command, "cmd", COMMAND_GLYPH, command);
  }

  lemma PrintsTwo(ms: set<Modifier>, m1: seq<Modifier>, w1: seq<string>, g1: string,
                  m2: seq<Modifier>, w2: seq<string>, g2: string)
    requires m1 == If(Control in ms, Control) && m2 == m1 + If(Alt in ms, Alt)
    requires w1 == If(Control in ms, "ctrl") && w2 == w1 + If(Alt in ms, "opt")
    requires g1 == If(Control in ms, CONTROL_GLYPH) && g2 == g1 + If(Alt in ms, ALT_GLYPH)
    ensures m1 == [] + If(Control in ms, Control) && Prints(m2, w2, g2, 2)
  {
    CanonicalWords();
    PrintsNext([], [], "", Control, "ctrl", CONTROL_GLYPH, Control in ms);
    assert [] + m1 == m1 && [] + w1 == w1 && "" + g1 == g1;
    PrintsNext(m1, w1, g1, Alt, "opt", ALT_GLYPH, Alt in ms);
  }

  lemma PrintedSet(ms: set<Modifier>, m0: seq<Modifier>, m1: seq<Modifier>, m2: seq<Modifier>, m3: seq<Modifier>)
    requires m0 == [] && m1 == m0 + If(Control in ms, Control) && m2 == m1 + If(Alt in ms, Alt)
    requires m3 == m2 + If(Shift in ms, Shift)
    ensures SetOf(m3 + If(Command in ms, Command)) == ms
  {
    SetOfIf(m0, Control, Control in ms);
    SetOfIf(m1, Alt, Alt in ms);
    SetOfIf(m2, Shift, Shift in ms);
    SetOfIf(m3, Command, Command in ms);
    UnionOfParts(ms);
  }
}
