/** Greedy subsequence matching for the palette, and the ranges it highlights. */
module FuzzyMatch {
  import opened Highlight
  import opened HighlightedText

  // ----- subsequences

  /** `m` lists, in order, positions of `hay` that spell `needle`. */
  ghost predicate Embeds(needle: seq<Grapheme>, hay: seq<Grapheme>, m: seq<nat>) {
    && |m| == |needle|
    && (forall i :: 0 <= i < |m| ==> m[i] < |hay| && hay[m[i]] == needle[i])
    && (forall i, j :: 0 <= i < j < |m| ==> m[i] < m[j])
  }

  ghost predicate IsSubsequence(needle: seq<Grapheme>, hay: seq<Grapheme>) {
    exists m :: Embeds(needle, hay, m)
  }

  /** No embedding has any position earlier than `m` has it. */
  ghost predicate Earliest(needle: seq<Grapheme>, hay: seq<Grapheme>, m: seq<nat>) {
    Embeds(needle, hay, m) && forall other, i :: Embeds(needle, hay, other) && 0 <= i < |m| ==> m[i] <= other[i]
  }

  lemma EmbedsPrefix(needle: seq<Grapheme>, hay: seq<Grapheme>, m: seq<nat>, k: nat)
    requires Embeds(needle, hay, m) && k <= |needle|
    ensures Embeds(needle[..k], hay, m[..k])
  {
  }

  /** The next needle character cannot be found before `cursor` by any embedding. */
  lemma NextIsLater(needle: seq<Grapheme>, hay: seq<Grapheme>, m: seq<nat>, k: nat, cursor: nat, other: seq<nat>)
    requires k < |needle| && Earliest(needle[..k], hay, m)
    requires cursor == if k == 0 then 0 else m[k - 1] + 1
    requires |other| > k && Embeds(needle[..k + 1], hay, other[..k + 1])
    ensures cursor <= other[k]
  {
    EmbedsPrefix(needle[..k + 1], hay, other[..k + 1], k);
    assert needle[..k + 1][..k] == needle[..k] && other[..k + 1][..k] == other[..k];
    if k > 0 {
      assert m[k - 1] <= other[..k][k - 1];
      assert other[..k + 1][k - 1] < other[..k + 1][k];
    }
  }

  /** The greedy scan: it fails exactly when there is no embedding, and finds the pointwise earliest one. */
  method Greedy(needle: seq<Grapheme>, lowered: seq<Grapheme>) returns (found: bool, matched: seq<nat>)
    ensures found <==> IsSubsequence(needle, lowered)
    ensures found ==> Earliest(needle, lowered, matched)
  {
    matched := [];
    var cursor := 0;
    for k := 0 to |needle|
      invariant Earliest(needle[..k], lowered, matched)
      invariant cursor == (if k == 0 then 0 else matched[k - 1] + 1) && cursor <= |lowered|
    {
      var wanted := needle[k];
      var from := cursor;
      while cursor < |lowered| && lowered[cursor] != wanted
        invariant from <= cursor <= |lowered|
        invariant forall j :: from <= j < cursor ==> lowered[j] != wanted
      {
        cursor := cursor + 1;
      }
      if cursor == |lowered| {
        NoEmbedding(needle, lowered, matched, k, from);
        return false, [];
      }
      GreedyExtends(needle, lowered, matched, k, from, cursor);
      matched := matched + [cursor];
      cursor := cursor + 1;
    }
    assert needle[..|needle|] == needle;
    return true, matched;
  }

  lemma NoEmbedding(needle: seq<Grapheme>, hay: seq<Grapheme>, m: seq<nat>, k: nat, from: nat)
    requires k < |needle| && Earliest(needle[..k], hay, m)
    requires from == if k == 0 then 0 else m[k - 1] + 1
    requires forall j :: from <= j < |hay| ==> hay[j] != needle[k]
    ensures !IsSubsequence(needle, hay)
  {
    forall other ensures !Embeds(needle, hay, other) {
      if Embeds(needle, hay, other) {
        EmbedsPrefix(needle, hay, other, k + 1);
        NextIsLater(needle, hay, m, k, from, other);
        assert false;
      }
    }
  }

  lemma GreedyExtends(needle: seq<Grapheme>, hay: seq<Grapheme>, m: seq<nat>, k: nat, from: nat, at: nat)
    requires k < |needle| && Earliest(needle[..k], hay, m)
    requires from == if k == 0 then 0 else m[k - 1] + 1
    requires from <= at < |hay| && hay[at] == needle[k]
    requires forall j :: from <= j < at ==> hay[j] != needle[k]
    ensures Earliest(needle[..k + 1], hay, m + [at])
  {
    var m' := m + [at];
    assert needle[..k + 1] == needle[..k] + [needle[k]];
    forall i | 0 <= i < k ensures m[i] < at { if i < k - 1 { assert m[i] < m[k - 1]; } }
    EmbedsNext(needle[..k], hay, m, at);
    forall other, i | Embeds(needle[..k + 1], hay, other) && 0 <= i < |m'| ensures m'[i] <= other[i] {
      assert other[..k + 1] == other;
      NextIsLater(needle, hay, m, k, from, other);
      EmbedsPrefix(needle[..k + 1], hay, other, k);
      assert needle[..k + 1][..k] == needle[..k];
      if i < k { assert m[i] <= other[..k][i]; }
    }
  }

  // ----- runs of matched positions

  function RangeOf(text: seq<Grapheme>, span: Span): HighlightRange
    requires span.lower <= span.upper <= |text|
  {
    HighlightRange(Offset(text, span.lower), Offset(text, span.upper) - Offset(text, span.lower))
  }

  /** A range cut at boundaries highlights exactly the graphemes between them. */
  lemma AlignedRangeHits(text: seq<Grapheme>, span: Span, g: nat)
    requires span.lower < span.upper <= |text| && g < |text|
    ensures Hits(text, RangeOf(text, span), g) <==> span.lower <= g < span.upper
  {
    OffsetsIncrease(text, 0, span.lower);
    OffsetsIncrease(text, span.lower, span.upper);
    OffsetsIncrease(text, span.upper, |text|);
    if span.lower <= g { OffsetsIncrease(text, span.lower, g); OffsetsIncrease(text, span.lower, g + 1); }
    if g < span.lower { OffsetsIncrease(text, g + 1, span.lower); }
    if g < span.upper { OffsetsIncrease(text, g, span.upper); }
    if span.upper <= g { OffsetsIncrease(text, span.upper, g); }
  }

  /** Spans that hold exactly the listed positions. */
  ghost predicate Groups(spans: seq<Span>, matched: seq<nat>, n: nat) {
    Separated(spans) && InRange(spans, n) && forall g: nat :: Covers(spans, g) <==> g in matched
  }

  /** The grouping loop: consecutive positions share a run. */
  method Runs(matched: seq<nat>, n: nat) returns (spans: seq<Span>)
    requires matched != [] && (forall i, j :: 0 <= i < j < |matched| ==> matched[i] < matched[j])
    requires forall i :: 0 <= i < |matched| ==> matched[i] < n
    ensures Groups(spans, matched, n)
  {
    spans := [];
    var runStart, previous := matched[0], matched[0];
    assert matched[..1] == [matched[0]];
    SingleRun(matched[0], n);
    for k := 1 to |matched|
      invariant runStart <= previous == matched[k - 1]
      invariant Groups(spans + [Span(runStart, previous + 1)], matched[..k], n)
    {
      var index := matched[k];
      assert matched[..k + 1] == matched[..k] + [index];
      ghost var open := Span(runStart, previous + 1);
      if index == previous + 1 {
        GrowRun(spans, open, matched[..k], index, n);
      } else {
        StartRun(spans + [open], matched[..k], index, n);
        spans := spans + [Span(runStart, previous + 1)];
        runStart := index;
      }
      previous := index;
    }
    assert matched[..|matched|] == matched;
    spans := spans + [Span(runStart, previous + 1)];
  }

  lemma SingleRun(x: nat, n: nat)
    requires x < n
    ensures Groups([] + [Span(x, x + 1)], [x], n)
  {
    forall g: nat ensures Covers([] + [Span(x, x + 1)], g) <==> g in [x] { CoversSnoc([], Span(x, x + 1), g); }
  }

  lemma GrowRun(spans: seq<Span>, open: Span, matched: seq<nat>, x: nat, n: nat)
    requires Groups(spans + [open], matched, n) && x == open.upper < n
    ensures Groups(spans + [Span(open.lower, x + 1)], matched + [x], n)
  {
    var grown := Span(open.lower, x + 1);
    var before, after := spans + [open], spans + [grown];
    forall k | 0 <= k < |spans| ensures after[k] == before[k] {}
    assert before[|spans|] == open && after[|spans|] == grown;
    forall g: nat ensures Covers(after, g) <==> g in matched + [x] {
      CoversSnoc(spans, open, g);
      CoversSnoc(spans, grown, g);
    }
  }

  lemma StartRun(spans: seq<Span>, matched: seq<nat>, x: nat, n: nat)
    requires Groups(spans, matched, n) && spans != [] && spans[|spans| - 1].upper < x < n
    ensures Groups(spans + [Span(x, x + 1)], matched + [x], n)
  {
    var after := spans + [Span(x, x + 1)];
    forall i, j | 0 <= i < j < |after| ensures after[i].upper < after[j].lower {
      if i < |spans| - 1 { assert spans[i].upper < spans[|spans| - 1].lower; }
    }
    forall g: nat ensures Covers(after, g) <==> g in matched + [x] { CoversSnoc(spans, Span(x, x + 1), g); }
  }

  // ----- the whole match

  function Ranges(text: seq<Grapheme>, spans: seq<Span>): (r: seq<HighlightRange>)
    requires InRange(spans, |text|)
    ensures |r| == |spans| && forall k :: 0 <= k < |r| ==> r[k] == RangeOf(text, spans[k])
  {
    seq(|spans|, k requires 0 <= k < |spans| => RangeOf(text, spans[k]))
  }

  lemma RangesHitMatched(text: seq<Grapheme>, spans: seq<Span>, matched: seq<nat>, g: nat)
    requires Groups(spans, matched, |text|) && g < |text|
    ensures AnyHits(text, Ranges(text, spans), g) <==> g in matched
  {
    var ranges := Ranges(text, spans);
    if AnyHits(text, ranges, g) {
      var k :| 0 <= k < |ranges| && Hits(text, ranges[k], g);
      AlignedRangeHits(text, spans[k], g);
    }
    if Covers(spans, g) {
      var k :| 0 <= k < |spans| && spans[k].lower <= g < spans[k].upper;
      AlignedRangeHits(text, spans[k], g);
      assert Hits(text, ranges[k], g);
    }
  }

  /** Ranges come in order with unmatched text between them. */
  ghost predicate Apart(ranges: seq<HighlightRange>) {
    forall i, j :: 0 <= i < j < |ranges| ==> ranges[i].start + ranges[i].len < ranges[j].start
  }

  lemma RangesApart(text: seq<Grapheme>, spans: seq<Span>)
    requires Separated(spans) && InRange(spans, |text|)
    ensures Apart(Ranges(text, spans))
  {
    forall i, j | 0 <= i < j < |spans| ensures Offset(text, spans[i].upper) < Offset(text, spans[j].lower) {
      OffsetsIncrease(text, spans[i].upper, spans[j].lower);
    }
  }

  /** The needle: lowercased, with whitespace filtered out. */
  function Needle(lower: seq<Grapheme> -> seq<Grapheme>, blank: Grapheme -> bool, query: seq<Grapheme>): seq<Grapheme> {
    Visible(lower(query), blank)
  }

  function Visible(s: seq<Grapheme>, blank: Grapheme -> bool): seq<Grapheme> {
    if s == [] then []
    else
      var front := Visible(s[..|s| - 1], blank);
      if blank(s[|s| - 1]) then front else front + [s[|s| - 1]]
  }

  /** The needle is the lowered query without its blanks: its characters stand there in this order, at the
      positions that are not blank and at no others. */
  lemma NeedleSpells(lower: seq<Grapheme> -> seq<Grapheme>, blank: Grapheme -> bool, query: seq<Grapheme>)
    returns (at: seq<nat>)
    ensures Embeds(Needle(lower, blank, query), lower(query), at)
    ensures forall k :: 0 <= k < |lower(query)| ==> (k in at <==> !blank(lower(query)[k]))
  {
    at := VisibleAt(lower(query), blank);
  }

  lemma {:induction false} VisibleAt(s: seq<Grapheme>, blank: Grapheme -> bool) returns (at: seq<nat>)
    ensures Embeds(Visible(s, blank), s, at)
    ensures forall k :: 0 <= k < |s| ==> (k in at <==> !blank(s[k]))
    decreases |s|
  {
    at := [];
    if s != [] {
      var n := |s| - 1;
      var front := VisibleAt(s[..n], blank);
      assert forall k :: 0 <= k < n ==> s[..n][k] == s[k];
      EmbedsInLonger(Visible(s[..n], blank), s, front);
      if blank(s[n]) {
        at := front;
        assert n !in front;
      } else {
        at := front + [n];
        EmbedsNext(Visible(s[..n], blank), s, front, n);
      }
    }
  }

  lemma EmbedsInLonger(needle: seq<Grapheme>, hay: seq<Grapheme>, m: seq<nat>)
    requires hay != [] && Embeds(needle, hay[..|hay| - 1], m)
    ensures Embeds(needle, hay, m) && forall i :: 0 <= i < |m| ==> m[i] < |hay| - 1
  {
  }

  lemma EmbedsNext(needle: seq<Grapheme>, hay: seq<Grapheme>, m: seq<nat>, at: nat)
    requires at < |hay| && Embeds(needle, hay, m) && forall i :: 0 <= i < |m| ==> m[i] < at
    ensures Embeds(needle + [hay[at]], hay, m + [at])
  {
  }

  /** `subsequence`, without its score. Casing, the whitespace test and the fallback's substring test are
      parameters. When lowercasing keeps the character count, the answer is whether the needle is a
      subsequence, and the ranges highlight exactly the earliest embedding. */
  method Subsequence(lower: seq<Grapheme> -> seq<Grapheme>, blank: Grapheme -> bool,
                     contains: (seq<Grapheme>, seq<Grapheme>) -> bool, query: seq<Grapheme>, text: seq<Grapheme>)
    returns (hit: bool, ranges: seq<HighlightRange>)
    ensures var needle := Needle(lower, blank, query);
            needle == [] ==> hit && ranges == []
    ensures var needle := Needle(lower, blank, query);
            needle != [] && |lower(text)| != |text| ==> hit == contains(text, query) && ranges == []
    ensures var needle := Needle(lower, blank, query);
            needle != [] && |lower(text)| == |text| ==>
              && (hit <==> IsSubsequence(needle, lower(text)))
              && (hit ==> Highlights(needle, lower(text), text, ranges))
  {
    var needle := Needle(lower, blank, query);
    if needle == [] { return true, []; }
    var lowered := lower(text);
    if |lowered| != |text| { return contains(text, query), []; }
    var found, matched := Greedy(needle, lowered);
    if !found { return false, []; }
    var spans := Runs(matched, |text|);
    ranges := Ranges(text, spans);
    RangesApart(text, spans);
    forall g | 0 <= g < |text| ensures AnyHits(text, ranges, g) <==> g in matched {
      RangesHitMatched(text, spans, matched, g);
    }
    assert HighlightsVia(needle, lowered, text, ranges, matched);
    return true, ranges;
  }

  ghost predicate HighlightsVia(needle: seq<Grapheme>, lowered: seq<Grapheme>, text: seq<Grapheme>,
                                ranges: seq<HighlightRange>, m: seq<nat>) {
    Earliest(needle, lowered, m) && forall g :: 0 <= g < |text| ==> (AnyHits(text, ranges, g) <==> g in m)
  }

  /** The ranges are apart and highlight exactly the characters of the pointwise earliest embedding. */
  ghost predicate Highlights(needle: seq<Grapheme>, lowered: seq<Grapheme>, text: seq<Grapheme>,
                             ranges: seq<HighlightRange>) {
    Apart(ranges) && exists m :: HighlightsVia(needle, lowered, text, ranges, m)
  }

  // ----- end to end

  /** The positions of a flag sequence that are set, in order. */
  function SetPositions(flags: seq<bool>): seq<nat> {
    if flags == [] then []
    else
      var n := |flags| - 1;
      if flags[n] then SetPositions(flags[..n]) + [n] else SetPositions(flags[..n])
  }

  /** Drawing a match: the characters drawn as matched are exactly those of the earliest embedding,
      so read in order they spell the needle. */
  lemma DrawnCharactersSpellNeedle(needle: seq<Grapheme>, lowered: seq<Grapheme>, text: seq<Grapheme>,
                                   ranges: seq<HighlightRange>, segments: seq<Segment>)
    requires |lowered| == |text| && Highlights(needle, lowered, text, ranges)
    requires IsSegmentation(text, ranges, segments)
    ensures Earliest(needle, lowered, SetPositions(Marks(segments)))
  {
    var m :| HighlightsVia(needle, lowered, text, ranges, m);
    PositionsAreUnique(Marks(segments), m);
  }

  lemma {:induction false} PositionsAreUnique(flags: seq<bool>, m: seq<nat>)
    requires forall i, j :: 0 <= i < j < |m| ==> m[i] < m[j]
    requires forall i :: 0 <= i < |m| ==> m[i] < |flags|
    requires forall g :: 0 <= g < |flags| ==> (flags[g] <==> g in m)
    ensures SetPositions(flags) == m
    decreases |flags|
  {
    if flags != [] {
      var n := |flags| - 1;
      if flags[n] {
        LastIsTop(flags, m);
        PositionsAreUnique(flags[..n], m[..|m| - 1]);
        assert m == m[..|m| - 1] + [n];
      } else {
        PositionsAreUnique(flags[..n], m);
      }
    }
  }

  /** If the topmost flag is set, its position comes last; the others are those of the rest. */
  lemma LastIsTop(flags: seq<bool>, m: seq<nat>)
    requires flags != [] && flags[|flags| - 1]
    requires forall i, j :: 0 <= i < j < |m| ==> m[i] < m[j]
    requires forall i :: 0 <= i < |m| ==> m[i] < |flags|
    requires forall g :: 0 <= g < |flags| ==> (flags[g] <==> g in m)
    ensures m != [] && m[|m| - 1] == |flags| - 1
    ensures forall k :: 0 <= k < |m| - 1 ==> m[k] < |flags| - 1
    ensures forall g :: 0 <= g < |flags| - 1 ==> (g in m <==> g in m[..|m| - 1])
  {
    var n := |flags| - 1;
    var i :| 0 <= i < |m| && m[i] == n;
    var last := |m| - 1;
    assert m[last] < |flags|;
    assert i == last;
    forall g | 0 <= g < n ensures g in m <==> g in m[..last] { assert m == m[..last] + [m[last]]; }
  }
}
