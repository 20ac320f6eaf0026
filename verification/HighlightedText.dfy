/** Splitting a string into alternating plain and matched runs. */
module HighlightedText {
  import opened Highlight

  datatype Segment = Segment(text: seq<Grapheme>, isMatch: bool, start: nat, length: nat)

  /** The helper on the geometry: the segment between two boundaries. */
  function SegmentOf(text: seq<Grapheme>, lower: nat, upper: nat, isMatch: bool): Segment
    requires lower <= upper <= |text|
  {
    OffsetsIncrease(text, lower, upper);
    Segment(text[lower..upper], isMatch, Offset(text, lower), Offset(text, upper) - Offset(text, lower))
  }

  /** The segments re-assembled. */
  function Assembled(segments: seq<Segment>): seq<Grapheme> {
    if segments == [] then [] else Assembled(segments[..|segments| - 1]) + segments[|segments| - 1].text
  }

  /** One flag per grapheme: whether it is drawn as a match. */
  function Marks(segments: seq<Segment>): seq<bool> {
    if segments == [] then []
    else
      var last := segments[|segments| - 1];
      Marks(segments[..|segments| - 1]) + seq(|last.text|, _ => last.isMatch)
  }

  /** Each segment starts where the previous one ends; together they reach `end` from zero. */
  ghost predicate Tiles(segments: seq<Segment>, end: nat) {
    if segments == [] then end == 0
    else
      var last := segments[|segments| - 1];
      last.start + last.length == end && Tiles(segments[..|segments| - 1], last.start)
  }

  ghost predicate Alternates(segments: seq<Segment>) {
    forall k :: 0 < k < |segments| ==> segments[k - 1].isMatch != segments[k].isMatch
  }

  /** The loop's progress: everything before boundary `cursor` is split, and marked as `spans` say. */
  ghost predicate SplitUpto(text: seq<Grapheme>, spans: seq<Span>, segments: seq<Segment>, cursor: nat) {
    && cursor <= |text|
    && Assembled(segments) == text[..cursor]
    && |Marks(segments)| == cursor
    && (forall g :: 0 <= g < cursor ==> (Marks(segments)[g] <==> Covers(spans, g)))
    && Tiles(segments, Offset(text, cursor))
    && Alternates(segments)
  }

  lemma SplitExtends(text: seq<Grapheme>, spans: seq<Span>, segments: seq<Segment>, cursor: nat, to: nat, isMatch: bool)
    requires SplitUpto(text, spans, segments, cursor) && cursor <= to <= |text|
    requires segments != [] ==> segments[|segments| - 1].isMatch != isMatch
    requires forall g :: cursor <= g < to ==> (isMatch <==> Covers(spans, g))
    ensures SplitUpto(text, spans, segments + [SegmentOf(text, cursor, to, isMatch)], to)
  {
    var s := SegmentOf(text, cursor, to, isMatch);
    var all := segments + [s];
    assert all[..|segments|] == segments;
    assert text[..cursor] + text[cursor..to] == text[..to];
    assert Marks(all) == Marks(segments) + seq(to - cursor, _ => isMatch);
    OffsetsIncrease(text, cursor, to);
  }

  /** What the segmentation promises, for any ranges at all. */
  ghost predicate IsSegmentation(text: seq<Grapheme>, ranges: seq<HighlightRange>, segments: seq<Segment>) {
    && Assembled(segments) == text
    && Tiles(segments, Utf16Count(text))
    && Alternates(segments)
    && |Marks(segments)| == |text|
    && forall g :: 0 <= g < |text| ==> (Marks(segments)[g] <==> AnyHits(text, ranges, g))
  }

  /** `segments(of:ranges:)`. */
  method Segments(text: seq<Grapheme>, ranges: seq<HighlightRange>) returns (segments: seq<Segment>)
    ensures IsSegmentation(text, ranges, segments)
  {
    var spans := Spans(text, ranges);
    if spans == [] {
      segments := [Segment(text, false, 0, Utf16Count(text))];
      WholeIsPlain(text);
    } else {
      segments := Walk(text, spans);
      assert text[..|text|] == text;
    }
  }

  /** The walk over non-empty, separated spans. */
  method Walk(text: seq<Grapheme>, spans: seq<Span>) returns (segments: seq<Segment>)
    requires Separated(spans) && InRange(spans, |text|) && spans != []
    ensures SplitUpto(text, spans, segments, |text|)
  {
    segments := [];
    var cursor: nat := 0;
    for k := 0 to |spans|
      invariant SplitUpto(text, spans, segments, cursor)
      invariant k == 0 ==> segments == [] && cursor == 0
      invariant k > 0 ==> cursor == spans[k - 1].upper && segments != [] && segments[|segments| - 1].isMatch
    {
      GapIsPlain(spans, k, cursor);
      segments := AddRun(text, spans, spans[k], segments, cursor);
      cursor := spans[k].upper;
    }
    RestIsPlain(spans);
    if cursor < |text| {
      SplitExtends(text, spans, segments, cursor, |text|, false);
      segments := segments + [SegmentOf(text, cursor, |text|, false)];
    }
  }

  /** One turn of the walk: the plain text before a span, if any, then the span. */
  method AddRun(text: seq<Grapheme>, ghost spans: seq<Span>, span: Span, before: seq<Segment>, cursor: nat)
    returns (segments: seq<Segment>)
    requires SplitUpto(text, spans, before, cursor)
    requires cursor <= span.lower < span.upper <= |text|
    requires before == [] || (before[|before| - 1].isMatch && cursor < span.lower)
    requires forall g :: cursor <= g < span.lower ==> !Covers(spans, g)
    requires forall g :: span.lower <= g < span.upper ==> Covers(spans, g)
    ensures SplitUpto(text, spans, segments, span.upper)
    ensures segments != [] && segments[|segments| - 1].isMatch
  {
    segments := before;
    if span.lower > cursor {
      SplitExtends(text, spans, segments, cursor, span.lower, false);
      segments := segments + [SegmentOf(text, cursor, span.lower, false)];
    }
    SplitExtends(text, spans, segments, span.lower, span.upper, true);
    segments := segments + [SegmentOf(text, span.lower, span.upper, true)];
  }

  lemma WholeIsPlain(text: seq<Grapheme>)
    ensures var all := [Segment(text, false, 0, Utf16Count(text))];
            && Assembled(all) == text && Tiles(all, Utf16Count(text))
            && Marks(all) == seq(|text|, _ => false)
  {
    var all := [Segment(text, false, 0, Utf16Count(text))];
    assert all[..0] == [];
  }

  /** Between the end of one span and the start of the next nothing is covered; inside, everything is. */
  lemma GapIsPlain(spans: seq<Span>, k: nat, cursor: nat)
    requires Separated(spans) && k < |spans|
    requires cursor == if k == 0 then 0 else spans[k - 1].upper
    ensures cursor <= spans[k].lower && (k > 0 ==> cursor < spans[k].lower)
    ensures forall g :: cursor <= g < spans[k].lower ==> !Covers(spans, g)
    ensures forall g :: spans[k].lower <= g < spans[k].upper ==> Covers(spans, g)
  {
    forall g | cursor <= g < spans[k].lower ensures !Covers(spans, g) {
      forall j | 0 <= j < |spans| ensures !(spans[j].lower <= g < spans[j].upper) {
        if j < k - 1 { assert spans[j].upper < spans[k - 1].lower; }
        if j > k { assert spans[k].upper < spans[j].lower; }
      }
    }
  }

  lemma RestIsPlain(spans: seq<Span>)
    requires Separated(spans) && spans != []
    ensures forall g :: spans[|spans| - 1].upper <= g ==> !Covers(spans, g)
  {
    var last := |spans| - 1;
    forall g | spans[last].upper <= g ensures !Covers(spans, g) {
      forall j | 0 <= j < |spans| ensures !(spans[j].lower <= g < spans[j].upper) {
        if j < last { assert spans[j].upper < spans[last].lower; }
      }
    }
  }
}
