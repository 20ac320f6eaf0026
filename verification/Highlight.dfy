/** Character-boundary geometry: UTF-16 ranges applied to a string of graphemes. */
module Highlight {
  import opened Basics

  /** A user-perceived character: at least one UTF-16 unit. */
  type Grapheme = g: string | |g| > 0 witness "x"

  datatype HighlightRange = HighlightRange(start: int, len: int)

  /** A span of boundaries: graphemes `lower` up to but excluding `upper`. */
  datatype Span = Span(lower: nat, upper: nat)

  // ----- the offset table

  /** UTF-16 offset of boundary `b`. */
  function Offset(text: seq<Grapheme>, b: nat): nat
    requires b <= |text|
  {
    if b == 0 then 0 else Offset(text, b - 1) + |text[b - 1]|
  }

  function Utf16Count(text: seq<Grapheme>): nat {
    Offset(text, |text|)
  }

  lemma {:induction false} OffsetsIncrease(text: seq<Grapheme>, a: nat, b: nat)
    requires a <= b <= |text|
    ensures Offset(text, a) <= Offset(text, b)
    ensures a < b ==> Offset(text, a) < Offset(text, b)
    decreases b - a
  {
    if a < b { OffsetsIncrease(text, a, b - 1); }
  }

  ghost predicate Tabulates(offsets: seq<nat>, text: seq<Grapheme>) {
    |offsets| == |text| + 1 && forall b :: 0 <= b <= |text| ==> offsets[b] == Offset(text, b)
  }

  /** `HighlightGeometry.init`. */
  method BoundaryTable(text: seq<Grapheme>) returns (offsets: seq<nat>)
    ensures Tabulates(offsets, text)
  {
    offsets := [0];
    var offset := 0;
    for i := 0 to |text|
      invariant |offsets| == i + 1 && offset == Offset(text, i)
      invariant forall b :: 0 <= b <= i ==> offsets[b] == Offset(text, b)
    {
      offset := offset + |text[i]|;
      assert offset == Offset(text, i + 1);
      offsets := offsets + [offset];
    }
  }

  function Clamp(x: int, hi: nat): nat {
    Min(Max(x, 0), hi)
  }

  /** `boundary(forUTF16:rounding:)`: rounding up gives the first boundary at or after the offset,
      rounding down the last one at or before it. */
  method Boundary(offsets: seq<nat>, text: seq<Grapheme>, offset: int, up: bool) returns (b: nat)
    requires Tabulates(offsets, text)
    ensures b <= |text|
    ensures up ==> Clamp(offset, Utf16Count(text)) <= Offset(text, b) &&
                   forall a :: 0 <= a < b ==> Offset(text, a) < Clamp(offset, Utf16Count(text))
    ensures !up ==> Offset(text, b) <= Clamp(offset, Utf16Count(text)) &&
                    forall a :: b < a <= |text| ==> Clamp(offset, Utf16Count(text)) < Offset(text, a)
  {
    var clamped := Clamp(offset, offsets[|offsets| - 1]);
    var low, high := 0, |offsets| - 1;
    while low < high
      invariant 0 <= low <= high <= |text|
      invariant forall a :: 0 <= a < low ==> Offset(text, a) < clamped
      invariant clamped <= Offset(text, high)
    {
      var mid := (low + high) / 2;
      if offsets[mid] < clamped {
        forall a | 0 <= a <= mid ensures Offset(text, a) < clamped { OffsetsIncrease(text, a, mid); }
        low := mid + 1;
      } else {
        high := mid;
      }
    }
    forall a | low < a <= |text| ensures clamped < Offset(text, a) { OffsetsIncrease(text, low, a); }
    if offsets[low] == clamped { return low; }
    return if up then low else Max(0, low - 1);
  }

  // ----- what a range highlights

  function ClampedStart(text: seq<Grapheme>, r: HighlightRange): nat {
    Clamp(r.start, Utf16Count(text))
  }

  function ClampedEnd(text: seq<Grapheme>, r: HighlightRange): nat {
    Min(ClampedStart(text, r) + Max(r.len, 0), Utf16Count(text))
  }

  /** The clamped range overlaps the UTF-16 extent of grapheme `g`. */
  predicate Hits(text: seq<Grapheme>, r: HighlightRange, g: nat)
    requires g < |text|
  {
    ClampedStart(text, r) < ClampedEnd(text, r) &&
    ClampedStart(text, r) < Offset(text, g + 1) && Offset(text, g) < ClampedEnd(text, r)
  }

  /** Said without clamping: the grapheme has a unit in the range, counted from the range's start, or from
      the beginning of the text if the range starts before it. So a range that starts before the text is
      moved, not cut. */
  lemma HitsIffSharesUnit(text: seq<Grapheme>, r: HighlightRange, g: nat)
    requires g < |text|
    ensures Hits(text, r, g) <==>
              exists u: int :: Offset(text, g) <= u < Offset(text, g + 1) && InUnits(r, u)
  {
    OffsetsIncrease(text, g, g + 1);
    OffsetsIncrease(text, g + 1, |text|);
    if Hits(text, r, g) {
      var u := Max(ClampedStart(text, r), Offset(text, g));
      assert InUnits(r, u);
    }
  }

  predicate InUnits(r: HighlightRange, u: int) {
    Max(r.start, 0) <= u < Max(r.start, 0) + r.len
  }

  ghost predicate AnyHits(text: seq<Grapheme>, ranges: seq<HighlightRange>, g: nat)
    requires g < |text|
  {
    exists k :: 0 <= k < |ranges| && Hits(text, ranges[k], g)
  }

  ghost predicate Covers(spans: seq<Span>, g: nat) {
    exists k :: 0 <= k < |spans| && spans[k].lower <= g < spans[k].upper
  }

  ghost predicate InRange(spans: seq<Span>, n: nat) {
    forall k :: 0 <= k < |spans| ==> spans[k].lower < spans[k].upper <= n
  }

  /** Sorted, non-empty and strictly apart. */
  ghost predicate Separated(spans: seq<Span>) {
    && (forall k :: 0 <= k < |spans| ==> spans[k].lower < spans[k].upper)
    && (forall i, j :: 0 <= i < j < |spans| ==> spans[i].upper < spans[j].lower)
  }

  /** The snapped boundaries of a range cover exactly the graphemes it overlaps. */
  lemma SnapIsExact(text: seq<Grapheme>, start: nat, end: nat, lower: nat, upper: nat, g: nat)
    requires g < |text| && start < end <= Utf16Count(text) && lower <= |text| && upper <= |text|
    requires Offset(text, lower) <= start && forall a :: lower < a <= |text| ==> start < Offset(text, a)
    requires end <= Offset(text, upper) && forall a :: 0 <= a < upper ==> Offset(text, a) < end
    ensures lower <= g < upper <==> start < Offset(text, g + 1) && Offset(text, g) < end
    ensures lower < upper
  {
    if g < lower { OffsetsIncrease(text, g + 1, lower); }
    if upper <= g { OffsetsIncrease(text, upper, g); }
    if upper <= lower { OffsetsIncrease(text, upper, lower); }
  }

  // ----- sorting

  ghost predicate SortedByLower(spans: seq<Span>) {
    forall i, j :: 0 <= i < j < |spans| ==> spans[i].lower <= spans[j].lower
  }

  method InsertByLower(sorted: seq<Span>, x: Span) returns (r: seq<Span>)
    requires SortedByLower(sorted)
    ensures SortedByLower(r) && multiset(r) == multiset(sorted) + multiset{x}
  {
    var i := |sorted|;
    while i > 0 && x.lower < sorted[i - 1].lower
      invariant 0 <= i <= |sorted|
      invariant forall j :: i <= j < |sorted| ==> x.lower < sorted[j].lower
    {
      i := i - 1;
    }
    InsertedInOrder(sorted, i, x);
    InsertedOnce(sorted, i, x);
    r := sorted[..i] + [x] + sorted[i..];
  }

  lemma InsertedInOrder(sorted: seq<Span>, i: nat, x: Span)
    requires SortedByLower(sorted) && i <= |sorted|
    requires i > 0 ==> sorted[i - 1].lower <= x.lower
    requires forall j :: i <= j < |sorted| ==> x.lower < sorted[j].lower
    ensures SortedByLower(sorted[..i] + [x] + sorted[i..])
  {
    var r := sorted[..i] + [x] + sorted[i..];
    assert forall k :: 0 <= k < i ==> r[k] == sorted[k];
    assert r[i] == x;
    assert forall k :: i < k < |r| ==> r[k] == sorted[k - 1];
    forall k, m | 0 <= k < m < |r| ensures r[k].lower <= r[m].lower {
      if m == i {
        assert k == i - 1 || sorted[k].lower <= sorted[i - 1].lower;
      } else if k != i {
        var k', m' := if k < i then k else k - 1, if m < i then m else m - 1;
        assert k' == m' || sorted[k'].lower <= sorted[m'].lower;
      }
    }
  }

  lemma InsertedOnce(sorted: seq<Span>, i: nat, x: Span)
    requires i <= |sorted|
    ensures multiset(sorted[..i] + [x] + sorted[i..]) == multiset(sorted) + multiset{x}
  {
    assert sorted == sorted[..i] + sorted[i..];
  }

  method SortByLower(spans: seq<Span>) returns (r: seq<Span>)
    ensures SortedByLower(r) && multiset(r) == multiset(spans)
  {
    r := [];
    for k := 0 to |spans|
      invariant SortedByLower(r) && multiset(r) == multiset(spans[..k])
    {
      assert spans[..k + 1] == spans[..k] + [spans[k]];
      r := InsertByLower(r, spans[k]);
    }
    assert spans[..|spans|] == spans;
  }

  lemma SameElements<T>(a: seq<T>, b: seq<T>, x: T)
    requires multiset(a) == multiset(b)
    ensures x in a <==> x in b
  {
    assert x in a <==> x in multiset(a);
    assert x in b <==> x in multiset(b);
  }

  lemma CoverageIgnoresOrder(a: seq<Span>, b: seq<Span>, g: nat)
    requires multiset(a) == multiset(b) && Covers(a, g)
    ensures Covers(b, g)
  {
    var k :| 0 <= k < |a| && a[k].lower <= g < a[k].upper;
    SameElements(a, b, a[k]);
    var j :| 0 <= j < |b| && b[j] == a[k];
  }

  // ----- merging

  lemma CoversSnoc(spans: seq<Span>, x: Span, g: nat)
    ensures Covers(spans + [x], g) <==> Covers(spans, g) || x.lower <= g < x.upper
  {
    var all := spans + [x];
    if Covers(spans, g) {
      var k :| 0 <= k < |spans| && spans[k].lower <= g < spans[k].upper;
      assert all[k] == spans[k];
    }
    if x.lower <= g < x.upper { assert all[|spans|] == x; }
    if Covers(all, g) {
      var k :| 0 <= k < |all| && all[k].lower <= g < all[k].upper;
      if k < |spans| { assert spans[k].lower <= g < spans[k].upper; }
    }
  }

  /** The last span grows over a neighbour it touches. */
  lemma JoinLast(merged: seq<Span>, span: Span, n: nat) returns (r: seq<Span>)
    requires Separated(merged) && InRange(merged, n) && merged != [] && span.lower < span.upper <= n
    requires merged[|merged| - 1].lower <= span.lower <= merged[|merged| - 1].upper
    ensures var last := merged[|merged| - 1];
            r == merged[..|merged| - 1] + [Span(last.lower, Max(last.upper, span.upper))]
    ensures Separated(r) && InRange(r, n)
    ensures forall g: nat :: Covers(r, g) <==> Covers(merged, g) || span.lower <= g < span.upper
  {
    var front, last := merged[..|merged| - 1], merged[|merged| - 1];
    var joined := Span(last.lower, Max(last.upper, span.upper));
    r := front + [joined];
    assert merged == front + [last];
    forall g: nat ensures Covers(r, g) <==> Covers(merged, g) || span.lower <= g < span.upper {
      CoversSnoc(front, joined, g);
      CoversSnoc(front, last, g);
    }
  }

  /** A span past the last one starts a new entry. */
  lemma StartNext(merged: seq<Span>, span: Span, n: nat)
    requires Separated(merged) && InRange(merged, n) && span.lower < span.upper <= n
    requires merged != [] ==> merged[|merged| - 1].upper < span.lower
    ensures Separated(merged + [span]) && InRange(merged + [span], n)
    ensures forall g: nat :: Covers(merged + [span], g) <==> Covers(merged, g) || span.lower <= g < span.upper
  {
    forall g: nat ensures Covers(merged + [span], g) <==> Covers(merged, g) || span.lower <= g < span.upper {
      CoversSnoc(merged, span, g);
    }
  }

  lemma CoversUpTo(sorted: seq<Span>, k: nat)
    requires k < |sorted|
    ensures forall g: nat :: Covers(sorted[..k + 1], g) <==>
                               Covers(sorted[..k], g) || sorted[k].lower <= g < sorted[k].upper
  {
    assert sorted[..k + 1] == sorted[..k] + [sorted[k]];
    forall g: nat ensures Covers(sorted[..k + 1], g) <==>
                            Covers(sorted[..k], g) || sorted[k].lower <= g < sorted[k].upper
    {
      CoversSnoc(sorted[..k], sorted[k], g);
    }
  }

  /** The merge loop of `spans(for:)`. */
  method Merge(sorted: seq<Span>, n: nat) returns (merged: seq<Span>)
    requires SortedByLower(sorted) && InRange(sorted, n)
    ensures Separated(merged) && InRange(merged, n)
    ensures forall g: nat :: Covers(merged, g) <==> Covers(sorted, g)
  {
    merged := [];
    for k := 0 to |sorted|
      invariant Separated(merged) && InRange(merged, n)
      invariant merged != [] ==> k > 0 && merged[|merged| - 1].lower <= sorted[k - 1].lower
      invariant forall g: nat :: Covers(merged, g) <==> Covers(sorted[..k], g)
    {
      var span := sorted[k];
      CoversUpTo(sorted, k);
      if merged != [] && span.lower <= merged[|merged| - 1].upper {
        var last := merged[|merged| - 1];
        ghost var joined := JoinLast(merged, span, n);
        merged := merged[..|merged| - 1] + [Span(last.lower, Max(last.upper, span.upper))];
        assert merged == joined;
      } else {
        StartNext(merged, span, n);
        merged := merged + [span];
      }
    }
    assert sorted[..|sorted|] == sorted;
  }

  // ----- `spans(for:)`

  /** The meaning of a highlight: separated spans that cover exactly the graphemes some range overlaps. */
  ghost predicate IsHighlight(text: seq<Grapheme>, ranges: seq<HighlightRange>, spans: seq<Span>) {
    && Separated(spans) && InRange(spans, |text|)
    && forall g :: 0 <= g < |text| ==> (Covers(spans, g) <==> AnyHits(text, ranges, g))
  }

  method Spans(text: seq<Grapheme>, ranges: seq<HighlightRange>) returns (spans: seq<Span>)
    ensures IsHighlight(text, ranges, spans)
  {
    var offsets := BoundaryTable(text);
    var snapped := Snap(text, offsets, ranges);
    var sorted := SortByLower(snapped);
    forall k | 0 <= k < |sorted| ensures sorted[k].lower < sorted[k].upper <= |text| {
      SameElements(snapped, sorted, sorted[k]);
    }
    spans := Merge(sorted, |text|);
    forall g | 0 <= g < |text| ensures Covers(spans, g) <==> AnyHits(text, ranges, g) {
      if Covers(sorted, g) { CoverageIgnoresOrder(sorted, snapped, g); }
      if Covers(snapped, g) { CoverageIgnoresOrder(snapped, sorted, g); }
    }
  }

  /** The clamp-and-snap loop. */
  method Snap(text: seq<Grapheme>, offsets: seq<nat>, ranges: seq<HighlightRange>) returns (spans: seq<Span>)
    requires Tabulates(offsets, text)
    ensures InRange(spans, |text|)
    ensures forall g :: 0 <= g < |text| ==> (Covers(spans, g) <==> AnyHits(text, ranges, g))
  {
    spans := [];
    var total := offsets[|offsets| - 1];
    for k := 0 to |ranges|
      invariant InRange(spans, |text|)
      invariant forall g :: 0 <= g < |text| ==> (Covers(spans, g) <==> AnyHits(text, ranges[..k], g))
    {
      var range := ranges[k];
      var start := Clamp(range.start, total);
      var end := Min(start + Max(range.len, 0), total);
      ghost var before := spans;
      if end > start {
        var lower := Boundary(offsets, text, start, false);
        var upper := Boundary(offsets, text, end, true);
        if upper > lower {
          spans := spans + [Span(lower, upper)];
        }
        forall g | 0 <= g < |text| ensures Covers(spans, g) <==> Covers(before, g) || Hits(text, range, g) {
          SnapIsExact(text, start, end, lower, upper, g);
          CoversSnoc(before, Span(lower, upper), g);
        }
      }
      forall g | 0 <= g < |text|
        ensures AnyHits(text, ranges[..k + 1], g) <==> AnyHits(text, ranges[..k], g) || Hits(text, range, g)
      {
        HitsSnoc(text, ranges, k, g);
      }
    }
    assert ranges[..|ranges|] == ranges;
  }

  lemma HitsSnoc(text: seq<Grapheme>, ranges: seq<HighlightRange>, k: nat, g: nat)
    requires k < |ranges| && g < |text|
    ensures AnyHits(text, ranges[..k + 1], g) <==> AnyHits(text, ranges[..k], g) || Hits(text, ranges[k], g)
  {
    if AnyHits(text, ranges[..k], g) {
      var j :| 0 <= j < k && Hits(text, ranges[..k][j], g);
      assert ranges[..k + 1][j] == ranges[..k][j];
    }
    if Hits(text, ranges[k], g) { assert ranges[..k + 1][k] == ranges[k]; }
    if AnyHits(text, ranges[..k + 1], g) {
      var j :| 0 <= j <= k && Hits(text, ranges[..k + 1][j], g);
      if j < k { assert ranges[..k][j] == ranges[..k + 1][j]; }
    }
  }

  // ----- a highlight is determined by what it covers

  lemma CoversTail(a: seq<Span>, g: nat)
    requires a != [] && Separated(a)
    ensures Covers(a[1..], g) <==> Covers(a, g) && a[0].upper <= g
  {
    if Covers(a[1..], g) {
      var k :| 0 <= k < |a[1..]| && a[1..][k].lower <= g < a[1..][k].upper;
      assert a[k + 1] == a[1..][k];
    }
    if Covers(a, g) && a[0].upper <= g {
      var k :| 0 <= k < |a| && a[k].lower <= g < a[k].upper;
      assert a[1..][k - 1] == a[k];
    }
  }

  lemma FirstUpperIsFree(a: seq<Span>)
    requires a != [] && Separated(a)
    ensures !Covers(a, a[0].upper)
  {
  }

  lemma FirstSpanCovers(a: seq<Span>, g: nat)
    requires a != [] && a[0].lower <= g < a[0].upper
    ensures Covers(a, g)
  {
  }

  lemma FirstSpanBefore(a: seq<Span>, b: seq<Span>)
    requires a != [] && Separated(a) && Separated(b)
    requires forall g: nat :: Covers(a, g) <==> Covers(b, g)
    ensures b != [] && b[0].lower <= a[0].lower && b[0].upper <= a[0].upper
  {
    FirstSpanCovers(a, a[0].lower);
    var k :| 0 <= k < |b| && b[k].lower <= a[0].lower < b[k].upper;
    assert b[0].lower <= b[k].lower;
    FirstUpperIsFree(a);
    assert !Covers(b, a[0].upper);
    assert !(b[0].lower <= a[0].upper < b[0].upper);
  }

  lemma TailsAgree(a: seq<Span>, b: seq<Span>)
    requires Separated(a) && Separated(b) && a != [] && b != [] && a[0] == b[0]
    requires forall g: nat :: Covers(a, g) <==> Covers(b, g)
    ensures Separated(a[1..]) && Separated(b[1..])
    ensures forall g: nat :: Covers(a[1..], g) <==> Covers(b[1..], g)
  {
    forall g: nat ensures Covers(a[1..], g) <==> Covers(b[1..], g) {
      CoversTail(a, g);
      CoversTail(b, g);
    }
  }

  lemma {:induction false} CoverageDeterminesSpans(a: seq<Span>, b: seq<Span>)
    requires Separated(a) && Separated(b)
    requires forall g: nat :: Covers(a, g) <==> Covers(b, g)
    ensures a == b
    decreases |a|
  {
    if b != [] { FirstSpanBefore(b, a); }
    if a != [] {
      FirstSpanBefore(a, b);
      TailsAgree(a, b);
      CoverageDeterminesSpans(a[1..], b[1..]);
      assert a == [a[0]] + a[1..] && b == [b[0]] + b[1..];
    }
  }

  /** The result depends on the ranges only as a set: not on their order, nor on repetition. */
  lemma HighlightIgnoresOrder(text: seq<Grapheme>, p: seq<HighlightRange>, q: seq<HighlightRange>, a: seq<Span>,
                              b: seq<Span>)
    requires forall r :: r in p <==> r in q
    requires IsHighlight(text, p, a) && IsHighlight(text, q, b)
    ensures a == b
  {
    forall g: nat ensures Covers(a, g) <==> Covers(b, g) {
      if g < |text| {
        AnyHitsSubset(text, p, q, g);
        AnyHitsSubset(text, q, p, g);
      }
    }
    CoverageDeterminesSpans(a, b);
  }

  lemma AnyHitsSubset(text: seq<Grapheme>, p: seq<HighlightRange>, q: seq<HighlightRange>, g: nat)
    requires g < |text| && forall r :: r in p ==> r in q
    ensures AnyHits(text, p, g) ==> AnyHits(text, q, g)
  {
    if AnyHits(text, p, g) {
      var k :| 0 <= k < |p| && Hits(text, p[k], g);
      assert p[k] in q;
      var j :| 0 <= j < |q| && q[j] == p[k];
    }
  }
}
