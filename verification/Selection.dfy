/** What copying a selection yields, for every built map and every selection. */
module Selection {
  import opened Basics
  import opened Markdown
  import opened SourceMap

  // ----- coverage

  /** The part of `[r0, r1)` that is selected. */
  function Clip(r0: nat, r1: nat, sel: Range): seq<int> {
    Upto(Max(r0, sel.loc), Min(r1, sel.End()))
  }

  lemma ClipJoins(r0: nat, rm: nat, r1: nat, sel: Range)
    requires r0 <= rm <= r1
    ensures Clip(r0, rm, sel) + Clip(rm, r1, sel) == Clip(r0, r1, sel)
  {
  }

  /** Each selected character is copied once, in order, and nothing else is. */
  lemma {:induction false} NodeCoverage(n: Node, sel: Range, source: string, rendered: string,
                                        r0: nat, r1: nat, s0: nat, s1: nat)
    requires Within(n, |rendered|, |source|) && NodeTiles(n, r0, r1, s0, s1)
    ensures CopyOf(n, sel, source, rendered).positions == Clip(r0, r1, sel)
    decreases n, 1
  {
    if n.Wrapper? && Touches(n.rendered, sel) {
      NodesCoverage(n.children, sel, source, rendered, r0, r1, n.open.End(), n.close.loc);
    }
  }

  lemma {:induction false} NodesCoverage(ns: seq<Node>, sel: Range, source: string, rendered: string,
                                         r0: nat, r1: nat, s0: nat, s1: nat)
    requires AllWithin(ns, |rendered|, |source|) && NodesTile(ns, r0, r1, s0, s1)
    ensures CopyAll(ns, sel, source, rendered).positions == Clip(r0, r1, sel)
    decreases ns, 0
  {
    if ns != [] {
      var front, last := ns[..|ns| - 1], ns[|ns| - 1];
      var rm, sm := last.rendered.loc, last.SourceStart();
      NodesOrdered(front, r0, rm, s0, sm);
      NodeOrdered(last, rm, r1, sm, s1);
      NodesCoverage(front, sel, source, rendered, r0, rm, s0, sm);
      NodeCoverage(last, sel, source, rendered, rm, r1, sm, s1);
      ClipJoins(r0, rm, r1, sel);
    }
  }

  lemma {:induction false} NodeOrdered(n: Node, r0: nat, r1: nat, s0: nat, s1: nat)
    requires NodeTiles(n, r0, r1, s0, s1)
    ensures r0 <= r1 && s0 <= s1
    decreases n, 1
  {
    if n.Wrapper? { NodesOrdered(n.children, r0, r1, n.open.End(), n.close.loc); }
  }

  lemma {:induction false} NodesOrdered(ns: seq<Node>, r0: nat, r1: nat, s0: nat, s1: nat)
    requires NodesTile(ns, r0, r1, s0, s1)
    ensures r0 <= r1 && s0 <= s1
    decreases ns, 0
  {
    if ns != [] {
      var last := ns[|ns| - 1];
      NodesOrdered(ns[..|ns| - 1], r0, last.rendered.loc, s0, last.SourceStart());
      NodeOrdered(last, last.rendered.loc, r1, last.SourceStart(), s1);
    }
  }

  /** For every document and every selection: the walk copies exactly the selected positions. */
  lemma SelectionIsCovered(prefix: string, bs: seq<Block>, sel: Range)
    ensures var ps := Document(prefix, bs);
            var nodes := PlaceAll(ps, 0, 0);
            && AllWithin(nodes, |TextAll(ps)|, |SourceAll(ps)|)
            && CopyAll(nodes, sel, SourceAll(ps), TextAll(ps)).positions == Clip(0, |TextAll(ps)|, sel)
  {
    var ps := Document(prefix, bs);
    PiecesTile(ps);
    NodesCoverage(PlaceAll(ps, 0, 0), sel, SourceAll(ps), TextAll(ps), 0, |TextAll(ps)|, 0, |SourceAll(ps)|);
  }

  // ----- what the copied positions say about the copied text

  /** The text reads what is on screen at the positions. */
  ghost predicate ReadsAt(copy: Copy, rendered: string) {
    && |copy.text| == |copy.positions|
    && forall k :: 0 <= k < |copy.text| ==>
         0 <= copy.positions[k] < |rendered| && copy.text[k] == rendered[copy.positions[k]]
  }

  /** Every leaf that is literal, or not wholly selected, emits the characters on screen at its positions;
      only a complete mapped leaf emits other markdown in their place. */
  ghost predicate ShowsItself(n: Node, sel: Range, source: string, rendered: string)
    requires Within(n, |rendered|, |source|)
    decreases n, 1
  {
    match n
    case Leaf(rr, _, literal) =>
      literal || !Contained(rr, sel) ==> ReadsAt(CopyOfLeaf(n, sel, source, rendered), rendered)
    case Wrapper(_, _, _, children) => AllShowThemselves(children, sel, source, rendered)
  }

  ghost predicate AllShowThemselves(ns: seq<Node>, sel: Range, source: string, rendered: string)
    requires AllWithin(ns, |rendered|, |source|)
    decreases ns, 0
  {
    ns == [] ||
    (AllShowThemselves(ns[..|ns| - 1], sel, source, rendered) && ShowsItself(ns[|ns| - 1], sel, source, rendered))
  }

  lemma LeafShowsItself(n: Node, sel: Range, source: string, rendered: string)
    requires n.Leaf? && Within(n, |rendered|, |source|) && Agrees(n, rendered, source)
    requires n.literal || !Contained(n.rendered, sel)
    ensures ReadsAt(CopyOfLeaf(n, sel, source, rendered), rendered)
  {
    var rr, copy := n.rendered, CopyOfLeaf(n, sel, source, rendered);
    if Touches(rr, sel) {
      var shown := if Contained(rr, sel) then rr else Overlap(rr, sel);
      if n.literal && !Contained(rr, sel) { PartialLiteral(rr, n.source, sel, source, rendered); }
      assert copy == Copy(Slice(rendered, shown), Upto(shown.loc, shown.End()));
      SliceReads(rendered, shown);
    }
  }

  lemma SliceReads(rendered: string, r: Range)
    requires r.End() <= |rendered|
    ensures ReadsAt(Copy(Slice(rendered, r), Upto(r.loc, r.End())), rendered)
  {
  }

  lemma {:induction false} NodeShowsItself(n: Node, sel: Range, source: string, rendered: string)
    requires Within(n, |rendered|, |source|) && Agrees(n, rendered, source)
    ensures ShowsItself(n, sel, source, rendered)
    decreases n, 1
  {
    if n.Wrapper? {
      NodesShowThemselves(n.children, sel, source, rendered);
    } else if n.literal || !Contained(n.rendered, sel) {
      LeafShowsItself(n, sel, source, rendered);
    }
  }

  lemma {:induction false} NodesShowThemselves(ns: seq<Node>, sel: Range, source: string, rendered: string)
    requires AllWithin(ns, |rendered|, |source|) && AllAgree(ns, rendered, source)
    ensures AllShowThemselves(ns, sel, source, rendered)
    decreases ns, 0
  {
    if ns != [] {
      NodesShowThemselves(ns[..|ns| - 1], sel, source, rendered);
      NodeShowsItself(ns[|ns| - 1], sel, source, rendered);
    }
  }

  /** In every document, for every selection. */
  lemma EmissionsAreOnScreen(prefix: string, bs: seq<Block>, sel: Range)
    ensures var ps := Document(prefix, bs);
            && AllWithin(PlaceAll(ps, 0, 0), |TextAll(ps)|, |SourceAll(ps)|)
            && AllShowThemselves(PlaceAll(ps, 0, 0), sel, SourceAll(ps), TextAll(ps))
  {
    var ps := Document(prefix, bs);
    PiecesTile(ps);
    NodesShowThemselves(PlaceAll(ps, 0, 0), sel, SourceAll(ps), TextAll(ps));
  }

  // ----- selections that carry no markup

  /** Every node the selection fully contains is literal text or has empty delimiters. */
  predicate PlainIn(n: Node, sel: Range) {
    Touches(n.rendered, sel) ==>
      match n
      case Leaf(_, _, literal) => Contained(n.rendered, sel) ==> literal
      case Wrapper(_, open, close, children) =>
        (Contained(n.rendered, sel) ==> open.len == 0 && close.len == 0) && AllPlainIn(children, sel)
  }

  predicate AllPlainIn(ns: seq<Node>, sel: Range) {
    ns == [] || (AllPlainIn(ns[..|ns| - 1], sel) && PlainIn(ns[|ns| - 1], sel))
  }

  function ClipText(rendered: string, r0: nat, r1: nat, sel: Range): string
    requires r1 <= |rendered|
  {
    var lo, hi := Max(r0, sel.loc), Min(r1, sel.End());
    if lo < hi then rendered[lo..hi] else ""
  }

  lemma ClipTextJoins(rendered: string, r0: nat, rm: nat, r1: nat, sel: Range)
    requires r0 <= rm <= r1 <= |rendered|
    ensures ClipText(rendered, r0, rm, sel) + ClipText(rendered, rm, r1, sel) == ClipText(rendered, r0, r1, sel)
  {
  }

  /** Equal stretches have equal parts. */
  lemma SubSlice(x: string, a: nat, y: string, b: nat, n: nat, d: nat, len: nat)
    requires a + n <= |x| && b + n <= |y| && x[a..a + n] == y[b..b + n] && d + len <= n
    ensures x[a + d..a + d + len] == y[b + d..b + d + len]
  {
    var p, q := x[a + d..a + d + len], y[b + d..b + d + len];
    forall k | 0 <= k < |p| ensures p[k] == q[k] {
      assert x[a..a + n][d + k] == y[b..b + n][d + k];
    }
  }

  lemma PartialLiteral(rr: Range, ss: Range, sel: Range, source: string, rendered: string)
    requires rr.End() <= |rendered| && ss.End() <= |source| && rr.len == ss.len
    requires Slice(rendered, rr) == Slice(source, ss) && Overlaps(rr, sel)
    ensures var o := Overlap(rr, sel);
            Slice(source, Range(ss.loc + (o.loc - rr.loc), o.len)) == Slice(rendered, o)
  {
    var o := Overlap(rr, sel);
    SubSlice(rendered, rr.loc, source, ss.loc, rr.len, o.loc - rr.loc, o.len);
  }

  lemma LeafPlain(n: Node, sel: Range, source: string, rendered: string)
    requires n.Leaf? && Within(n, |rendered|, |source|) && Agrees(n, rendered, source) && PlainIn(n, sel)
    ensures CopyOfLeaf(n, sel, source, rendered).text == ClipText(rendered, n.rendered.loc, n.rendered.End(), sel)
  {
    var rr := n.rendered;
    var text, clip := CopyOfLeaf(n, sel, source, rendered).text, ClipText(rendered, rr.loc, rr.End(), sel);
    if !Touches(rr, sel) {
      assert text == "" == clip;
    } else if Contained(rr, sel) {
      assert text == Slice(source, n.source) == Slice(rendered, rr);
      assert clip == Slice(rendered, rr);
    } else {
      assert clip == Slice(rendered, Overlap(rr, sel));
      if n.literal { PartialLiteral(rr, n.source, sel, source, rendered); }
    }
  }

  lemma {:induction false} NodePlain(n: Node, sel: Range, source: string, rendered: string,
                                     r0: nat, r1: nat, s0: nat, s1: nat)
    requires Within(n, |rendered|, |source|) && NodeTiles(n, r0, r1, s0, s1)
    requires Agrees(n, rendered, source) && PlainIn(n, sel)
    ensures r1 <= |rendered| && CopyOf(n, sel, source, rendered).text == ClipText(rendered, r0, r1, sel)
    decreases n, 1
  {
    if n.Leaf? {
      LeafPlain(n, sel, source, rendered);
    } else if Touches(n.rendered, sel) {
      NodesPlain(n.children, sel, source, rendered, r0, r1, n.open.End(), n.close.loc);
    }
  }

  lemma {:induction false} NodesPlain(ns: seq<Node>, sel: Range, source: string, rendered: string,
                                      r0: nat, r1: nat, s0: nat, s1: nat)
    requires AllWithin(ns, |rendered|, |source|) && NodesTile(ns, r0, r1, s0, s1) && r1 <= |rendered|
    requires AllAgree(ns, rendered, source) && AllPlainIn(ns, sel)
    ensures CopyAll(ns, sel, source, rendered).text == ClipText(rendered, r0, r1, sel)
    decreases ns, 0
  {
    if ns != [] {
      var front, last := ns[..|ns| - 1], ns[|ns| - 1];
      var rm, sm := last.rendered.loc, last.SourceStart();
      NodeOrdered(last, rm, r1, sm, s1);
      NodesOrdered(front, r0, rm, s0, sm);
      NodesPlain(front, sel, source, rendered, r0, rm, s0, sm);
      NodePlain(last, sel, source, rendered, rm, r1, sm, s1);
      ClipTextJoins(rendered, r0, rm, r1, sel);
    }
  }

  /** A selection that contains no complete construct copies as the text on screen. */
  lemma PlainSelectionCopiesText(prefix: string, bs: seq<Block>, sel: Range)
    requires AllPlainIn(PlaceAll(Document(prefix, bs), 0, 0), sel)
    ensures var ps := Document(prefix, bs);
            var nodes := PlaceAll(ps, 0, 0);
            && AllWithin(nodes, |TextAll(ps)|, |SourceAll(ps)|)
            && CopyAll(nodes, sel, SourceAll(ps), TextAll(ps)).text == ClipText(TextAll(ps), 0, |TextAll(ps)|, sel)
  {
    var ps := Document(prefix, bs);
    PiecesTile(ps);
    NodesPlain(PlaceAll(ps, 0, 0), sel, SourceAll(ps), TextAll(ps), 0, |TextAll(ps)|, 0, |SourceAll(ps)|);
  }

  // ----- selecting everything

  /** A node that shows nothing, at either end of the selection. */
  predicate HollowEnd(r: Range, sel: Range) {
    r.End() == r.loc && (r.loc == sel.loc || r.loc == sel.End())
  }

  predicate SelectsAll(sel: Range, text: string) {
    sel.loc == 0 && sel.len == |text|
  }

  /** Of what the selection contains, the walk misses the hollow ends and nothing else. */
  lemma MissedIffHollow(r: Range, sel: Range)
    requires Contained(r, sel)
    ensures Touches(r, sel) <==> !HollowEnd(r, sel)
  {
  }

  /** Source characters that a selection of the whole node leaves behind: those of hollow ends. */
  function Lost(n: Node, sel: Range): int {
    if HollowEnd(n.rendered, sel) then n.SourceEnd() - n.SourceStart()
    else if n.Leaf? then 0
    else LostAll(n.children, sel)
  }

  function LostAll(ns: seq<Node>, sel: Range): int {
    if ns == [] then 0 else LostAll(ns[..|ns| - 1], sel) + Lost(ns[|ns| - 1], sel)
  }

  lemma SliceJoins(s: string, a: nat, b: nat, c: nat)
    requires a <= b <= c <= |s|
    ensures s[a..b] + s[b..c] == s[a..c]
  {
  }

  lemma {:induction false} WholeNode(n: Node, sel: Range, source: string, rendered: string,
                                     r0: nat, r1: nat, s0: nat, s1: nat)
    requires Within(n, |rendered|, |source|) && NodeTiles(n, r0, r1, s0, s1)
    requires sel.loc <= r0 && r1 <= sel.End()
    ensures 0 <= Lost(n, sel) && s0 <= s1 <= |source|
    ensures var text := CopyOf(n, sel, source, rendered).text;
            && |text| == s1 - s0 - Lost(n, sel)
            && (Lost(n, sel) == 0 ==> text == source[s0..s1])
    decreases n, 1
  {
    NodeOrdered(n, r0, r1, s0, s1);
    MissedIffHollow(n.rendered, sel);
    if n.Wrapper? && !HollowEnd(n.rendered, sel) {
      var a, b := n.open.End(), n.close.loc;
      NodesOrdered(n.children, r0, r1, a, b);
      WholeNodes(n.children, sel, source, rendered, r0, r1, a, b);
      SliceJoins(source, s0, a, b);
      SliceJoins(source, s0, b, s1);
    }
  }

  lemma {:induction false} WholeNodes(ns: seq<Node>, sel: Range, source: string, rendered: string,
                                      r0: nat, r1: nat, s0: nat, s1: nat)
    requires AllWithin(ns, |rendered|, |source|) && NodesTile(ns, r0, r1, s0, s1) && s1 <= |source|
    requires sel.loc <= r0 && r1 <= sel.End()
    ensures 0 <= LostAll(ns, sel) && s0 <= s1
    ensures var text := CopyAll(ns, sel, source, rendered).text;
            && |text| == s1 - s0 - LostAll(ns, sel)
            && (LostAll(ns, sel) == 0 ==> text == source[s0..s1])
    decreases ns, 0
  {
    if ns != [] {
      var front, last := ns[..|ns| - 1], ns[|ns| - 1];
      var rm, sm := last.rendered.loc, last.SourceStart();
      NodesOrdered(front, r0, rm, s0, sm);
      NodeOrdered(last, rm, r1, sm, s1);
      WholeNode(last, sel, source, rendered, rm, r1, sm, s1);
      WholeNodes(front, sel, source, rendered, r0, rm, s0, sm);
      SliceJoins(source, s0, sm, s1);
    }
  }

  /** Hollow ends, at any depth, stand for no source. */
  predicate EndsBare(n: Node, sel: Range) {
    if HollowEnd(n.rendered, sel) then n.SourceStart() == n.SourceEnd()
    else n.Wrapper? ==> AllEndsBare(n.children, sel)
  }

  predicate AllEndsBare(ns: seq<Node>, sel: Range) {
    ns == [] || (AllEndsBare(ns[..|ns| - 1], sel) && EndsBare(ns[|ns| - 1], sel))
  }

  lemma {:induction false} LosesNothingIff(n: Node, sel: Range, r0: nat, r1: nat, s0: nat, s1: nat)
    requires NodeTiles(n, r0, r1, s0, s1)
    ensures 0 <= Lost(n, sel)
    ensures Lost(n, sel) == 0 <==> EndsBare(n, sel)
    decreases n, 1
  {
    NodeOrdered(n, r0, r1, s0, s1);
    if n.Wrapper? { AllLoseNothingIff(n.children, sel, r0, r1, n.open.End(), n.close.loc); }
  }

  lemma {:induction false} AllLoseNothingIff(ns: seq<Node>, sel: Range, r0: nat, r1: nat, s0: nat, s1: nat)
    requires NodesTile(ns, r0, r1, s0, s1)
    ensures 0 <= LostAll(ns, sel)
    ensures LostAll(ns, sel) == 0 <==> AllEndsBare(ns, sel)
    decreases ns, 0
  {
    if ns != [] {
      var last := ns[|ns| - 1];
      NodeOrdered(last, last.rendered.loc, r1, last.SourceStart(), s1);
      LosesNothingIff(last, sel, last.rendered.loc, r1, last.SourceStart(), s1);
      AllLoseNothingIff(ns[..|ns| - 1], sel, r0, last.rendered.loc, s0, last.SourceStart());
    }
  }

  lemma WholeNodesIff(ns: seq<Node>, sel: Range, source: string, rendered: string, r0: nat, r1: nat, s0: nat, s1: nat)
    requires AllWithin(ns, |rendered|, |source|) && NodesTile(ns, r0, r1, s0, s1) && s0 <= s1 <= |source|
    requires sel.loc <= r0 && r1 <= sel.End()
    ensures CopyAll(ns, sel, source, rendered).text == source[s0..s1] <==> AllEndsBare(ns, sel)
    ensures |CopyAll(ns, sel, source, rendered).text| == s1 - s0 - LostAll(ns, sel)
  {
    AllLoseNothingIff(ns, sel, r0, r1, s0, s1);
    WholeNodes(ns, sel, source, rendered, r0, r1, s0, s1);
  }

  /** What the walk makes of a selection in a run, before trimming. */
  function RunCopy(ps: seq<Piece>, sel: Range): string {
    PiecesTile(ps);
    CopyAll(PlaceAll(ps, 0, 0), sel, SourceAll(ps), TextAll(ps)).text
  }

  lemma WholeMapIff(ns: seq<Node>, sel: Range, source: string, text: string)
    requires AllWithin(ns, |text|, |source|) && NodesTile(ns, 0, |text|, 0, |source|) && SelectsAll(sel, text)
    ensures CopyAll(ns, sel, source, text).text == source <==> AllEndsBare(ns, sel)
    ensures |CopyAll(ns, sel, source, text).text| == |source| - LostAll(ns, sel)
    ensures LostAll(ns, sel) == 0 <==> AllEndsBare(ns, sel)
  {
    AllLoseNothingIff(ns, sel, 0, |text|, 0, |source|);
    WholeNodesIff(ns, sel, source, text, 0, |text|, 0, |source|);
    assert source[0..|source|] == source;
  }

  /** Copying everything gives back the reconstructed source, before trimming, exactly when no hollow end
      carries any source; what is missing otherwise is just the hollow ends' source. */
  lemma WholeRunCopy(prefix: string, bs: seq<Block>, sel: Range)
    requires SelectsAll(sel, TextAll(Document(prefix, bs)))
    ensures var ps := Document(prefix, bs);
            RunCopy(ps, sel) == SourceAll(ps) <==> AllEndsBare(PlaceAll(ps, 0, 0), sel)
    ensures var ps := Document(prefix, bs);
            |RunCopy(ps, sel)| == |SourceAll(ps)| - LostAll(PlaceAll(ps, 0, 0), sel)
  {
    var ps := Document(prefix, bs);
    PiecesTile(ps);
    WholeMapIff(PlaceAll(ps, 0, 0), sel, SourceAll(ps), TextAll(ps));
  }

  // A paragraph that begins with an emphasis around nothing.
  const HOLLOW: seq<Block> := [Paragraph([Emphasis([]), Plain("x")])]
  const HOLLOW_PARTS: seq<Piece> := [Wrap("*", "*", []), Literal("x")]
  const HOLLOW_PIECE := Wrap("", "", HOLLOW_PARTS)

  lemma HollowPieces()
    ensures Document("", HOLLOW) == [HOLLOW_PIECE]
  {
    var spans := [Emphasis([]), Plain("x")];
    assert spans[..1] == [Emphasis([])] && spans[..1][..0] == [];
    assert InlinePieces(spans[..1]) == [Wrap("*", "*", [])];
    assert InlinePieces(spans) == HOLLOW_PARTS;
    assert LinePrefix("", 0) == "";
    assert BlockPieces("", 0, HOLLOW[0]) == [HOLLOW_PIECE];
    assert HOLLOW[..0] == [] && BlocksPieces("", 0, "\n\n", []) == [];
    assert Gap(0, "\n\n") + BlockPieces("", 0, HOLLOW[0]) == BlockPieces("", 0, HOLLOW[0]);
  }

  lemma HollowText()
    ensures TextAll([HOLLOW_PIECE]) == "x" && SourceAll([HOLLOW_PIECE]) == "**x"
    ensures TextAll(HOLLOW_PARTS) == "x"
  {
    assert HOLLOW_PARTS[..1] == [Wrap("*", "*", [])] && HOLLOW_PARTS[..1][..0] == [];
    calc {
      SourceAll(HOLLOW_PARTS[..1]);
      SourceAll(HOLLOW_PARTS[..1][..0]) + SourceOf(HOLLOW_PARTS[0]);
      "" + ("*" + "" + "*");
      "**";
    }
    assert TextAll(HOLLOW_PARTS[..1]) == "";
    assert TextAll(HOLLOW_PARTS) == "x" && SourceAll(HOLLOW_PARTS) == "**" + "x";
    assert [HOLLOW_PIECE][..0] == [];
    assert SourceOf(HOLLOW_PIECE) == "" + SourceAll(HOLLOW_PARTS) + "";
  }

  lemma LostSnoc(ns: seq<Node>, n: Node, sel: Range)
    ensures LostAll(ns + [n], sel) == LostAll(ns, sel) + Lost(n, sel)
  {
    assert (ns + [n])[..|ns|] == ns;
  }

  /** The hollow emphasis stands before the text, two characters of source and none on screen. */
  lemma HollowPlaced(r: nat, s: nat)
    ensures var a, b := Place(HOLLOW_PARTS[0], r, s), Place(HOLLOW_PARTS[1], r, s + 2);
            && PlaceAll(HOLLOW_PARTS, r, s) == [a] + [b]
            && a.rendered.loc == r == a.rendered.End() && a.SourceStart() == s && a.SourceEnd() == s + 2
            && b.Leaf? && b.rendered.loc == r && b.rendered.End() == r + 1
  {
    var front := HOLLOW_PARTS[..1];
    assert front == [Wrap("*", "*", [])] && front[..0] == [];
    assert TextLengths(front) == 0 && SourceLengths(front) == 2;
    PlaceSnoc(front, r, s);
    PlaceSnoc(HOLLOW_PARTS, r, s);
  }

  lemma HollowLoses(r: nat, s: nat, sel: Range)
    requires sel.loc == r && sel.End() == r + 1
    ensures LostAll(PlaceAll(HOLLOW_PARTS, r, s), sel) == 2
  {
    var a, b := Place(HOLLOW_PARTS[0], r, s), Place(HOLLOW_PARTS[1], r, s + 2);
    HollowPlaced(r, s);
    LostSnoc([], a, sel);
    LostSnoc([a], b, sel);
    assert [] + [a] == [a];
  }

  lemma HollowRootLoses(r: nat, s: nat, sel: Range)
    requires sel.loc == r && sel.End() == r + 1
    ensures LostAll(PlaceAll([HOLLOW_PIECE], r, s), sel) == 2
  {
    var root := Place(HOLLOW_PIECE, r, s);
    assert [HOLLOW_PIECE][..0] == [];
    PlaceSnoc([HOLLOW_PIECE], r, s);
    assert TextLengths(HOLLOW_PARTS) == 1 by { HollowText(); AllLengths(HOLLOW_PARTS); }
    HollowLoses(r, s, sel);
    LostSnoc([], root, sel);
    assert [] + [root] == [root];
  }

  /** The promise fails on that run: the empty emphasis is in the source and is not copied. */
  lemma WholeRunCopyCounterexample(sel: Range)
    requires SelectsAll(sel, "x")
    ensures TextAll(Document("", HOLLOW)) == "x" && SourceAll(Document("", HOLLOW)) == "**x"
    ensures LostAll(PlaceAll(Document("", HOLLOW), 0, 0), sel) == 2
    ensures |RunCopy(Document("", HOLLOW), sel)| == 1
  {
    HollowPieces();
    HollowText();
    HollowRootLoses(0, 0, sel);
    WholeRunCopy("", HOLLOW, sel);
  }

  // ----- runs without zero-width nodes

  /** No piece, at any depth, shows nothing. */
  predicate Solid(p: Piece) {
    TextLength(p) > 0 && (p.Wrap? ==> AllSolid(p.parts))
  }

  predicate AllSolid(ps: seq<Piece>) {
    ps == [] || (AllSolid(ps[..|ps| - 1]) && Solid(ps[|ps| - 1]))
  }

  lemma {:induction false} SolidLosesNothing(p: Piece, r: nat, s: nat, sel: Range)
    requires Solid(p)
    ensures Lost(Place(p, r, s), sel) == 0
    decreases p, 1
  {
    if p.Wrap? { AllSolidLoseNothing(p.parts, r, s + |p.open|, sel); }
  }

  lemma {:induction false} AllSolidLoseNothing(ps: seq<Piece>, r: nat, s: nat, sel: Range)
    requires AllSolid(ps)
    ensures LostAll(PlaceAll(ps, r, s), sel) == 0
    decreases ps, 0
  {
    if ps != [] {
      var front, last := ps[..|ps| - 1], ps[|ps| - 1];
      PlaceLast(ps, r, s);
      AllSolidLoseNothing(front, r, s, sel);
      SolidLosesNothing(last, r + TextLengths(front), s + SourceLengths(front), sel);
    }
  }

  /** So on every run in which each construct shows something, copying everything is exact. */
  lemma SolidRunCopiesExactly(prefix: string, bs: seq<Block>, sel: Range)
    requires AllSolid(Document(prefix, bs)) && SelectsAll(sel, TextAll(Document(prefix, bs)))
    ensures RunCopy(Document(prefix, bs), sel) == SourceAll(Document(prefix, bs))
  {
    var ps := Document(prefix, bs);
    AllSolidLoseNothing(ps, 0, 0, sel);
    PiecesTile(ps);
    WholeMapIff(PlaceAll(ps, 0, 0), sel, SourceAll(ps), TextAll(ps));
  }
}
