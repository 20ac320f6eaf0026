/** Copying a whole run, as the caller sees it: trimmed. */
module WholeRun {
  import opened Basics
  import opened Markdown
  import opened SourceMap
  import opened Selection

  // ----- blank text and ink

  predicate Blank(s: string) {
    forall k :: 0 <= k < |s| ==> IsBlankOrNewline(s[k])
  }

  /** The characters of `s` from `a` up to `b` are blank. */
  predicate BlankIn(s: string, a: nat, b: nat) {
    forall k :: a <= k < b && k < |s| ==> IsBlankOrNewline(s[k])
  }

  lemma BlankSlice(s: string, a: nat, b: nat)
    requires a <= b <= |s|
    ensures Blank(s[a..b]) <==> BlankIn(s, a, b)
  {
    if Blank(s[a..b]) {
      forall k | a <= k < b ensures IsBlankOrNewline(s[k]) { assert s[a..b][k - a] == s[k]; }
    }
  }

  /** How many characters are neither whitespace nor newlines. */
  function Ink(s: string): nat {
    if s == "" then 0 else Ink(s[..|s| - 1]) + if IsBlankOrNewline(s[|s| - 1]) then 0 else 1
  }

  lemma {:induction false} InkJoins(a: string, b: string)
    ensures Ink(a + b) == Ink(a) + Ink(b)
    decreases |b|
  {
    if b == "" {
      assert a + b == a;
    } else {
      assert (a + b)[..|a + b| - 1] == a + b[..|b| - 1];
      InkJoins(a, b[..|b| - 1]);
    }
  }

  lemma {:induction false} InklessIff(s: string)
    ensures Ink(s) == 0 <==> Blank(s)
  {
    if s != "" { InklessIff(s[..|s| - 1]); }
  }

  lemma {:induction false} TrimLeftPast(x: string, y: string)
    requires Blank(x)
    ensures TrimLeft(x + y, IsBlankOrNewline) == TrimLeft(y, IsBlankOrNewline)
    decreases |x|
  {
    if x == "" {
      assert x + y == y;
    } else {
      assert (x + y)[1..] == x[1..] + y;
      TrimLeftPast(x[1..], y);
    }
  }

  lemma {:induction false} TrimRightBefore(y: string, z: string)
    requires Blank(z)
    ensures TrimRight(y + z, IsBlankOrNewline) == TrimRight(y, IsBlankOrNewline)
    decreases |z|
  {
    if z == "" {
      assert y + z == y;
    } else {
      assert (y + z)[..|y + z| - 1] == y + z[..|z| - 1];
      TrimRightBefore(y, z[..|z| - 1]);
    }
  }

  lemma TrimBlank(z: string)
    requires Blank(z)
    ensures TrimLeft(z, IsBlankOrNewline) == ""
  {
    TrimLeftPast(z, "");
    assert z + "" == z;
  }

  lemma {:induction false} TrimLeftStops(m: string, z: string)
    requires !Blank(m)
    ensures TrimLeft(m + z, IsBlankOrNewline) == TrimLeft(m, IsBlankOrNewline) + z
    decreases |m|
  {
    assert (m + z)[0] == m[0];
    if IsBlankOrNewline(m[0]) {
      var k :| 0 <= k < |m| && !IsBlankOrNewline(m[k]);
      assert m[1..][k - 1] == m[k];
      assert (m + z)[1..] == m[1..] + z;
      TrimLeftStops(m[1..], z);
    }
  }

  lemma TrimLeftKeepsTail(m: string, z: string)
    requires Blank(z)
    ensures TrimRight(TrimLeft(m + z, IsBlankOrNewline), IsBlankOrNewline) == Trim(m, IsBlankOrNewline)
  {
    if Blank(m) {
      TrimBlank(m);
      TrimLeftPast(m, z);
      TrimBlank(z);
    } else {
      TrimLeftStops(m, z);
      TrimRightBefore(TrimLeft(m, IsBlankOrNewline), z);
    }
  }

  /** Blank margins do not survive trimming. */
  lemma TrimMargins(s: string, a: nat, b: nat)
    requires a <= b <= |s| && BlankIn(s, 0, a) && BlankIn(s, b, |s|)
    ensures Trim(s[a..b], IsBlankOrNewline) == Trim(s, IsBlankOrNewline)
  {
    BlankSlice(s, 0, a);
    BlankSlice(s, b, |s|);
    assert s[0..a] == s[..a] && s[b..|s|] == s[b..];
    assert s == s[..a] + (s[a..b] + s[b..]);
    TrimLeftPast(s[..a], s[a..b] + s[b..]);
    TrimLeftKeepsTail(s[a..b], s[b..]);
  }

  lemma {:induction false} InkTrimLeft(s: string)
    ensures Ink(TrimLeft(s, IsBlankOrNewline)) == Ink(s)
    decreases |s|
  {
    if s != "" && IsBlankOrNewline(s[0]) {
      InkTrimLeft(s[1..]);
      InklessIff([s[0]]);
      InkJoins([s[0]], s[1..]);
      assert s == [s[0]] + s[1..];
    }
  }

  lemma {:induction false} InkTrimRight(s: string)
    ensures Ink(TrimRight(s, IsBlankOrNewline)) == Ink(s)
    decreases |s|
  {
    if s != "" && IsBlankOrNewline(s[|s| - 1]) { InkTrimRight(s[..|s| - 1]); }
  }

  lemma InkTrimmed(s: string)
    ensures Ink(Trim(s, IsBlankOrNewline)) == Ink(s)
  {
    InkTrimLeft(s);
    InkTrimRight(TrimLeft(s, IsBlankOrNewline));
  }

  // ----- the condition

  /** Hollow ends, at any depth, stand for blank source only. */
  predicate EndsBlank(n: Node, sel: Range, source: string) {
    if HollowEnd(n.rendered, sel) then BlankIn(source, n.SourceStart(), n.SourceEnd())
    else n.Wrapper? ==> AllEndsBlank(n.children, sel, source)
  }

  predicate AllEndsBlank(ns: seq<Node>, sel: Range, source: string) {
    ns == [] || (AllEndsBlank(ns[..|ns| - 1], sel, source) && EndsBlank(ns[|ns| - 1], sel, source))
  }

  // ----- one direction: no ink may be lost

  lemma InkSplits(source: string, a: nat, b: nat, c: nat)
    requires a <= b <= c <= |source|
    ensures Ink(source[a..c]) == Ink(source[a..b]) + Ink(source[b..c])
  {
    InkJoins(source[a..b], source[b..c]);
    SliceJoins(source, a, b, c);
  }

  lemma {:induction false} NodeInk(n: Node, sel: Range, source: string, rendered: string,
                                   r0: nat, r1: nat, s0: nat, s1: nat)
    requires sel.loc <= r0 && r1 <= sel.End()
    requires Within(n, |rendered|, |source|) && NodeTiles(n, r0, r1, s0, s1)
    ensures s0 <= s1 <= |source|
    ensures var ink := Ink(CopyOf(n, sel, source, rendered).text);
            && ink <= Ink(source[s0..s1])
            && (ink == Ink(source[s0..s1]) <==> EndsBlank(n, sel, source))
    decreases n, 1
  {
    NodeOrdered(n, r0, r1, s0, s1);
    MissedIffHollow(n.rendered, sel);
    if HollowEnd(n.rendered, sel) {
      InklessIff(source[s0..s1]);
      BlankSlice(source, s0, s1);
    } else if n.Wrapper? {
      WrapperInk(n, sel, source, rendered, r0, r1, s0, s1);
    }
  }

  lemma {:induction false} WrapperInk(n: Node, sel: Range, source: string, rendered: string,
                                      r0: nat, r1: nat, s0: nat, s1: nat)
    requires sel.loc <= r0 && r1 <= sel.End()
    requires Within(n, |rendered|, |source|) && NodeTiles(n, r0, r1, s0, s1) && s0 <= s1 <= |source|
    requires n.Wrapper? && Touches(n.rendered, sel) && !HollowEnd(n.rendered, sel)
    ensures var ink := Ink(CopyOf(n, sel, source, rendered).text);
            && ink <= Ink(source[s0..s1])
            && (ink == Ink(source[s0..s1]) <==> EndsBlank(n, sel, source))
    decreases n, 0
  {
    var a, b := n.open.End(), n.close.loc;
    NodesOrdered(n.children, r0, r1, a, b);
    NodesInk(n.children, sel, source, rendered, r0, r1, a, b);
    var inner := CopyAll(n.children, sel, source, rendered).text;
    InkSplits(source, s0, a, s1);
    InkSplits(source, a, b, s1);
    InkJoins(source[s0..a], inner);
    InkJoins(source[s0..a] + inner, source[b..s1]);
  }

  lemma {:induction false} NodesInk(ns: seq<Node>, sel: Range, source: string, rendered: string,
                                    r0: nat, r1: nat, s0: nat, s1: nat)
    requires sel.loc <= r0 && r1 <= sel.End()
    requires AllWithin(ns, |rendered|, |source|) && NodesTile(ns, r0, r1, s0, s1) && s1 <= |source|
    ensures s0 <= s1
    ensures var ink := Ink(CopyAll(ns, sel, source, rendered).text);
            && ink <= Ink(source[s0..s1])
            && (ink == Ink(source[s0..s1]) <==> AllEndsBlank(ns, sel, source))
    decreases ns, 0
  {
    if ns != [] {
      var front, last := ns[..|ns| - 1], ns[|ns| - 1];
      var rm, sm := last.rendered.loc, last.SourceStart();
      NodesOrdered(front, r0, rm, s0, sm);
      NodeOrdered(last, rm, r1, sm, s1);
      NodeInk(last, sel, source, rendered, rm, r1, sm, s1);
      NodesInk(front, sel, source, rendered, r0, rm, s0, sm);
      InkSplits(source, s0, sm, s1);
      InkJoins(CopyAll(front, sel, source, rendered).text,
               CopyOf(last, sel, source, rendered).text);
    }
  }

  // ----- the other direction: what is lost stands at the edges

  /** Nothing in the piece, at any depth, shows nothing and stands for blank source. */
  predicate Firm(p: Piece) {
    (TextLength(p) == 0 ==> SourceOf(p) == "" || !Blank(SourceOf(p))) && (p.Wrap? ==> FirmAll(p.parts))
  }

  predicate FirmAll(ps: seq<Piece>) {
    ps == [] || (FirmAll(ps[..|ps| - 1]) && Firm(ps[|ps| - 1]))
  }

  /** Begins with text that is on screen. */
  predicate StartsSolid(ps: seq<Piece>) {
    ps != [] && !ps[0].Wrap? && TextLength(ps[0]) > 0
  }

  /** Around anything that is not firm, no delimiter keeps a loss away from the edge of the source. */
  predicate Loose(p: Piece) {
    p.Wrap? ==>
      FirmAll(p.parts) || (p.close == "" && (p.open == "" || StartsSolid(p.parts)) && LooseAll(p.parts))
  }

  predicate LooseAll(ps: seq<Piece>) {
    ps == [] || (LooseAll(ps[..|ps| - 1]) && Loose(ps[|ps| - 1]))
  }

  // Documents are loose: inline content is firm, and block constructs only open.

  lemma {:induction false} FirmJoins(a: seq<Piece>, b: seq<Piece>)
    requires FirmAll(a) && FirmAll(b)
    ensures FirmAll(a + b)
    decreases |b|
  {
    if b == [] {
      assert a + b == a;
    } else {
      assert (a + b)[..|a + b| - 1] == a + b[..|b| - 1];
      FirmJoins(a, b[..|b| - 1]);
    }
  }

  lemma {:induction false} LooseJoins(a: seq<Piece>, b: seq<Piece>)
    requires LooseAll(a) && LooseAll(b)
    ensures LooseAll(a + b)
    decreases |b|
  {
    if b == [] {
      assert a + b == a;
    } else {
      assert (a + b)[..|a + b| - 1] == a + b[..|b| - 1];
      LooseJoins(a, b[..|b| - 1]);
    }
  }

  lemma FirmOne(p: Piece)
    requires Firm(p)
    ensures FirmAll([p])
  {
    assert [p][..0] == [];
  }

  lemma LooseOne(p: Piece)
    requires Loose(p)
    ensures LooseAll([p])
  {
    assert [p][..0] == [];
  }

  lemma Inked(s: string)
    requires s != "" && !IsBlankOrNewline(s[0])
    ensures !Blank(s)
  {
  }

  lemma {:induction false} SpanIsFirm(span: Span)
    ensures FirmAll(SpanPieces(span))
    decreases span, 1
  {
    match span
    case Plain(text) => FirmOne(Literal(text));
    case Emphasis(spans) => WrapIsFirm("*", "*", spans);
    case Strong(spans) => WrapIsFirm("**", "**", spans);
    case Strike(spans) => WrapIsFirm("~~", "~~", spans);
    case Code(text) =>
      Inked(Fence(text) + text + Fence(text));
      FirmOne(Mapped(text, Fence(text) + text + Fence(text)));
    case Link(url, title, spans) => WrapIsFirm("[", LinkClose(url, title), spans);
    case FootnoteRef(name) =>
      Inked("[^" + name + "]");
      FirmOne(Mapped(name, "[^" + name + "]"));
    case Break(hard) => FirmOne(if hard then Mapped("\n", "  \n") else Mapped(" ", "\n"));
    case UnknownSpan =>
  }

  lemma {:induction false} WrapIsFirm(open: string, close: string, spans: seq<Span>)
    requires open != "" && !IsBlankOrNewline(open[0])
    ensures FirmAll([Wrap(open, close, InlinePieces(spans))])
    decreases spans, 1
  {
    InlineIsFirm(spans);
    var p := Wrap(open, close, InlinePieces(spans));
    Inked(SourceOf(p));
    FirmOne(p);
  }

  lemma {:induction false} InlineIsFirm(spans: seq<Span>)
    ensures FirmAll(InlinePieces(spans))
    decreases spans, 0
  {
    if spans != [] {
      InlineIsFirm(spans[..|spans| - 1]);
      SpanIsFirm(spans[|spans| - 1]);
      FirmJoins(InlinePieces(spans[..|spans| - 1]), SpanPieces(spans[|spans| - 1]));
    }
  }

  lemma GapIsLoose(n: nat, source: string)
    ensures LooseAll(Gap(n, source))
  {
    LooseOne(Separator(source));
  }

  lemma {:induction false} BlockIsLoose(prefix: string, depth: nat, b: Block)
    ensures LooseAll(BlockPieces(prefix, depth, b))
    decreases b, 2
  {
    match b
    case Paragraph(spans) => InlineIsFirm(spans); LooseOne(BlockPieces(prefix, depth, b)[0]);
    case Heading(_, spans) => InlineIsFirm(spans); LooseOne(BlockPieces(prefix, depth, b)[0]);
    case List(ordered, start, items) =>
      ItemsAreLoose(prefix, depth, ordered, start, items);
      LooseOne(BlockPieces(prefix, depth, b)[0]);
    case Html(raw) => FirmOne(Literal(raw)); LooseOne(BlockPieces(prefix, depth, b)[0]);
    case FootnoteDef(name, blocks) =>
      BlocksAreLoose(prefix, depth + 1, "\n", blocks);
      OpenedIsLoose(LinePrefix(prefix, depth) + "[^" + name + "]: ", Mapped(name + ". ", ""),
                    BlocksPieces(prefix, depth + 1, "\n", blocks));
    case Native =>
  }

  /** A construct that opens, shows a mark and goes on with loose content. */
  lemma OpenedIsLoose(open: string, mark: Piece, rest: seq<Piece>)
    requires !mark.Wrap? && TextLength(mark) > 0 && LooseAll(rest)
    ensures Loose(Wrap(open, "", [mark] + rest)) && LooseAll([Wrap(open, "", [mark] + rest)])
  {
    LooseOne(mark);
    LooseJoins([mark], rest);
    LooseOne(Wrap(open, "", [mark] + rest));
  }

  lemma {:induction false} BlocksAreLoose(prefix: string, depth: nat, gap: string, bs: seq<Block>)
    ensures LooseAll(BlocksPieces(prefix, depth, gap, bs))
    decreases bs, 1
  {
    if bs != [] {
      var n := |bs| - 1;
      BlocksAreLoose(prefix, depth, gap, bs[..n]);
      BlockIsLoose(prefix, depth, bs[n]);
      GapIsLoose(n, gap);
      LooseJoins(Gap(n, gap), BlockPieces(prefix, depth, bs[n]));
      LooseJoins(BlocksPieces(prefix, depth, gap, bs[..n]), Gap(n, gap) + BlockPieces(prefix, depth, bs[n]));
    }
  }

  lemma {:induction false} FirmIsLoose(ps: seq<Piece>)
    requires FirmAll(ps)
    ensures LooseAll(ps)
    decreases |ps|
  {
    if ps != [] { FirmIsLoose(ps[..|ps| - 1]); }
  }

  lemma {:induction false} BodyIsLoose(prefix: string, depth: nat, bs: seq<Block>)
    ensures LooseAll(BodyPieces(prefix, depth, bs))
    decreases bs, 1
  {
    if bs != [] {
      var n := |bs| - 1;
      BodyIsLoose(prefix, depth, bs[..n]);
      NextInBodyIsLoose(prefix, depth, n, bs[n]);
      LooseJoins(BodyPieces(prefix, depth, bs[..n]), NextInBody(prefix, depth, n, bs[n]));
    }
  }

  lemma {:induction false} NextInBodyIsLoose(prefix: string, depth: nat, n: nat, b: Block)
    ensures LooseAll(NextInBody(prefix, depth, n, b))
    decreases b, 3
  {
    if n == 0 && b.Paragraph? {
      InlineIsFirm(b.spans);
      FirmIsLoose(InlinePieces(b.spans));
    } else {
      BlockIsLoose(prefix, depth + 1, b);
      LooseOne(Separator("\n"));
      LooseJoins([Separator("\n")], BlockPieces(prefix, depth + 1, b));
    }
  }

  lemma {:induction false} ItemIsLoose(prefix: string, depth: nat, ordered: bool, number: int, item: Item)
    ensures LooseAll([ItemPiece(prefix, depth, ordered, number, item)])
    decreases item, 2
  {
    BodyIsLoose(prefix, depth, item.blocks);
    OpenedIsLoose(ItemOpen(prefix, depth, ordered, number, item), Marker(depth, ordered, number, item),
                  BodyPieces(prefix, depth, item.blocks));
  }

  lemma {:induction false} NextItemIsLoose(prefix: string, depth: nat, ordered: bool, start: int, n: nat, item: Item)
    ensures LooseAll(NextItem(prefix, depth, ordered, start, n, item))
    decreases item, 3
  {
    ItemIsLoose(prefix, depth, ordered, Wrap64(start + n), item);
    GapIsLoose(n, "\n");
    LooseJoins(Gap(n, "\n"), [ItemPiece(prefix, depth, ordered, Wrap64(start + n), item)]);
  }

  lemma {:induction false} ItemsAreLoose(prefix: string, depth: nat, ordered: bool, start: int, items: seq<Item>)
    ensures LooseAll(ItemPieces(prefix, depth, ordered, start, items))
    decreases items, 1
  {
    if items != [] {
      var n := |items| - 1;
      ItemsAreLoose(prefix, depth, ordered, start, items[..n]);
      NextItemIsLoose(prefix, depth, ordered, start, n, items[n]);
      LooseJoins(ItemPieces(prefix, depth, ordered, start, items[..n]),
                 NextItem(prefix, depth, ordered, start, n, items[n]));
    }
  }

  // ----- the same on nodes

  predicate FirmNode(n: Node, source: string) {
    && (n.rendered.len == 0 ==>
          n.SourceStart() == n.SourceEnd() || !BlankIn(source, n.SourceStart(), n.SourceEnd()))
    && (n.Wrapper? ==> FirmNodes(n.children, source))
  }

  predicate FirmNodes(ns: seq<Node>, source: string) {
    ns == [] || (FirmNodes(ns[..|ns| - 1], source) && FirmNode(ns[|ns| - 1], source))
  }

  predicate SolidFirst(ns: seq<Node>) {
    ns != [] && ns[0].Leaf? && ns[0].rendered.len > 0
  }

  predicate LooseNode(n: Node, source: string) {
    n.Wrapper? ==>
      FirmNodes(n.children, source) ||
      (n.close.len == 0 && (n.open.len == 0 || SolidFirst(n.children)) && LooseNodes(n.children, source))
  }

  predicate LooseNodes(ns: seq<Node>, source: string) {
    ns == [] || (LooseNodes(ns[..|ns| - 1], source) && LooseNode(ns[|ns| - 1], source))
  }

  lemma PlacedSource(p: Piece, r: nat, s: nat, source: string)
    requires Reads(source, s, SourceOf(p))
    ensures var n := Place(p, r, s);
            && n.rendered.len == TextLength(p)
            && (n.SourceStart() == n.SourceEnd() <==> SourceOf(p) == "")
            && (BlankIn(source, n.SourceStart(), n.SourceEnd()) <==> Blank(SourceOf(p)))
  {
    PieceLengths(p);
    PlaceTiles(p, r, s);
    BlankSlice(source, s, s + |SourceOf(p)|);
  }

  lemma {:induction false} FirmPlaced(p: Piece, r: nat, s: nat, source: string)
    requires Firm(p) && Reads(source, s, SourceOf(p))
    ensures FirmNode(Place(p, r, s), source)
    decreases p, 1
  {
    PlacedSource(p, r, s, source);
    if p.Wrap? {
      SourceOfParts(p, s, source);
      AllFirmPlaced(p.parts, r, s + |p.open|, source);
    }
  }

  lemma {:induction false} AllFirmPlaced(ps: seq<Piece>, r: nat, s: nat, source: string)
    requires FirmAll(ps) && Reads(source, s, SourceAll(ps))
    ensures FirmNodes(PlaceAll(ps, r, s), source)
    decreases ps, 0
  {
    if ps != [] {
      var front, last := ps[..|ps| - 1], ps[|ps| - 1];
      var rm, sm := r + TextLengths(front), s + SourceLengths(front);
      PlaceSnoc(ps, r, s);
      SourceOfFront(ps, s, source);
      AllFirmPlaced(front, r, s, source);
      AllLengths(front);
      SourceOfLast(ps, s, sm, source);
      FirmPlaced(last, rm, sm, source);
      FirmSnoc(PlaceAll(front, r, s), Place(last, rm, sm), source);
    }
  }

  lemma FirmSnoc(a: seq<Node>, n: Node, source: string)
    requires FirmNodes(a, source) && FirmNode(n, source)
    ensures FirmNodes(a + [n], source)
  {
    assert (a + [n])[..|a|] == a;
  }

  lemma {:induction false} LoosePlaced(p: Piece, r: nat, s: nat, source: string)
    requires Loose(p) && Reads(source, s, SourceOf(p))
    ensures LooseNode(Place(p, r, s), source)
    decreases p, 1
  {
    if p.Wrap? {
      SourceOfParts(p, s, source);
      if FirmAll(p.parts) {
        AllFirmPlaced(p.parts, r, s + |p.open|, source);
      } else {
        AllLoosePlaced(p.parts, r, s + |p.open|, source);
        if StartsSolid(p.parts) { SolidPlaced(p.parts, r, s + |p.open|); }
      }
    }
  }

  lemma {:induction false} SolidPlaced(ps: seq<Piece>, r: nat, s: nat)
    requires StartsSolid(ps)
    ensures SolidFirst(PlaceAll(ps, r, s))
    decreases |ps|
  {
    PlaceLast(ps, r, s);
    if |ps| > 1 { SolidPlaced(ps[..|ps| - 1], r, s); }
  }

  lemma {:induction false} AllLoosePlaced(ps: seq<Piece>, r: nat, s: nat, source: string)
    requires LooseAll(ps) && Reads(source, s, SourceAll(ps))
    ensures LooseNodes(PlaceAll(ps, r, s), source)
    decreases ps, 0
  {
    if ps != [] {
      var front, last := ps[..|ps| - 1], ps[|ps| - 1];
      var rm, sm := r + TextLengths(front), s + SourceLengths(front);
      PlaceSnoc(ps, r, s);
      SourceOfFront(ps, s, source);
      AllLoosePlaced(front, r, s, source);
      AllLengths(front);
      SourceOfLast(ps, s, sm, source);
      LoosePlaced(last, rm, sm, source);
      LooseSnoc(PlaceAll(front, r, s), Place(last, rm, sm), source);
    }
  }

  lemma LooseSnoc(a: seq<Node>, n: Node, source: string)
    requires LooseNodes(a, source) && LooseNode(n, source)
    ensures LooseNodes(a + [n], source)
  {
    assert (a + [n])[..|a|] == a;
  }

  /** Firm nodes lose nothing when every hollow end is blank. */
  lemma {:induction false} FirmIsBare(n: Node, sel: Range, source: string, r0: nat, r1: nat, s0: nat, s1: nat)
    requires NodeTiles(n, r0, r1, s0, s1) && s1 <= |source|
    requires FirmNode(n, source) && EndsBlank(n, sel, source)
    ensures EndsBare(n, sel)
    decreases n, 1
  {
    NodeOrdered(n, r0, r1, s0, s1);
    if n.Wrapper? {
      NodesOrdered(n.children, r0, r1, n.open.End(), n.close.loc);
      if !HollowEnd(n.rendered, sel) {
        FirmAreBare(n.children, sel, source, r0, r1, n.open.End(), n.close.loc);
      }
    }
  }

  lemma {:induction false} FirmAreBare(ns: seq<Node>, sel: Range, source: string, r0: nat, r1: nat, s0: nat, s1: nat)
    requires NodesTile(ns, r0, r1, s0, s1) && s1 <= |source|
    requires FirmNodes(ns, source) && AllEndsBlank(ns, sel, source)
    ensures AllEndsBare(ns, sel)
    decreases ns, 0
  {
    if ns != [] {
      var last := ns[|ns| - 1];
      FirmIsBare(last, sel, source, last.rendered.loc, r1, last.SourceStart(), s1);
      NodeOrdered(last, last.rendered.loc, r1, last.SourceStart(), s1);
      FirmAreBare(ns[..|ns| - 1], sel, source, r0, last.rendered.loc, s0, last.SourceStart());
    }
  }

  // ----- where the copy stands in the source

  function NodeCopy(n: Node, sel: Range, source: string, rendered: string): string
    requires Within(n, |rendered|, |source|)
  {
    CopyOf(n, sel, source, rendered).text
  }

  function NodesCopy(ns: seq<Node>, sel: Range, source: string, rendered: string): string
    requires AllWithin(ns, |rendered|, |source|)
  {
    CopyAll(ns, sel, source, rendered).text
  }

  /** What the copy leaves out of `[s0, s1)` is blank and stands at its ends, and only at an edge of the text. */
  ghost predicate Edged(copy: string, source: string, sel: Range, r0: nat, r1: nat, s0: nat, s1: nat, a: nat, b: nat) {
    && s0 <= a <= b <= s1 <= |source| && copy == source[a..b]
    && BlankIn(source, s0, a) && BlankIn(source, b, s1)
    && (a == s0 || r0 == sel.loc) && (b == s1 || r1 == sel.End())
  }

  /** A node that shows nothing at an end of the text is blank and not copied. */
  lemma HollowIsDropped(n: Node, sel: Range, source: string, rendered: string, s0: nat, s1: nat)
    requires Contained(n.rendered, sel)
    requires Within(n, |rendered|, |source|) && HollowEnd(n.rendered, sel) && EndsBlank(n, sel, source)
    requires n.SourceStart() == s0 <= n.SourceEnd() == s1 <= |source|
    ensures NodeCopy(n, sel, source, rendered) == "" && BlankIn(source, s0, s1)
  {
    MissedIffHollow(n.rendered, sel);
  }

  lemma CopySnoc(ns: seq<Node>, sel: Range, source: string, rendered: string)
    requires ns != [] && AllWithin(ns, |rendered|, |source|)
    ensures NodesCopy(ns, sel, source, rendered) ==
              NodesCopy(ns[..|ns| - 1], sel, source, rendered) + NodeCopy(ns[|ns| - 1], sel, source, rendered)
  {
  }

  lemma ShownLeafIsCopied(n: Node, sel: Range, source: string, rendered: string)
    requires Contained(n.rendered, sel)
    requires n.Leaf? && Within(n, |rendered|, |source|) && !HollowEnd(n.rendered, sel)
    ensures NodeCopy(n, sel, source, rendered) == source[n.SourceStart()..n.SourceEnd()]
  {
    MissedIffHollow(n.rendered, sel);
  }

  /** In a row of nodes that takes no room, each takes none. */
  lemma NoRoomForLast(ns: seq<Node>, r0: nat, s0: nat, s1: nat)
    requires ns != [] && NodesTile(ns, r0, r0, s0, s1)
    ensures var front, last := ns[..|ns| - 1], ns[|ns| - 1];
            last.rendered.loc == r0 && last.rendered.len == 0 && NodesTile(front, r0, r0, s0, last.SourceStart())
    ensures s0 <= ns[|ns| - 1].SourceStart() <= ns[|ns| - 1].SourceEnd() == s1
  {
    var front, last := ns[..|ns| - 1], ns[|ns| - 1];
    NodesOrdered(front, r0, last.rendered.loc, s0, last.SourceStart());
    NodeOrdered(last, last.rendered.loc, r0, last.SourceStart(), s1);
  }

  lemma {:induction false} HollowsAreDropped(ns: seq<Node>, sel: Range, source: string, rendered: string,
                                             r0: nat, s0: nat, s1: nat)
    requires sel.loc <= r0 <= sel.End()
    requires AllWithin(ns, |rendered|, |source|) && NodesTile(ns, r0, r0, s0, s1) && s1 <= |source|
    requires AllEndsBlank(ns, sel, source) && (r0 == sel.loc || r0 == sel.End())
    ensures NodesCopy(ns, sel, source, rendered) == "" && s0 <= s1 && BlankIn(source, s0, s1)
    decreases |ns|
  {
    if ns != [] {
      var front, last := ns[..|ns| - 1], ns[|ns| - 1];
      NoRoomForLast(ns, r0, s0, s1);
      HollowsAreDropped(front, sel, source, rendered, r0, s0, last.SourceStart());
      HollowIsDropped(last, sel, source, rendered, last.SourceStart(), s1);
      CopySnoc(ns, sel, source, rendered);
    }
  }

  /** Two neighbours: a loss between them is possible only if one of them is nothing but loss. */
  lemma EdgesJoin(x: string, y: string, source: string, sel: Range,
                  r0: nat, rm: nat, r1: nat, s0: nat, sm: nat, s1: nat,
                  a1: nat, b1: nat, a2: nat, b2: nat)
    returns (a: nat, b: nat)
    requires Edged(x, source, sel, r0, rm, s0, sm, a1, b1) && Edged(y, source, sel, rm, r1, sm, s1, a2, b2)
    requires r0 <= rm <= r1 && sel.loc <= r0 && r1 <= sel.End()
    requires rm == sel.loc ==> x == "" && BlankIn(source, s0, sm)
    requires rm == r1 == sel.End() ==> y == "" && BlankIn(source, sm, s1)
    ensures Edged(x + y, source, sel, r0, r1, s0, s1, a, b)
    ensures a2 == sm ==> a == a1
  {
    if a2 > sm {
      a, b := a2, b2;
    } else if b1 < sm {
      a, b := a1, b1;
    } else {
      a, b := a1, b2;
      SliceJoins(source, a1, sm, b2);
    }
  }

  /** Everything is copied. */
  lemma WholeEdges(copy: string, source: string, sel: Range, r0: nat, r1: nat, s0: nat, s1: nat)
    requires s0 <= s1 <= |source| && copy == source[s0..s1]
    ensures Edged(copy, source, sel, r0, r1, s0, s1, s0, s1)
  {
  }

  /** Nothing is copied. */
  lemma HollowEdges(n: Node, sel: Range, source: string, rendered: string,
                    r0: nat, r1: nat, s0: nat, s1: nat) returns (a: nat)
    requires sel.loc <= r0 && r1 <= sel.End()
    requires Within(n, |rendered|, |source|) && NodeTiles(n, r0, r1, s0, s1) && s0 <= s1 <= |source|
    requires HollowEnd(n.rendered, sel) && EndsBlank(n, sel, source)
    ensures Edged(NodeCopy(n, sel, source, rendered), source, sel, r0, r1, s0, s1, a, a)
  {
    HollowIsDropped(n, sel, source, rendered, s0, s1);
    a := EmptyEdges(source, sel, r0, s0, s1);
  }

  lemma EmptyEdges(source: string, sel: Range, r: nat, s0: nat, s1: nat) returns (a: nat)
    requires s0 <= s1 <= |source| && BlankIn(source, s0, s1) && (r == sel.loc || r == sel.End())
    ensures Edged("", source, sel, r, r, s0, s1, a, a)
  {
    a := if r == sel.loc then s1 else s0;
    assert source[a..a] == "";
  }

  lemma {:induction false} NodeEdges(n: Node, sel: Range, source: string, rendered: string,
                                     r0: nat, r1: nat, s0: nat, s1: nat)
    returns (a: nat, b: nat)
    requires sel.loc <= r0 && r1 <= sel.End()
    requires Within(n, |rendered|, |source|) && NodeTiles(n, r0, r1, s0, s1)
    requires LooseNode(n, source) && EndsBlank(n, sel, source)
    ensures Edged(NodeCopy(n, sel, source, rendered), source, sel, r0, r1, s0, s1, a, b)
    ensures n.Leaf? && n.rendered.len > 0 ==> a == s0
    decreases n, 2
  {
    NodeOrdered(n, r0, r1, s0, s1);
    a, b := s0, s1;
    if HollowEnd(n.rendered, sel) {
      a := HollowEdges(n, sel, source, rendered, r0, r1, s0, s1);
      b := a;
    } else if n.Leaf? {
      ShownLeafIsCopied(n, sel, source, rendered);
      WholeEdges(NodeCopy(n, sel, source, rendered), source, sel, r0, r1, s0, s1);
    } else if FirmNodes(n.children, source) {
      FirmWrapperIsWhole(n, sel, source, rendered, r0, r1, s0, s1);
      WholeEdges(NodeCopy(n, sel, source, rendered), source, sel, r0, r1, s0, s1);
    } else {
      MissedIffHollow(n.rendered, sel);
      a, b := WrapperEdges(n, sel, source, rendered, r0, r1, s0, s1);
    }
  }

  lemma FirmWrapperIsWhole(n: Node, sel: Range, source: string, rendered: string,
                           r0: nat, r1: nat, s0: nat, s1: nat)
    requires sel.loc <= r0 && r1 <= sel.End()
    requires n.Wrapper? && Within(n, |rendered|, |source|) && NodeTiles(n, r0, r1, s0, s1)
    requires !HollowEnd(n.rendered, sel) && FirmNodes(n.children, source) && EndsBlank(n, sel, source)
    ensures s0 <= s1 <= |source| && NodeCopy(n, sel, source, rendered) == source[s0..s1]
  {
    FirmAreBare(n.children, sel, source, r0, r1, n.open.End(), n.close.loc);
    LosesNothingIff(n, sel, r0, r1, s0, s1);
    WholeNode(n, sel, source, rendered, r0, r1, s0, s1);
  }

  lemma {:induction false} WrapperEdges(n: Node, sel: Range, source: string, rendered: string,
                                        r0: nat, r1: nat, s0: nat, s1: nat)
    returns (a: nat, b: nat)
    requires sel.loc <= r0 && r1 <= sel.End()
    requires n.Wrapper? && Within(n, |rendered|, |source|) && NodeTiles(n, r0, r1, s0, s1) && s0 <= s1
    requires !HollowEnd(n.rendered, sel) && Touches(n.rendered, sel)
    requires n.close.len == 0 && (n.open.len == 0 || SolidFirst(n.children)) && LooseNodes(n.children, source)
    requires EndsBlank(n, sel, source)
    ensures Edged(NodeCopy(n, sel, source, rendered), source, sel, r0, r1, s0, s1, a, b)
    decreases n, 1
  {
    var open, close := n.open.End(), n.close.loc;
    NodesOrdered(n.children, r0, r1, open, close);
    a, b := NodesEdges(n.children, sel, source, rendered, r0, r1, open, close);
    assert NodeCopy(n, sel, source, rendered) == source[s0..open] + source[a..b] + source[close..s1];
    if n.open.len > 0 {
      SliceJoins(source, s0, open, b);
      a := s0;
    }
  }

  lemma {:induction false} NodesEdges(ns: seq<Node>, sel: Range, source: string, rendered: string,
                                      r0: nat, r1: nat, s0: nat, s1: nat)
    returns (a: nat, b: nat)
    requires sel.loc <= r0 && r1 <= sel.End()
    requires AllWithin(ns, |rendered|, |source|) && NodesTile(ns, r0, r1, s0, s1)
    requires s1 <= |source|
    requires LooseNodes(ns, source) && AllEndsBlank(ns, sel, source)
    ensures Edged(NodesCopy(ns, sel, source, rendered), source, sel, r0, r1, s0, s1, a, b)
    ensures SolidFirst(ns) ==> a == s0
    decreases ns, 0
  {
    if ns == [] {
      a, b := s0, s0;
    } else {
      var front, last := ns[..|ns| - 1], ns[|ns| - 1];
      var rm, sm := last.rendered.loc, last.SourceStart();
      NodesOrdered(front, r0, rm, s0, sm);
      NodeOrdered(last, rm, r1, sm, s1);
      var a1, b1 := NodesEdges(front, sel, source, rendered, r0, rm, s0, sm);
      var a2, b2 := NodeEdges(last, sel, source, rendered, rm, r1, sm, s1);
      a, b := EdgesOfLast(ns, sel, source, rendered, r0, r1, s0, s1, a1, b1, a2, b2);
      if |ns| > 1 && SolidFirst(ns) { SolidTakesRoom(front, r0, rm, s0, sm); }
    }
  }

  lemma EdgesOfLast(ns: seq<Node>, sel: Range, source: string, rendered: string,
                    r0: nat, r1: nat, s0: nat, s1: nat,
                    a1: nat, b1: nat, a2: nat, b2: nat)
    returns (a: nat, b: nat)
    requires sel.loc <= r0 && r1 <= sel.End()
    requires ns != [] && AllWithin(ns, |rendered|, |source|) && NodesTile(ns, r0, r1, s0, s1)
    requires s1 <= |source| && AllEndsBlank(ns, sel, source)
    requires var front, last := ns[..|ns| - 1], ns[|ns| - 1];
             var rm, sm := last.rendered.loc, last.SourceStart();
             && Edged(NodesCopy(front, sel, source, rendered), source, sel, r0, rm, s0, sm, a1, b1)
             && Edged(NodeCopy(last, sel, source, rendered), source, sel, rm, r1, sm, s1, a2, b2)
    ensures Edged(NodesCopy(ns, sel, source, rendered), source, sel, r0, r1, s0, s1, a, b)
    ensures a2 == ns[|ns| - 1].SourceStart() ==> a == a1
  {
    var front, last := ns[..|ns| - 1], ns[|ns| - 1];
    var rm, sm := last.rendered.loc, last.SourceStart();
    NodesOrdered(front, r0, rm, s0, sm);
    NodeOrdered(last, rm, r1, sm, s1);
    if rm == sel.loc { HollowsAreDropped(front, sel, source, rendered, r0, s0, sm); }
    if rm == r1 == sel.End() { HollowIsDropped(last, sel, source, rendered, sm, s1); }
    CopySnoc(ns, sel, source, rendered);
    a, b := EdgesJoin(NodesCopy(front, sel, source, rendered), NodeCopy(last, sel, source, rendered), source, sel,
                      r0, rm, r1, s0, sm, s1, a1, b1, a2, b2);
  }

  lemma {:induction false} SolidTakesRoom(ns: seq<Node>, r0: nat, r1: nat, s0: nat, s1: nat)
    requires SolidFirst(ns) && NodesTile(ns, r0, r1, s0, s1)
    ensures r0 < r1
    decreases |ns|
  {
    var front, last := ns[..|ns| - 1], ns[|ns| - 1];
    NodeOrdered(last, last.rendered.loc, r1, last.SourceStart(), s1);
    if |ns| > 1 { SolidTakesRoom(front, r0, last.rendered.loc, s0, last.SourceStart()); }
  }

  // ----- the theorem

  /** For every document: copying the whole run gives back the reconstructed source, both trimmed, if and
      only if what the hollow ends stand for is blank. */
  lemma WholeRunCopyTrimmed(prefix: string, bs: seq<Block>, sel: Range)
    requires SelectsAll(sel, TextAll(Document(prefix, bs)))
    ensures var ps := Document(prefix, bs);
            Trim(RunCopy(ps, sel), IsBlankOrNewline) == Trim(SourceAll(ps), IsBlankOrNewline) <==>
              AllEndsBlank(PlaceAll(ps, 0, 0), sel, SourceAll(ps))
  {
    var ps := Document(prefix, bs);
    var source := SourceAll(ps);
    PiecesTile(ps);
    BlocksAreLoose(prefix, 0, "\n\n", bs);
    assert source[0..|source|] == source;
    AllLoosePlaced(ps, 0, 0, source);
    TrimmedIff(PlaceAll(ps, 0, 0), sel, source, TextAll(ps));
  }

  /** Where nothing is to be trimmed off the source, a shorter copy is a different one. */
  lemma ShorterDiffers(copy: string, source: string)
    requires |copy| < |source| && !IsBlankOrNewline(source[0]) && !IsBlankOrNewline(source[|source| - 1])
    ensures Trim(copy, IsBlankOrNewline) != Trim(source, IsBlankOrNewline)
  {
    assert |Trim(copy, IsBlankOrNewline)| <= |copy|;
    assert Trim(source, IsBlankOrNewline) == source;
  }

  /** So the loss at an empty emphasis shows in the trimmed result. */
  lemma TrimmedCounterexample(sel: Range, copy: string)
    requires SelectsAll(sel, "x") && copy == RunCopy(Document("", HOLLOW), sel)
    ensures Trim(copy, IsBlankOrNewline) != Trim("**x", IsBlankOrNewline)
  {
    WholeRunCopyCounterexample(sel);
    ShorterDiffers(copy, "**x");
  }

  /** An empty selection touches nothing. */
  lemma {:induction false} NothingToCopy(ns: seq<Node>, sel: Range, source: string, rendered: string)
    requires AllWithin(ns, |rendered|, |source|) && sel.loc == sel.End()
    ensures NodesCopy(ns, sel, source, rendered) == ""
    decreases |ns|
  {
    if ns != [] {
      NothingToCopy(ns[..|ns| - 1], sel, source, rendered);
      CopySnoc(ns, sel, source, rendered);
      assert !Touches(ns[|ns| - 1].rendered, sel);
    }
  }

  lemma EmptyRunCopy(ps: seq<Piece>, sel: Range)
    requires sel.loc == sel.End()
    ensures RunCopy(ps, sel) == "" && Trim(RunCopy(ps, sel), IsBlankOrNewline) == ""
  {
    PiecesTile(ps);
    NothingToCopy(PlaceAll(ps, 0, 0), sel, SourceAll(ps), TextAll(ps));
  }

  lemma TrimmedIff(nodes: seq<Node>, sel: Range, source: string, rendered: string)
    requires SelectsAll(sel, rendered)
    requires AllWithin(nodes, |rendered|, |source|) && NodesTile(nodes, 0, |rendered|, 0, |source|)
    requires LooseNodes(nodes, source)
    ensures Trim(NodesCopy(nodes, sel, source, rendered), IsBlankOrNewline) == Trim(source, IsBlankOrNewline) <==>
              AllEndsBlank(nodes, sel, source)
  {
    var copy := NodesCopy(nodes, sel, source, rendered);
    if AllEndsBlank(nodes, sel, source) {
      var a, b := NodesEdges(nodes, sel, source, rendered, 0, |rendered|, 0, |source|);
      TrimMargins(source, a, b);
    } else {
      NodesInk(nodes, sel, source, rendered, 0, |rendered|, 0, |source|);
      assert source[0..|source|] == source;
      InkTrimmed(copy);
      InkTrimmed(source);
    }
  }
}
