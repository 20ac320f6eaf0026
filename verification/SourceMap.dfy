/** The rendered-to-source correspondence: where pieces land, how they tile, and what a selection yields. */
module SourceMap {
  import opened Basics
  import opened Markdown

  /** `NSRange`, in UTF-16 units. */
  datatype Range = Range(loc: nat, len: nat) {
    function End(): nat { loc + len }
  }

  datatype Node =
    | Leaf(rendered: Range, source: Range, literal: bool)
    | Wrapper(rendered: Range, open: Range, close: Range, children: seq<Node>)
  {
    function SourceStart(): nat { if Leaf? then source.loc else open.loc }
    function SourceEnd(): nat { if Leaf? then source.End() else close.End() }
  }

  // ----- placement: the nodes that pieces become at a given position of the two buffers

  function TextLength(p: Piece): nat {
    match p
    case Literal(text) => |text|
    case Mapped(shown, _) => |shown|
    case Wrap(_, _, parts) => TextLengths(parts)
  }

  function TextLengths(ps: seq<Piece>): nat {
    if ps == [] then 0 else TextLengths(ps[..|ps| - 1]) + TextLength(ps[|ps| - 1])
  }

  function SourceLength(p: Piece): nat {
    match p
    case Literal(text) => |text|
    case Mapped(_, source) => |source|
    case Wrap(open, close, parts) => |open| + SourceLengths(parts) + |close|
  }

  function SourceLengths(ps: seq<Piece>): nat {
    if ps == [] then 0 else SourceLengths(ps[..|ps| - 1]) + SourceLength(ps[|ps| - 1])
  }

  lemma {:induction false} PieceLengths(p: Piece)
    ensures TextLength(p) == |TextOf(p)| && SourceLength(p) == |SourceOf(p)|
    decreases p, 1
  {
    if p.Wrap? { AllLengths(p.parts); }
  }

  lemma {:induction false} AllLengths(ps: seq<Piece>)
    ensures TextLengths(ps) == |TextAll(ps)| && SourceLengths(ps) == |SourceAll(ps)|
    decreases ps, 0
  {
    if ps != [] {
      AllLengths(ps[..|ps| - 1]);
      PieceLengths(ps[|ps| - 1]);
    }
  }

  function Place(p: Piece, r: nat, s: nat): Node {
    match p
    case Literal(text) => Leaf(Range(r, |text|), Range(s, |text|), true)
    case Mapped(shown, source) => Leaf(Range(r, |shown|), Range(s, |source|), false)
    case Wrap(open, close, parts) =>
      Wrapper(Range(r, TextLengths(parts)), Range(s, |open|),
              Range(s + |open| + SourceLengths(parts), |close|), PlaceAll(parts, r, s + |open|))
  }

  function PlaceAll(ps: seq<Piece>, r: nat, s: nat): (ns: seq<Node>)
    ensures |ns| == |ps|
  {
    if ps == [] then []
    else
      var front := ps[..|ps| - 1];
      PlaceAll(front, r, s) + [Place(ps[|ps| - 1], r + TextLengths(front), s + SourceLengths(front))]
  }

  lemma PlaceLast(ps: seq<Piece>, r: nat, s: nat)
    requires ps != []
    ensures var front, last := ps[..|ps| - 1], ps[|ps| - 1];
            var ns := PlaceAll(ps, r, s);
            && ns[..|ps| - 1] == PlaceAll(front, r, s)
            && ns[|ps| - 1] == Place(last, r + TextLengths(front), s + SourceLengths(front))
  {
  }

  lemma PlaceSnoc(ps: seq<Piece>, r: nat, s: nat)
    requires ps != []
    ensures var front, last := ps[..|ps| - 1], ps[|ps| - 1];
            PlaceAll(ps, r, s) ==
              PlaceAll(front, r, s) + [Place(last, r + TextLengths(front), s + SourceLengths(front))]
  {
  }

  // ----- tiling

  /** The node occupies exactly `[r0, r1)` of the rendered text and `[s0, s1)` of the source; inside a
      wrapper, open delimiter, children and close delimiter tile its source, and the children tile its
      rendered range. */
  ghost predicate NodeTiles(n: Node, r0: nat, r1: nat, s0: nat, s1: nat) {
    && n.rendered.loc == r0 && n.rendered.End() == r1
    && n.SourceStart() == s0 && n.SourceEnd() == s1
    && match n
       case Leaf(rr, ss, literal) => literal ==> rr.len == ss.len
       case Wrapper(_, open, close, children) => NodesTile(children, r0, r1, open.End(), close.loc)
  }

  ghost predicate NodesTile(ns: seq<Node>, r0: nat, r1: nat, s0: nat, s1: nat) {
    if ns == [] then r0 == r1 && s0 == s1
    else
      var last := ns[|ns| - 1];
      && NodesTile(ns[..|ns| - 1], r0, last.rendered.loc, s0, last.SourceStart())
      && NodeTiles(last, last.rendered.loc, r1, last.SourceStart(), s1)
  }

  /** Placement tiles both buffers, recursively, and no other extent. */
  lemma {:induction false} PlaceTilesIff(p: Piece, r: nat, r1: nat, s: nat, s1: nat)
    ensures NodeTiles(Place(p, r, s), r, r1, s, s1) <==> r1 == r + TextLength(p) && s1 == s + SourceLength(p)
    decreases p, 1
  {
    if p.Wrap? {
      PlaceAllTilesIff(p.parts, r, r + TextLengths(p.parts), s + |p.open|, s + |p.open| + SourceLengths(p.parts));
    }
  }

  lemma {:induction false} PlaceAllTilesIff(ps: seq<Piece>, r: nat, r1: nat, s: nat, s1: nat)
    ensures NodesTile(PlaceAll(ps, r, s), r, r1, s, s1) <==> r1 == r + TextLengths(ps) && s1 == s + SourceLengths(ps)
    decreases ps, 0
  {
    if ps != [] {
      var front, last := ps[..|ps| - 1], ps[|ps| - 1];
      var rm, sm := r + TextLengths(front), s + SourceLengths(front);
      PlaceSnoc(ps, r, s);
      PlaceAllTilesIff(front, r, rm, s, sm);
      PlaceTilesIff(last, rm, r1, sm, s1);
      TileSnoc(PlaceAll(front, r, s), Place(last, rm, sm), r, r1, s, s1);
    }
  }

  lemma TileSnoc(a: seq<Node>, n: Node, r0: nat, r1: nat, s0: nat, s1: nat)
    ensures NodesTile(a + [n], r0, r1, s0, s1) <==>
              NodesTile(a, r0, n.rendered.loc, s0, n.SourceStart()) &&
              NodeTiles(n, n.rendered.loc, r1, n.SourceStart(), s1)
  {
    assert (a + [n])[..|a|] == a;
  }

  lemma PlaceTiles(p: Piece, r: nat, s: nat)
    ensures NodeTiles(Place(p, r, s), r, r + TextLength(p), s, s + SourceLength(p))
  {
    PlaceTilesIff(p, r, r + TextLength(p), s, s + SourceLength(p));
  }

  lemma PlaceAllTiles(ps: seq<Piece>, r: nat, s: nat)
    ensures NodesTile(PlaceAll(ps, r, s), r, r + TextLengths(ps), s, s + SourceLengths(ps))
  {
    PlaceAllTilesIff(ps, r, r + TextLengths(ps), s, s + SourceLengths(ps));
  }

  // ----- literal leaves

  /** Every literal leaf has the same characters on both sides. */
  ghost predicate Agrees(n: Node, rendered: string, source: string)
    requires Within(n, |rendered|, |source|)
    decreases n, 1
  {
    match n
    case Leaf(rr, ss, literal) => literal ==> Slice(rendered, rr) == Slice(source, ss)
    case Wrapper(_, _, _, children) => AllAgree(children, rendered, source)
  }

  ghost predicate AllAgree(ns: seq<Node>, rendered: string, source: string)
    requires AllWithin(ns, |rendered|, |source|)
    decreases ns, 0
  {
    ns == [] || (AllAgree(ns[..|ns| - 1], rendered, source) && Agrees(ns[|ns| - 1], rendered, source))
  }

  /** The `length` characters of `text` from position `at` on, if there are as many. */
  function Excerpt(text: string, at: nat, length: nat): Option<string> {
    if at + length <= |text| then Some(text[at..at + length]) else None
  }

  /** `text` reads `part` from position `at` on. */
  predicate Reads(text: string, at: nat, part: string) {
    Excerpt(text, at, |part|) == Some(part)
  }

  lemma ReadsBoth(text: string, at: nat, whole: string, a: string, b: string)
    requires whole == a + b && Reads(text, at, whole)
    ensures Reads(text, at, a) && Reads(text, at + |a|, b)
  {
    assert text[at..at + |a|] == whole[..|a|];
    assert text[at + |a|..at + |whole|] == whole[|a|..];
  }

  lemma SourceOfParts(p: Piece, s: nat, source: string)
    requires p.Wrap? && Reads(source, s, SourceOf(p))
    ensures Reads(source, s + |p.open|, SourceAll(p.parts))
  {
    var inner := SourceAll(p.parts);
    ReadsBoth(source, s, SourceOf(p), p.open + inner, p.close);
    ReadsBoth(source, s, p.open + inner, p.open, inner);
  }

  lemma SourceOfFront(ps: seq<Piece>, s: nat, source: string)
    requires ps != [] && Reads(source, s, SourceAll(ps))
    ensures Reads(source, s, SourceAll(ps[..|ps| - 1]))
  {
    ReadsBoth(source, s, SourceAll(ps), SourceAll(ps[..|ps| - 1]), SourceOf(ps[|ps| - 1]));
  }

  lemma SourceOfLast(ps: seq<Piece>, s: nat, sm: nat, source: string)
    requires ps != [] && sm == s + |SourceAll(ps[..|ps| - 1])| && Reads(source, s, SourceAll(ps))
    ensures Reads(source, sm, SourceOf(ps[|ps| - 1]))
  {
    ReadsBoth(source, s, SourceAll(ps), SourceAll(ps[..|ps| - 1]), SourceOf(ps[|ps| - 1]));
  }

  lemma TextOfFront(ps: seq<Piece>, r: nat, rendered: string)
    requires ps != [] && Reads(rendered, r, TextAll(ps))
    ensures Reads(rendered, r, TextAll(ps[..|ps| - 1]))
  {
    ReadsBoth(rendered, r, TextAll(ps), TextAll(ps[..|ps| - 1]), TextOf(ps[|ps| - 1]));
  }

  lemma TextOfLast(ps: seq<Piece>, r: nat, rm: nat, rendered: string)
    requires ps != [] && rm == r + |TextAll(ps[..|ps| - 1])| && Reads(rendered, r, TextAll(ps))
    ensures Reads(rendered, rm, TextOf(ps[|ps| - 1]))
  {
    ReadsBoth(rendered, r, TextAll(ps), TextAll(ps[..|ps| - 1]), TextOf(ps[|ps| - 1]));
  }

  lemma {:induction false} PlaceWithin(p: Piece, r: nat, s: nat, rlen: nat, slen: nat)
    requires r + TextLength(p) <= rlen && s + SourceLength(p) <= slen
    ensures Within(Place(p, r, s), rlen, slen)
    decreases p, 1
  {
    if p.Wrap? { PlaceAllWithin(p.parts, r, s + |p.open|, rlen, slen); }
  }

  lemma {:induction false} PlaceAllWithin(ps: seq<Piece>, r: nat, s: nat, rlen: nat, slen: nat)
    requires r + TextLengths(ps) <= rlen && s + SourceLengths(ps) <= slen
    ensures AllWithin(PlaceAll(ps, r, s), rlen, slen)
    decreases ps, 0
  {
    if ps != [] {
      var front, last := ps[..|ps| - 1], ps[|ps| - 1];
      PlaceSnoc(ps, r, s);
      PlaceAllWithin(front, r, s, rlen, slen);
      PlaceWithin(last, r + TextLengths(front), s + SourceLengths(front), rlen, slen);
      WithinSnoc(PlaceAll(front, r, s), Place(last, r + TextLengths(front), s + SourceLengths(front)), rlen, slen);
    }
  }

  lemma WithinSnoc(a: seq<Node>, n: Node, rlen: nat, slen: nat)
    ensures AllWithin(a + [n], rlen, slen) <==> AllWithin(a, rlen, slen) && Within(n, rlen, slen)
  {
    assert (a + [n])[..|a|] == a;
  }

  lemma {:induction false} PlaceAgrees(p: Piece, rendered: string, source: string, r: nat, s: nat)
    requires Reads(rendered, r, TextOf(p)) && Reads(source, s, SourceOf(p))
    requires Within(Place(p, r, s), |rendered|, |source|)
    ensures Agrees(Place(p, r, s), rendered, source)
    decreases p, 1
  {
    if p.Wrap? {
      SourceOfParts(p, s, source);
      PlaceAllAgree(p.parts, rendered, source, r, s + |p.open|);
    }
  }

  lemma {:induction false} PlaceAllAgree(ps: seq<Piece>, rendered: string, source: string, r: nat, s: nat)
    requires Reads(rendered, r, TextAll(ps)) && Reads(source, s, SourceAll(ps))
    requires AllWithin(PlaceAll(ps, r, s), |rendered|, |source|)
    ensures AllAgree(PlaceAll(ps, r, s), rendered, source)
    decreases ps, 0, 1
  {
    if ps != [] {
      var front, last := ps[..|ps| - 1], ps[|ps| - 1];
      var a, n := PlaceAll(front, r, s), Place(last, r + TextLengths(front), s + SourceLengths(front));
      PlaceSnoc(ps, r, s);
      WithinSnoc(a, n, |rendered|, |source|);
      assert AllAgree(a, rendered, source) by {
        TextOfFront(ps, r, rendered);
        SourceOfFront(ps, s, source);
        PlaceAllAgree(front, rendered, source, r, s);
      }
      assert Agrees(n, rendered, source) by { PlaceLastAgrees(ps, rendered, source, r, s); }
      AgreeSnoc(a, n, rendered, source);
    }
  }

  lemma {:induction false} PlaceLastAgrees(ps: seq<Piece>, rendered: string, source: string, r: nat, s: nat)
    requires ps != [] && Reads(rendered, r, TextAll(ps)) && Reads(source, s, SourceAll(ps))
    requires var front := ps[..|ps| - 1];
             Within(Place(ps[|ps| - 1], r + TextLengths(front), s + SourceLengths(front)), |rendered|, |source|)
    ensures var front := ps[..|ps| - 1];
            Agrees(Place(ps[|ps| - 1], r + TextLengths(front), s + SourceLengths(front)), rendered, source)
    decreases ps, 0, 0
  {
    var front, last := ps[..|ps| - 1], ps[|ps| - 1];
    var rm, sm := r + TextLengths(front), s + SourceLengths(front);
    AllLengths(front);
    TextOfLast(ps, r, rm, rendered);
    SourceOfLast(ps, s, sm, source);
    PlaceAgrees(last, rendered, source, rm, sm);
  }

  lemma AgreeSnoc(a: seq<Node>, n: Node, rendered: string, source: string)
    requires AllWithin(a + [n], |rendered|, |source|)
    requires AllWithin(a, |rendered|, |source|) && Within(n, |rendered|, |source|)
    requires AllAgree(a, rendered, source) && Agrees(n, rendered, source)
    ensures AllAgree(a + [n], rendered, source)
  {
    assert (a + [n])[..|a|] == a;
  }

  lemma PiecesTile(ps: seq<Piece>)
    ensures NodesTile(PlaceAll(ps, 0, 0), 0, |TextAll(ps)|, 0, |SourceAll(ps)|)
    ensures AllWithin(PlaceAll(ps, 0, 0), |TextAll(ps)|, |SourceAll(ps)|)
    ensures AllAgree(PlaceAll(ps, 0, 0), TextAll(ps), SourceAll(ps))
  {
    AllLengths(ps);
    PlaceAllTiles(ps, 0, 0);
    PlaceAllWithin(ps, 0, 0, |TextAll(ps)|, |SourceAll(ps)|);
    assert TextAll(ps)[0..|TextAll(ps)|] == TextAll(ps);
    assert SourceAll(ps)[0..|SourceAll(ps)|] == SourceAll(ps);
    PlaceAllAgree(ps, TextAll(ps), SourceAll(ps), 0, 0);
  }

  /** The tiling theorem for whole documents: the nodes tile rendered text and source in order,
      recursively; every range is in bounds; every literal leaf is the same text on both sides. */
  lemma DocumentTiles(prefix: string, bs: seq<Block>)
    ensures var ps := Document(prefix, bs);
            var nodes := PlaceAll(ps, 0, 0);
            && NodesTile(nodes, 0, |TextAll(ps)|, 0, |SourceAll(ps)|)
            && AllWithin(nodes, |TextAll(ps)|, |SourceAll(ps)|)
            && AllAgree(nodes, TextAll(ps), SourceAll(ps))
  {
    PiecesTile(Document(prefix, bs));
  }

  // ----- what every substring call needs

  /** Every range in the tree lies inside its buffer, and a literal leaf is equally long on both sides. */
  predicate Within(n: Node, rlen: nat, slen: nat) {
    n.rendered.End() <= rlen &&
    match n
    case Leaf(rr, ss, literal) => ss.End() <= slen && (literal ==> rr.len == ss.len)
    case Wrapper(_, open, close, children) =>
      open.End() <= slen && close.End() <= slen && AllWithin(children, rlen, slen)
  }

  predicate AllWithin(ns: seq<Node>, rlen: nat, slen: nat) {
    ns == [] || (AllWithin(ns[..|ns| - 1], rlen, slen) && Within(ns[|ns| - 1], rlen, slen))
  }

  // ----- selection

  predicate Overlaps(a: Range, b: Range) {
    Max(a.loc, b.loc) < Min(a.End(), b.End())
  }

  /** `NSIntersectionRange` of ranges that overlap. Of any other pair only its zero length is ever read. */
  function Overlap(a: Range, b: Range): (r: Range)
    requires Overlaps(a, b)
    ensures a.loc <= r.loc && b.loc <= r.loc && r.End() <= a.End() && r.End() <= b.End()
  {
    var lo, hi := Max(a.loc, b.loc), Min(a.End(), b.End());
    Range(lo, hi - lo)
  }

  predicate Touches(range: Range, sel: Range) {
    Overlaps(range, sel) || (range.len == 0 && sel.loc < range.loc < sel.End())
  }

  predicate Contained(range: Range, sel: Range) {
    sel.loc <= range.loc && range.End() <= sel.End()
  }

  /** What the walk has produced: the characters appended, and the rendered positions they stand for. */
  datatype Copy = Copy(text: string, positions: seq<int>)

  const NOTHING := Copy("", [])

  function Join(a: Copy, b: Copy): Copy {
    Copy(a.text + b.text, a.positions + b.positions)
  }

  /** The positions `[from, to)`, in order. */
  function Upto(from: int, to: int): (r: seq<int>)
    ensures |r| == (if from < to then to - from else 0) && forall k :: 0 <= k < |r| ==> r[k] == from + k
  {
    seq(if from < to then to - from else 0, k requires 0 <= k => from + k)
  }

  function Slice(s: string, r: Range): string
    requires r.End() <= |s|
  {
    s[r.loc..r.End()]
  }

  function CopyOfLeaf(n: Node, sel: Range, source: string, rendered: string): Copy
    requires n.Leaf? && Within(n, |rendered|, |source|)
  {
    var rr, ss := n.rendered, n.source;
    if !Touches(rr, sel) then NOTHING
    else if Contained(rr, sel) then Copy(Slice(source, ss), Upto(rr.loc, rr.End()))
    else
      var overlap := Overlap(rr, sel);
      Copy(if n.literal then Slice(source, Range(ss.loc + (overlap.loc - rr.loc), overlap.len))
           else Slice(rendered, overlap),
           Upto(overlap.loc, overlap.End()))
  }

  function CopyOf(n: Node, sel: Range, source: string, rendered: string): Copy
    requires Within(n, |rendered|, |source|)
    decreases n, 1
  {
    if n.Leaf? then CopyOfLeaf(n, sel, source, rendered)
    else if !Touches(n.rendered, sel) then NOTHING
    else
      var inner := CopyAll(n.children, sel, source, rendered);
      if Contained(n.rendered, sel) then
        Copy(Slice(source, n.open) + inner.text + Slice(source, n.close), inner.positions)
      else inner
  }

  function CopyAll(ns: seq<Node>, sel: Range, source: string, rendered: string): Copy
    requires AllWithin(ns, |rendered|, |source|)
    decreases ns, 0
  {
    if ns == [] then NOTHING
    else Join(CopyAll(ns[..|ns| - 1], sel, source, rendered), CopyOf(ns[|ns| - 1], sel, source, rendered))
  }

  // ----- the walk itself

  lemma Reassociate(a: string, b: string, c: string, d: string)
    ensures a + b + c + d == a + (b + c + d)
    ensures b + c + d == b + (c + d)
  {
  }

  /** `SourceNode.append`. */
  method Append(out: string, n: Node, sel: Range, source: string, rendered: string) returns (r: string)
    requires Within(n, |rendered|, |source|)
    ensures r == out + CopyOf(n, sel, source, rendered).text
    decreases n, 1
  {
    if !Touches(n.rendered, sel) { return out; }
    var contained := Contained(n.rendered, sel);
    match n {
      case Leaf(rr, ss, literal) =>
        if contained {
          r := out + Slice(source, ss);
        } else {
          var overlap := Overlap(rr, sel);
          r := out + if literal then Slice(source, Range(ss.loc + (overlap.loc - rr.loc), overlap.len))
                     else Slice(rendered, overlap);
        }
      case Wrapper(_, open, close, children) =>
        ghost var inner := CopyAll(children, sel, source, rendered).text;
        if contained {
          Reassociate(out, Slice(source, open), inner, Slice(source, close));
          r := AppendAll(out + Slice(source, open), children, sel, source, rendered);
          r := r + Slice(source, close);
        } else {
          r := AppendAll(out, children, sel, source, rendered);
        }
    }
  }

  method AppendAll(out: string, ns: seq<Node>, sel: Range, source: string, rendered: string) returns (r: string)
    requires AllWithin(ns, |rendered|, |source|)
    ensures r == out + CopyAll(ns, sel, source, rendered).text
    decreases ns, 0
  {
    r := out;
    for k := 0 to |ns|
      invariant AllWithin(ns[..k], |rendered|, |source|)
      invariant r == out + CopyAll(ns[..k], sel, source, rendered).text
    {
      CopyNext(ns, k, sel, source, rendered);
      Reassociate("", out, CopyAll(ns[..k], sel, source, rendered).text, CopyOf(ns[k], sel, source, rendered).text);
      r := Append(r, ns[k], sel, source, rendered);
    }
    assert ns[..|ns|] == ns;
  }

  lemma CopyNext(ns: seq<Node>, k: nat, sel: Range, source: string, rendered: string)
    requires AllWithin(ns, |rendered|, |source|) && k < |ns|
    ensures AllWithin(ns[..k], |rendered|, |source|) && AllWithin(ns[..k + 1], |rendered|, |source|)
    ensures Within(ns[k], |rendered|, |source|)
    ensures CopyAll(ns[..k + 1], sel, source, rendered) ==
              Join(CopyAll(ns[..k], sel, source, rendered), CopyOf(ns[k], sel, source, rendered))
  {
    PrefixWithin(ns, k + 1, |rendered|, |source|);
    assert ns[..k + 1][..k] == ns[..k];
  }

  lemma {:induction false} PrefixWithin(ns: seq<Node>, k: nat, rlen: nat, slen: nat)
    requires AllWithin(ns, rlen, slen) && k <= |ns|
    ensures AllWithin(ns[..k], rlen, slen)
    decreases |ns|
  {
    if k == |ns| {
      assert ns[..k] == ns;
    } else {
      PrefixWithin(ns[..|ns| - 1], k, rlen, slen);
      assert ns[..|ns| - 1][..k] == ns[..k];
    }
  }

  /** `MarkdownSourceMap.markdown(for:)`. */
  method MarkdownFor(nodes: seq<Node>, sel: Range, source: string, rendered: string) returns (r: string)
    requires AllWithin(nodes, |rendered|, |source|)
    ensures r == if sel.len == 0 then "" else Trim(CopyAll(nodes, sel, source, rendered).text, IsBlankOrNewline)
  {
    if sel.len == 0 { return ""; }
    var out := AppendAll("", nodes, sel, source, rendered);
    assert out == CopyAll(nodes, sel, source, rendered).text;
    return Trim(out, IsBlankOrNewline);
  }
}
