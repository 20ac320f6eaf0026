/** The one-pass builder: mutating recursive methods that append to both buffers and return nodes. */
module Builder {
  import opened Basics
  import opened Markdown
  import opened SourceMap
  import opened Selection
  import opened WholeRun
  import opened Rendering

  datatype Output = Output(out: string, src: string, nodes: seq<Node>)

  /** What writing the pieces after the given contents leaves: both buffers longer, and the placement. */
  ghost function Emitted(out: string, src: string, ps: seq<Piece>): Output {
    Output(out + TextAll(ps), src + SourceAll(ps), PlaceAll(ps, |out|, |src|))
  }

  /** Between two states of the buffers exactly these pieces were written, and `nodes` is their placement. */
  ghost predicate Wrote(out0: string, src0: string, out1: string, src1: string, ps: seq<Piece>, nodes: seq<Node>) {
    Output(out1, src1, nodes) == Emitted(out0, src0, ps)
  }

  lemma {:induction false} PlaceAppend(a: seq<Piece>, b: seq<Piece>, r: nat, s: nat)
    ensures TextLengths(a + b) == TextLengths(a) + TextLengths(b)
    ensures SourceLengths(a + b) == SourceLengths(a) + SourceLengths(b)
    ensures PlaceAll(a + b, r, s) == PlaceAll(a, r, s) + PlaceAll(b, r + TextLengths(a), s + SourceLengths(a))
    decreases |b|
  {
    if b == [] {
      assert a + b == a;
    } else {
      assert (a + b)[..|a + b| - 1] == a + b[..|b| - 1];
      PlaceAppend(a, b[..|b| - 1], r, s);
    }
  }

  lemma WroteNothing(out: string, src: string)
    ensures Wrote(out, src, out, src, [], [])
  {
  }

  /** Writing in sequence: the text, the source, and the nodes. */
  lemma WroteBoth(out0: string, src0: string, out1: string, src1: string, out2: string, src2: string,
                  a: seq<Piece>, b: seq<Piece>, na: seq<Node>, nb: seq<Node>)
    requires Wrote(out0, src0, out1, src1, a, na) && Wrote(out1, src1, out2, src2, b, nb)
    ensures Wrote(out0, src0, out2, src2, a + b, na + nb)
  {
    AppendBoth(out0, out1, out2, TextAll(a), TextAll(b), TextAll(a + b)) by { TextAppend(a, b); }
    AppendBoth(src0, src1, src2, SourceAll(a), SourceAll(b), SourceAll(a + b)) by { SourceAppend(a, b); }
    PlacedBoth(|out0|, |src0|, |out1|, |src1|, a, b, na, nb) by { AllLengths(a); }
  }

  lemma AppendBoth(s0: string, s1: string, s2: string, a: string, b: string, ab: string)
    requires s1 == s0 + a && s2 == s1 + b && ab == a + b
    ensures s2 == s0 + ab
  {
  }

  lemma PlacedBoth(r0: nat, s0: nat, r1: nat, s1: nat, a: seq<Piece>, b: seq<Piece>, na: seq<Node>, nb: seq<Node>)
    requires r1 == r0 + TextLengths(a) && s1 == s0 + SourceLengths(a)
    requires na == PlaceAll(a, r0, s0) && nb == PlaceAll(b, r1, s1)
    ensures na + nb == PlaceAll(a + b, r0, s0)
  {
    PlaceAppend(a, b, r0, s0);
  }

  lemma OnePiece(p: Piece, r: nat, s: nat)
    ensures TextAll([p]) == TextOf(p) && SourceAll([p]) == SourceOf(p) && PlaceAll([p], r, s) == [Place(p, r, s)]
  {
    assert [p][..0] == [];
  }

  /** Writing a wrapper: open delimiter, content, close delimiter. */
  lemma WroteWrapper(out0: string, src0: string, out1: string, src1: string, open: string, close: string,
                     ps: seq<Piece>, nodes: seq<Node>)
    requires Wrote(out0, src0 + open, out1, src1, ps, nodes)
    ensures |out0| <= |out1|
    ensures Wrote(out0, src0, out1, src1 + close, [Wrap(open, close, ps)],
                  [Wrapper(Range(|out0|, |out1| - |out0|), Range(|src0|, |open|), Range(|src1|, |close|), nodes)])
  {
    var w := Wrap(open, close, ps);
    OnePiece(w, |out0|, |src0|);
    Reassociate(src0, open, SourceAll(ps), close);
    WrapperPlaced(w, |out0|, |src0|);
  }

  lemma WrapperPlaced(w: Piece, r: nat, s: nat)
    requires w.Wrap?
    ensures Place(w, r, s) == Wrapper(Range(r, |TextAll(w.parts)|), Range(s, |w.open|),
                                      Range(s + |w.open| + |SourceAll(w.parts)|, |w.close|),
                                      PlaceAll(w.parts, r, s + |w.open|))
  {
    AllLengths(w.parts);
  }

  lemma ItemsUpTo(prefix: string, depth: nat, ordered: bool, start: int, items: seq<Item>, k: nat)
    requires k < |items|
    ensures ItemPieces(prefix, depth, ordered, start, items[..k + 1]) ==
              ItemPieces(prefix, depth, ordered, start, items[..k]) +
              NextItem(prefix, depth, ordered, start, k, items[k])
  {
    assert items[..k + 1][..k] == items[..k];
  }

  lemma BodyUpTo(prefix: string, depth: nat, bs: seq<Block>, k: nat)
    requires k < |bs|
    ensures BodyPieces(prefix, depth, bs[..k + 1]) ==
              BodyPieces(prefix, depth, bs[..k]) + NextInBody(prefix, depth, k, bs[k])
  {
    assert bs[..k + 1][..k] == bs[..k];
  }

  class Builder {
    const prefix: string
    var out: string
    var src: string
    var roots: seq<Node>

    constructor (sourcePrefix: string)
      ensures prefix == sourcePrefix && out == "" && src == "" && roots == []
    {
      prefix, out, src, roots := sourcePrefix, "", "", [];
    }

    // ----- primitives

    method WriteLiteral(text: string) returns (node: Node)
      modifies this`out, this`src
      ensures Wrote(old(out), old(src), out, src, [Literal(text)], [node])
    {
      node := Leaf(Range(|out|, |text|), Range(|src|, |text|), true);
      OnePiece(Literal(text), |out|, |src|);
      out := out + text;
      src := src + text;
    }

    method WriteMapped(text: string, source: string) returns (node: Node)
      modifies this`out, this`src
      ensures Wrote(old(out), old(src), out, src, [Mapped(text, source)], [node])
    {
      node := Leaf(Range(|out|, |text|), Range(|src|, |source|), false);
      OnePiece(Mapped(text, source), |out|, |src|);
      out := out + text;
      src := src + source;
    }

    method WriteSeparator(source: string) returns (node: Node)
      modifies this`out, this`src
      ensures Wrote(old(out), old(src), out, src, [Separator(source)], [node])
    {
      node := WriteMapped("\n", source);
    }

    method WriteGap(n: nat, source: string) returns (nodes: seq<Node>)
      modifies this`out, this`src
      ensures Wrote(old(out), old(src), out, src, Gap(n, source), nodes)
    {
      if n > 0 {
        var node := WriteSeparator(source);
        nodes := [node];
      } else {
        nodes := [];
        WroteNothing(out, src);
      }
    }

    // ----- spans

    /** `delimited` around inline content. */
    method WriteDelimited(open: string, close: string, spans: seq<Span>) returns (node: Node)
      modifies this`out, this`src
      ensures Wrote(old(out), old(src), out, src, [Wrap(open, close, InlinePieces(spans))], [node])
      decreases spans, 2
    {
      var renderedStart, sourceStart := |out|, |src|;
      src := src + open;
      var children := WriteInline(spans);
      WroteWrapper(old(out), old(src), out, src, open, close, InlinePieces(spans), children);
      node := Wrapper(Range(renderedStart, |out| - renderedStart), Range(sourceStart, |open|),
                      Range(|src|, |close|), children);
      src := src + close;
    }

    method WriteInline(spans: seq<Span>) returns (nodes: seq<Node>)
      modifies this`out, this`src
      ensures Wrote(old(out), old(src), out, src, InlinePieces(spans), nodes)
      decreases spans, 1
    {
      nodes := [];
      WroteNothing(out, src);
      for k := 0 to |spans|
        invariant Wrote(old(out), old(src), out, src, InlinePieces(spans[..k]), nodes)
      {
        ghost var out1, src1 := out, src;
        var more := WriteSpan(spans[k]);
        WroteBoth(old(out), old(src), out1, src1, out, src, InlinePieces(spans[..k]), SpanPieces(spans[k]),
                  nodes, more);
        nodes := nodes + more;
        assert spans[..k + 1][..k] == spans[..k];
      }
      assert spans[..|spans|] == spans;
    }

    method WriteSpan(span: Span) returns (nodes: seq<Node>)
      modifies this`out, this`src
      ensures Wrote(old(out), old(src), out, src, SpanPieces(span), nodes)
      decreases span, 3
    {
      match span {
        case Plain(text) => var n := WriteLiteral(text); nodes := [n];
        case Emphasis(spans) => var n := WriteDelimited("*", "*", spans); nodes := [n];
        case Strong(spans) => var n := WriteDelimited("**", "**", spans); nodes := [n];
        case Strike(spans) => var n := WriteDelimited("~~", "~~", spans); nodes := [n];
        case Code(text) =>
          var longest := LongestBacktickRun(text);
          var fence := Ticks(longest + 1);
          var n := WriteMapped(text, fence + text + fence);
          nodes := [n];
        case Link(url, title, spans) => var n := WriteDelimited("[", LinkClose(url, title), spans); nodes := [n];
        case FootnoteRef(name) => var n := WriteMapped(name, "[^" + name + "]"); nodes := [n];
        case Break(hard) =>
          var n := WriteMapped(if hard then "\n" else " ", if hard then "  \n" else "\n");
          nodes := [n];
        case UnknownSpan => nodes := []; WroteNothing(out, src);
      }
    }

    // ----- blocks

    /** `opened` around inline content: a source-only prefix, then the spans. */
    method WriteOpened(open: string, spans: seq<Span>) returns (node: Node)
      modifies this`out, this`src
      ensures Wrote(old(out), old(src), out, src, [Wrap(open, "", InlinePieces(spans))], [node])
    {
      var n := WriteDelimited(open, "", spans);
      return n;
    }

    method WriteBlock(b: Block, depth: nat) returns (nodes: seq<Node>)
      modifies this`out, this`src
      ensures Wrote(old(out), old(src), out, src, BlockPieces(prefix, depth, b), nodes)
      decreases b, 2
    {
      match b {
        case Paragraph(spans) => var n := WriteOpened(LinePrefix(prefix, depth), spans); nodes := [n];
        case Heading(level, spans) =>
          var n := WriteOpened(LinePrefix(prefix, depth) + Hashes(level) + " ", spans);
          nodes := [n];
        case List(ordered, start, items) => var n := WriteList(ordered, start, items, depth); nodes := [n];
        case Html(raw) =>
          var n := WriteHtml(raw, depth);
          nodes := [n];
        case FootnoteDef(name, blocks) => var n := WriteFootnote(name, blocks, depth); nodes := [n];
        case Native => nodes := []; WroteNothing(out, src);
      }
    }

    method WriteHtml(raw: string, depth: nat) returns (node: Node)
      modifies this`out, this`src
      ensures Wrote(old(out), old(src), out, src, [Wrap(LinePrefix(prefix, depth), "", [Literal(raw)])], [node])
    {
      var open, start, sourceStart := LinePrefix(prefix, depth), |out|, |src|;
      src := src + open;
      var child := WriteLiteral(raw);
      WroteWrapper(old(out), old(src), out, src, open, "", [Literal(raw)], [child]);
      node := Wrapper(Range(start, |out| - start), Range(sourceStart, |open|), Range(|src|, 0), [child]);
      assert src + "" == src;
    }

    method WriteFootnote(name: string, blocks: seq<Block>, depth: nat) returns (node: Node)
      modifies this`out, this`src
      ensures Wrote(old(out), old(src), out, src,
                    [Wrap(LinePrefix(prefix, depth) + "[^" + name + "]: ", "",
                          [Mapped(name + ". ", "")] + BlocksPieces(prefix, depth + 1, "\n", blocks))], [node])
      decreases blocks, 2
    {
      var open, start, sourceStart := LinePrefix(prefix, depth) + "[^" + name + "]: ", |out|, |src|;
      src := src + open;
      ghost var src1 := src;
      var marker := WriteMapped(name + ". ", "");
      ghost var out2, src2 := out, src;
      var inner := WriteBlocks(blocks, depth + 1, "\n");
      ghost var ps := [Mapped(name + ". ", "")] + BlocksPieces(prefix, depth + 1, "\n", blocks);
      WroteBoth(old(out), src1, out2, src2, out, src, [Mapped(name + ". ", "")],
                BlocksPieces(prefix, depth + 1, "\n", blocks), [marker], inner);
      WroteWrapper(old(out), old(src), out, src, open, "", ps, [marker] + inner);
      node := Wrapper(Range(start, |out| - start), Range(sourceStart, |open|), Range(|src|, 0), [marker] + inner);
      assert src + "" == src;
    }

    /** Blocks joined by separators; the loop of `blocks` and of a footnote's body. */
    method WriteBlocks(bs: seq<Block>, depth: nat, gap: string) returns (nodes: seq<Node>)
      modifies this`out, this`src
      ensures Wrote(old(out), old(src), out, src, BlocksPieces(prefix, depth, gap, bs), nodes)
      decreases bs, 1
    {
      nodes := [];
      WroteNothing(out, src);
      for k := 0 to |bs|
        invariant Wrote(old(out), old(src), out, src, BlocksPieces(prefix, depth, gap, bs[..k]), nodes)
      {
        ghost var done := BlocksPieces(prefix, depth, gap, bs[..k]);
        assert bs[..k + 1][..k] == bs[..k];
        ghost var out1, src1 := out, src;
        var sep := WriteGap(k, gap);
        ghost var out2, src2 := out, src;
        var more := WriteBlock(bs[k], depth);
        WroteBoth(out1, src1, out2, src2, out, src, Gap(k, gap), BlockPieces(prefix, depth, bs[k]), sep, more);
        WroteBoth(old(out), old(src), out1, src1, out, src, done,
                  Gap(k, gap) + BlockPieces(prefix, depth, bs[k]), nodes, sep + more);
        nodes := nodes + (sep + more);
      }
      assert bs[..|bs|] == bs;
    }

    method WriteList(ordered: bool, start: int, items: seq<Item>, depth: nat) returns (node: Node)
      modifies this`out, this`src
      ensures Wrote(old(out), old(src), out, src,
                    [Wrap("", "", ItemPieces(prefix, depth, ordered, start, items))], [node])
      decreases items, 2
    {
      var renderedStart, sourceStart := |out|, |src|;
      assert src + "" == src;
      var children := WriteItems(ordered, start, items, depth);
      WroteWrapper(old(out), old(src), out, src, "", "", ItemPieces(prefix, depth, ordered, start, items), children);
      node := Wrapper(Range(renderedStart, |out| - renderedStart), Range(sourceStart, 0), Range(|src|, 0), children);
      assert src + "" == src;
    }

    method WriteItems(ordered: bool, start: int, items: seq<Item>, depth: nat) returns (nodes: seq<Node>)
      modifies this`out, this`src
      ensures Wrote(old(out), old(src), out, src, ItemPieces(prefix, depth, ordered, start, items), nodes)
      decreases items, 1
    {
      nodes := [];
      WroteNothing(out, src);
      for k := 0 to |items|
        invariant Wrote(old(out), old(src), out, src, ItemPieces(prefix, depth, ordered, start, items[..k]), nodes)
      {
        ghost var done := ItemPieces(prefix, depth, ordered, start, items[..k]);
        ItemsUpTo(prefix, depth, ordered, start, items, k);
        ghost var out1, src1 := out, src;
        var more := WriteNextItem(ordered, start, k, items[k], depth);
        WroteBoth(old(out), old(src), out1, src1, out, src, done,
                  NextItem(prefix, depth, ordered, start, k, items[k]), nodes, more);
        nodes := nodes + more;
      }
      assert items[..|items|] == items;
    }

    method WriteNextItem(ordered: bool, start: int, k: nat, item: Item, depth: nat) returns (nodes: seq<Node>)
      modifies this`out, this`src
      ensures Wrote(old(out), old(src), out, src, NextItem(prefix, depth, ordered, start, k, item), nodes)
      decreases item, 3
    {
      var number := Wrap64(start + k);
      var sep := WriteGap(k, "\n");
      ghost var out1, src1 := out, src;
      var node := WriteItem(ordered, number, item, depth);
      WroteBoth(old(out), old(src), out1, src1, out, src, Gap(k, "\n"),
                [ItemPiece(prefix, depth, ordered, number, item)], sep, [node]);
      nodes := sep + [node];
    }

    method WriteItem(ordered: bool, number: int, item: Item, depth: nat) returns (node: Node)
      modifies this`out, this`src
      ensures Wrote(old(out), old(src), out, src, [ItemPiece(prefix, depth, ordered, number, item)], [node])
      decreases item, 2
    {
      var open, start, sourceStart := ItemOpen(prefix, depth, ordered, number, item), |out|, |src|;
      src := src + open;
      var mark := Marker(depth, ordered, number, item);
      var parts := WriteMarked(mark.shown, item, depth);
      WroteWrapper(old(out), old(src), out, src, open, "", [mark] + BodyPieces(prefix, depth, item.blocks), parts);
      node := Wrapper(Range(start, |out| - start), Range(sourceStart, |open|), Range(|src|, 0), parts);
      assert src + "" == src;
    }

    /** The marker, which shows and is not copied, and the body after it. */
    method WriteMarked(shown: string, item: Item, depth: nat) returns (nodes: seq<Node>)
      modifies this`out, this`src
      ensures Wrote(old(out), old(src), out, src, [Mapped(shown, "")] + BodyPieces(prefix, depth, item.blocks), nodes)
      decreases item, 1
    {
      var marker := WriteMapped(shown, "");
      ghost var out1, src1 := out, src;
      var body := WriteBody(item.blocks, depth);
      WroteBoth(old(out), old(src), out1, src1, out, src, [Mapped(shown, "")],
                BodyPieces(prefix, depth, item.blocks), [marker], body);
      nodes := [marker] + body;
    }

    method WriteBody(bs: seq<Block>, depth: nat) returns (nodes: seq<Node>)
      modifies this`out, this`src
      ensures Wrote(old(out), old(src), out, src, BodyPieces(prefix, depth, bs), nodes)
      decreases bs, 1
    {
      nodes := [];
      WroteNothing(out, src);
      for k := 0 to |bs|
        invariant Wrote(old(out), old(src), out, src, BodyPieces(prefix, depth, bs[..k]), nodes)
      {
        ghost var done := BodyPieces(prefix, depth, bs[..k]);
        BodyUpTo(prefix, depth, bs, k);
        ghost var out1, src1 := out, src;
        var more := WriteNextInBody(k, bs[k], depth);
        WroteBoth(old(out), old(src), out1, src1, out, src, done, NextInBody(prefix, depth, k, bs[k]), nodes, more);
        nodes := nodes + more;
      }
      assert bs[..|bs|] == bs;
    }

    /** An item's first paragraph continues the marker's line; anything else starts a nested line. */
    method WriteNextInBody(k: nat, b: Block, depth: nat) returns (nodes: seq<Node>)
      modifies this`out, this`src
      ensures Wrote(old(out), old(src), out, src, NextInBody(prefix, depth, k, b), nodes)
      decreases b, 3
    {
      if k == 0 && b.Paragraph? {
        nodes := WriteInline(b.spans);
      } else {
        var sep := WriteSeparator("\n");
        ghost var out1, src1 := out, src;
        var more := WriteBlock(b, depth + 1);
        WroteBoth(old(out), old(src), out1, src1, out, src, [Separator("\n")],
                  BlockPieces(prefix, depth + 1, b), [sep], more);
        nodes := [sep] + more;
      }
    }
  }

  /** `render`: text, source and map come out of one pass. The text is what the reference shows, the source
      is its markdown, and the map tiles both. */
  method Render(blocks: seq<Block>, sourcePrefix: string) returns (text: string, source: string, nodes: seq<Node>)
    ensures var ps := Document(sourcePrefix, blocks);
            text == TextAll(ps) && source == SourceAll(ps) && nodes == PlaceAll(ps, 0, 0)
    ensures text == DocumentText(blocks) && source == DocumentMarkdown(sourcePrefix, blocks)
    ensures NodesTile(nodes, 0, |text|, 0, |source|)
    ensures AllWithin(nodes, |text|, |source|) && AllAgree(nodes, text, source)
  {
    var b := new Builder(sourcePrefix);
    b.roots := b.WriteBlocks(blocks, 0, "\n\n");
    text, source, nodes := b.out, b.src, b.roots;
    PiecesTile(Document(sourcePrefix, blocks));
    DocumentReads(sourcePrefix, blocks);
  }

  /** Render a run and copy a selection of it: the trimmed copy of the map. */
  method CopySelection(blocks: seq<Block>, sourcePrefix: string, sel: Range) returns (copied: string)
    ensures copied == Trim(RunCopy(Document(sourcePrefix, blocks), sel), IsBlankOrNewline)
  {
    var text, source, nodes := Render(blocks, sourcePrefix);
    copied := MarkdownFor(nodes, sel, source, text);
    if sel.len == 0 { EmptyRunCopy(Document(sourcePrefix, blocks), sel); }
  }

  /** When everything is selected, the trimmed source comes back if and only if what the hollow ends stand
      for is blank. */
  method CopyWholeRun(blocks: seq<Block>, sourcePrefix: string, sel: Range) returns (copied: string)
    requires SelectsAll(sel, TextAll(Document(sourcePrefix, blocks)))
    ensures var ps := Document(sourcePrefix, blocks);
            copied == Trim(SourceAll(ps), IsBlankOrNewline) <==> AllEndsBlank(PlaceAll(ps, 0, 0), sel, SourceAll(ps))
  {
    copied := CopySelection(blocks, sourcePrefix, sel);
    WholeRunCopyTrimmed(sourcePrefix, blocks, sel);
  }
}
