/** What a document looks like on screen and as markdown, as plain strings: a reference for the builder that
    knows nothing of pieces, nodes or offsets. */
module Rendering {
  import opened Basics
  import opened Markdown

  // ----- numbers

  /** The number that a string of decimal digits denotes. */
  function Value(digits: string): int {
    if digits == "" then 0
    else 10 * Value(digits[..|digits| - 1]) + (digits[|digits| - 1] as int - '0' as int)
  }

  lemma {:induction false} DigitsDenote(n: nat)
    ensures Value(Digits(n)) == n && (n > 0 ==> Digits(n)[0] != '0')
  {
    var d := Digits(n);
    LastDigit(n % 10);
    if n < 10 {
      assert d == ["0123456789"[n % 10]] && d[..0] == "";
    } else {
      DigitsDenote(n / 10);
      assert d[..|d| - 1] == Digits(n / 10);
    }
  }

  lemma LastDigit(k: nat)
    requires k < 10
    ensures "0123456789"[k] as int - '0' as int == k
  {
  }

  lemma NegativeDecimal(n: int)
    requires n < 0
    ensures Decimal(n) != "" && Decimal(n)[0] == '-' && Decimal(n)[1..] == Digits(-n)
  {
    var d := Digits(-n);
    assert Decimal(n) == "-" + d;
    assert ("-" + d)[1..] == d;
  }

  /** The printed number denotes the number: digits without a leading zero, after a minus sign below zero. */
  lemma DecimalDenotes(n: int)
    ensures n >= 0 ==> Value(Decimal(n)) == n
    ensures n < 0 ==> Decimal(n) != "" && Decimal(n)[0] == '-' && Value(Decimal(n)[1..]) == -n
  {
    if n >= 0 {
      DigitsDenote(n);
      assert Decimal(n) == Digits(n);
    } else {
      NegativeDecimal(n);
      DigitsDenote(-n);
    }
  }

  lemma DecimalInjective(m: int, n: int)
    requires Decimal(m) == Decimal(n)
    ensures m == n
  {
    DecimalDenotes(m);
    DecimalDenotes(n);
    assert m >= 0 ==> '0' <= Decimal(m)[0];
    assert n >= 0 ==> '0' <= Decimal(n)[0];
  }

  /** List numbers count up by one as long as a 64-bit integer can; past the largest comes the smallest. */
  lemma NumbersCountUp(start: int, k: nat)
    requires -0x8000_0000_0000_0000 <= start < 0x8000_0000_0000_0000 && k < 0x8000_0000_0000_0000
    ensures Wrap64(start + k) ==
            if start + k < 0x8000_0000_0000_0000 then start + k else start + k - 0x1_0000_0000_0000_0000
  {
  }

  // ----- joining

  function Join(parts: seq<string>, sep: string): string {
    if parts == [] then ""
    else if |parts| == 1 then parts[0]
    else Join(parts[..|parts| - 1], sep) + sep + parts[|parts| - 1]
  }

  // ----- spans

  /** On screen: the words, without their marks. */
  function SpanText(span: Span): string
    decreases span, 3
  {
    match span
    case Plain(text) => text
    case Emphasis(spans) => InlineText(spans)
    case Strong(spans) => InlineText(spans)
    case Strike(spans) => InlineText(spans)
    case Code(text) => text
    case Link(_, _, spans) => InlineText(spans)
    case FootnoteRef(name) => name
    case Break(hard) => if hard then "\n" else " "
    case UnknownSpan => ""
  }

  function InlineText(spans: seq<Span>): string
    decreases spans, 2
  {
    Concat(SpanTexts(spans))
  }

  function SpanTexts(spans: seq<Span>): (r: seq<string>)
    ensures |r| == |spans| && forall k :: 0 <= k < |r| ==> r[k] == SpanText(spans[k])
    decreases spans, 1
  {
    seq(|spans|, k requires 0 <= k < |spans| => SpanText(spans[k]))
  }

  /** As markdown: the marks around the words. */
  function SpanMarkdown(span: Span): string
    decreases span, 3
  {
    match span
    case Plain(text) => text
    case Emphasis(spans) => "*" + InlineMarkdown(spans) + "*"
    case Strong(spans) => "**" + InlineMarkdown(spans) + "**"
    case Strike(spans) => "~~" + InlineMarkdown(spans) + "~~"
    case Code(text) => Ticks(LongestTicks(text) + 1) + text + Ticks(LongestTicks(text) + 1)
    case Link(url, title, spans) =>
      "[" + InlineMarkdown(spans) + "](" + url + (if title.Some? then " \"" + title.value + "\"" else "") + ")"
    case FootnoteRef(name) => "[^" + name + "]"
    case Break(hard) => if hard then "  \n" else "\n"
    case UnknownSpan => ""
  }

  function InlineMarkdown(spans: seq<Span>): string
    decreases spans, 2
  {
    Concat(SpanMarkdowns(spans))
  }

  function SpanMarkdowns(spans: seq<Span>): (r: seq<string>)
    ensures |r| == |spans| && forall k :: 0 <= k < |r| ==> r[k] == SpanMarkdown(spans[k])
    decreases spans, 1
  {
    seq(|spans|, k requires 0 <= k < |spans| => SpanMarkdown(spans[k]))
  }

  // ----- blocks

  function Spaces(n: nat): (r: string)
    ensures |r| == n && forall k :: 0 <= k < n ==> r[k] == ' '
  {
    seq(n, _ => ' ')
  }

  function Pounds(n: nat): (r: string)
    ensures |r| == n && forall k :: 0 <= k < n ==> r[k] == '#'
  {
    seq(n, _ => '#')
  }

  function BlockText(depth: nat, b: Block): string
    decreases b, 3
  {
    match b
    case Paragraph(spans) => InlineText(spans)
    case Heading(_, spans) => InlineText(spans)
    case List(ordered, start, items) => Join(ItemTexts(depth, ordered, Numbers(start, |items|), items), "\n")
    case Html(raw) => raw
    case FootnoteDef(name, blocks) => name + ". " + Join(BlockTexts(depth + 1, blocks), "\n")
    case Native => ""
  }

  function BlockTexts(depth: nat, bs: seq<Block>): (r: seq<string>)
    ensures |r| == |bs| && forall k :: 0 <= k < |r| ==> r[k] == BlockText(depth, bs[k])
    decreases bs, 1
  {
    seq(|bs|, k requires 0 <= k < |bs| => BlockText(depth, bs[k]))
  }

  /** The numbers of a list's items: item `k` carries the number `k` above the first one's. */
  function Numbers(start: int, n: nat): (r: seq<int>)
    ensures |r| == n && forall k :: 0 <= k < n ==> r[k] == Wrap64(start + k)
  {
    seq(n, k requires 0 <= k => Wrap64(start + k))
  }

  function ItemTexts(depth: nat, ordered: bool, numbers: seq<int>, items: seq<Item>): (r: seq<string>)
    requires |numbers| == |items|
    ensures |r| == |items|
    ensures forall k :: 0 <= k < |r| ==> r[k] == ItemText(depth, ordered, numbers[k], items[k])
    decreases items, 1
  {
    seq(|items|, k requires 0 <= k < |items| => ItemText(depth, ordered, numbers[k], items[k]))
  }

  /** An item on screen: its number or bullet, its box, and its content. */
  function ItemText(depth: nat, ordered: bool, number: int, item: Item): string
    decreases item, 3
  {
    (if ordered then Decimal(number) + "." else ["•", "◦", "▪"][depth % 3]) + " " +
    (match item.checked case None => "" case Some(done) => if done then "☑ " else "☐ ") +
    Concat(BodyTexts(depth, item.blocks))
  }

  /** The content of an item: a first paragraph continues the line; anything else starts a new one. */
  function BodyTexts(depth: nat, bs: seq<Block>): (r: seq<string>)
    ensures |r| == |bs|
    ensures forall k :: 0 <= k < |r| ==> r[k] == BodyText(depth, k, bs[k])
    decreases bs, 1
  {
    seq(|bs|, k requires 0 <= k < |bs| => BodyText(depth, k, bs[k]))
  }

  function BodyText(depth: nat, k: nat, b: Block): string
    decreases b, 4
  {
    if k == 0 && b.Paragraph? then InlineText(b.spans) else "\n" + BlockText(depth + 1, b)
  }

  function BlockMarkdown(prefix: string, depth: nat, b: Block): string
    decreases b, 3
  {
    match b
    case Paragraph(spans) => prefix + Spaces(2 * depth) + InlineMarkdown(spans)
    case Heading(level, spans) =>
      prefix + Spaces(2 * depth) + Pounds(if level < 1 then 1 else if level > 6 then 6 else level) + " " +
      InlineMarkdown(spans)
    case List(ordered, start, items) =>
      Join(ItemMarkdowns(prefix, depth, ordered, Numbers(start, |items|), items), "\n")
    case Html(raw) => prefix + Spaces(2 * depth) + raw
    case FootnoteDef(name, blocks) =>
      prefix + Spaces(2 * depth) + "[^" + name + "]: " + Join(BlockMarkdowns(prefix, depth + 1, blocks), "\n")
    case Native => ""
  }

  function BlockMarkdowns(prefix: string, depth: nat, bs: seq<Block>): (r: seq<string>)
    ensures |r| == |bs| && forall k :: 0 <= k < |r| ==> r[k] == BlockMarkdown(prefix, depth, bs[k])
    decreases bs, 1
  {
    seq(|bs|, k requires 0 <= k < |bs| => BlockMarkdown(prefix, depth, bs[k]))
  }

  function ItemMarkdowns(prefix: string, depth: nat, ordered: bool, numbers: seq<int>, items: seq<Item>)
    : (r: seq<string>)
    requires |numbers| == |items|
    ensures |r| == |items|
    ensures forall k :: 0 <= k < |r| ==> r[k] == ItemMarkdown(prefix, depth, ordered, numbers[k], items[k])
    decreases items, 1
  {
    seq(|items|, k requires 0 <= k < |items| => ItemMarkdown(prefix, depth, ordered, numbers[k], items[k]))
  }

  /** An item as markdown: prefix, indent, its number or dash, its task box, and its content. */
  function ItemMarkdown(prefix: string, depth: nat, ordered: bool, number: int, item: Item): string
    decreases item, 3
  {
    prefix + Spaces(2 * depth) + (if ordered then Decimal(number) + ". " else "- ") +
    (match item.checked case None => "" case Some(done) => if done then "[x] " else "[ ] ") +
    Concat(BodyMarkdowns(prefix, depth, item.blocks))
  }

  function BodyMarkdowns(prefix: string, depth: nat, bs: seq<Block>): (r: seq<string>)
    ensures |r| == |bs|
    ensures forall k :: 0 <= k < |r| ==> r[k] == BodyMarkdown(prefix, depth, k, bs[k])
    decreases bs, 1
  {
    seq(|bs|, k requires 0 <= k < |bs| => BodyMarkdown(prefix, depth, k, bs[k]))
  }

  function BodyMarkdown(prefix: string, depth: nat, k: nat, b: Block): string
    decreases b, 4
  {
    if k == 0 && b.Paragraph? then InlineMarkdown(b.spans) else "\n" + BlockMarkdown(prefix, depth + 1, b)
  }

  /** A document on screen: its blocks, one below the other. */
  function DocumentText(bs: seq<Block>): string {
    Join(BlockTexts(0, bs), "\n")
  }

  /** A document as markdown: its blocks, a blank line between them. */
  function DocumentMarkdown(prefix: string, bs: seq<Block>): string {
    Join(BlockMarkdowns(prefix, 0, bs), "\n\n")
  }

  // ----- pieces that read as given strings

  /** On screen the pieces read `text`; as markdown, `source`. */
  ghost predicate Read(ps: seq<Piece>, text: string, source: string) {
    (TextAll(ps), SourceAll(ps)) == (text, source)
  }

  lemma ReadNothing()
    ensures Read([], "", "")
  {
  }

  lemma ReadPiece(p: Piece)
    ensures Read([p], TextOf(p), SourceOf(p))
  {
    assert [p][..0] == [] && TextAll([]) + TextOf(p) == TextOf(p) && SourceAll([]) + SourceOf(p) == SourceOf(p);
  }

  lemma ReadWrap(open: string, close: string, parts: seq<Piece>, text: string, source: string)
    requires Read(parts, text, source)
    ensures Read([Wrap(open, close, parts)], text, open + source + close)
  {
    ReadPiece(Wrap(open, close, parts));
  }

  lemma ReadBare(parts: seq<Piece>, text: string, source: string)
    requires Read(parts, text, source)
    ensures Read([Wrap("", "", parts)], text, source)
  {
    ReadWrap("", "", parts, text, source);
    assert "" + source + "" == source;
  }

  lemma ReadBoth(a: seq<Piece>, b: seq<Piece>, t1: string, s1: string, t2: string, s2: string)
    requires Read(a, t1, s1) && Read(b, t2, s2)
    ensures Read(a + b, t1 + t2, s1 + s2)
  {
    TextAppend(a, b);
    SourceAppend(a, b);
  }

  lemma OneLonger(parts: seq<string>, front: seq<string>, last: string)
    requires |parts| == |front| + 1 && parts[|front|] == last
    requires forall k :: 0 <= k < |front| ==> parts[k] == front[k]
    ensures parts == front + [last]
  {
  }

  lemma ConcatLast(parts: seq<string>, front: seq<string>, last: string)
    requires parts == front + [last]
    ensures Concat(parts) == Concat(front) + last
  {
    ConcatSnoc(front, last);
  }

  lemma JoinLast(parts: seq<string>, front: seq<string>, last: string, sep: string)
    requires parts == front + [last]
    ensures Join(parts, sep) == if front == [] then last else Join(front, sep) + sep + last
  {
    assert parts[..|parts| - 1] == front;
  }

  lemma ReadAfterGap(done: seq<Piece>, more: seq<Piece>, t1: string, s1: string, t2: string, s2: string, gap: string)
    requires Read(done, t1, s1) && Read(more, t2, s2)
    ensures Read(done + ([Separator(gap)] + more), t1 + "\n" + t2, s1 + gap + s2)
  {
    ReadPiece(Separator(gap));
    ReadBoth([Separator(gap)], more, "\n", gap, t2, s2);
    ReadBoth(done, [Separator(gap)] + more, t1, s1, "\n" + t2, gap + s2);
    Reassociated(t1, "\n", t2);
    Reassociated(s1, gap, s2);
  }

  lemma Reassociated(a: string, b: string, c: string)
    ensures a + (b + c) == a + b + c
  {
  }

  /** One more element of a row: nothing before the first, a line break before any other. */
  lemma ReadNext(done: seq<Piece>, more: seq<Piece>, texts: seq<string>, sources: seq<string>,
                 text: string, source: string, gap: string)
    requires |texts| == |sources| && (texts == [] ==> done == [])
    requires Read(done, Join(texts, "\n"), Join(sources, gap)) && Read(more, text, source)
    ensures Read(done + (Gap(|texts|, gap) + more), Join(texts + [text], "\n"), Join(sources + [source], gap))
  {
    JoinLast(texts + [text], texts, text, "\n");
    JoinLast(sources + [source], sources, source, gap);
    if texts == [] {
      assert done + (Gap(0, gap) + more) == more;
    } else {
      ReadAfterGap(done, more, Join(texts, "\n"), Join(sources, gap), text, source, gap);
    }
  }

  // ----- spans

  lemma {:induction false} SpanReads(span: Span)
    ensures Read(SpanPieces(span), SpanText(span), SpanMarkdown(span))
    decreases span, 1
  {
    match span
    case Plain(text) => ReadPiece(Literal(text));
    case Emphasis(spans) => MarkedReads("*", "*", spans);
    case Strong(spans) => MarkedReads("**", "**", spans);
    case Strike(spans) => MarkedReads("~~", "~~", spans);
    case Code(text) => ReadPiece(Mapped(text, Fence(text) + text + Fence(text)));
    case Link(url, title, spans) =>
      MarkedReads("[", LinkClose(url, title), spans);
      LinkReads(url, title, InlineMarkdown(spans));
    case FootnoteRef(name) => ReadPiece(Mapped(name, "[^" + name + "]"));
    case Break(hard) => ReadPiece(if hard then Mapped("\n", "  \n") else Mapped(" ", "\n"));
    case UnknownSpan => ReadNothing();
  }

  lemma {:induction false} MarkedReads(open: string, close: string, spans: seq<Span>)
    ensures Read([Wrap(open, close, InlinePieces(spans))], InlineText(spans), open + InlineMarkdown(spans) + close)
    decreases spans, 1
  {
    InlineReads(spans);
    ReadWrap(open, close, InlinePieces(spans), InlineText(spans), InlineMarkdown(spans));
  }

  lemma LinkReads(url: string, title: Option<string>, inner: string)
    ensures "[" + inner + LinkClose(url, title) ==
              "[" + inner + "](" + url + (if title.Some? then " \"" + title.value + "\"" else "") + ")"
  {
  }

  lemma {:induction false} InlineReads(spans: seq<Span>)
    ensures Read(InlinePieces(spans), InlineText(spans), InlineMarkdown(spans))
    decreases spans, 0
  {
    if spans == [] {
      ReadNothing();
    } else {
      var front, last := spans[..|spans| - 1], spans[|spans| - 1];
      InlineReads(front);
      SpanReads(last);
      InlineLast(spans);
      ReadBoth(InlinePieces(front), SpanPieces(last), InlineText(front), InlineMarkdown(front),
               SpanText(last), SpanMarkdown(last));
    }
  }

  lemma InlineLast(spans: seq<Span>)
    requires spans != []
    ensures var front, last := spans[..|spans| - 1], spans[|spans| - 1];
            && InlinePieces(spans) == InlinePieces(front) + SpanPieces(last)
            && InlineText(spans) == InlineText(front) + SpanText(last)
            && InlineMarkdown(spans) == InlineMarkdown(front) + SpanMarkdown(last)
  {
    var front, last := spans[..|spans| - 1], spans[|spans| - 1];
    ConcatLast(SpanTexts(spans), SpanTexts(front), SpanText(last));
    ConcatLast(SpanMarkdowns(spans), SpanMarkdowns(front), SpanMarkdown(last));
  }

  // ----- blocks

  lemma {:induction false} IndentIsSpaces(depth: nat)
    ensures Indent(depth) == Spaces(2 * depth)
  {
    if depth > 0 { IndentIsSpaces(depth - 1); }
  }

  lemma HashesArePounds(level: int)
    ensures Hashes(level) == Pounds(if level < 1 then 1 else if level > 6 then 6 else level)
  {
  }

  /** A block that opens with the line prefix and a mark, and goes on with pieces. */
  lemma OpenedReads(prefix: string, depth: nat, mark: string, parts: seq<Piece>, text: string, source: string)
    requires Read(parts, text, source)
    ensures Read([Wrap(LinePrefix(prefix, depth) + mark, "", parts)], text, prefix + Spaces(2 * depth) + mark + source)
  {
    IndentIsSpaces(depth);
    ReadWrap(LinePrefix(prefix, depth) + mark, "", parts, text, source);
    var open := prefix + Spaces(2 * depth) + mark;
    assert open + source + "" == open + source;
  }

  lemma {:induction false} BlockReads(prefix: string, depth: nat, b: Block)
    ensures Read(BlockPieces(prefix, depth, b), BlockText(depth, b), BlockMarkdown(prefix, depth, b))
    decreases b, 2
  {
    match b
    case Paragraph(spans) => LineReads(prefix, depth, spans);
    case Heading(level, spans) => HeadingReads(prefix, depth, level, spans);
    case List(ordered, start, items) => ListReads(prefix, depth, ordered, start, items);
    case Html(raw) => HtmlReads(prefix, depth, raw);
    case FootnoteDef(name, blocks) => FootnoteReads(prefix, depth, name, blocks);
    case Native => ReadNothing();
  }

  lemma LineReads(prefix: string, depth: nat, spans: seq<Span>)
    ensures Read([Wrap(LinePrefix(prefix, depth), "", InlinePieces(spans))], InlineText(spans),
                 prefix + Spaces(2 * depth) + InlineMarkdown(spans))
  {
    InlineReads(spans);
    OpenedReads(prefix, depth, "", InlinePieces(spans), InlineText(spans), InlineMarkdown(spans));
    assert LinePrefix(prefix, depth) + "" == LinePrefix(prefix, depth);
    assert prefix + Spaces(2 * depth) + "" == prefix + Spaces(2 * depth);
  }

  lemma HeadingReads(prefix: string, depth: nat, level: int, spans: seq<Span>)
    ensures Read(BlockPieces(prefix, depth, Heading(level, spans)), BlockText(depth, Heading(level, spans)),
                 BlockMarkdown(prefix, depth, Heading(level, spans)))
  {
    var mark := Hashes(level) + " ";
    InlineReads(spans);
    HashesArePounds(level);
    OpenedReads(prefix, depth, mark, InlinePieces(spans), InlineText(spans), InlineMarkdown(spans));
    assert LinePrefix(prefix, depth) + mark == LinePrefix(prefix, depth) + Hashes(level) + " ";
    assert prefix + Spaces(2 * depth) + mark == prefix + Spaces(2 * depth) + Hashes(level) + " ";
  }

  lemma HtmlReads(prefix: string, depth: nat, raw: string)
    ensures Read([Wrap(LinePrefix(prefix, depth), "", [Literal(raw)])], raw, prefix + Spaces(2 * depth) + raw)
  {
    ReadPiece(Literal(raw));
    OpenedReads(prefix, depth, "", [Literal(raw)], raw, raw);
    assert LinePrefix(prefix, depth) + "" == LinePrefix(prefix, depth);
    assert prefix + Spaces(2 * depth) + "" == prefix + Spaces(2 * depth);
  }

  lemma {:induction false} FootnoteReads(prefix: string, depth: nat, name: string, blocks: seq<Block>)
    ensures Read(BlockPieces(prefix, depth, FootnoteDef(name, blocks)), BlockText(depth, FootnoteDef(name, blocks)),
                 BlockMarkdown(prefix, depth, FootnoteDef(name, blocks)))
    decreases blocks, 2
  {
    var inner := BlocksPieces(prefix, depth + 1, "\n", blocks);
    var text := Join(BlockTexts(depth + 1, blocks), "\n");
    var source := Join(BlockMarkdowns(prefix, depth + 1, blocks), "\n");
    BlocksRead(prefix, depth + 1, "\n", blocks);
    ReadPiece(Mapped(name + ". ", ""));
    ReadBoth([Mapped(name + ". ", "")], inner, name + ". ", "", text, source);
    assert "" + source == source;
    var mark := "[^" + name + "]: ";
    OpenedReads(prefix, depth, mark, [Mapped(name + ". ", "")] + inner, name + ". " + text, source);
    assert LinePrefix(prefix, depth) + mark == LinePrefix(prefix, depth) + "[^" + name + "]: ";
    assert prefix + Spaces(2 * depth) + mark == prefix + Spaces(2 * depth) + "[^" + name + "]: ";
  }

  lemma {:induction false} BlocksRead(prefix: string, depth: nat, gap: string, bs: seq<Block>)
    ensures Read(BlocksPieces(prefix, depth, gap, bs), Join(BlockTexts(depth, bs), "\n"),
                 Join(BlockMarkdowns(prefix, depth, bs), gap))
    decreases bs, 1
  {
    if bs == [] {
      ReadNothing();
    } else {
      var n := |bs| - 1;
      var front := bs[..n];
      BlocksRead(prefix, depth, gap, front);
      BlockReads(prefix, depth, bs[n]);
      ReadNext(BlocksPieces(prefix, depth, gap, front), BlockPieces(prefix, depth, bs[n]),
               BlockTexts(depth, front), BlockMarkdowns(prefix, depth, front),
               BlockText(depth, bs[n]), BlockMarkdown(prefix, depth, bs[n]), gap);
      BlocksLast(prefix, depth, gap, bs);
      BlockTextsLast(depth, bs);
      BlockMarkdownsLast(prefix, depth, bs);
    }
  }

  lemma BlocksLast(prefix: string, depth: nat, gap: string, bs: seq<Block>)
    requires bs != []
    ensures var n := |bs| - 1;
            BlocksPieces(prefix, depth, gap, bs) ==
              BlocksPieces(prefix, depth, gap, bs[..n]) + (Gap(n, gap) + BlockPieces(prefix, depth, bs[n]))
  {
  }

  lemma BlockTextsLast(depth: nat, bs: seq<Block>)
    requires bs != []
    ensures var n := |bs| - 1; BlockTexts(depth, bs) == BlockTexts(depth, bs[..n]) + [BlockText(depth, bs[n])]
  {
    var n := |bs| - 1;
    OneLonger(BlockTexts(depth, bs), BlockTexts(depth, bs[..n]), BlockText(depth, bs[n]));
  }

  lemma BlockMarkdownsLast(prefix: string, depth: nat, bs: seq<Block>)
    requires bs != []
    ensures var n := |bs| - 1;
            BlockMarkdowns(prefix, depth, bs) ==
              BlockMarkdowns(prefix, depth, bs[..n]) + [BlockMarkdown(prefix, depth, bs[n])]
  {
    var n := |bs| - 1;
    var front := BlockMarkdowns(prefix, depth, bs[..n]);
    OneLonger(BlockMarkdowns(prefix, depth, bs), front, BlockMarkdown(prefix, depth, bs[n]));
  }

  // ----- lists

  lemma {:induction false} ListReads(prefix: string, depth: nat, ordered: bool, start: int, items: seq<Item>)
    ensures Read([Wrap("", "", ItemPieces(prefix, depth, ordered, start, items))],
                 Join(ItemTexts(depth, ordered, Numbers(start, |items|), items), "\n"),
                 Join(ItemMarkdowns(prefix, depth, ordered, Numbers(start, |items|), items), "\n"))
    decreases items, 2
  {
    var numbers := Numbers(start, |items|);
    ItemsRead(prefix, depth, ordered, start, numbers, items);
    ReadBare(ItemPieces(prefix, depth, ordered, start, items), Join(ItemTexts(depth, ordered, numbers, items), "\n"),
             Join(ItemMarkdowns(prefix, depth, ordered, numbers, items), "\n"));
  }

  lemma {:induction false} ItemsRead(prefix: string, depth: nat, ordered: bool, start: int, numbers: seq<int>,
                                     items: seq<Item>)
    requires numbers == Numbers(start, |items|)
    ensures Read(ItemPieces(prefix, depth, ordered, start, items),
                 Join(ItemTexts(depth, ordered, numbers, items), "\n"),
                 Join(ItemMarkdowns(prefix, depth, ordered, numbers, items), "\n"))
    decreases items, 1
  {
    if items == [] {
      ReadNothing();
    } else {
      var n := |items| - 1;
      assert numbers[..n] == Numbers(start, n) && numbers[n] == Wrap64(start + n);
      ItemsRead(prefix, depth, ordered, start, numbers[..n], items[..n]);
      ItemReads(prefix, depth, ordered, numbers[n], items[n]);
      ItemsLast(prefix, depth, ordered, start, items, numbers[n]);
      NextItemReads(prefix, depth, ordered, numbers, items, ItemPieces(prefix, depth, ordered, start, items[..n]),
                    [ItemPiece(prefix, depth, ordered, numbers[n], items[n])]);
    }
  }

  lemma ItemsLast(prefix: string, depth: nat, ordered: bool, start: int, items: seq<Item>, number: int)
    requires items != [] && number == Wrap64(start + (|items| - 1))
    ensures var n := |items| - 1;
            ItemPieces(prefix, depth, ordered, start, items) ==
              ItemPieces(prefix, depth, ordered, start, items[..n]) +
              (Gap(n, "\n") + [ItemPiece(prefix, depth, ordered, number, items[n])])
  {
  }

  lemma NextItemReads(prefix: string, depth: nat, ordered: bool, numbers: seq<int>, items: seq<Item>,
                      done: seq<Piece>, more: seq<Piece>)
    requires items != [] && |numbers| == |items| && (|items| == 1 ==> done == [])
    requires var n := |items| - 1;
             && Read(done, Join(ItemTexts(depth, ordered, numbers[..n], items[..n]), "\n"),
                     Join(ItemMarkdowns(prefix, depth, ordered, numbers[..n], items[..n]), "\n"))
             && Read(more, ItemText(depth, ordered, numbers[n], items[n]),
                     ItemMarkdown(prefix, depth, ordered, numbers[n], items[n]))
    ensures Read(done + (Gap(|items| - 1, "\n") + more), Join(ItemTexts(depth, ordered, numbers, items), "\n"),
                 Join(ItemMarkdowns(prefix, depth, ordered, numbers, items), "\n"))
  {
    var n := |items| - 1;
    var texts := ItemTexts(depth, ordered, numbers[..n], items[..n]);
    var sources := ItemMarkdowns(prefix, depth, ordered, numbers[..n], items[..n]);
    var text, source := ItemText(depth, ordered, numbers[n], items[n]),
                        ItemMarkdown(prefix, depth, ordered, numbers[n], items[n]);
    ReadNext(done, more, texts, sources, text, source, "\n");
    OneLonger(ItemTexts(depth, ordered, numbers, items), texts, text);
    OneLonger(ItemMarkdowns(prefix, depth, ordered, numbers, items), sources, source);
  }

  lemma {:induction false} ItemReads(prefix: string, depth: nat, ordered: bool, number: int, item: Item)
    ensures Read([ItemPiece(prefix, depth, ordered, number, item)], ItemText(depth, ordered, number, item),
                 ItemMarkdown(prefix, depth, ordered, number, item))
    decreases item, 2
  {
    var mark, body := Marker(depth, ordered, number, item), BodyPieces(prefix, depth, item.blocks);
    var text, source := Concat(BodyTexts(depth, item.blocks)), Concat(BodyMarkdowns(prefix, depth, item.blocks));
    BodyReads(prefix, depth, item.blocks);
    ReadPiece(mark);
    ReadBoth([mark], body, mark.shown, "", text, source);
    assert "" + source == source;
    var open := (if ordered then Decimal(number) + ". " else "- ") + Task(item.checked);
    OpenedReads(prefix, depth, open, [mark] + body, mark.shown + text, source);
    ItemOpenString(prefix, depth, ordered, number, item);
    ItemTextString(depth, ordered, number, item);
    ItemMarkdownString(prefix, depth, ordered, number, item);
  }

  lemma ItemOpenString(prefix: string, depth: nat, ordered: bool, number: int, item: Item)
    ensures ItemOpen(prefix, depth, ordered, number, item) ==
              LinePrefix(prefix, depth) + ((if ordered then Decimal(number) + ". " else "- ") + Task(item.checked))
  {
  }

  lemma ItemTextString(depth: nat, ordered: bool, number: int, item: Item)
    ensures Marker(depth, ordered, number, item).shown + Concat(BodyTexts(depth, item.blocks)) ==
              ItemText(depth, ordered, number, item)
  {
  }

  lemma ItemMarkdownString(prefix: string, depth: nat, ordered: bool, number: int, item: Item)
    ensures prefix + Spaces(2 * depth) + ((if ordered then Decimal(number) + ". " else "- ") + Task(item.checked)) +
            Concat(BodyMarkdowns(prefix, depth, item.blocks)) ==
              ItemMarkdown(prefix, depth, ordered, number, item)
  {
    var mark := if ordered then Decimal(number) + ". " else "- ";
    var line, task := prefix + Spaces(2 * depth), Task(item.checked);
    Reassociated(line, mark, task);
  }

  lemma {:induction false} BodyReads(prefix: string, depth: nat, bs: seq<Block>)
    ensures Read(BodyPieces(prefix, depth, bs), Concat(BodyTexts(depth, bs)), Concat(BodyMarkdowns(prefix, depth, bs)))
    decreases bs, 1
  {
    if bs == [] {
      ReadNothing();
    } else {
      var n := |bs| - 1;
      var front := bs[..n];
      BodyReads(prefix, depth, front);
      NextInBodyReads(prefix, depth, n, bs[n]);
      ReadBoth(BodyPieces(prefix, depth, front), NextInBody(prefix, depth, n, bs[n]),
               Concat(BodyTexts(depth, front)), Concat(BodyMarkdowns(prefix, depth, front)),
               BodyText(depth, n, bs[n]), BodyMarkdown(prefix, depth, n, bs[n]));
      BodyTextsLast(depth, bs);
      BodyMarkdownsLast(prefix, depth, bs);
    }
  }

  lemma BodyTextsLast(depth: nat, bs: seq<Block>)
    requires bs != []
    ensures var n := |bs| - 1;
            Concat(BodyTexts(depth, bs)) == Concat(BodyTexts(depth, bs[..n])) + BodyText(depth, n, bs[n])
  {
    var n := |bs| - 1;
    OneLonger(BodyTexts(depth, bs), BodyTexts(depth, bs[..n]), BodyText(depth, n, bs[n]));
    ConcatLast(BodyTexts(depth, bs), BodyTexts(depth, bs[..n]), BodyText(depth, n, bs[n]));
  }

  lemma BodyMarkdownsLast(prefix: string, depth: nat, bs: seq<Block>)
    requires bs != []
    ensures var n := |bs| - 1;
            Concat(BodyMarkdowns(prefix, depth, bs)) ==
              Concat(BodyMarkdowns(prefix, depth, bs[..n])) + BodyMarkdown(prefix, depth, n, bs[n])
  {
    var n := |bs| - 1;
    var all, front := BodyMarkdowns(prefix, depth, bs), BodyMarkdowns(prefix, depth, bs[..n]);
    var last := BodyMarkdown(prefix, depth, n, bs[n]);
    OneLonger(all, front, last);
    ConcatLast(all, front, last);
  }

  lemma {:induction false} NextInBodyReads(prefix: string, depth: nat, n: nat, b: Block)
    ensures Read(NextInBody(prefix, depth, n, b), BodyText(depth, n, b), BodyMarkdown(prefix, depth, n, b))
    decreases b, 3
  {
    if n == 0 && b.Paragraph? {
      InlineReads(b.spans);
    } else {
      BlockReads(prefix, depth + 1, b);
      ReadPiece(Separator("\n"));
      ReadBoth([Separator("\n")], BlockPieces(prefix, depth + 1, b), "\n", "\n",
               BlockText(depth + 1, b), BlockMarkdown(prefix, depth + 1, b));
    }
  }

  // ----- the document

  /** Every document's pieces read as the reference says, on screen and as markdown. */
  lemma DocumentReads(prefix: string, bs: seq<Block>)
    ensures TextAll(Document(prefix, bs)) == DocumentText(bs)
    ensures SourceAll(Document(prefix, bs)) == DocumentMarkdown(prefix, bs)
  {
    BlocksRead(prefix, 0, "\n\n", bs);
  }

  /** What each item of an ordered list begins with, as long as the numbers fit: on screen its number, a
      point and its box; as markdown the line prefix, the indent, the number and the task box. */
  lemma OrderedItemOpens(prefix: string, depth: nat, start: int, items: seq<Item>, k: nat)
    requires k < |items| && -0x8000_0000_0000_0000 <= start && start + k < 0x8000_0000_0000_0000
    ensures var box := match items[k].checked case None => "" case Some(done) => if done then "☑ " else "☐ ";
            Decimal(start + k) + "." + " " + box <= ItemTexts(depth, true, Numbers(start, |items|), items)[k]
    ensures var task := match items[k].checked case None => "" case Some(done) => if done then "[x] " else "[ ] ";
            prefix + Spaces(2 * depth) + (Decimal(start + k) + ". ") + task <=
              ItemMarkdowns(prefix, depth, true, Numbers(start, |items|), items)[k]
  {
    WrapsToItself(start + k);
    assert Numbers(start, |items|)[k] == start + k;
  }

  lemma WrapsToItself(n: int)
    requires -0x8000_0000_0000_0000 <= n < 0x8000_0000_0000_0000
    ensures Wrap64(n) == n
  {
  }

  /** The fence of a code span is as short as it can be: a run one shorter does occur in the code. */
  lemma {:induction false} LongestTicksOccur(text: string) returns (at: nat)
    ensures at + LongestTicks(text) <= |text| && text[at..at + LongestTicks(text)] == Ticks(LongestTicks(text))
    decreases |text|
  {
    if text == "" {
      at := 0;
    } else if LongestTicks(text) == TrailingTicks(text) {
      TrailingTicksOccur(text);
      at := |text| - TrailingTicks(text);
    } else {
      var front := text[..|text| - 1];
      at := LongestTicksOccur(front);
      assert front[at..at + LongestTicks(front)] == text[at..at + LongestTicks(front)];
    }
  }

  lemma {:induction false} TrailingTicksOccur(text: string)
    ensures TrailingTicks(text) <= |text| && text[|text| - TrailingTicks(text)..] == Ticks(TrailingTicks(text))
    decreases |text|
  {
    if text != "" && text[|text| - 1] == '`' {
      var front := text[..|text| - 1];
      TrailingTicksOccur(front);
      var n := TrailingTicks(front);
      assert text[|front| - n..] == front[|front| - n..] + ['`'];
    }
  }
}
