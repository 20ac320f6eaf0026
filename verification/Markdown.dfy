/**
 The markdown tree, and the document a text run builds from it before any offset is assigned: a
 tree of pieces, each with what it shows and what markdown it stands for.
 */
module Markdown {
  import opened Basics

  datatype Span =
    | Plain(text: string)
    | Emphasis(spans: seq<Span>)
    | Strong(spans: seq<Span>)
    | Strike(spans: seq<Span>)
    | Code(text: string)
    | Link(url: string, title: Option<string>, spans: seq<Span>)
    | FootnoteRef(name: string)
    | Break(hard: bool)
    | UnknownSpan

  datatype Item = Item(checked: Option<bool>, blocks: seq<Block>)

  /** `Native` stands for the block kinds that never reach a text run. */
  datatype Block =
    | Paragraph(spans: seq<Span>)
    | Heading(level: int, spans: seq<Span>)
    | List(ordered: bool, start: int, items: seq<Item>)
    | Html(raw: string)
    | FootnoteDef(name: string, blocks: seq<Block>)
    | Native

  // ----- pieces

  /** `Literal` text is its own source; `Mapped` text stands for other markdown; `Wrap` puts
      source-only delimiters around its parts. */
  datatype Piece =
    | Literal(text: string)
    | Mapped(shown: string, source: string)
    | Wrap(open: string, close: string, parts: seq<Piece>)

  function TextOf(p: Piece): string {
    match p
    case Literal(text) => text
    case Mapped(shown, _) => shown
    case Wrap(_, _, parts) => TextAll(parts)
  }

  function TextAll(ps: seq<Piece>): string {
    if ps == [] then "" else TextAll(ps[..|ps| - 1]) + TextOf(ps[|ps| - 1])
  }

  function SourceOf(p: Piece): string {
    match p
    case Literal(text) => text
    case Mapped(_, source) => source
    case Wrap(open, close, parts) => open + SourceAll(parts) + close
  }

  function SourceAll(ps: seq<Piece>): string {
    if ps == [] then "" else SourceAll(ps[..|ps| - 1]) + SourceOf(ps[|ps| - 1])
  }

  lemma {:induction false} TextAppend(a: seq<Piece>, b: seq<Piece>)
    ensures TextAll(a + b) == TextAll(a) + TextAll(b)
    decreases |b|
  {
    if b == [] {
      assert a + b == a;
    } else {
      assert (a + b)[..|a + b| - 1] == a + b[..|b| - 1];
      TextAppend(a, b[..|b| - 1]);
    }
  }

  lemma {:induction false} SourceAppend(a: seq<Piece>, b: seq<Piece>)
    ensures SourceAll(a + b) == SourceAll(a) + SourceAll(b)
    decreases |b|
  {
    if b == [] {
      assert a + b == a;
    } else {
      assert (a + b)[..|a + b| - 1] == a + b[..|b| - 1];
      SourceAppend(a, b[..|b| - 1]);
    }
  }

  // ----- spans

  /** The longest run of backticks that ends the text, and the longest anywhere in it. */
  function TrailingTicks(s: string): nat {
    if s == [] || s[|s| - 1] != '`' then 0 else 1 + TrailingTicks(s[..|s| - 1])
  }

  function LongestTicks(s: string): nat {
    if s == [] then 0 else Max(LongestTicks(s[..|s| - 1]), TrailingTicks(s))
  }

  function Ticks(n: nat): (r: string)
    ensures |r| == n && forall k :: 0 <= k < n ==> r[k] == '`'
  {
    seq(n, _ => '`')
  }

  function Fence(text: string): string {
    Ticks(LongestTicks(text) + 1)
  }

  function LinkClose(url: string, title: Option<string>): string {
    match title
    case Some(t) => "](" + url + " \"" + t + "\")"
    case None => "](" + url + ")"
  }

  function SpanPieces(span: Span): seq<Piece> {
    match span
    case Plain(text) => [Literal(text)]
    case Emphasis(spans) => [Wrap("*", "*", InlinePieces(spans))]
    case Strong(spans) => [Wrap("**", "**", InlinePieces(spans))]
    case Strike(spans) => [Wrap("~~", "~~", InlinePieces(spans))]
    case Code(text) => [Mapped(text, Fence(text) + text + Fence(text))]
    case Link(url, title, spans) => [Wrap("[", LinkClose(url, title), InlinePieces(spans))]
    case FootnoteRef(name) => [Mapped(name, "[^" + name + "]")]
    case Break(hard) => [if hard then Mapped("\n", "  \n") else Mapped(" ", "\n")]
    case UnknownSpan => []
  }

  function InlinePieces(spans: seq<Span>): seq<Piece> {
    if spans == [] then [] else InlinePieces(spans[..|spans| - 1]) + SpanPieces(spans[|spans| - 1])
  }

  // ----- blocks

  function Indent(depth: nat): string {
    if depth == 0 then "" else "  " + Indent(depth - 1)
  }

  function LinePrefix(prefix: string, depth: nat): string {
    prefix + Indent(depth)
  }

  function Hashes(level: int): string {
    seq(Max(1, Min(6, level)), _ => '#')
  }

  /** Two's-complement addition, as `&+` on `Int64`. */
  function Wrap64(n: int): int {
    (n + 0x8000_0000_0000_0000) % 0x1_0000_0000_0000_0000 - 0x8000_0000_0000_0000
  }

  function Bullet(depth: nat): string {
    ["•", "◦", "▪"][depth % 3]
  }

  function Task(checked: Option<bool>): string {
    if checked.None? then "" else if checked.value then "[x] " else "[ ] "
  }

  function Box(checked: Option<bool>): string {
    if checked.None? then "" else if checked.value then "☑ " else "☐ "
  }

  function ItemOpen(prefix: string, depth: nat, ordered: bool, number: int, item: Item): string {
    LinePrefix(prefix, depth) + (if ordered then Decimal(number) + ". " else "- ") + Task(item.checked)
  }

  function Marker(depth: nat, ordered: bool, number: int, item: Item): Piece {
    Mapped((if ordered then Decimal(number) + "." else Bullet(depth)) + " " + Box(item.checked), "")
  }

  function Separator(source: string): Piece {
    Mapped("\n", source)
  }

  /** What precedes the `n`-th element of a sequence of blocks or items. */
  function Gap(n: nat, source: string): seq<Piece> {
    if n > 0 then [Separator(source)] else []
  }

  /** Zero or one piece: native blocks contribute nothing. */
  function BlockPieces(prefix: string, depth: nat, b: Block): seq<Piece>
    decreases b, 2
  {
    match b
    case Paragraph(spans) => [Wrap(LinePrefix(prefix, depth), "", InlinePieces(spans))]
    case Heading(level, spans) => [Wrap(LinePrefix(prefix, depth) + Hashes(level) + " ", "", InlinePieces(spans))]
    case List(ordered, start, items) => [Wrap("", "", ItemPieces(prefix, depth, ordered, start, items))]
    case Html(raw) => [Wrap(LinePrefix(prefix, depth), "", [Literal(raw)])]
    case FootnoteDef(name, blocks) =>
      [Wrap(LinePrefix(prefix, depth) + "[^" + name + "]: ", "",
            [Mapped(name + ". ", "")] + BlocksPieces(prefix, depth + 1, "\n", blocks))]
    case Native => []
  }

  /** Blocks joined by a separator that stands outside both neighbours. */
  function BlocksPieces(prefix: string, depth: nat, gap: string, bs: seq<Block>): seq<Piece>
    decreases bs, 1
  {
    if bs == [] then []
    else
      var n := |bs| - 1;
      BlocksPieces(prefix, depth, gap, bs[..n]) + (Gap(n, gap) + BlockPieces(prefix, depth, bs[n]))
  }

  /** The content of a list item after its marker: a leading paragraph continues the marker's line. */
  function BodyPieces(prefix: string, depth: nat, bs: seq<Block>): seq<Piece>
    decreases bs, 1
  {
    if bs == [] then []
    else
      var n := |bs| - 1;
      BodyPieces(prefix, depth, bs[..n]) + NextInBody(prefix, depth, n, bs[n])
  }

  /** Block `n` of an item's content: on the marker's line, or on a nested line of its own. */
  function NextInBody(prefix: string, depth: nat, n: nat, b: Block): seq<Piece>
    decreases b, 3
  {
    if n == 0 && b.Paragraph? then InlinePieces(b.spans)
    else [Separator("\n")] + BlockPieces(prefix, depth + 1, b)
  }

  function ItemPieces(prefix: string, depth: nat, ordered: bool, start: int, items: seq<Item>): seq<Piece>
    decreases items, 1
  {
    if items == [] then []
    else
      var n := |items| - 1;
      ItemPieces(prefix, depth, ordered, start, items[..n]) + NextItem(prefix, depth, ordered, start, n, items[n])
  }

  /** Item `n` of a list, and the line break before it. */
  function NextItem(prefix: string, depth: nat, ordered: bool, start: int, n: nat, item: Item): seq<Piece>
    decreases item, 3
  {
    Gap(n, "\n") + [ItemPiece(prefix, depth, ordered, Wrap64(start + n), item)]
  }

  function ItemPiece(prefix: string, depth: nat, ordered: bool, number: int, item: Item): Piece
    decreases item, 2
  {
    Wrap(ItemOpen(prefix, depth, ordered, number, item), "",
         [Marker(depth, ordered, number, item)] + BodyPieces(prefix, depth, item.blocks))
  }

  /** The whole text run. */
  function Document(prefix: string, bs: seq<Block>): seq<Piece> {
    BlocksPieces(prefix, 0, "\n\n", bs)
  }

  // ----- inline code survives its own fence

  /** `longestBacktickRun`. */
  method LongestBacktickRun(text: string) returns (longest: nat)
    ensures longest == LongestTicks(text)
  {
    longest := 0;
    var current := 0;
    for i := 0 to |text|
      invariant current == TrailingTicks(text[..i]) && longest == LongestTicks(text[..i])
    {
      assert text[..i + 1][..i] == text[..i];
      if text[i] == '`' {
        current := current + 1;
        longest := Max(longest, current);
      } else {
        current := 0;
      }
    }
    assert text[..|text|] == text;
  }

  lemma {:induction false} TrailingTicksCount(s: string, k: nat)
    requires k <= |s| && forall j :: k <= j < |s| ==> s[j] == '`'
    ensures |s| - k <= TrailingTicks(s)
  {
    if k < |s| { TrailingTicksCount(s[..|s| - 1], k); }
  }

  lemma {:induction false} RunIsBounded(s: string, from: nat, to: nat)
    requires from <= to <= |s| && forall j :: from <= j < to ==> s[j] == '`'
    ensures to - from <= LongestTicks(s)
  {
    if s == [] {
    } else if to < |s| {
      RunIsBounded(s[..|s| - 1], from, to);
    } else {
      TrailingTicksCount(s, from);
    }
  }

  /** Nothing inside a code span can close it: its fence does not occur in the text. */
  lemma FenceSurvives(text: string, at: nat)
    requires at + |Fence(text)| <= |text|
    ensures text[at..at + |Fence(text)|] != Fence(text)
  {
    var n := |Fence(text)|;
    if text[at..at + n] == Fence(text) {
      forall j | at <= j < at + n ensures text[j] == '`' { assert text[at..at + n][j - at] == '`'; }
      RunIsBounded(text, at, at + n);
    }
  }
}
