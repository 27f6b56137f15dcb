/** The syntax tree (src/ast/mod.rs), shaped after mdast: a `Root` holds
    blocks, blocks hold inline content, and parsed children are wrapped in
    `Locatable`.

    The `Emphasis`, `Strong` and `Text` records of the source are the three
    variants of `Inline` here. `InlineElementContainer`, `BlockQuote`,
    `Root`, `Heading::new_with_children`, the level bounds and the
    `BlockQuote` block variant are used by the Markdown parser but missing
    from this file of the source; they are defined from their call sites. */
module Ast {
  import SourcePosition
  import opened Location

  type Option<T> = SourcePosition.Option<T>

  /** The older coordinate record of this file: the offset is optional. */
  datatype Point = Point(line: nat, column: nat, offset: Option<nat>) {

    /** `Point::new` asserts a 1-indexed line and column. */
    static function New(line: nat, column: nat, offset: Option<nat>): (p: Point)
      requires line >= 1 && column >= 1
      ensures p.line == line && p.column == column && p.offset == offset
    {
      Point(line, column, offset)
    }
  }

  /** The older region record of this file. */
  datatype Position = Position(start: Point, end: Point, indent: Option<nat>) {

    /** `Position::new` asserts a 1-indexed indent when there is one. */
    static function New(start: Point, end: Point, indent: Option<nat>): (p: Position)
      requires indent.Some? ==> indent.value >= 1
      ensures p.start == start && p.end == end && p.indent == indent
    {
      Position(start, end, indent)
    }
  }

  datatype Inline =
    | Emphasis(children: seq<Inline>)
    | Strong(children: seq<Inline>)
    | Text(value: string)

  /** An ordered run of inline nodes; the order is the rendering order. */
  datatype InlineElementContainer = InlineElementContainer(elements: seq<Locatable<Inline>>) {

    /** `From<Vec<InlineElementContainer>>`: the containers joined in order. */
    static function Concat(cs: seq<InlineElementContainer>): InlineElementContainer {
      if cs == [] then InlineElementContainer([])
      else InlineElementContainer(cs[0].elements + Concat(cs[1..]).elements)
    }
  }

  /** `Heading::MIN_LEVEL` and `Heading::MAX_LEVEL`. */
  const MinLevel: nat := 1
  const MaxLevel: nat := 6

  /** The depths a heading may have: 1 to 6 for ATX, 1 or 2 for setext. */
  predicate ValidDepth(depth: nat, setext: bool) {
    if setext then depth == 1 || depth == 2 else MinLevel <= depth <= MaxLevel
  }

  datatype Heading = Heading(depth: nat, setext: bool, children: InlineElementContainer) {

    /** `Heading::new`: asserts the depth range of the style, no children. */
    static function New(depth: nat, setext: bool): (h: Heading)
      requires ValidDepth(depth, setext)
      ensures h.depth == depth && h.setext == setext && h.children.elements == []
    {
      Heading.Heading(depth, setext, InlineElementContainer([]))
    }

    /** `Heading::new_with_children`: the same checks, with content. */
    static function NewWithChildren(depth: nat, setext: bool, children: InlineElementContainer): (h: Heading)
      requires ValidDepth(depth, setext)
      ensures h.depth == depth && h.setext == setext && h.children == children
    {
      Heading.Heading(depth, setext, children)
    }
  }

  /** Every setext depth is also an ATX depth, and ATX allows four more. */
  lemma SetextDepthsAreAtxDepths(depth: nat)
    ensures ValidDepth(depth, true) ==> ValidDepth(depth, false)
    ensures ValidDepth(depth, false) <==> depth in {1, 2, 3, 4, 5, 6}
    ensures ValidDepth(depth, true) <==> depth in {1, 2}
  {
  }

  datatype Paragraph = Paragraph(children: InlineElementContainer)

  datatype Code = Code(lang: Option<string>, meta: Option<string>, value: string)

  /** The quoted lines, kept as raw text: markup inside a quote is not parsed. */
  datatype BlockQuote = BlockQuote(lines: seq<string>)

  datatype Block =
    | Heading(heading: Heading)
    | Paragraph(paragraph: Paragraph)
    | Code(code: Code)
    | BlockQuote(blockquote: BlockQuote)

  datatype Root = Root(children: seq<Locatable<Block>>)
}
