# marcup parser core in Dafny

This project models the parser core of marcup, a Rust library that turns
Markdown text into an mdast-style syntax tree of nom parser combinators,
together with its small AsciiDoc sketch. It proves what each parser accepts,
what it consumes and what it returns.

The model covers:

- **The parser input and result** (`Parsers`). A span over the whole source
  text has a start and an end offset. `IResult` becomes `PResult`: either
  the remaining span and a value, or an error. `Captured<T>` is also here.
- **Source coordinates** (`SourcePosition`, `Location`, `Ast`). `Point` and
  `Position` are regions with 1-indexed lines and columns and 0-indexed
  offsets. `Locatable<T>` is a value together with its region; its equality
  and hash look at the value only. The tree has headings, paragraphs, block
  quotes and inline emphasis, strong emphasis and text.
- **The whitespace and conversion helpers** (`Whitespace`, `Convert`):
  trailing-whitespace counting and trimming, `capture`, `locate`, `cow_str`
  and `span_as_string`.
- **The Markdown grammar** (`Lines`, `MarkdownInline`, `Markdown`):
  - ATX headers closed by a run of `=`.
  - Paragraphs and their lines.
  - The two block-quote styles.
  - Inline emphasis, strong emphasis and plain text.
  - The block loop `parse_markdown` and the entry point `parse`.
- **The AsciiDoc sketch** (`AsciiDoc`): delimiter recognisers over plain
  `&str`.

Each parser is a function of its input span. Its contract states when it
succeeds and what it then consumed, as a relation between the input and the
remainder. For example, every inline parser of the grammar consumes
exactly the source rendering of the element it returns (`Render`); for an
emphasis this holds of the corrected `parse_italics`, which the grammar
uses (see below). The combinator loops
(`many0`, `many1`) become recursive functions over the shrinking remainder.

Where the behaviour of the Rust code differs from a natural reading of
Markdown, the model follows the code:

- A header is a run of 1 to 6 `#` whose line, after trailing spaces, ENDS in
  exactly as many `=`. So `# Header World` is not a header: it parses as a
  paragraph (`Markdown.UnclosedHeaderIsParagraph`).
- Blank lines are never consumed between blocks. `parse_markdown` therefore
  stops at the first blank line, and `parse` fails when the first line is
  blank or the input is empty.
- `locate` builds its position from the remainder the inner parser
  returns, not from the captured span. The grammar uses `locate` as
  written, so every inline element, header, paragraph and block quote is
  positioned at the input that follows it, and the `Root` node at the
  unparsed remainder. The corrected `locate` is modelled beside it
  (see "## Findings").
- `parse_markdown_inline` mixes branch types: a `Locatable<Text>` mapped to
  a `Locatable<Inline>`, beside bare `Inline`s. The model takes the inner
  element of that branch.
- The indented block-quote style needs at least 4 leading spaces or tabs.
  It stores each line without its indentation.
- An emphasis may contain a line feed, so `parse_header`'s
  `parse_markdown_text` may run past the end of its line. `header` takes
  its content from `take_until_end_of_line_or_input`, so a header's content
  never holds a line feed.
- `parse_italics` stores `from_utf8(s.inner)` and `parse_header_tag`
  returns `s.inner.len()`. A span's `inner` is the whole buffer it was made
  from (the `emphasis` test builds one as `Span { inner: string.as_bytes(),
  .. }`), so as written every emphasis holds the whole text and the header
  tag reports the length of the whole text. Both are modelled as written
  (`ParseItalics`, `ParseHeaderTag`, and `ParseHeader` on top of it) beside
  their corrected forms (see "## Findings"). The inline grammar runs on the
  corrected `ParseItalicsCorrected`, so that what its elements render to is
  what they consumed; `InlineAltAsWritten` and
  `ParseMarkdownInlineAsWritten` state exactly how the as-written
  elements differ.

The helpers of src/parsers/util other than whitespace.rs and convert.rs
(`beginning_of_line`, `blank_line`, `end_of_line_or_input`,
`take_until_end_of_line_or_input`, `take_line_while1`, `take_end`) and the
span type of src/parsers/span.rs are not part of this model. Each is
given the smallest definition that its name and its call sites allow, in
`Lines` and `Parsers`. Only `\n` ends a line.

## Model

| member | source | states |
|---|---|---|
| Parsers.FromStr | src/parsers/mod.rs:5-6 | a span made from a string has that whole string as its remainder and starts at offset 0 |
| Parsers.Skip | src/parsers/mod.rs:12 | the span left after consuming `n` bytes is the remainder without its first `n` bytes, over the same text and end |
| Parsers.WithLength | src/parsers/util/convert.rs:28 | `with_length(n)` is the span of the first `n` remaining bytes, at the same start |
| Parsers.CountWhile | src/markdown/parser.rs:294 | the counted prefix is the longest whose bytes all satisfy the predicate: all inside do, the next one does not |
| Parsers.CountWhileIsMaximalRun | src/markdown/parser.rs:294 | any maximal satisfying prefix has exactly the counted length |
| Parsers.SuffixRem | src/parsers/mod.rs:12 | a remaining span after a parse is the input span skipped by the consumed amount, and the input's remainder is the consumed bytes followed by the new remainder |
| Parsers.LineAt | src/ast/location/position.rs:49-51 | the line of an offset is at least 1 |
| Parsers.ColumnAt | src/ast/location/position.rs:49-51 | the column of an offset is at least 1, and is 1 exactly at the start of the text or right after a line feed |
| Parsers.Captured.New | src/parsers/mod.rs:22-34 | a captured value gives back its value and the span it was made from |
| Parsers.CapturedEquality | src/parsers/mod.rs:15-19 | two captured values are equal exactly when their values and their spans are equal (derived equality) |
| SourcePosition.Point.New | src/ast/location/position.rs:100-109 | a point built from a line and a column of at least 1 reports the line, column and offset it was given |
| SourcePosition.Position.New | src/ast/location/position.rs:23-29 | a region built from two points has no indent |
| SourcePosition.Position.NewWithIndent | src/ast/location/position.rs:31-38 | a region with an indent of at least 1 keeps both points and has that indent |
| SourcePosition.Position.WithIndent | src/ast/location/position.rs:42-44 | replacing the indent keeps the two points |
| SourcePosition.Position.FromSpan | src/ast/location/position.rs:49-53 | the region of a span runs from its start offset to its end offset, with a 1-indexed line and column and no indent |
| SourcePosition.Range | src/ast/location/position.rs:57-59 | the half-open offset interval has exactly `hi - lo` members |
| SourcePosition.ContainsCountsLen | src/ast/location/position.rs:57-83 | a region contains exactly the offsets from its starting offset up to, not including, its ending offset, and there are `len()` of them |
| SourcePosition.ContainsTestRegion | src/ast/location/position.rs:131-142 | the test's region 2..4 contains 2 and 3 and not 4, where the test asserts `!contains(2)` and `contains(4)` |
| SourcePosition.IsEmptyIffContainsNothing | src/ast/location/position.rs:79-83 | `is_empty` holds exactly when the region contains no offset, exactly when it starts where it ends |
| SourcePosition.FromSpanCoversRemainder | src/ast/location/position.rs:49-83 | the region of a span contains exactly the offsets of its remaining bytes, and its length is their number |
| Location.Locatable.New | src/ast/location/mod.rs:14-16 | the value and the position are given back by `as_inner`, `into_inner` and `position` |
| Location.Locatable.Map | src/ast/location/mod.rs:22-24 | mapping applies the function to the value and keeps the position |
| Location.Locatable.From | src/ast/location/mod.rs:92-97 | converting a bare value gives it the default position |
| Location.Transpose | src/ast/location/mod.rs:65-71 | the result is absent exactly when the value is; otherwise it holds the value at the same position |
| Location.PositionIndependent | src/ast/location/mod.rs:74-90 | values wrapped at any two positions are equal, also against a bare value, exactly when the values are; equal values hash alike |
| Location.EqIsEquivalence | src/ast/location/mod.rs:74-90 | the value-only equality is reflexive, symmetric and transitive, and equal elements hash alike |
| Location.MapCompose | src/ast/location/mod.rs:22-24 | mapping twice is mapping once with the composition, at the same position |
| Ast.Point.New | src/ast/mod.rs:40-51 | the older point asserts a 1-indexed line and column and keeps its fields |
| Ast.Position.New | src/ast/mod.rs:71-79 | the older region asserts a 1-indexed indent when there is one and keeps its fields |
| Ast.Heading.New | src/ast/mod.rs:126-140 | a heading has a depth of 1 or 2 when setext and of 1 to 6 otherwise, and no children |
| Ast.Heading.NewWithChildren | src/markdown/parser.rs:300-302 | the same depth check, with the given children |
| Ast.SetextDepthsAreAtxDepths | src/ast/mod.rs:116 | the ATX depths are 1 to 6, the setext depths 1 and 2, and every setext depth is an ATX depth |
| Whitespace.TrailingSpaceCount | src/parsers/util/whitespace.rs:9-25 | the count is the length of the maximal run of spaces and tabs that ends the text |
| Whitespace.TrailingRunUnique | src/parsers/util/whitespace.rs:9-25 | a trailing run of spaces that cannot be extended is the counted one |
| Whitespace.CountTrailingWhitespace | src/parsers/util/whitespace.rs:9-25 | the loop from the end counts exactly the trailing spaces and tabs, and the input is returned unconsumed |
| Whitespace.TrimEnd | src/parsers/util/whitespace.rs:29-38 | the trimmed text is a prefix, what was cut is all spaces, and the result does not end with a space or tab |
| Whitespace.TrimStart | src/parsers/util/whitespace.rs:43 | the trimmed text is a suffix, what was cut is all spaces, and the result does not start with a space or tab |
| Whitespace.Space0 | src/parsers/util/whitespace.rs:43 | `space0` always succeeds, takes only spaces and tabs, and leaves the text trimmed at the start |
| Whitespace.TrimTrailingWhitespace | src/parsers/util/whitespace.rs:29-38 | always succeeds; the new span starts where the input does and holds the input without its trailing spaces and tabs |
| Whitespace.TrimWhitespace | src/parsers/util/whitespace.rs:41-49 | always succeeds, and the new span holds the input trimmed at both ends |
| Whitespace.TrimShape | src/parsers/util/whitespace.rs:41-49 | the trimmed text is an interior slice of the input with only spaces and tabs around it |
| Whitespace.TrimSlice | src/parsers/util/whitespace.rs:41-49 | the trimmed text is the slice after the leading run and before the trailing run |
| Whitespace.TrimEnds | src/parsers/util/whitespace.rs:41-49 | the trimmed text neither starts nor ends with a space or tab |
| Whitespace.TrimIdempotent | src/parsers/util/whitespace.rs:101-120 | trimming a trimmed text changes nothing |
| Whitespace.TrimWhitespaceIdempotent | src/parsers/util/whitespace.rs:41-49 | `trim_whitespace` applied to its own result leaves it as it is |
| Convert.Capture | src/parsers/util/convert.rs:22-32 | capture fails exactly when the inner parser does; otherwise it keeps the inner remainder and value, and its span starts at the input and covers exactly what was consumed |
| Convert.Locate | src/parsers/util/convert.rs:9-19 | as written, the position is the region of the REMAINING input the inner parser returned |
| Convert.LocateConsumed | src/parsers/util/convert.rs:76-86 | the corrected locate: the position is the region of the captured, consumed span |
| Convert.LocateCoversConsumed | src/parsers/util/convert.rs:76-86 | the corrected `locate(capture(p))` starts at the input's offset and is exactly as long as what `p` consumed |
| Convert.CowStr | src/parsers/util/convert.rs:36-38 | succeeds, consumes nothing and returns the remaining text |
| Convert.SpanAsString | src/parsers/util/convert.rs:40-42 | succeeds, consumes nothing and returns the remaining text |
| Convert.Tag123 | src/parsers/util/convert.rs:76-86 | the test's `tag("123")` parser leaves a remainder inside the input |
| Convert.LocateReportsRemainder | src/parsers/util/convert.rs:76-86 | on "123abc" the as-written locate reports offset 3, the start of "abc", where the test expects offset 0 and length 3, which the corrected locate gives |
| Lines.LineLen | src/markdown/parser.rs:317 | the first line is the longest prefix without a line feed: it ends at a line feed or at the end of the text |
| Lines.LineLenIsMaximal | src/markdown/parser.rs:317 | any prefix free of line feeds that ends at one, or at the end, has the line's length |
| Lines.FirstLine | src/markdown/parser.rs:317 | the first line is a prefix free of line feeds, followed by a line feed or the end of the text |
| Lines.AfterLine | src/markdown/parser.rs:305 | the text is its first line, a line feed and what follows, or the first line alone |
| Lines.LineSpan | src/markdown/parser.rs:305 | the whole first line with its line feed is the prefix that leaves what follows the line |
| Lines.LineSkip | src/markdown/parser.rs:293-317 | dropping bytes from within the first line leaves the rest of that line first and the following lines unchanged |
| Lines.AfterLineSkip | src/markdown/parser.rs:293-317 | dropping bytes from within the first line does not change what follows the line |
| Lines.IndentOfLine | src/markdown/parser.rs:465-467 | the leading spaces lie within the first line; the line is blank exactly when nothing follows them on it |
| Lines.AtLineEnd | src/markdown/parser.rs:305 | after the first line's text comes its line feed or the end, followed by what follows the line |
| Lines.AfterLineStartsLine | src/markdown/parser.rs:305 | what follows a consumed line and its line feed begins a line |
| Lines.AtLineStartIsColumnOne | src/markdown/parser.rs:290 | beginning a line is standing at column 1 |
| Lines.BeginningOfLine | src/markdown/parser.rs:290 | succeeds, consuming nothing, exactly at the start of the text or right after a line feed |
| Lines.EndOfLineOrInput | src/markdown/parser.rs:305 | succeeds exactly at the end of the input or at a line feed, which it consumes; what remains is what followed the line |
| Lines.NotLineEnding | src/markdown/parser.rs:480 | always succeeds with the rest of the line, its line feed left unconsumed |
| Lines.BlankLine | src/markdown/parser.rs:71 | succeeds exactly at the beginning of a line of only spaces and tabs, and consumes the line and its line feed |
| Lines.BlankIffSpacesToEnd | src/markdown/parser.rs:71 | a line is blank exactly when its leading spaces reach a line feed or the end of the text |
| Lines.Tag | src/markdown/parser.rs:479 | `tag(t)` succeeds exactly when the remainder starts with `t`, and consumes it |
| Lines.Take | src/markdown/parser.rs:331 | `take(n)` succeeds exactly when `n` bytes remain, and splits them off |
| Lines.TakeEnd | src/markdown/parser.rs:324 | `take_end(n)` succeeds exactly when `n` bytes remain; the last `n` are split off and the rest keeps the start |
| Lines.TakeHashes | src/markdown/parser.rs:294 | succeeds exactly at a '#', taking the whole leading run of '#' |
| MarkdownInline.RenderAllAppend | src/markdown/parser.rs:268 | the source of two runs of elements is the source of the first followed by that of the second |
| MarkdownInline.ParseItalics | src/markdown/parser.rs:110-120 | as written: accepts what the corrected parser accepts with the same remainder, and the emphasis holds the whole text under the span |
| MarkdownInline.ParseItalicsCorrected | src/markdown/parser.rs:110-120 | corrected: on success, the input is `*`, a non-empty interior free of `*`, `*` and the remainder, and the emphasis holds the interior as one text |
| MarkdownInline.ParseBold | src/markdown/parser.rs:78-90 | on success, the input is `**`, a non-empty interior free of `*`, `**` and the remainder, and the strong emphasis holds the interior as one text |
| MarkdownInline.ItalicsComplete | src/markdown/parser.rs:110-120 | the corrected parser recognises every well-delimited emphasis with exactly its interior, consuming exactly it |
| MarkdownInline.ItalicsHoldWholeText | src/markdown/parser.rs:114 | as written, the same emphasis is recognised with the same remainder but holds the whole text, so it renders longer than what it consumed |
| MarkdownInline.BoldComplete | src/markdown/parser.rs:78-90 | every well-delimited strong emphasis is recognised with exactly its interior, and the remainder is what follows |
| MarkdownInline.ItalicsRejectsDoubleStar | src/markdown/parser.rs:110-120 | italics never match at `**`, because `is_not` needs at least one byte |
| MarkdownInline.TextStep | src/markdown/parser.rs:239-244 | one round of `text_line`'s alternation consumes no more than remains |
| MarkdownInline.TextLineLen | src/markdown/parser.rs:239-244 | `text_line` consumes no more than remains |
| MarkdownInline.OrdinaryByteIsNoStop | src/markdown/parser.rs:220-237 | a byte outside `start_of_non_text` is never where plain text stops |
| MarkdownInline.StopShift | src/markdown/parser.rs:200-250 | where plain text stops does not depend on how far into the text one starts counting |
| MarkdownInline.NoStopWithinStep | src/markdown/parser.rs:239-244 | no stop lies inside the bytes one round takes |
| MarkdownInline.FailedStepIsStop | src/markdown/parser.rs:203-215 | a round fails only at a stop: the end, a line feed, an emphasis or a strong emphasis |
| MarkdownInline.TextLineIsFirstStop | src/markdown/parser.rs:200-250 | plain text ends exactly at the first stop: it never swallows a line feed, an emphasis or a strong emphasis, and never stops short of one |
| MarkdownInline.TextLineHasNoNewline | src/markdown/parser.rs:203-204 | plain text never contains a line feed |
| MarkdownInline.TextLine | src/markdown/parser.rs:239-244 | on success the consumed span and the remainder make up the input, and the consumed length is that of `text_line` |
| MarkdownInline.TextValue | src/markdown/parser.rs:248 | the text node's remainder lies inside the input |
| MarkdownInline.Plaintext | src/markdown/parser.rs:200-250 | succeeds exactly when no stop is at offset 0; the text is the non-empty bytes up to the first stop, free of line feeds; as `locate` is written, its position is the region of the remainder, starting where the text ends |
| MarkdownInline.InlineAlt | src/markdown/parser.rs:253-264 | with the corrected italics: succeeds exactly when input remains and does not start with a line feed; it consumes at least one byte, exactly the rendering of the element |
| MarkdownInline.InlineAltAsWritten | src/markdown/parser.rs:253-264 | as written: the same acceptance and remainder as `InlineAlt`; an emphasis holds the whole text, every other element is the same |
| MarkdownInline.RenderOne | src/markdown/parser.rs:78-120 | an emphasis renders as its text between `*`, a strong emphasis between `**` |
| MarkdownInline.ParseMarkdownInline | src/markdown/parser.rs:252-265 | with the corrected italics: fails exactly at the end or a line feed; otherwise consumes exactly the rendering of the element, positioned at the region of the remainder; emphasis wins over strong, and both over text |
| MarkdownInline.ParseMarkdownInlineAsWritten | src/markdown/parser.rs:252-265 | as written: the same acceptance, remainder and position as `ParseMarkdownInline`; where an emphasis starts it holds the whole text, elsewhere the element is the same |
| MarkdownInline.InlinePositionAfterElement | src/markdown/parser.rs:253 | the reported position starts right after the element's source, never at it; the corrected `locate` would start at the element and be as long as its source |
| MarkdownInline.EmphasisWinsAtSingleStar | src/markdown/parser.rs:252-265 | with the corrected italics, `*w*` is parsed as the emphasis of `w` and leaves what follows |
| MarkdownInline.StrongAtDoubleStar | src/markdown/parser.rs:252-265 | `**w**` is parsed as the strong emphasis of `w`, never as an emphasis, and leaves what follows |
| MarkdownInline.InlineRun | src/markdown/parser.rs:268 | the elements render to the input up to the end of the line; the run is empty exactly when the first element fails; with the corrected italics |
| MarkdownInline.RenderAllCons | src/markdown/parser.rs:268 | one element's source followed by a run's source is the source of the longer run |
| MarkdownInline.InlineRun1 | src/markdown/parser.rs:55 | succeeds exactly when the line is not empty; the non-empty elements render to the rest of the line; with the corrected italics |
| MarkdownInline.InlineElements | src/markdown/parser.rs:51-59 | succeeds exactly when the line is not empty; its container's elements render to the whole rest of the line; its position is the region of the remainder; with the corrected italics |
| MarkdownInline.InlineElementsTakeWholeLine | src/markdown/parser.rs:342-345 | on a non-empty text without line feeds the container takes it all |
| MarkdownInline.ParseMarkdownText | src/markdown/parser.rs:267-269 | never fails; the elements render to the input up to a consumed line feed or the end of the input; with the corrected italics |
| Markdown.ParseHeaderTag | src/markdown/parser.rs:272-277 | as written: accepts what the corrected tag accepts with the same remainder, and the value is the length of the whole text |
| Markdown.ParseHeaderTagCorrected | src/markdown/parser.rs:272-277 | corrected: succeeds exactly when a non-empty '#' run is followed by a space; the value is the run's length, and the run and the space are consumed |
| Markdown.HeaderTagReportsTextLength | src/markdown/parser.rs:275 | on "## a" the tag as written reports 4, where the run of '#' is 2 long |
| Markdown.ParseHeader | src/markdown/parser.rs:280-283 | succeeds exactly when the header tag does; the level is the length of the whole text, as the tag is written; the elements render to the rest of the line, whose line feed is consumed |
| Markdown.NoNewlineInTrim | src/markdown/parser.rs:339 | trimming a line cannot introduce a line feed |
| Markdown.CutClosing | src/markdown/parser.rs:322-336 | succeeds exactly when the trimmed line ends in `level` '=' and what precedes them neither starts nor ends with '='; the closing run is cut off |
| Markdown.HeaderBody | src/markdown/parser.rs:322-345 | succeeds exactly when the trimmed line is closed by `level` '=' around non-blank content; the elements render to that content, trimmed; with the corrected italics |
| Markdown.ContentOfClosedLine | src/markdown/parser.rs:339-345 | the content of a closed line is non-empty, free of line feeds and equal to the trimmed body |
| Markdown.HeaderTail | src/markdown/parser.rs:313-349 | succeeds exactly when the rest of the line is closed by `level` '='; the line feed is left, and the elements render to the content; with the corrected italics |
| Markdown.HeaderInner | src/markdown/parser.rs:288-308 | succeeds exactly at the beginning of a header line; the depth is the '#' count, 1 to 6, not setext; the elements render to the content; the line and its line feed are consumed; with the corrected italics |
| Markdown.HeaderLineRest | src/markdown/parser.rs:300-305 | after the '#' run, succeeds exactly when the line is closed by `level` '='; it consumes the line and its line feed |
| Markdown.HeaderLineBreaks | src/markdown/parser.rs:293-305 | the '#' run lies within the first line, so the line after it ends where the whole line ends |
| Markdown.Header | src/markdown/parser.rs:287-311 | the header with the same acceptance, depth and content, with progress; as `locate` is written, positioned at the region of the remainder; with the corrected italics |
| Markdown.ContinueParagraph | src/markdown/parser.rs:64-76 | succeeds, consuming nothing, exactly when neither a header nor a blank line starts here |
| Markdown.ParagraphLine | src/markdown/parser.rs:40-46 | after leading spaces, succeeds exactly when the line has content; the elements render to it, and the line feed is left; with the corrected italics |
| Markdown.ParagraphItem | src/markdown/parser.rs:528-532 | one round of the paragraph loop consumes one paragraph line and its line feed and leaves the beginning of a line |
| Markdown.ParagraphItemIsLine | src/markdown/parser.rs:528-532 | a round succeeds exactly when the paragraph continues and a paragraph line follows, with that line's value |
| Markdown.OneParagraphLine | src/markdown/parser.rs:528-532 | a line of spaces, rendered elements and a line feed or the end is a one-line paragraph |
| Markdown.ParagraphItemAtLineStart | src/markdown/parser.rs:64-76 | at the beginning of a line, the loop goes on exactly when the line is neither a header nor blank |
| Markdown.ParagraphStops | src/markdown/parser.rs:528-532 | where the loop stops at the beginning of a line, a header or a blank line starts, or the input ended |
| Markdown.ParagraphTextCons | src/markdown/parser.rs:528-532 | a paragraph line followed by more paragraph lines is a longer paragraph |
| Markdown.ParagraphItems | src/markdown/parser.rs:528-532 | the rounds taken make up the paragraph text before the remainder, and the loop stops only where a round fails |
| Markdown.ParagraphInner | src/markdown/parser.rs:520-539 | succeeds exactly at the beginning of a line that is neither a header nor blank; it takes all lines up to a header, a blank line or the end, and joins their elements in order; with the corrected italics |
| Markdown.ParseParagraph | src/markdown/parser.rs:488-542 | the paragraph with the same acceptance and content; as `locate` is written, positioned at the region of the remainder; with the corrected italics |
| Markdown.BlockquoteLine1 | src/markdown/parser.rs:463-473 | succeeds exactly at the beginning of a non-blank line with at least 4 leading spaces or tabs; the value is the line without them, and the line is consumed |
| Markdown.BlockquoteLine2 | src/markdown/parser.rs:477-484 | succeeds exactly at the beginning of a line starting with "> "; the value is the rest of the line, and the line is consumed |
| Markdown.PrintableStartIsNotBlank | src/markdown/parser.rs:71 | a line starting with a byte other than a space, tab or line feed is not blank |
| Markdown.QuoteLineIsNotBlank | src/markdown/parser.rs:479 | a "> " line is not blank |
| Markdown.HeaderLineIsNotBlank | src/markdown/parser.rs:294 | a header line is not blank |
| Markdown.BlankIsNotQuoteLine | src/markdown/parser.rs:437-438 | no line is both blank and a "> " line |
| Markdown.LineRunCons | src/markdown/parser.rs:430-438 | a line followed by a run of lines of the same kind is a longer run |
| Markdown.LineRunAppend | src/markdown/parser.rs:451 | two runs of the same kind, one after the other, are one run |
| Markdown.IndentedRun | src/markdown/parser.rs:430 | the lines taken form an indented run; it stops only where the next line fails, and is empty exactly when the first does |
| Markdown.QuoteRun | src/markdown/parser.rs:434 | the lines taken form a run of "> " lines; it stops only where the next line fails, and is empty exactly when the first does |
| Markdown.BlankLines | src/markdown/parser.rs:437 | the blank lines taken are each recorded as "", and nothing is taken when no blank line starts |
| Markdown.BlankLinesStep | src/markdown/parser.rs:437 | a blank line before a run of blank lines is a longer run of "" entries |
| Markdown.QuoteContinuations | src/markdown/parser.rs:436-449 | the pairs taken form a quoted run; a failing pair gives back its blank lines, and the loop stops before a line that is not a "> " line |
| Markdown.BlockQuoteInner | src/markdown/parser.rs:427-456 | succeeds exactly when either style's first line matches; the indented style wins and takes its maximal run, otherwise the "> " style with blank lines between quote lines |
| Markdown.ParseBlockquote | src/markdown/parser.rs:425-459 | the block quote with the same acceptance and lines; as `locate` is written, positioned at the region of the remainder |
| Markdown.BlocksStartAtNonBlankLines | src/markdown/parser.rs:545-565 | a header or a block quote starts only at the beginning of a non-blank line |
| Markdown.BlockAlt | src/markdown/parser.rs:545-565 | succeeds exactly at the beginning of a non-blank line; it picks a header, else a block quote, else a paragraph, positioned at the remainder it leaves |
| Markdown.ChainedPositions | src/markdown/parser.rs:545-565 | along a run of a parser that consumes and positions its value at its remainder, starting offsets strictly increase, lie after the start and no later than the stop, and the last value is positioned where the run stops |
| Markdown.BlockAltIsLocated | src/markdown/parser.rs:545-565 | every block alternative consumes input and, under `locate` as written, is positioned at the remainder it leaves |
| Markdown.BlockRun | src/markdown/parser.rs:545-565 | blocks are taken until one fails: each block is the alternation's result where the previous one stopped (`Blocks`), the run is empty exactly when the first alternative fails, and it stops where the alternation fails |
| Markdown.ParseMarkdown | src/markdown/parser.rs:544-566 | succeeds exactly at the beginning of a non-blank line; every block is the alternation's result where the previous one stopped (`Blocks`); it stops at the end or at the beginning of a blank line |
| Markdown.BlockPositions | src/markdown/parser.rs:545-565 | the blocks' starting offsets strictly increase and lie after the document's start, and the last block is positioned where `parse_markdown` stops |
| Markdown.RootAtLastBlock | src/markdown/parser.rs:568-579 | `parse` positions the root exactly where its last block is positioned |
| Markdown.Parse | src/markdown/parser.rs:568-579 | succeeds exactly when the first line is not blank; the root holds the blocks of `parse_markdown`, positioned at the remainder; with the corrected italics |
| Markdown.ParseRejectsLeadingBlankLine | src/markdown/parser.rs:568-579 | the empty document, and one whose first line is a single space or tab, are errors |
| Markdown.ParseRejectsBlankFirstLine | src/markdown/parser.rs:568-579 | a document whose first line holds only spaces and tabs and ends in a line feed is an error |
| Markdown.ParseRejectsIndentedBlankFirstLine | src/markdown/parser.rs:675-681 | the test's document "    \n    ls\n    \n" is an error, where the test expects it to parse |
| Markdown.EmphasisTestSpanIsEmpty | src/markdown/parser.rs:604-621 | the span of the `emphasis` test, from offset 0 to offset 0 over "*alpha*", is empty, so `parse_paragraph` fails on it where the test unwraps a paragraph |
| Markdown.EmphasisIsOneElementParagraph | src/markdown/parser.rs:488-542 | at the beginning of a line, `*w*` up to the end of the input is a paragraph that consumes it all and holds one element, the emphasis of `w` (with the corrected italics) |
| Markdown.EmphasisTestOnWholeText | src/markdown/parser.rs:604-621 | over the whole of "*alpha*", `parse_paragraph` succeeds with one element, the emphasis of "alpha", with the corrected italics: the outcome the test expects |
| Markdown.NoClosingRunNoHeader | src/markdown/parser.rs:322-327 | a line without '=' is never a header line |
| Markdown.NoEqualsNotClosed | src/markdown/parser.rs:324-326 | a line without '=' is closed by no run of '=' |
| Markdown.UnclosedHeaderIsParagraph | src/markdown/parser.rs:642-647 | a document starting with '#' whose first line has no '=', such as "# Header World", parses, and its first block is a paragraph |
| Markdown.FirstBlockIsParagraph | src/markdown/parser.rs:545-565 | where no header and no block quote starts, the first block is a paragraph |
| AsciiDoc.TagStr | src/asciidoc/parser.rs:16 | `tag(p)` succeeds exactly when the input starts with `p`, and consumes it |
| AsciiDoc.IsNot | src/asciidoc/parser.rs:16 | `is_not` succeeds exactly when the first character is not a stop; it takes the maximal run free of stops |
| AsciiDoc.Delimited | src/asciidoc/parser.rs:16 | on success the input is the opening tag, a non-empty run free of stops, the closing tag and the remainder |
| AsciiDoc.DelimitedRoundTrip | src/asciidoc/parser.rs:16 | a stop-free run between the tags is read back exactly when the closing tag begins with a stop |
| AsciiDoc.FrontMatter | src/asciidoc/parser.rs:15-17 | front matter is a non-empty text without '-' between two "---" |
| AsciiDoc.FrontMatterRoundTrip | src/asciidoc/parser.rs:15-17 | any such text between "---" fences is read back with what follows |
| AsciiDoc.FrontMatterExample | src/asciidoc/parser.rs:213-216 | the test input gives the remainder "" and the author block |
| AsciiDoc.ConstrainedBold | src/asciidoc/parser.rs:81-83 | `*`, a non-empty text without '*', `*` |
| AsciiDoc.UnconstrainedBold | src/asciidoc/parser.rs:86-88 | `**`, a non-empty text without '*', `**` |
| AsciiDoc.ConstrainedItalics | src/asciidoc/parser.rs:90-92 | `_`, a non-empty text without '_', `_` |
| AsciiDoc.UnconstrainedItalics | src/asciidoc/parser.rs:95-97 | `__`, a non-empty text without '_', `__` |
| AsciiDoc.BoldRoundTrip | src/asciidoc/parser.rs:81-88 | bold text without '*' is read back by both bold parsers |
| AsciiDoc.ItalicsRoundTrip | src/asciidoc/parser.rs:90-97 | italic text without '_' is read back by both italics parsers |
| AsciiDoc.ConstrainedMonospace | src/asciidoc/parser.rs:99-101 | as written: a backtick, a non-empty text without '1', and the digit '1' |
| AsciiDoc.ConstrainedMonospaceRoundTrip | src/asciidoc/parser.rs:99-101 | as written, any text without '1' is read back when it is closed by '1' |
| AsciiDoc.ConstrainedMonospaceRejectsBackticks | src/asciidoc/parser.rs:99-101 | as written, text without '1' closed by a backtick, such as "`code`", is rejected |
| AsciiDoc.ConstrainedMonospaceCorrected | src/asciidoc/parser.rs:99-106 | corrected: a backtick, a non-empty text without backticks, a backtick |
| AsciiDoc.ConstrainedMonospaceCorrectedRoundTrip | src/asciidoc/parser.rs:99-106 | the corrected parser reads back any backtick-free text between backticks |
| AsciiDoc.UnconstrainedMonospace | src/asciidoc/parser.rs:104-106 | "``", a non-empty text without backticks, "``" |
| AsciiDoc.InlineCode | src/asciidoc/parser.rs:109-111 | "`+", a non-empty text without '`' or '+', "`+" |
| AsciiDoc.CodeBlock | src/asciidoc/parser.rs:204-206 | three backticks, a non-empty text without backticks, three backticks |
| AsciiDoc.CodeRoundTrip | src/asciidoc/parser.rs:104-111 | backtick-free code is read back by the unconstrained monospace and code block parsers, and by inline code when it has no '+' |
| AsciiDoc.Image | src/asciidoc/parser.rs:117-122 | as written: "image::", a target without '[', then "[[", a text without ']', "]" |
| AsciiDoc.ImageRoundTrip | src/asciidoc/parser.rs:117-122 | as written, the doubled-bracket form is read back as target and text |
| AsciiDoc.ImageRejectsMacro | src/asciidoc/parser.rs:117-122 | as written, the macro form with a single bracket, such as "image::a.png[alt]", is rejected |
| AsciiDoc.Terminated | src/asciidoc/parser.rs:117-122 | `terminated(is_not, tag)`: a non-empty stop-free text, then the closing tag |
| AsciiDoc.TerminatedRoundTrip | src/asciidoc/parser.rs:117-122 | a stop-free text before a closing tag that begins with a stop is read back |
| AsciiDoc.ImageCorrected | src/asciidoc/parser.rs:117-122 | corrected: "image::", a target without '[', "[", a text without ']', "]" |
| AsciiDoc.ImageCorrectedRoundTrip | src/asciidoc/parser.rs:117-122 | the corrected parser reads back the macro form as target and text |
| AsciiDoc.PlainChars | src/asciidoc/parser.rs:131-134 | the characters taken one at a time are the input's, up to the first special tag or the end |
| AsciiDoc.JoinChars | src/asciidoc/parser.rs:135 | joining characters taken from the front of the input gives back that prefix |
| AsciiDoc.Plaintext | src/asciidoc/parser.rs:129-137 | succeeds exactly when the input is not empty and no special tag starts it; the value is the prefix up to the first special tag or the end |
| AsciiDoc.PlaintextIsMaximal | src/asciidoc/parser.rs:129-137 | plain text cannot be parsed again where it stopped |
| AsciiDoc.EqualsRun | src/asciidoc/parser.rs:167 | a run of `n` '=' |
| AsciiDoc.HeaderTag | src/asciidoc/parser.rs:165-170 | on success the input is a run of '=', as long as the value (at least 1), a space and the remainder |
| AsciiDoc.HeaderTagRoundTrip | src/asciidoc/parser.rs:165-170 | a run of `n` '=' and a space is read back as level `n` |
| AsciiDoc.UnorderedListTag | src/asciidoc/parser.rs:177-179 | succeeds exactly when the input starts with "* ", and consumes it |
| AsciiDoc.OrderedListTag | src/asciidoc/parser.rs:189-194 | as written: a non-empty run of characters whose low byte is an ASCII digit, ". " and the remainder |
| AsciiDoc.OrderedListTagRoundTrip | src/asciidoc/parser.rs:189-194 | a number, ". " and a remainder are read back as that number |
| AsciiDoc.OrderedListTagAcceptsDotlessI | src/asciidoc/parser.rs:191 | as written, "ı. item" is taken for a list number, because U+0131 truncates to '1' |
| AsciiDoc.OrderedListTagCorrected | src/asciidoc/parser.rs:189-194 | corrected: ASCII digits, ". " and the remainder |
| AsciiDoc.OrderedListTagCorrectedRoundTrip | src/asciidoc/parser.rs:189-194 | the corrected parser reads back a decimal number and refuses U+0131 |

## Left out

- Error values: nom's error kinds, the `context` labels and `MarcupParserError` are reduced to a single `Err`/`Fail`.
- The `println!` calls of `parse_header`, `parse_paragraph` and `parse` are output only and are left out.
- Bytes are modelled as `char`, and a `&str` or `Span` as a `string`. The Markdown grammar inspects only ASCII bytes. The AsciiDoc parsers work on characters, as the Rust code does on `&str`.
- Only `\n` ends a line; a `\r` is an ordinary byte.
- Integer widths (`usize`, `u32`, `u64`) are unbounded here. No arithmetic in the core comes near overflow except `Position::len`, whose underflow on a reversed region is excluded by its precondition.
- Commented-out code is left out: the fenced and indented code block parsers, `parse_thematic_break`, `parse_link`, the AsciiDoc `parse_header` and list element parsers, and the `italics`, `decorated_text_contents` and `parse_emphasis` remnants.
- `Node`, `NodeType`, `Content`, `Code` and serialisation are data only; `Code` is declared without a parser, since none is live.
- `cow_path` and `Span::as_unsafe_remaining_str` convert to other string types and are left out.
- `Locatable::as_ref`, `as_mut` and `as_mut_inner` differ from `as_inner` only in borrowing, which values do not model.
- Lines.BlankLine: `is_only_whitespace` and `space0` are taken to mean spaces and tabs only.
- Markdown.Parse: the spans in the snapshot tests are not modelled.
- ItalicsComplete: states the corrected `parse_italics`, whose emphasis holds the interior; as written the emphasis holds the whole text, which `ItalicsHoldWholeText` states.
- InlineAlt: uses the corrected `parse_italics`, so its rendering contract covers an emphasis's interior; the as-written alternation is `InlineAltAsWritten`, which differs only in each emphasis's text.
- ParseMarkdownInline: uses the corrected `parse_italics`; the as-written parser is `ParseMarkdownInlineAsWritten`, which differs only in each emphasis's text. The grammar above it (`InlineRun`, `InlineElements`, `ParseMarkdownText`, headers, paragraphs, `Parse`) also runs on the corrected form, so an emphasis in its trees holds its interior, not the whole text.
- EmphasisWinsAtSingleStar: states the emphasis of `w` given by the corrected `parse_italics`; as written it holds the whole text.
- AsciiDoc.Plaintext: `many1` stops on any error of its parser; since `take(1)` always consumes, nom's no-progress check never fires and is not modelled.

## Findings

| source | as written | input that shows it | evidently intended | confidence | as-written member | corrected member |
|---|---|---|---|---|---|---|
| src/parsers/util/convert.rs:9-19 | `locate` builds the position from the span the inner parser RETURNS, which is the remaining input | "123abc" with `tag("123")`: offset 3 where the test at convert.rs:76-86 expects offset 0 and length 3 | the position of the captured, consumed span | high; not executed | Convert.LocateReportsRemainder | Convert.LocateConsumed |
| src/asciidoc/parser.rs:99-101 | constrained monospace is closed by the digit `1`, and its run stops only at `1` | "`code`" is rejected; "`code1" is accepted | a backtick on both sides, like the unconstrained form at :104-106 | high; not executed | AsciiDoc.ConstrainedMonospaceRejectsBackticks | AsciiDoc.ConstrainedMonospaceCorrectedRoundTrip |
| src/asciidoc/parser.rs:117-122 | the target's `[` is consumed by the first `delimited`, then the second requires another `[` | "image::a.png[alt]" is rejected; only "image::a.png[[alt]" is accepted | one bracket pair: `terminated(is_not("]"), tag("]"))` for the text | medium; not executed | AsciiDoc.ImageRejectsMacro | AsciiDoc.ImageCorrectedRoundTrip |
| src/asciidoc/parser.rs:191 | `is_digit(d as u8)` truncates the character to its low byte | "ı. item" (U+0131 truncates to 0x31, '1') is accepted as a list number | the digit test on the character itself, ASCII digits only | medium; not executed | AsciiDoc.OrderedListTagAcceptsDotlessI | AsciiDoc.OrderedListTagCorrectedRoundTrip |
| src/ast/location/position.rs:131-142 | the test asserts `!contains(2)` and `contains(4)` for the region from offset 2 to offset 4, but `contains` at :57-59 is `start <= offset < end` | the region 2..4: `contains(2)` is true, `contains(4)` is false | the code: `end` is documented at :12-13 as the first place after the region, so the test, not `contains`, is off by one | high; not executed | SourcePosition.ContainsTestRegion | SourcePosition.ContainsCountsLen |
| src/markdown/parser.rs:675-681 | the test expects `parse` to succeed on a document whose first line is four spaces; no block parser accepts a blank line and nothing consumes one before the first block | "    \n    ls\n    \n" is an error | an indented code block; its parser is commented out | high; not executed | Markdown.ParseRejectsIndentedBlankFirstLine | none: the intended indented code block parser is commented out in the source, so there is no corrected grammar to model |
| src/markdown/parser.rs:110-120 | the emphasis's text is `from_utf8(s.inner)`, the whole buffer under the span `is_not("*")` returns | on "a *b* c" at offset 2 the emphasis holds "a *b* c" instead of "b" | the interior, as `parse_bold` stores `content.to_string()` at :84 | medium (the span type is not part of this model); not executed | MarkdownInline.ItalicsHoldWholeText | MarkdownInline.ItalicsComplete |
| src/markdown/parser.rs:272-277 | the tag's value is `s.inner.len()`, the length of the whole buffer | "## a" gives 4 instead of 2 | the run's length, as `header` computes it with `remaining_len()` at :294 | medium (the span type is not part of this model); not executed | Markdown.HeaderTagReportsTextLength | Markdown.ParseHeaderTagCorrected |
| src/markdown/parser.rs:604-621 | the `emphasis` test builds its span with `start: 0` and `end: 0` and unwraps a paragraph | a span from offset 0 to offset 0 over "*alpha*" is empty, its line is blank, and `parse_paragraph` fails | a span over the whole text, as `Span::from` makes | low (the span type is not part of this model); not executed | Markdown.EmphasisTestSpanIsEmpty | Markdown.EmphasisTestOnWholeText |
