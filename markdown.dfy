/** The block half of the Markdown grammar (src/markdown/parser.rs): headers,
    block quotes and paragraphs, the block loop and `parse`.

    The grammar is the code's, not CommonMark's: a header is a run of '#'
    whose line must END in as many '=' as there are '#'; blank lines are
    never consumed between blocks, so the block loop stops at the first
    blank line; and a block quote keeps its lines as raw text. */
module Markdown {
  import opened Parsers
  import opened Whitespace
  import opened Lines
  import opened Convert
  import opened Location
  import opened Ast
  import opened MarkdownInline
  import SourcePosition

  // ---------------------------------------------------------------- headers

  /** `parse_header_tag` as written: it accepts what
      `ParseHeaderTagCorrected` accepts and leaves the same remainder, but
      its value is `s.inner.len()`, the length of the whole buffer under the
      span, not the length of the '#' run. */
  function ParseHeaderTag(s: Span): (r: PResult<nat>)
    ensures r.Ok? <==> ParseHeaderTagCorrected(s).Ok?
    ensures r.Ok? ==> r.rest == ParseHeaderTagCorrected(s).rest && r.value == |s.text|
  {
    match TakeHashes(s)
    case Err => Err
    case Ok(s1, hashes) =>
      match Tag(s1, " ")
      case Err => Err
      case Ok(s2, _) => Ok(s2, |hashes.text|)
  }

  /** `parse_header_tag` as intended: a run of '#' and one space, both
      consumed; the value is the length of the run. */
  function ParseHeaderTagCorrected(s: Span): (r: PResult<nat>)
    ensures var n := CountWhile(Rem(s), IsHash);
            r.Ok? <==> 1 <= n < |Rem(s)| && Rem(s)[n] == ' '
    ensures r.Ok? ==> && r.value >= 1 && r.value == CountWhile(Rem(s), IsHash) && Suffix(s, r.rest)
                      && Rem(s) == Rem(s)[..r.value] + " " + Rem(r.rest)
  {
    match TakeHashes(s)
    case Err => Err
    case Ok(s1, hashes) =>
      match Tag(s1, " ")
      case Err => Err
      case Ok(s2, _) => Ok(s2, |Rem(hashes)|)
  }

  /** On "## a" the tag as written reports 4, the length of the text, where
      the run of '#' is 2 long, as the corrected tag reports. */
  lemma HeaderTagReportsTextLength()
    ensures ParseHeaderTag(FromStr("## a")) == Ok(Skip(FromStr("## a"), 3), 4)
    ensures ParseHeaderTagCorrected(FromStr("## a")).value == 2
  {
    var s := FromStr("## a");
    CountWhileIsMaximalRun(Rem(s), IsHash, 2);
  }

  /** `parse_header`: the header tag as written, then the inline elements
      up to the end of the line. Its level is therefore the length of the
      whole text. */
  function ParseHeader(s: Span): (r: PResult<(nat, seq<Locatable<Inline>>)>)
    ensures r.Ok? <==> ParseHeaderTag(s).Ok?
    ensures r.Ok? ==> var t := Rem(ParseHeaderTag(s).rest);
                      && r.value.0 == |s.text| && Suffix(s, r.rest)
                      && (|| (t == RenderAll(r.value.1) && Rem(r.rest) == [])
                          || t == RenderAll(r.value.1) + "\n" + Rem(r.rest))
  {
    match ParseHeaderTag(s)
    case Err => Err
    case Ok(s1, level) =>
      match ParseMarkdownText(s1)
      case Ok(s2, inlines) => Ok(s2, (level, inlines))
  }

  predicate AllEquals(w: string) {
    forall i :: 0 <= i < |w| ==> w[i] == '='
  }

  /** The rest of a header line after its '#' run, without trailing spaces,
      is the content followed by exactly `level` '='; the content neither
      starts nor ends with '=' and is not blank. */
  predicate ClosedBy(line: string, level: nat) {
    Closed(TrimEnd(line), level)
  }

  predicate Closed(closed: string, level: nat) {
    CutAccepts(closed, level) && Trim(closed[..|closed| - level]) != []
  }

  /** The line ends in `level` '=' and the content neither starts nor ends
      with '='. */
  predicate CutAccepts(t: string, level: nat) {
    && level < |t|
    && AllEquals(t[|t| - level..])
    && t[0] != '='
    && t[|t| - level - 1] != '='
  }

  /** The header content of such a line: what lies between the '#' run and
      the '=' run, trimmed. */
  function HeaderContent(line: string, level: nat): string
    requires ClosedBy(line, level)
  {
    ContentOf(TrimEnd(line), level)
  }

  function ContentOf(closed: string, level: nat): string
    requires Closed(closed, level)
  {
    Trim(closed[..|closed| - level])
  }

  lemma {:induction false} NoNewlineInTrim(r: string)
    requires '\n' !in r
    ensures '\n' !in Trim(r)
  {
    TrimShape(r);
  }

  /** The checks `header_tail` makes on the trimmed rest of the line: it
      ends in `level` '=', which are cut off (`take_end`), and what is left
      neither starts nor ends with '=' (the two `peek`s). */
  function CutClosing(trimmed: Span, level: nat): (r: PResult<()>)
    ensures r.Ok? <==> CutAccepts(Rem(trimmed), level)
    ensures r.Ok? ==> && r.rest.text == trimmed.text && r.rest.start == trimmed.start
                      && Rem(r.rest) == Rem(trimmed)[..|Rem(trimmed)| - level]
  {
    var t := Rem(trimmed);
    match TakeEnd(trimmed, level)
    case Err => Err
    case Ok(body, closing) =>
      assert Rem(body) == t[..|t| - level] && Rem(closing) == t[|t| - level..];
      if !AllEquals(Rem(closing)) then Err
      else
        match Take(body, 1)
        case Err => Err
        case Ok(_, first) =>
          if Rem(first)[0] == '=' then Err
          else
            match TakeEnd(body, 1)
            case Err => Err
            case Ok(_, last) =>
              assert Rem(last)[0] == t[|t| - level - 1];
              if Rem(last)[0] == '=' then Err
              else Ok(body, ())
  }

  /** The part of `header_tail` after the line is cut and its trailing
      spaces are trimmed. */
  function HeaderBody(trimmed: Span, level: nat): (r: PResult<InlineElementContainer>)
    requires '\n' !in Rem(trimmed)
    ensures r.Ok? <==> Closed(Rem(trimmed), level)
    ensures r.Ok? ==> RenderAll(r.value.elements) == ContentOf(Rem(trimmed), level)
  {
    match CutClosing(trimmed, level)
    case Err => Err
    case Ok(body, _) =>
      var content := TrimWhitespace(body).rest;
      ContentOfClosedLine(Rem(trimmed), level, Rem(body), Rem(content));
      match InlineElements(content)
      case Err => Err
      case Ok(_, l) =>
        InlineElementsTakeWholeLine(content);
        Ok(body, l.IntoInner())
  }

  /** The content of a closed line is one non-empty line of its own. */
  lemma ContentOfClosedLine(t: string, level: nat, body: string, content: string)
    requires '\n' !in t && level <= |t| && body == t[..|t| - level] && content == Trim(body)
    ensures '\n' !in content
    ensures Closed(t, level) <==> CutAccepts(t, level) && content != []
    ensures Closed(t, level) ==> content[0] != '\n' && ContentOf(t, level) == content
  {
    NoNewlineInTrim(body);
  }

  /** `header_tail(level)`: the rest of the line must be closed by `level`
      '='; the content in between is parsed as inline elements. The line
      feed is left for the caller. */
  function HeaderTail(s: Span, level: nat): (r: PResult<InlineElementContainer>)
    ensures r.Ok? <==> ClosedBy(FirstLine(Rem(s)), level)
    ensures r.Ok? ==> && Suffix(s, r.rest) && Rem(r.rest) == Rem(s)[|FirstLine(Rem(s))|..]
                      && RenderAll(r.value.elements) == HeaderContent(FirstLine(Rem(s)), level)
  {
    match NotLineEnding(s)
    case Ok(input, restOfLine) =>
      var trimmed := TrimTrailingWhitespace(restOfLine).rest;
      match HeaderBody(trimmed, level)
      case Err => Err
      case Ok(_, content) => Ok(input, content)
  }

  /** `t` begins with a header line: a '#' run of an allowed length whose
      line is closed by as many '='. */
  predicate IsHeaderLine(t: string) {
    var d := CountWhile(t, IsHash);
    MinLevel <= d <= MaxLevel && ClosedBy(FirstLine(t[d..]), d)
  }

  /** The inner parser of `header`. */
  function HeaderInner(s: Span): (r: PResult<Heading>)
    ensures r.Ok? <==> AtLineStart(s) && IsHeaderLine(Rem(s))
    ensures r.Ok? ==> var d := CountWhile(Rem(s), IsHash);
                      && r.value.depth == d && !r.value.setext && ValidDepth(d, false)
                      && RenderAll(r.value.children.elements) == HeaderContent(FirstLine(Rem(s)[d..]), d)
                      && Suffix(s, r.rest) && Rem(r.rest) == AfterLine(Rem(s))
  {
    match BeginningOfLine(s)
    case Err => Err
    case Ok(s1, _) =>
      match TakeHashes(s1)
      case Err => Err
      case Ok(s2, hashes) =>
        var level := |Rem(hashes)|;
        if !(MinLevel <= level <= MaxLevel) then Err
        else
          HashesSplit(Rem(s), Rem(hashes), Rem(s2));
          HeaderLineBreaks(Rem(s), level);
          match HeaderLineRest(s2, level)
          case Err => Err
          case Ok(s4, content) => Ok(s4, Heading.NewWithChildren(level, false, content))
  }

  /** The part of `header` after the '#' run: `header_tail`, then the end of
      the line or input. */
  function HeaderLineRest(s: Span, level: nat): (r: PResult<InlineElementContainer>)
    ensures r.Ok? <==> ClosedBy(FirstLine(Rem(s)), level)
    ensures r.Ok? ==> && Suffix(s, r.rest) && Rem(r.rest) == AfterLine(Rem(s)[|FirstLine(Rem(s))|..])
                      && RenderAll(r.value.elements) == HeaderContent(FirstLine(Rem(s)), level)
  {
    match HeaderTail(s, level)
    case Err => Err
    case Ok(s3, content) =>
      AtLineEnd(Rem(s));
      match EndOfLineOrInput(s3)
      case Err => Err
      case Ok(s4, _) => Ok(s4, content)
  }

  /** What follows the '#' run is the text after its length. */
  lemma HashesSplit(t: string, hashes: string, after: string)
    requires t == hashes + after
    ensures after == t[|hashes|..]
  {
  }

  /** The '#' run lies inside the first line, so the line after the run
      ends where the whole line ends. */
  lemma HeaderLineBreaks(t: string, d: nat)
    requires d <= |t| && forall i :: 0 <= i < d ==> t[i] == '#'
    ensures d <= LineLen(t)
    ensures var t' := t[d..]; var n := |FirstLine(t')|;
            AfterLine(t'[n..]) == AfterLine(t) && (t'[n..] == [] || t'[n..][0] == '\n')
  {
    LineSkip(t, d);
    LineSkip(t[d..], LineLen(t[d..]));
  }

  /** `header`: an ATX-style header, positioned at the remainder as
      `locate` is written. It succeeds exactly at the
      beginning of a header line; its depth is the length of the '#' run,
      between 1 and 6; its elements render to the trimmed content between
      the '#' run and the closing '=' run; it consumes the whole line and
      its line feed. */
  function Header(s: Span): (r: PResult<Locatable<Heading>>)
    ensures r.Ok? <==> AtLineStart(s) && IsHeaderLine(Rem(s))
    ensures r.Ok? ==> var d := CountWhile(Rem(s), IsHash);
                      && r.value.inner.depth == d && MinLevel <= d <= MaxLevel && !r.value.inner.setext
                      && RenderAll(r.value.inner.children.elements) == HeaderContent(FirstLine(Rem(s)[d..]), d)
                      && Suffix(s, r.rest) && Rem(r.rest) == AfterLine(Rem(s))
                      && |Rem(r.rest)| < |Rem(s)|
                      && r.value.GetPosition() == SourcePosition.Position.FromSpan(r.rest)
  {
    Locate(Capture(s, HeaderInner(s)))
  }

  // ------------------------------------------------------------- paragraphs

  /** `continue_paragraph`: neither a header nor a blank line starts here. */
  function ContinueParagraph(s: Span): (r: PResult<()>)
    ensures r.Ok? <==> Header(s).Err? && BlankLine(s).Err?
    ensures r.Ok? ==> r.rest == s
  {
    if Header(s).Ok? then Err
    else if BlankLine(s).Ok? then Err
    else Ok(s, ())
  }

  /** `paragraph_line`: leading spaces and tabs are skipped, then one or
      more inline elements up to the end of the line, which is not
      consumed. */
  function ParagraphLine(s: Span): (r: PResult<InlineElementContainer>)
    ensures r.Ok? <==> TrimStart(Rem(s)) != [] && TrimStart(Rem(s))[0] != '\n'
    ensures r.Ok? ==> && Suffix(s, r.rest) && r.value.elements != []
                      && TrimStart(Rem(s)) == RenderAll(r.value.elements) + Rem(r.rest)
                      && (Rem(r.rest) == [] || Rem(r.rest)[0] == '\n')
  {
    var sp := Space0(s);
    match InlineElements(sp.rest)
    case Err => Err
    case Ok(rest, l) => Ok(rest, l.IntoInner())
  }

  /** `t` is a paragraph whose lines hold `items`, followed by `rest`: each
      item is some spaces and tabs, the rendering of its elements, and a
      line feed unless the input ends there. */
  predicate ParagraphText(t: string, items: seq<InlineElementContainer>, rest: string)
    decreases |items|
  {
    if items == [] then t == rest
    else
      var body := TrimStart(t);
      var line := RenderAll(items[0].elements);
      && |line| <= |body| && body[..|line|] == line
      && if |line| == |body| then ParagraphText([], items[1..], rest)
         else body[|line|] == '\n' && ParagraphText(body[|line| + 1..], items[1..], rest)
  }

  /** One round of the paragraph loop:
      `delimited(continue_paragraph, paragraph_line, end_of_line_or_input)`. */
  function ParagraphItem(s: Span): (r: PResult<InlineElementContainer>)
    ensures r.Ok? ==> && Suffix(s, r.rest) && |Rem(r.rest)| < |Rem(s)|
                      && (Rem(r.rest) == [] || AtLineStart(r.rest))
                      && ParagraphText(Rem(s), [r.value], Rem(r.rest))
  {
    match ContinueParagraph(s)
    case Err => Err
    case Ok(s1, _) =>
      match ParagraphLine(s1)
      case Err => Err
      case Ok(s2, line) =>
        match EndOfLineOrInput(s2)
        case Err => Err
        case Ok(s3, _) =>
          OneParagraphLine(Rem(s), line, Rem(s2), Rem(s3));
          Ok(s3, line)
  }

  /** A round of the paragraph loop succeeds exactly when the paragraph
      goes on and a paragraph line follows; its value is that line's. */
  lemma ParagraphItemIsLine(s: Span)
    ensures ParagraphItem(s).Ok? <==> ContinueParagraph(s).Ok? && ParagraphLine(s).Ok?
    ensures ParagraphItem(s).Ok? ==> ParagraphItem(s).value == ParagraphLine(s).value
  {
  }

  lemma OneParagraphLine(t: string, c: InlineElementContainer, m: string, mid: string)
    requires TrimStart(t) == RenderAll(c.elements) + m
    requires (m == [] && mid == []) || m == "\n" + mid
    ensures ParagraphText(t, [c], mid)
  {
    var l := RenderAll(c.elements);
    AppendParts(l, m);
    ConsParts(c, []);
    if m != [] {
      AppendParts("\n", mid);
      assert (l + m)[|l| + 1..] == m[1..];
    }
  }

  /** At the beginning of a line, the paragraph loop goes on exactly when
      the line is neither a header nor blank. */
  lemma ParagraphItemAtLineStart(s: Span)
    requires AtLineStart(s)
    ensures ParagraphItem(s).Ok? <==> Header(s).Err? && BlankLine(s).Err?
  {
    ParagraphItemIsLine(s);
    BlankIffSpacesToEnd(Rem(s));
  }

  /** Where the paragraph loop stops at the beginning of a line, a header
      or a blank line starts. */
  lemma ParagraphStops(s: Span)
    requires ParagraphItem(s).Err? && (Rem(s) == [] || AtLineStart(s))
    ensures Rem(s) == [] || Header(s).Ok? || BlankLine(s).Ok?
  {
    if Rem(s) != [] {
      ParagraphItemAtLineStart(s);
    }
  }

  lemma {:induction false} ParagraphTextCons(t: string, c: InlineElementContainer, mid: string,
                                             cs: seq<InlineElementContainer>, rest: string)
    requires ParagraphText(t, [c], mid) && ParagraphText(mid, cs, rest)
    ensures ParagraphText(t, [c] + cs, rest)
  {
    ConsParts(c, cs);
    assert [c][1..] == [];
  }

  /** `many1(delimited(continue_paragraph, paragraph_line,
      end_of_line_or_input))`, counting zero items as well: items until the
      loop stops. */
  function ParagraphItems(s: Span): (r: (Span, seq<InlineElementContainer>))
    ensures Suffix(s, r.0) && ParagraphText(Rem(s), r.1, Rem(r.0))
    ensures ParagraphItem(r.0).Err?
    ensures r.1 == [] <==> ParagraphItem(s).Err?
    ensures r.1 != [] ==> |Rem(r.0)| < |Rem(s)| && (Rem(r.0) == [] || AtLineStart(r.0))
    decreases |Rem(s)|
  {
    match ParagraphItem(s)
    case Err => (s, [])
    case Ok(rest, c) =>
      var (last, cs) := ParagraphItems(rest);
      ParagraphTextCons(Rem(s), c, Rem(rest), cs, Rem(last));
      (last, [c] + cs)
  }

  /** The inner parser of `parse_paragraph`, and `paragraph`, which is the
      same parser without a location. */
  function ParagraphInner(s: Span): (r: PResult<Paragraph>)
    ensures r.Ok? <==> AtLineStart(s) && Header(s).Err? && BlankLine(s).Err?
    ensures r.Ok? ==> && Suffix(s, r.rest) && |Rem(r.rest)| < |Rem(s)|
                      && (Rem(r.rest) == [] || AtLineStart(r.rest))
                      && (Rem(r.rest) == [] || Header(r.rest).Ok? || BlankLine(r.rest).Ok?)
    ensures r.Ok? ==> exists items :: && |items| >= 1 && ParagraphText(Rem(s), items, Rem(r.rest))
                                      && r.value.children == InlineElementContainer.Concat(items)
  {
    match BeginningOfLine(s)
    case Err => Err
    case Ok(s1, _) =>
      ParagraphItemAtLineStart(s);
      var (rest, items) := ParagraphItems(s1);
      if items == [] then Err
      else
        ParagraphStops(rest);
        Ok(rest, Paragraph.Paragraph(InlineElementContainer.Concat(items)))
  }

  /** `parse_paragraph`: a paragraph, positioned at the remainder as
      `locate` is written. It starts exactly at the
      beginning of a line that is neither a header nor blank, takes every
      following line up to the first header line, blank line or the end of
      the input, skips the leading spaces and tabs of each line, and joins
      the elements of all its lines, in order, into one container. */
  function ParseParagraph(s: Span): (r: PResult<Locatable<Paragraph>>)
    ensures r.Ok? <==> AtLineStart(s) && Header(s).Err? && BlankLine(s).Err?
    ensures r.Ok? ==> && Suffix(s, r.rest) && |Rem(r.rest)| < |Rem(s)|
                      && (Rem(r.rest) == [] || AtLineStart(r.rest))
                      && (Rem(r.rest) == [] || Header(r.rest).Ok? || BlankLine(r.rest).Ok?)
    ensures r.Ok? ==> exists items :: && |items| >= 1 && ParagraphText(Rem(s), items, Rem(r.rest))
                                      && r.value.inner.children == InlineElementContainer.Concat(items)
    ensures r.Ok? ==> r.value.GetPosition() == SourcePosition.Position.FromSpan(r.rest)
  {
    Locate(Capture(s, ParagraphInner(s)))
  }

  // ----------------------------------------------------------- block quotes

  /** A line of the indented quote style: at least four leading spaces or
      tabs, and not blank. */
  predicate IndentedQuoteLine(line: string) {
    CountWhile(line, IsSpace) >= 4 && !AllSpace(line)
  }

  /** `blockquote_line_1`: at the beginning of an indented, non-blank line,
      the line's text without its indentation; the line and its line feed
      are consumed. */
  function BlockquoteLine1(s: Span): (r: PResult<string>)
    ensures r.Ok? <==> AtLineStart(s) && IndentedQuoteLine(FirstLine(Rem(s)))
    ensures r.Ok? ==> && Suffix(s, r.rest) && |Rem(r.rest)| < |Rem(s)|
                      && r.value == TrimStart(FirstLine(Rem(s))) && Rem(r.rest) == AfterLine(Rem(s))
    ensures r.Ok? ==> Rem(r.rest) == [] || AtLineStart(r.rest)
  {
    match BeginningOfLine(s)
    case Err => Err
    case Ok(s1, _) =>
      var sp := Space0(s1);
      IndentOfLine(Rem(s));
      if |Rem(sp.value)| < 4 then Err
      else
        match NotLineEnding(sp.rest)
        case Ok(s2, text) =>
          if AllSpace(Rem(text)) then Err
          else
            AtLineEnd(Rem(sp.rest));
            match EndOfLineOrInput(s2)
            case Err => Err
            case Ok(s3, _) =>
              AfterLineStartsLine(s, s3);
              Ok(s3, CowStr(text).value)
  }

  /** `blockquote_line_2`: at the beginning of a line starting with "> ",
      the rest of the line; the line and its line feed are consumed. */
  function BlockquoteLine2(s: Span): (r: PResult<string>)
    ensures r.Ok? <==> AtLineStart(s) && |Rem(s)| >= 2 && Rem(s)[..2] == "> "
    ensures r.Ok? ==> && Suffix(s, r.rest) && |Rem(r.rest)| < |Rem(s)|
                      && 2 <= |FirstLine(Rem(s))| && r.value == FirstLine(Rem(s))[2..]
                      && Rem(r.rest) == AfterLine(Rem(s))
    ensures r.Ok? ==> Rem(r.rest) == [] || AtLineStart(r.rest)
  {
    match BeginningOfLine(s)
    case Err => Err
    case Ok(s1, _) =>
      match Tag(s1, "> ")
      case Err => Err
      case Ok(s2, _) =>
        assert Rem(s)[0] == '>' && Rem(s)[1] == ' ';
        LineSkip(Rem(s), 2);
        AtLineEnd(Rem(s2));
        match NotLineEnding(s2)
        case Ok(s3, text) =>
          match EndOfLineOrInput(s3)
          case Err => Err
          case Ok(s4, _) =>
            AfterLineStartsLine(s, s4);
            Ok(s4, CowStr(text).value)
  }

  /** A line whose first byte is printable is not blank. */
  lemma PrintableStartIsNotBlank(t: string)
    requires t != [] && t[0] != '\n' && !IsSpace(t[0])
    ensures !AllSpace(FirstLine(t))
  {
    assert FirstLine(t)[0] == t[0];
  }

  /** A line that starts with "> " is not blank. */
  lemma QuoteLineIsNotBlank(t: string)
    requires |t| >= 2 && t[..2] == "> "
    ensures !AllSpace(FirstLine(t))
  {
    assert t[0] == t[..2][0];
    PrintableStartIsNotBlank(t);
  }

  /** A header line is not blank. */
  lemma HeaderLineIsNotBlank(t: string)
    requires IsHeaderLine(t)
    ensures !AllSpace(FirstLine(t))
  {
    PrintableStartIsNotBlank(t);
  }

  /** No line is both blank and a "> " line. */
  lemma BlankIsNotQuoteLine(s: Span)
    ensures BlankLine(s).Ok? ==> BlockquoteLine2(s).Err?
  {
    if BlockquoteLine2(s).Ok? {
      QuoteLineIsNotBlank(Rem(s));
    }
  }

  /** `t` is a run of lines, each of which `isLine` relates to its entry of
      `lines`; `rest` follows the run. */
  predicate LineRun(t: string, lines: seq<string>, rest: string, isLine: (string, string) -> bool)
    decreases |lines|
  {
    if lines == [] then t == rest
    else isLine(t, lines[0]) && LineRun(AfterLine(t), lines[1..], rest, isLine)
  }

  /** One line, followed by a run of the same kind, is a longer run. */
  lemma LineRunCons(t: string, x: string, xs: seq<string>, rest: string, isLine: (string, string) -> bool)
    requires isLine(t, x) && LineRun(AfterLine(t), xs, rest, isLine)
    ensures LineRun(t, [x] + xs, rest, isLine)
  {
    ConsParts(x, xs);
  }

  /** Two runs of the same kind, one after the other, are one run. */
  lemma {:induction false} LineRunAppend(t: string, a: seq<string>, mid: string, b: seq<string>, rest: string,
                                         isLine: (string, string) -> bool)
    requires LineRun(t, a, mid, isLine) && LineRun(mid, b, rest, isLine)
    ensures LineRun(t, a + b, rest, isLine)
    decreases |a|
  {
    if a == [] {
      assert a + b == b;
    } else {
      LineRunAppend(AfterLine(t), a[1..], mid, b, rest, isLine);
      LineRunCons(t, a[0], a[1..] + b, rest, isLine);
      HeadTailAppend(a, b);
    }
  }

  /** The first line of `t` is an indented quote line with text `text`. */
  predicate IndentedLine(t: string, text: string) {
    IndentedQuoteLine(FirstLine(t)) && text == TrimStart(FirstLine(t))
  }

  /** The first line of `t` is a "> " line with text `text`, or a blank
      line (of at least one byte) and `text` is empty. */
  predicate QuotedLine(t: string, text: string) {
    || (|t| >= 2 && t[..2] == "> " && 2 <= |FirstLine(t)| && text == FirstLine(t)[2..])
    || (t != [] && AllSpace(FirstLine(t)) && text == "")
  }

  /** `t` is a run of indented-style lines whose texts, without their
      indentation, are `lines`; `rest` follows. */
  predicate IndentedLines(t: string, lines: seq<string>, rest: string) {
    LineRun(t, lines, rest, IndentedLine)
  }

  /** `t` is a run of "> " lines and blank lines, `rest` follows: a "> " line
      stands for the text after "> ", a blank line for the empty string. */
  predicate QuotedLines(t: string, lines: seq<string>, rest: string) {
    LineRun(t, lines, rest, QuotedLine)
  }

  /** `many0(blockquote_line_1)`: indented lines until one does not match. */
  function IndentedRun(s: Span): (r: (Span, seq<string>))
    ensures Suffix(s, r.0) && IndentedLines(Rem(s), r.1, Rem(r.0)) && BlockquoteLine1(r.0).Err?
    ensures r.1 == [] <==> BlockquoteLine1(s).Err?
    ensures r.1 != [] ==> |Rem(r.0)| < |Rem(s)| && r.1[0] == BlockquoteLine1(s).value
    ensures r.1 != [] ==> Rem(r.0) == [] || AtLineStart(r.0)
    decreases |Rem(s)|
  {
    match BlockquoteLine1(s)
    case Err => (s, [])
    case Ok(rest, l) =>
      var (last, ls) := IndentedRun(rest);
      LineRunCons(Rem(s), l, ls, Rem(last), IndentedLine);
      (last, [l] + ls)
  }

  /** `many0(blockquote_line_2)`: "> " lines until one does not match. */
  function QuoteRun(s: Span): (r: (Span, seq<string>))
    ensures Suffix(s, r.0) && QuotedLines(Rem(s), r.1, Rem(r.0)) && BlockquoteLine2(r.0).Err?
    ensures r.1 == [] <==> BlockquoteLine2(s).Err?
    ensures r.1 != [] ==> |Rem(r.0)| < |Rem(s)| && r.1[0] == BlockquoteLine2(s).value
    ensures r.1 != [] ==> Rem(r.0) == [] || AtLineStart(r.0)
    decreases |Rem(s)|
  {
    match BlockquoteLine2(s)
    case Err => (s, [])
    case Ok(rest, l) =>
      var (last, ls) := QuoteRun(rest);
      LineRunCons(Rem(s), l, ls, Rem(last), QuotedLine);
      (last, [l] + ls)
  }

  /** `many0(value("", blank_line))`: one empty string per blank line. As
      in nom, a blank line that consumes nothing (at the very end of the
      input) makes the loop fail. */
  function BlankLines(s: Span): (r: PResult<seq<string>>)
    ensures r.Ok? ==> Suffix(s, r.rest) && QuotedLines(Rem(s), r.value, Rem(r.rest))
    ensures r.Ok? ==> forall l <- r.value :: l == ""
    ensures BlankLine(s).Err? ==> r == Ok(s, [])
    decreases |Rem(s)|
  {
    match BlankLine(s)
    case Err => Ok(s, [])
    case Ok(rest, _) =>
      if rest.start == s.start then Err
      else
        match BlankLines(rest)
        case Err => Err
        case Ok(last, bs) =>
          BlankLinesStep(Rem(s), bs, Rem(last));
          Ok(last, [""] + bs)
  }

  /** A blank line before a run of blank lines makes a longer run. */
  lemma BlankLinesStep(t: string, bs: seq<string>, rest: string)
    requires t != [] && AllSpace(FirstLine(t))
    requires QuotedLines(AfterLine(t), bs, rest) && forall l <- bs :: l == ""
    ensures QuotedLines(t, [""] + bs, rest) && forall l <- [""] + bs :: l == ""
  {
    LineRunCons(t, "", bs, rest, QuotedLine);
  }

  /** `many0(pair(many0(value("", blank_line)), blockquote_line_2))`, each
      pair flattened into its blank lines followed by its quote line. A pair
      that fails gives back the blank lines it took. */
  function QuoteContinuations(s: Span): (r: (Span, seq<string>))
    ensures Suffix(s, r.0) && QuotedLines(Rem(s), r.1, Rem(r.0))
    ensures BlockquoteLine2(r.0).Err?
    ensures r.1 == [] ==> r.0 == s
    ensures r.1 != [] ==> Rem(r.0) == [] || AtLineStart(r.0)
    decreases |Rem(s)|
  {
    BlankIsNotQuoteLine(s);
    match BlankLines(s)
    case Err => (s, [])
    case Ok(s1, blanks) =>
      match BlockquoteLine2(s1)
      case Err => (s, [])
      case Ok(s2, q) =>
        var (last, more) := QuoteContinuations(s2);
        LineRunCons(Rem(s1), q, more, Rem(last), QuotedLine);
        LineRunAppend(Rem(s), blanks, Rem(s1), [q] + more, Rem(last), QuotedLine);
        (last, blanks + ([q] + more))
  }

  /** The inner parser of `parse_blockquote`: the indented style first,
      then the "> " style with blank lines allowed between quote lines. */
  function BlockQuoteInner(s: Span): (r: PResult<BlockQuote>)
    ensures r.Ok? <==> BlockquoteLine1(s).Ok? || BlockquoteLine2(s).Ok?
    ensures r.Ok? ==> Suffix(s, r.rest) && |Rem(r.rest)| < |Rem(s)| && |r.value.lines| >= 1
    ensures r.Ok? ==> Rem(r.rest) == [] || AtLineStart(r.rest)
    ensures BlockquoteLine1(s).Ok? ==> && r.Ok? && r.value.lines[0] == BlockquoteLine1(s).value
                                       && IndentedLines(Rem(s), r.value.lines, Rem(r.rest))
                                       && BlockquoteLine1(r.rest).Err?
    ensures BlockquoteLine1(s).Err? && r.Ok? ==> && r.value.lines[0] == BlockquoteLine2(s).value
                                                 && QuotedLines(Rem(s), r.value.lines, Rem(r.rest))
                                                 && BlockquoteLine2(r.rest).Err?
  {
    var (r1, indented) := IndentedRun(s);
    if indented != [] then Ok(r1, BlockQuote.BlockQuote(indented))
    else
      var (r2, quoted) := QuoteRun(s);
      if quoted == [] then Err
      else
        var (r3, more) := QuoteContinuations(r2);
        LineRunAppend(Rem(s), quoted, Rem(r2), more, Rem(r3), QuotedLine);
        Ok(r3, BlockQuote.BlockQuote(quoted + more))
  }

  /** `parse_blockquote`: a block quote, positioned at the remainder as
      `locate` is written. The indented style takes
      consecutive indented lines and stores each without its indentation;
      otherwise the "> " style takes "> " lines, stores the text after "> ",
      and keeps each blank line between two quote lines as "", in order. */
  function ParseBlockquote(s: Span): (r: PResult<Locatable<BlockQuote>>)
    ensures r.Ok? <==> BlockquoteLine1(s).Ok? || BlockquoteLine2(s).Ok?
    ensures r.Ok? ==> Suffix(s, r.rest) && |Rem(r.rest)| < |Rem(s)| && |r.value.inner.lines| >= 1
    ensures r.Ok? ==> Rem(r.rest) == [] || AtLineStart(r.rest)
    ensures r.Ok? ==> r.value.GetPosition() == SourcePosition.Position.FromSpan(r.rest)
    ensures BlockquoteLine1(s).Ok? ==> && r.Ok? && r.value.inner.lines[0] == BlockquoteLine1(s).value
                                       && IndentedLines(Rem(s), r.value.inner.lines, Rem(r.rest))
                                       && BlockquoteLine1(r.rest).Err?
    ensures BlockquoteLine1(s).Err? && r.Ok? ==> && r.value.inner.lines[0] == BlockquoteLine2(s).value
                                                 && QuotedLines(Rem(s), r.value.inner.lines, Rem(r.rest))
                                                 && BlockquoteLine2(r.rest).Err?
  {
    Locate(Capture(s, BlockQuoteInner(s)))
  }

  // -------------------------------------------------------------- documents

  /** The block parsers share one shape: success exactly at the beginning
      of a line that is not blank. */
  lemma BlocksStartAtNonBlankLines(s: Span)
    ensures Header(s).Ok? ==> AtLineStart(s) && BlankLine(s).Err?
    ensures ParseBlockquote(s).Ok? ==> AtLineStart(s) && BlankLine(s).Err?
  {
    BlankIsNotQuoteLine(s);
    if Header(s).Ok? {
      HeaderLineIsNotBlank(Rem(s));
    }
  }

  /** The alternatives of `parse_markdown`, each mapped into a `Block`:
      a header, else a block quote, else a paragraph. */
  function BlockAlt(s: Span): (r: PResult<Locatable<Block>>)
    ensures r.Ok? <==> AtLineStart(s) && BlankLine(s).Err?
    ensures r.Ok? ==> && Suffix(s, r.rest) && |Rem(r.rest)| < |Rem(s)|
                      && (Rem(r.rest) == [] || AtLineStart(r.rest))
    ensures r.Ok? ==> r.value.GetPosition() == SourcePosition.Position.FromSpan(r.rest)
    ensures Header(s).Ok? ==> r.Ok? && r.value.inner == Block.Heading(Header(s).value.inner)
    ensures Header(s).Err? && ParseBlockquote(s).Ok? ==>
              r.Ok? && r.value.inner == Block.BlockQuote(ParseBlockquote(s).value.inner)
    ensures Header(s).Err? && ParseBlockquote(s).Err? && r.Ok? ==>
              r.value.inner == Block.Paragraph(ParseParagraph(s).value.inner)
  {
    BlocksStartAtNonBlankLines(s);
    match Header(s)
    case Ok(rest, h) =>
      AfterLineStartsLine(s, rest);
      Ok(rest, h.Map(x => Block.Heading(x)))
    case Err =>
      match ParseBlockquote(s)
      case Ok(rest, q) =>
        Ok(rest, q.Map(x => Block.BlockQuote(x)))
      case Err =>
        match ParseParagraph(s)
        case Ok(rest, p) => Ok(rest, p.Map(x => Block.Paragraph(x)))
        case Err => Err
  }

  /** `xs` are what `step` gives one after another from `s`, each parsed
      where the one before it stopped, and `rest` is what is left after
      the last of them. */
  predicate Chained<T(==)>(step: Span -> PResult<Locatable<T>>, s: Span, rest: Span, xs: seq<Locatable<T>>)
    decreases |xs|
  {
    if xs == [] then rest == s
    else step(s).Ok? && xs[0] == step(s).value && Chained(step, step(s).rest, rest, xs[1..])
  }

  /** `step` consumes something whenever it succeeds and positions its
      value at the remainder it leaves, as a located parser does. */
  ghost predicate LocatedStep<T>(step: Span -> PResult<Locatable<T>>) {
    forall x: Span :: step(x).Ok? ==>
      && Suffix(x, step(x).rest) && x.start < step(x).rest.start
      && step(x).value.GetPosition() == SourcePosition.Position.FromSpan(step(x).rest)
  }

  /** Along a run of a located parser the starting offsets strictly
      increase, all lie after the run's start and no later than where it
      stops, and the last value is positioned where the run stops. */
  lemma {:induction false} ChainedPositions<T>(step: Span -> PResult<Locatable<T>>, s: Span, rest: Span,
                                               xs: seq<Locatable<T>>)
    requires LocatedStep(step) && Chained(step, s, rest, xs)
    ensures Suffix(s, rest)
    ensures forall i :: 0 <= i < |xs| ==>
              s.start < xs[i].GetPosition().StartingOffset() <= rest.start
    ensures forall i, j :: 0 <= i < j < |xs| ==>
              xs[i].GetPosition().StartingOffset() < xs[j].GetPosition().StartingOffset()
    ensures xs != [] ==> xs[|xs| - 1].GetPosition() == SourcePosition.Position.FromSpan(rest)
    decreases |xs|
  {
    if xs != [] {
      var next := step(s).rest;
      var tail := xs[1..];
      ChainedPositions(step, next, rest, tail);
      assert xs[0].GetPosition().StartingOffset() == next.start;
      forall i | 1 <= i < |xs|
        ensures xs[i] == tail[i - 1] && next.start < xs[i].GetPosition().StartingOffset()
      {
      }
      if |xs| == 1 {
        assert rest == next;
      } else {
        assert xs[|xs| - 1] == tail[|tail| - 1];
      }
    }
  }

  /** `bs` are the blocks the alternation gives one after another from `s`,
      and `rest` is what is left after the last of them. */
  predicate Blocks(s: Span, rest: Span, bs: seq<Locatable<Block>>) {
    Chained(BlockAlt, s, rest, bs)
  }

  /** `many0` over the block alternatives: blocks until one does not parse. */
  function BlockRun(s: Span): (r: (Span, seq<Locatable<Block>>))
    ensures Blocks(s, r.0, r.1)
    ensures Suffix(s, r.0) && BlockAlt(r.0).Err?
    ensures r.1 == [] <==> BlockAlt(s).Err?
    ensures r.1 == [] ==> r.0 == s
    ensures r.1 != [] ==> && r.1[0] == BlockAlt(s).value && |Rem(r.0)| < |Rem(s)|
                          && (Rem(r.0) == [] || AtLineStart(r.0))
    decreases |Rem(s)|
  {
    match BlockAlt(s)
    case Err => (s, [])
    case Ok(rest, b) =>
      var (last, bs) := BlockRun(rest);
      ConsParts(b, bs);
      (last, [b] + bs)
  }

  /** `parse_markdown`: one or more blocks. It succeeds exactly at the
      beginning of a line that is not blank, and stops at the end of the
      input or at the beginning of a blank line, which it does not consume. */
  function ParseMarkdown(s: Span): (r: PResult<seq<Locatable<Block>>>)
    ensures r.Ok? <==> AtLineStart(s) && BlankLine(s).Err?
    ensures r.Ok? ==> && Suffix(s, r.rest) && |Rem(r.rest)| < |Rem(s)| && r.value != []
                      && r.value[0] == BlockAlt(s).value && Blocks(s, r.rest, r.value)
                      && (Rem(r.rest) == [] || (AtLineStart(r.rest) && BlankLine(r.rest).Ok?))
  {
    var (rest, blocks) := BlockRun(s);
    if blocks == [] then Err else Ok(rest, blocks)
  }

  /** `parse`: the blocks of `markup` under a root node. As written, the
      root's position is that of the unparsed remainder, not of the
      document. */
  function Parse(markup: string): (r: PResult<Locatable<Root>>)
    ensures r.Ok? <==> !AllSpace(FirstLine(markup))
    ensures r.Ok? ==> && r.value.inner.children != [] && Suffix(FromStr(markup), r.rest)
                      && |Rem(r.rest)| < |markup|
                      && r.value.inner.children == ParseMarkdown(FromStr(markup)).value
                      && r.value.GetPosition() == SourcePosition.Position.FromSpan(r.rest)
  {
    match ParseMarkdown(FromStr(markup))
    case Err => Err
    case Ok(rest, blocks) => Ok(rest, Locatable.New(Root(blocks), SourcePosition.Position.FromSpan(rest)))
  }

  /** The block alternation is a located parser. */
  lemma BlockAltIsLocated()
    ensures LocatedStep(BlockAlt)
  {
    forall x: Span | BlockAlt(x).Ok?
      ensures x.start < BlockAlt(x).rest.start
    {
    }
  }

  /** Each block is positioned at the remainder it leaves, so along the
      blocks of a document the starting offsets strictly increase, all lie
      after the run's start and no later than where it stops, and the last
      block is positioned where the run stops. */
  lemma BlockPositions(s: Span, rest: Span, bs: seq<Locatable<Block>>)
    requires Blocks(s, rest, bs)
    ensures Suffix(s, rest)
    ensures forall i :: 0 <= i < |bs| ==>
              s.start < bs[i].GetPosition().StartingOffset() <= rest.start
    ensures forall i, j :: 0 <= i < j < |bs| ==>
              bs[i].GetPosition().StartingOffset() < bs[j].GetPosition().StartingOffset()
    ensures bs != [] ==> bs[|bs| - 1].GetPosition() == SourcePosition.Position.FromSpan(rest)
  {
    BlockAltIsLocated();
    ChainedPositions(BlockAlt, s, rest, bs);
  }

  /** `parse` positions the root where its last block is positioned. */
  lemma RootAtLastBlock(markup: string)
    ensures Parse(markup).Ok? ==>
              var bs := Parse(markup).value.inner.children;
              bs[|bs| - 1].GetPosition() == Parse(markup).value.GetPosition()
  {
    var s := FromStr(markup);
    if ParseMarkdown(s).Ok? {
      BlockPositions(s, ParseMarkdown(s).rest, ParseMarkdown(s).value);
    }
  }

  /** An empty document, or one whose first line is blank, is an error. */
  lemma ParseRejectsLeadingBlankLine(markup: string)
    ensures markup == [] ==> Parse(markup).Err?
    ensures |markup| >= 1 && IsSpace(markup[0]) && (|markup| == 1 || markup[1] == '\n') ==> Parse(markup).Err?
  {
    if markup != [] && IsSpace(markup[0]) && (|markup| == 1 || markup[1] == '\n') {
      assert FirstLine(markup) == markup[..1];
    }
  }

  /** A document whose first line holds only spaces and tabs, and ends in
      a line feed, is an error. */
  lemma {:induction false} ParseRejectsBlankFirstLine(w: string, rest: string)
    requires AllSpace(w)
    ensures Parse(w + "\n" + rest).Err?
  {
    var m := w + "\n" + rest;
    assert forall i :: 0 <= i < |w| ==> m[i] == w[i] && IsSpace(w[i]) && m[i] != '\n';
    LineLenIsMaximal(m, |w|);
    assert FirstLine(m) == w;
  }

  /** So the document of the test at parser.rs:675-681, whose first line
      is four spaces, is an error, where the test expects it to parse. */
  lemma ParseRejectsIndentedBlankFirstLine()
    ensures Parse("    " + "\n" + "    ls\n    \n").Err?
  {
    ParseRejectsBlankFirstLine("    ", "    ls\n    \n");
  }

  /** The span of the `emphasis` test at parser.rs:604-621 starts and ends
      at offset 0, so it is empty: the line there is blank and no paragraph
      starts, where the test unwraps a paragraph. */
  lemma EmphasisTestSpanIsEmpty()
    ensures ParseParagraph(Cursor("*alpha*", 0, 0)).Err?
  {
    var s: Span := Cursor("*alpha*", 0, 0);
    assert Rem(s) == [];
    assert BlankLine(s).Ok?;
  }

  /** At the beginning of a line, `*w*` up to the end of the input is a
      paragraph of one element, the emphasis of `w` under the corrected
      italics. */
  lemma EmphasisIsOneElementParagraph(s: Span, w: string)
    requires AtLineStart(s) && Delimits(Rem(s), "*", w, [])
    ensures ParseParagraph(s).Ok? && Rem(ParseParagraph(s).rest) == []
    ensures var es := ParseParagraph(s).value.inner.children.elements;
            |es| == 1 && es[0].inner == Emphasis([Text(w)])
  {
    var items := EmphasisParagraphItems(s, w);
    var p := ParagraphInner(s);
    assert p.value.children == InlineElementContainer.Concat(items.1);
    assert InlineElementContainer.Concat(items.1).elements == items.1[0].elements;
  }

  /** The paragraph loop on such a line runs one round, which takes the
      line whole as the emphasis alone. */
  lemma EmphasisParagraphItems(s: Span, w: string) returns (items: (Span, seq<InlineElementContainer>))
    requires AtLineStart(s) && Delimits(Rem(s), "*", w, [])
    ensures items == ParagraphItems(s) && Rem(items.0) == [] && |items.1| == 1
    ensures items.1[0].elements == [ParseMarkdownInline(s).value]
    ensures ParseMarkdownInline(s).value.inner == Emphasis([Text(w)])
  {
    EmphasisLineItem(s, w);
    items := ParagraphItems(s);
    var item := ParagraphItem(s);
    assert ParagraphLine(item.rest).Err?;
    assert ParagraphItem(item.rest).Err?;
  }

  /** One round of the paragraph loop on such a line. */
  lemma EmphasisLineItem(s: Span, w: string)
    requires AtLineStart(s) && Delimits(Rem(s), "*", w, [])
    ensures ParagraphItem(s).Ok? && Rem(ParagraphItem(s).rest) == []
    ensures ParagraphItem(s).value.elements == [ParseMarkdownInline(s).value]
    ensures ParseMarkdownInline(s).value.inner == Emphasis([Text(w)])
  {
    StarLineContinues(s);
    EmphasisLine(s, w);
    var line := ParagraphLine(s);
    assert EndOfLineOrInput(line.rest).rest == line.rest;
  }

  /** A line starting with `*` continues a paragraph. */
  lemma StarLineContinues(s: Span)
    requires AtLineStart(s) && Rem(s) != [] && Rem(s)[0] == '*'
    ensures ContinueParagraph(s).Ok?
  {
    var t := Rem(s);
    CountWhileIsMaximalRun(t, IsHash, 0);
    assert !IsHeaderLine(t);
    PrintableStartIsNotBlank(t);
    BlankIffSpacesToEnd(t);
  }

  /** The paragraph line of such a line is the emphasis alone. */
  lemma EmphasisLine(s: Span, w: string)
    requires Delimits(Rem(s), "*", w, [])
    ensures ParagraphLine(s).Ok? && Rem(ParagraphLine(s).rest) == []
    ensures ParagraphLine(s).value.elements == [ParseMarkdownInline(s).value]
    ensures ParseMarkdownInline(s).value.inner == Emphasis([Text(w)])
  {
    CountWhileIsMaximalRun(Rem(s), IsSpace, 0);
    assert Space0(s).rest == s;
    EmphasisElements(s, w);
  }

  /** The inline elements of such a line are the emphasis alone. */
  lemma EmphasisElements(s: Span, w: string)
    requires Delimits(Rem(s), "*", w, [])
    ensures InlineElements(s).Ok? && Rem(InlineElements(s).rest) == []
    ensures InlineElements(s).value.inner.elements == [ParseMarkdownInline(s).value]
    ensures ParseMarkdownInline(s).value.inner == Emphasis([Text(w)])
  {
    EmphasisWinsAtSingleStar(s, w, []);
    var l := ParseMarkdownInline(s);
    assert InlineRun(l.rest) == (l.rest, []);
    assert InlineRun(s).1 == [l.value];
  }

  /** So the test's intended span over the whole of "*alpha*" gives one
      paragraph holding the emphasis of "alpha". */
  lemma EmphasisTestOnWholeText()
    ensures var r := ParseParagraph(FromStr("*alpha*"));
            && r.Ok? && |r.value.inner.children.elements| == 1
            && r.value.inner.children.elements[0].inner == Emphasis([Text("alpha")])
  {
    EmphasisIsOneElementParagraph(FromStr("*alpha*"), "alpha");
  }

  /** A line with no '=' in it is never a header line. */
  lemma {:induction false} NoClosingRunNoHeader(t: string)
    requires '=' !in FirstLine(t)
    ensures !IsHeaderLine(t)
  {
    var d := CountWhile(t, IsHash);
    if MinLevel <= d <= MaxLevel {
      assert d <= LineLen(t);
      LineSkip(t, d);
      var line := FirstLine(t[d..]);
      assert forall c <- line :: c in FirstLine(t);
      NoEqualsNotClosed(line, d);
    }
  }

  /** A line without '=' is closed by no run of '='. */
  lemma NoEqualsNotClosed(line: string, level: nat)
    requires '=' !in line && level >= 1
    ensures !ClosedBy(line, level)
  {
    var c := TrimEnd(line);
    if level < |c| {
      assert c[|c| - 1] == line[|c| - 1];
    }
  }

  /** So a document whose first line starts with '#' and has no '=' in it,
      such as "# Header World", starts with a paragraph, not a header. */
  lemma UnclosedHeaderIsParagraph(markup: string)
    requires markup != [] && markup[0] == '#' && '=' !in FirstLine(markup)
    ensures Parse(markup).Ok?
    ensures Parse(markup).value.inner.children[0].inner.Paragraph?
  {
    var s := FromStr(markup);
    NoClosingRunNoHeader(markup);
    CountWhileIsMaximalRun(FirstLine(markup), IsSpace, 0);
    PrintableStartIsNotBlank(markup);
    FirstBlockIsParagraph(s);
  }

  /** Where no header and no block quote starts, the first block of a
      document is a paragraph. */
  lemma FirstBlockIsParagraph(s: Span)
    requires AtLineStart(s) && BlankLine(s).Err? && Header(s).Err?
    requires BlockquoteLine1(s).Err? && BlockquoteLine2(s).Err?
    ensures ParseMarkdown(s).Ok? && ParseMarkdown(s).value[0].inner.Paragraph?
  {
    assert ParseBlockquote(s).Err?;
    var b := BlockAlt(s);
    assert b.Ok? && b.value.inner.Paragraph?;
    assert ParseMarkdown(s).value[0] == b.value;
  }
}
