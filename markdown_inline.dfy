/** The inline half of the Markdown grammar (src/markdown/parser.rs):
    emphasis `*x*`, strong emphasis `**x**` and plain text, tried in that
    order, and the runs of inline elements that make up a line.

    Every inline element is a rendering of the bytes it consumed: `Render`
    turns an element back into source text, and each parser here is proved
    to consume exactly `Render` of what it returns. */
module MarkdownInline {
  import opened Parsers
  import opened Lines
  import opened Convert
  import opened Location
  import opened Ast
  import SourcePosition

  /** The source text an inline element stands for. */
  function Render(i: Inline): string
    decreases i
  {
    match i
    case Emphasis(cs) => "*" + RenderSeq(cs) + "*"
    case Strong(cs) => "**" + RenderSeq(cs) + "**"
    case Text(v) => v
  }

  function RenderSeq(cs: seq<Inline>): string
    decreases cs
  {
    if cs == [] then [] else Render(cs[0]) + RenderSeq(cs[1..])
  }

  /** The source text of a run of located inline elements, in order. */
  function RenderAll(ls: seq<Locatable<Inline>>): string {
    if ls == [] then [] else Render(ls[0].inner) + RenderAll(ls[1..])
  }

  lemma {:induction false} RenderAllAppend(a: seq<Locatable<Inline>>, b: seq<Locatable<Inline>>)
    ensures RenderAll(a + b) == RenderAll(a) + RenderAll(b)
    decreases |a|
  {
    if a == [] {
      assert a + b == b;
    } else {
      HeadTailAppend(a, b);
      RenderAllAppend(a[1..], b);
    }
  }

  predicate NotStar(c: char) {
    c != '*'
  }

  predicate StarFree(w: string) {
    forall i :: 0 <= i < |w| ==> NotStar(w[i])
  }

  /** `t` is `delim`, a non-empty run free of '*', `delim` again, then
      `rest`: what `delimited(tag(delim), is_not("*"), tag(delim))` accepts. */
  predicate Delimits(t: string, delim: string, w: string, rest: string) {
    |w| >= 1 && StarFree(w) && t == delim + w + delim + rest
  }

  /** `parse_italics` as written: it accepts what `ParseItalicsCorrected`
      accepts and leaves the same remainder, but its text node is
      `from_utf8(s.inner)`, the whole buffer under the span `is_not`
      returns, not the interior. */
  function ParseItalics(s: Span): (r: PResult<Inline>)
    ensures r.Ok? <==> ParseItalicsCorrected(s).Ok?
    ensures r.Ok? ==> r.rest == ParseItalicsCorrected(s).rest && r.value == Emphasis([Text(s.text)])
  {
    match ParseItalicsCorrected(s)
    case Err => Err
    case Ok(rest, _) => Ok(rest, Emphasis([Text(s.text)]))
  }

  /** `parse_italics` as intended: `*`, one or more bytes other than `*`,
      `*`. The element is an emphasis holding the interior as one text
      node. */
  function ParseItalicsCorrected(s: Span): (r: PResult<Inline>)
    ensures r.Ok? ==> Suffix(s, r.rest) && r.value.Emphasis? && |r.value.children| == 1
                      && r.value.children[0].Text?
                      && Delimits(Rem(s), "*", r.value.children[0].value, Rem(r.rest))
  {
    var t := Rem(s);
    if |t| >= 1 && t[0] == '*' then
      var n := CountWhile(t[1..], NotStar);
      if n >= 1 && n + 1 < |t| then
        assert t == "*" + t[1..n + 1] + "*" + t[n + 2..];
        Ok(Skip(s, n + 2), Emphasis([Text(t[1..n + 1])]))
      else Err
    else Err
  }

  /** `parse_bold`: `**`, one or more bytes other than `*` (`is_not("**")`
      is the set of bytes `{'*'}`), `**`. The element is a strong emphasis
      holding the interior as one text node. */
  function ParseBold(s: Span): (r: PResult<Inline>)
    ensures r.Ok? ==> Suffix(s, r.rest) && r.value.Strong? && |r.value.children| == 1
                      && r.value.children[0].Text?
                      && Delimits(Rem(s), "**", r.value.children[0].value, Rem(r.rest))
  {
    var t := Rem(s);
    if |t| >= 2 && t[..2] == "**" then
      var n := CountWhile(t[2..], NotStar);
      if n >= 1 && n + 3 < |t| && t[n + 3] == '*' then
        assert t == "**" + t[2..n + 2] + "**" + t[n + 4..];
        Ok(Skip(s, n + 4), Strong([Text(t[2..n + 2])]))
      else Err
    else Err
  }

  /** Every well-delimited emphasis is recognised, with exactly its
      interior by the corrected parser. */
  lemma {:induction false} ItalicsComplete(s: Span, w: string, rest: string)
    requires Delimits(Rem(s), "*", w, rest)
    ensures ParseItalicsCorrected(s) == Ok(Skip(s, |w| + 2), Emphasis([Text(w)]))
  {
    var t := Rem(s);
    assert t[1..] == w + "*" + rest;
    assert t[1..][|w|] == '*';
    CountWhileIsMaximalRun(t[1..], NotStar, |w|);
    assert t[1..|w| + 1] == w;
  }

  /** As written, the same emphasis holds the whole text under the span,
      so its rendering is longer than the bytes it consumed. */
  lemma ItalicsHoldWholeText(s: Span, w: string, rest: string)
    requires Delimits(Rem(s), "*", w, rest)
    ensures ParseItalics(s) == Ok(Skip(s, |w| + 2), Emphasis([Text(s.text)]))
    ensures |Render(ParseItalics(s).value)| > |w| + 2
  {
    ItalicsComplete(s, w, rest);
    RenderOne(s.text);
  }

  /** Every well-delimited strong emphasis is recognised, with exactly its
      interior, and the remainder is what follows the closing `**`. */
  lemma {:induction false} BoldComplete(s: Span, w: string, rest: string)
    requires Delimits(Rem(s), "**", w, rest)
    ensures ParseBold(s) == Ok(Skip(s, |w| + 4), Strong([Text(w)]))
    ensures Rem(Skip(s, |w| + 4)) == rest
  {
    var t := Rem(s);
    assert t[..2] == "**";
    assert t[2..] == w + "**" + rest;
    assert t[2..][|w|] == '*';
    CountWhileIsMaximalRun(t[2..], NotStar, |w|);
    assert t[2..|w| + 2] == w;
    assert t[|w| + 3] == '*';
    assert t[|w| + 4..] == rest;
  }

  /** Italics never match at a doubled star: `is_not` needs at least one byte. */
  lemma ItalicsRejectsDoubleStar(s: Span)
    requires |Rem(s)| >= 2 && Rem(s)[0] == '*' && Rem(s)[1] == '*'
    ensures ParseItalics(s).Err?
  {
    assert Rem(s)[1..][0] == '*';
  }

  /** `start_of_non_text`: the bytes that may start something other than
      plain text. */
  predicate StartOfNonText(c: char) {
    || c == '\n' || c == '%' || c == '`' || c == '$' || c == ':' || c == '['
    || c == '*' || c == '_' || c == '~' || c == '^' || c == ','
    || c == 'D' || c == 'F' || c == 'S' || c == 'T' || c == 'X'
  }

  predicate NotStartOfNonText(c: char) {
    !StartOfNonText(c)
  }

  /** `is_text`: not at a line feed, and neither italics nor bold match here. */
  predicate IsText(s: Span) {
    !(Rem(s) != [] && Rem(s)[0] == '\n') && ParseItalics(s).Err? && ParseBold(s).Err?
  }

  /** How many bytes one round of `text_line`'s alternation consumes, 0 when
      both branches fail: `take_till1(start_of_non_text)` takes a maximal
      non-empty run of ordinary bytes; otherwise `preceded(is_text, take(1))`
      takes one reserved byte when `is_text` allows it. */
  function TextStep(s: Span): (n: nat)
    ensures n <= |Rem(s)|
  {
    var run := CountWhile(Rem(s), NotStartOfNonText);
    if run > 0 then run
    else if Rem(s) != [] && IsText(s) then 1
    else 0
  }

  /** The length `recognize(many1(...))` in `text_line` consumes: rounds of
      `TextStep` until one fails; 0 means `text_line` fails. */
  function TextLineLen(s: Span): (n: nat)
    ensures n <= |Rem(s)|
    decreases |Rem(s)|
  {
    var k := TextStep(s);
    if k == 0 then 0 else k + TextLineLen(Skip(s, k))
  }

  /** Plain text must stop at offset `k` of the remainder: the input ends,
      a line feed comes, or an emphasis or strong emphasis starts there. */
  predicate TextStopsAt(s: Span, k: nat)
    requires k <= |Rem(s)|
  {
    || k == |Rem(s)|
    || Rem(s)[k] == '\n'
    || ParseItalics(Skip(s, k)).Ok?
    || ParseBold(Skip(s, k)).Ok?
  }

  /** An ordinary byte is never a stop. */
  lemma OrdinaryByteIsNoStop(s: Span, k: nat)
    requires k < |Rem(s)| && NotStartOfNonText(Rem(s)[k])
    ensures !TextStopsAt(s, k)
  {
    assert Rem(Skip(s, k))[0] == Rem(s)[k];
  }

  /** Stops are the same seen from a span `k` bytes further on. */
  lemma StopShift(s: Span, k: nat, j: nat)
    requires k <= j <= |Rem(s)|
    ensures TextStopsAt(Skip(s, k), j - k) <==> TextStopsAt(s, j)
  {
    assert Skip(Skip(s, k), j - k) == Skip(s, j);
    if j < |Rem(s)| {
      assert Rem(Skip(s, k))[j - k] == Rem(s)[j];
    }
  }

  /** No stop lies inside the bytes one successful round takes. */
  lemma NoStopWithinStep(s: Span, j: nat)
    requires j < TextStep(s)
    ensures !TextStopsAt(s, j)
  {
    if CountWhile(Rem(s), NotStartOfNonText) > 0 {
      OrdinaryByteIsNoStop(s, j);
    } else {
      assert Skip(s, 0) == s;
    }
  }

  /** A failed round means a stop right here. */
  lemma FailedStepIsStop(s: Span)
    requires TextStep(s) == 0
    ensures TextStopsAt(s, 0)
  {
    assert Skip(s, 0) == s;
  }

  /** The heart of `plaintext`: what `text_line` consumes ends at the FIRST
      stop. So plain text never swallows a line feed, an emphasis or a
      strong emphasis, and it never stops before one. */
  lemma {:induction false} TextLineIsFirstStop(s: Span)
    ensures TextStopsAt(s, TextLineLen(s))
    ensures forall k :: 0 <= k < TextLineLen(s) ==> !TextStopsAt(s, k)
    decreases |Rem(s)|
  {
    var k := TextStep(s);
    if k == 0 {
      FailedStepIsStop(s);
    } else {
      var s' := Skip(s, k);
      TextLineIsFirstStop(s');
      var n := TextLineLen(s);
      assert n == k + TextLineLen(s');
      StopShift(s, k, n);
      forall j | 0 <= j < n
        ensures !TextStopsAt(s, j)
      {
        if j < k {
          NoStopWithinStep(s, j);
        } else {
          StopShift(s, k, j);
        }
      }
    }
  }

  /** In particular, plain text never contains a line feed. */
  lemma TextLineHasNoNewline(s: Span)
    ensures '\n' !in Rem(s)[..TextLineLen(s)]
  {
    TextLineIsFirstStop(s);
    var n := TextLineLen(s);
    forall j | 0 <= j < n
      ensures Rem(s)[..n][j] != '\n'
    {
      assert !TextStopsAt(s, j);
    }
  }

  /** `text_line` as a parser: the consumed span. */
  function TextLine(s: Span): (r: PResult<Span>)
    ensures Within(s, r)
    ensures r.Ok? ==> Suffix(s, r.rest) && Rem(s) == Rem(r.value) + Rem(r.rest)
                      && |Rem(r.value)| == TextLineLen(s)
  {
    var n := TextLineLen(s);
    if n == 0 then Err
    else
      assert Rem(s) == Rem(s)[..n] + Rem(s)[n..];
      Ok(Skip(s, n), WithLength(s, n))
  }

  /** `map(map_parser(text_line, span_as_string), Text::new)`. */
  function TextValue(s: Span): (r: PResult<Inline>)
    ensures Within(s, r)
  {
    match TextLine(s)
    case Err => Err
    case Ok(rest, consumed) => Ok(rest, Text(SpanAsString(consumed).value))
  }

  /** `plaintext`: one text node holding the bytes up to the first stop,
      which must not be at offset 0. As `locate` is written, its position is
      that of the remainder, so it starts where the text ends. */
  function Plaintext(s: Span): (r: PResult<Locatable<Inline>>)
    ensures r.Ok? <==> !TextStopsAt(s, 0)
    ensures r.Ok? ==> r.value.inner.Text?
    ensures r.Ok? ==> var v := r.value.inner.value;
                      && Suffix(s, r.rest)
                      && |v| >= 1 && Rem(s) == v + Rem(r.rest) && '\n' !in v
                      && TextStopsAt(s, |v|) && (forall k :: 0 <= k < |v| ==> !TextStopsAt(s, k))
                      && r.value.GetPosition() == SourcePosition.Position.FromSpan(r.rest)
                      && r.value.GetPosition().StartingOffset() == s.start + |v|
  {
    TextLineIsFirstStop(s);
    TextLineHasNoNewline(s);
    Locate(Capture(s, TextValue(s)))
  }

  /** The alternation of `parse_markdown_inline`: italics, then bold, then
      plain text. The plain-text branch yields a `Locatable<Text>` mapped to
      a `Locatable<Inline>` while the other two yield a bare `Inline`; the
      model takes the inner element of that branch. */
  function InlineAlt(s: Span): (r: PResult<Inline>)
    ensures r.Ok? <==> Rem(s) != [] && Rem(s)[0] != '\n'
    ensures r.Ok? ==> Suffix(s, r.rest) && Rem(s) == Render(r.value) + Rem(r.rest)
                      && |Rem(r.rest)| < |Rem(s)|
  {
    assert Skip(s, 0) == s;
    var i := ParseItalicsCorrected(s);
    if i.Ok? then
      RenderOne(i.value.children[0].value);
      i
    else
      var b := ParseBold(s);
      if b.Ok? then
        RenderOne(b.value.children[0].value);
        b
      else
        match Plaintext(s)
        case Err => Err
        case Ok(rest, l) => Ok(rest, l.IntoInner())
  }

  /** The alternation as written, with `parse_italics` as written: it
      succeeds and consumes exactly as `InlineAlt` does, and differs from it
      only in an emphasis, which holds the whole text under the span. */
  function InlineAltAsWritten(s: Span): (r: PResult<Inline>)
    ensures r.Ok? <==> InlineAlt(s).Ok?
    ensures r.Ok? ==> r.rest == InlineAlt(s).rest
    ensures r.Ok? && InlineAlt(s).value.Emphasis? ==> r.value == Emphasis([Text(s.text)])
    ensures r.Ok? && !InlineAlt(s).value.Emphasis? ==> r.value == InlineAlt(s).value
  {
    var i := ParseItalics(s);
    if i.Ok? then i
    else
      var b := ParseBold(s);
      if b.Ok? then b
      else
        match Plaintext(s)
        case Err => Err
        case Ok(rest, l) => Ok(rest, l.IntoInner())
  }

  lemma RenderOne(w: string)
    ensures Render(Emphasis([Text(w)])) == "*" + w + "*"
    ensures Render(Strong([Text(w)])) == "**" + w + "**"
  {
    assert RenderSeq([Text(w)]) == w + RenderSeq([]);
  }

  /** `parse_markdown_inline`: it fails exactly at the end of the input or
      at a line feed; otherwise it consumes at least one byte, and exactly
      the rendering of the element it returns. Emphasis wins over strong
      emphasis, and both win over plain text. As `locate` is written, the
      element is positioned at the remainder, after its own bytes. */
  function ParseMarkdownInline(s: Span): (r: PResult<Locatable<Inline>>)
    ensures r.Ok? <==> Rem(s) != [] && Rem(s)[0] != '\n'
    ensures r.Ok? ==> && Suffix(s, r.rest) && |Rem(r.rest)| < |Rem(s)|
                      && Rem(s) == Render(r.value.inner) + Rem(r.rest)
                      && r.value.GetPosition() == SourcePosition.Position.FromSpan(r.rest)
    ensures ParseItalicsCorrected(s).Ok? ==> r.Ok? && r.value.inner == ParseItalicsCorrected(s).value
    ensures ParseItalicsCorrected(s).Err? && ParseBold(s).Ok? ==> r.Ok? && r.value.inner == ParseBold(s).value
    ensures ParseItalicsCorrected(s).Err? && ParseBold(s).Err? && r.Ok? ==> r.value.inner.Text?
  {
    Locate(Capture(s, InlineAlt(s)))
  }

  /** `parse_markdown_inline` as written, over `InlineAltAsWritten`: the
      same acceptance, remainder and position as `ParseMarkdownInline`; only
      an emphasis differs, holding the whole text under the span. */
  function ParseMarkdownInlineAsWritten(s: Span): (r: PResult<Locatable<Inline>>)
    ensures r.Ok? <==> ParseMarkdownInline(s).Ok?
    ensures r.Ok? ==> && r.rest == ParseMarkdownInline(s).rest
                      && r.value.GetPosition() == ParseMarkdownInline(s).value.GetPosition()
    ensures r.Ok? && ParseItalicsCorrected(s).Ok? ==> r.value.inner == Emphasis([Text(s.text)])
    ensures r.Ok? && ParseItalicsCorrected(s).Err? ==> r.value.inner == ParseMarkdownInline(s).value.inner
  {
    Locate(Capture(s, InlineAltAsWritten(s)))
  }

  /** The position `parse_markdown_inline` reports starts right after the
      element's own source, never at it; with the corrected `locate` the
      same element would cover exactly its source. */
  lemma InlinePositionAfterElement(s: Span)
    requires ParseMarkdownInline(s).Ok?
    ensures var r := ParseMarkdownInline(s);
            && r.value.GetPosition().StartingOffset() == s.start + |Render(r.value.inner)|
            && r.value.GetPosition().StartingOffset() > s.start
    ensures var c := LocateConsumed(Capture(s, InlineAlt(s)));
            && c.Ok? && c.value.inner == ParseMarkdownInline(s).value.inner
            && c.value.GetPosition().StartingOffset() == s.start
            && c.value.GetPosition().Len() == |Render(c.value.inner)|
  {
    var r := ParseMarkdownInline(s);
    SuffixRem(s, r.rest);
  }

  /** Emphasis is tried first, so `*w*` is an emphasis... */
  lemma EmphasisWinsAtSingleStar(s: Span, w: string, rest: string)
    requires Delimits(Rem(s), "*", w, rest)
    ensures ParseMarkdownInline(s).Ok?
    ensures ParseMarkdownInline(s).value.inner == Emphasis([Text(w)])
    ensures Rem(ParseMarkdownInline(s).rest) == rest
  {
    ItalicsComplete(s, w, rest);
    RenderOne(w);
  }

  /** ...and `**w**`, where italics cannot match, is a strong emphasis,
      never an emphasis with an empty interior. */
  lemma StrongAtDoubleStar(s: Span, w: string, rest: string)
    requires Delimits(Rem(s), "**", w, rest)
    ensures ParseMarkdownInline(s).Ok?
    ensures ParseMarkdownInline(s).value.inner == Strong([Text(w)])
    ensures Rem(ParseMarkdownInline(s).rest) == rest
  {
    assert Rem(s)[1] == '*';
    ItalicsRejectsDoubleStar(s);
    BoldComplete(s, w, rest);
  }

  /** `many0(parse_markdown_inline)`: inline elements until the end of the
      input or a line feed, which is not consumed. */
  function InlineRun(s: Span): (r: (Span, seq<Locatable<Inline>>))
    ensures Suffix(s, r.0) && Rem(s) == RenderAll(r.1) + Rem(r.0)
    ensures Rem(r.0) == [] || Rem(r.0)[0] == '\n'
    ensures r.1 == [] <==> ParseMarkdownInline(s).Err?
    decreases |Rem(s)|
  {
    match ParseMarkdownInline(s)
    case Err => (s, [])
    case Ok(rest, l) =>
      var (last, ls) := InlineRun(rest);
      RenderAllCons(Rem(s), l, Rem(rest), ls, Rem(last));
      (last, [l] + ls)
  }

  /** One element's source followed by a run's source is the source of
      the longer run. */
  lemma RenderAllCons(t: string, l: Locatable<Inline>, mid: string, ls: seq<Locatable<Inline>>, rest: string)
    requires t == Render(l.inner) + mid && mid == RenderAll(ls) + rest
    ensures t == RenderAll([l] + ls) + rest
  {
    ConsParts(l, ls);
    AppendAssoc(Render(l.inner), RenderAll(ls), rest);
  }

  /** `many1(parse_markdown_inline)`. */
  function InlineRun1(s: Span): (r: PResult<seq<Locatable<Inline>>>)
    ensures r.Ok? <==> Rem(s) != [] && Rem(s)[0] != '\n'
    ensures r.Ok? ==> && Suffix(s, r.rest) && r.value != [] && Rem(s) == RenderAll(r.value) + Rem(r.rest)
                      && (Rem(r.rest) == [] || Rem(r.rest)[0] == '\n')
  {
    var (rest, ls) := InlineRun(s);
    if ls == [] then Err else Ok(rest, ls)
  }

  /** `inline_element_container`: one or more inline elements in a
      container, up to (not including) the end of the line. */
  function InlineElements(s: Span): (r: PResult<Locatable<InlineElementContainer>>)
    ensures r.Ok? <==> Rem(s) != [] && Rem(s)[0] != '\n'
    ensures r.Ok? ==> && Suffix(s, r.rest) && r.value.inner.elements != []
                      && Rem(s) == RenderAll(r.value.inner.elements) + Rem(r.rest)
                      && (Rem(r.rest) == [] || Rem(r.rest)[0] == '\n')
                      && r.value.GetPosition() == SourcePosition.Position.FromSpan(r.rest)
  {
    var inner := match InlineRun1(s)
      case Err => Err
      case Ok(rest, ls) => Ok(rest, InlineElementContainer(ls));
    Locate(Capture(s, inner))
  }

  /** On a single line, `inline_element_container` consumes all of it. */
  lemma InlineElementsTakeWholeLine(s: Span)
    requires Rem(s) != [] && '\n' !in Rem(s)
    ensures InlineElements(s).Ok? && Rem(InlineElements(s).rest) == []
    ensures RenderAll(InlineElements(s).value.inner.elements) == Rem(s)
  {
  }

  /** `parse_markdown_text`: inline elements up to a line ending, which is
      consumed, or the end of the input. It cannot fail. An emphasis may
      span a line feed, so the elements may cover more than one line. */
  function ParseMarkdownText(s: Span): (r: PResult<seq<Locatable<Inline>>>)
    ensures r.Ok? && Suffix(s, r.rest)
    ensures || (Rem(s) == RenderAll(r.value) && Rem(r.rest) == [])
            || Rem(s) == RenderAll(r.value) + "\n" + Rem(r.rest)
  {
    var (rest, ls) := InlineRun(s);
    match EndOfLineOrInput(rest)
    case Ok(last, _) =>
      AppendAssoc(RenderAll(ls), "\n", Rem(last));
      Ok(last, ls)
  }
}
