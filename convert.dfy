/** Parser transformers that record what a parser consumed
    (src/parsers/util/convert.rs).

    `capture(p)` and `locate(p)` are closures over a parser. Applying
    `capture(p)` to `input` is modelled here as `Capture(input, p(input))`:
    the inner parser's result is passed in, the wrapper builds its own result
    from it. The same holds for `locate`. */
module Convert {
  import opened Parsers
  import opened SourcePosition
  import opened Location

  /** `capture`: on success, the remainder and value of the inner parser,
      with the span from the entry point up to the exit point. */
  function Capture<T>(input: Span, inner: PResult<T>): (r: PResult<Captured<T>>)
    requires Within(input, inner)
    ensures r.Err? <==> inner.Err?
    ensures r.Ok? ==> r.rest == inner.rest && r.value.IntoInner() == inner.value
    ensures r.Ok? ==> var c := r.value.Input();
                      c.text == input.text && c.start == input.start
                      && c.end - c.start == inner.rest.start - input.start
    ensures r.Ok? && Suffix(input, inner.rest) ==> Rem(input) == Rem(r.value.Input()) + Rem(r.rest)
  {
    match inner
    case Err => Err
    case Ok(rest, x) =>
      var consumed := Cursor(input.text, input.start, input.start + (rest.start - input.start));
      Ok(rest, Captured.New(x, consumed))
  }

  /** `locate`, as written: the position is built from the span the inner
      parser returned, which is the REMAINING input, not the captured one. */
  function Locate<T>(inner: PResult<Captured<T>>): (r: PResult<Locatable<T>>)
    ensures r.Err? <==> inner.Err?
    ensures r.Ok? ==> r.rest == inner.rest && r.value.IntoInner() == inner.value.IntoInner()
    ensures r.Ok? ==> r.value.GetPosition() == Position.FromSpan(inner.rest)
  {
    match inner
    case Err => Err
    case Ok(rest, c) => Ok(rest, Locatable.New(c.IntoInner(), Position.FromSpan(rest)))
  }

  /** `locate` as its own test expects it: the position of the captured span. */
  function LocateConsumed<T>(inner: PResult<Captured<T>>): (r: PResult<Locatable<T>>)
    ensures r.Err? <==> inner.Err?
    ensures r.Ok? ==> r.rest == inner.rest && r.value.IntoInner() == inner.value.IntoInner()
    ensures r.Ok? ==> r.value.GetPosition() == Position.FromSpan(inner.value.Input())
  {
    match inner
    case Err => Err
    case Ok(rest, c) => Ok(rest, Locatable.New(c.IntoInner(), Position.FromSpan(c.Input())))
  }

  /** `locate(capture(p))` with the corrected `locate` covers exactly the
      bytes `p` consumed. */
  lemma {:induction false} LocateCoversConsumed<T>(input: Span, inner: PResult<T>)
    requires Within(input, inner)
    requires inner.Ok? ==> Suffix(input, inner.rest)
    ensures var r := LocateConsumed(Capture(input, inner));
            r.Ok? ==> && r.value.GetPosition().StartingOffset() == input.start
                      && r.value.GetPosition().Len() == |Rem(input)| - |Rem(r.rest)|
  {
  }

  /** `cow_str`: the whole input as text, nothing consumed. */
  function CowStr(input: Span): (r: PResult<string>)
    ensures r.Ok? && r.rest == input && r.value == Rem(input)
  {
    Ok(input, Rem(input))
  }

  /** `span_as_string`: the whole input as text, nothing consumed. */
  function SpanAsString(input: Span): (r: PResult<string>)
    ensures r.Ok? && r.rest == input && r.value == Rem(input)
  {
    Ok(input, Rem(input))
  }

  /** `tag("123")`, mapped to the number it spells (the parser of the tests
      in convert.rs). */
  function Tag123(input: Span): (r: PResult<nat>)
    ensures Within(input, r)
  {
    if |Rem(input)| >= 3 && Rem(input)[..3] == "123" then Ok(Skip(input, 3), 123) else Err
  }

  /** The finding: on "123abc" the as-written `locate` reports the region of
      the remainder "abc" (offset 3), while the test expects offset 0 and
      length 3; the corrected `LocateConsumed` gives offset 0 and length 3. */
  lemma LocateReportsRemainder()
    ensures var input := FromStr("123abc");
            var written := Locate(Capture(input, Tag123(input)));
            var fixed := LocateConsumed(Capture(input, Tag123(input)));
            && written.Ok? && Rem(written.rest) == "abc" && written.value.IntoInner() == 123
            && written.value.GetPosition().StartingOffset() == 3
            && fixed.Ok? && fixed.value.GetPosition().StartingOffset() == 0
            && fixed.value.GetPosition().Len() == 3
  {
    var input := FromStr("123abc");
    assert Rem(input)[..3] == "123";
  }
}
