/** The parser input and result shapes (src/parsers/mod.rs and the cursor of
    src/parsers/span.rs, which is not part of this model beyond the three
    numbers below).

    A `Span` is a view over the whole source text: `start` and `end` are byte
    offsets into `text`, and the part a parser may still consume is
    `Rem(s) == text[start..end]`. Keeping the whole text lets a parser ask
    whether it stands at the beginning of a line. One `char` stands for one
    byte of the source: every character the grammar inspects is ASCII. */
module Parsers {

  datatype Cursor = Cursor(text: string, start: nat, end: nat)

  /** The cursor type of the source; its offsets always lie inside the text. */
  type Span = c: Cursor | c.start <= c.end <= |c.text| witness Cursor("", 0, 0)

  /** `Span::from(&str)`: the whole text, not yet consumed. */
  function FromStr(text: string): (s: Span)
    ensures Rem(s) == text && s.start == 0 && s.text == text
  {
    Cursor(text, 0, |text|)
  }

  /** What is left to parse. */
  function Rem(s: Span): string {
    s.text[s.start..s.end]
  }

  /** The span that remains after the first `n` bytes are consumed. */
  function Skip(s: Span, n: nat): (t: Span)
    requires n <= |Rem(s)|
    ensures Rem(t) == Rem(s)[n..]
    ensures t.text == s.text && t.end == s.end && t.start == s.start + n
  {
    Cursor(s.text, s.start + n, s.end)
  }

  /** The first `n` bytes of `s`'s remainder as a span of their own
      (`Span::with_length`). */
  function WithLength(s: Span, n: nat): (t: Span)
    requires n <= |Rem(s)|
    ensures Rem(t) == Rem(s)[..n] && t.text == s.text && t.start == s.start
  {
    assert forall i :: 0 <= i < n ==> Rem(s)[i] == s.text[s.start + i];
    Cursor(s.text, s.start, s.start + n)
  }

  /** The length of the longest prefix of `r` whose bytes all satisfy `p`
      (the counting behind nom's `take_while` family). */
  function CountWhile(r: string, p: char -> bool): (n: nat)
    ensures n <= |r|
    ensures forall i :: 0 <= i < n ==> p(r[i])
    ensures n < |r| ==> !p(r[n])
  {
    if |r| > 0 && p(r[0]) then 1 + CountWhile(r[1..], p) else 0
  }

  /** A prefix of `r` whose bytes all satisfy `p` and that cannot be
      extended is the one `CountWhile` measures. */
  lemma CountWhileIsMaximalRun(r: string, p: char -> bool, n: nat)
    requires n <= |r| && (forall i :: 0 <= i < n ==> p(r[i])) && (n < |r| ==> !p(r[n]))
    ensures CountWhile(r, p) == n
  {
  }

  /** `t` is what remains of `s` after a parser consumed a prefix of it. */
  predicate Suffix(s: Span, t: Span) {
    t.text == s.text && t.end == s.end && s.start <= t.start
  }

  lemma {:induction false} SuffixRem(s: Span, t: Span)
    requires Suffix(s, t)
    ensures t == Skip(s, t.start - s.start)
    ensures Rem(s) == Rem(s)[..t.start - s.start] + Rem(t)
  {
    assert Rem(s)[t.start - s.start..] == Rem(t);
  }

  /** The 1-indexed line of `offset`: one more than the line feeds before it. */
  function LineAt(text: string, offset: nat): (line: nat)
    requires offset <= |text|
    ensures line >= 1
  {
    if offset == 0 then 1
    else LineAt(text, offset - 1) + (if text[offset - 1] == '\n' then 1 else 0)
  }

  /** The 1-indexed column of `offset`: one more than the bytes since the last line feed. */
  function ColumnAt(text: string, offset: nat): (column: nat)
    requires offset <= |text|
    ensures column >= 1
    ensures column == 1 <==> offset == 0 || text[offset - 1] == '\n'
  {
    if offset == 0 || text[offset - 1] == '\n' then 1 else ColumnAt(text, offset - 1) + 1
  }

  /** `IResult<'a, O>`: either the remaining span and the output, or an error.
      The error carries no payload here: the error type and its context
      labels are not part of this model. */
  datatype PResult<T> = Ok(rest: Span, value: T) | Err

  /** A parse result whose remaining span lies inside `input`'s text, at or
      after `input`'s start. */
  predicate Within<T>(input: Span, r: PResult<T>) {
    r.Ok? ==> r.rest.text == input.text && input.start <= r.rest.start
  }

  /** `Captured<T>`: a value with the span of input that produced it.
      Its equality is the derived one: value AND span. */
  datatype Captured<T> = Captured(inner: T, input: Span) {

    static function New(inner: T, input: Span): (c: Captured<T>)
      ensures c.IntoInner() == inner && c.Input() == input
    {
      Captured(inner, input)
    }

    function IntoInner(): T {
      inner
    }

    function Input(): Span {
      input
    }
  }

  /** Unlike `Locatable`, two `Captured` values are equal only when both
      their values and their spans are. */
  lemma CapturedEquality<T>(a: Captured<T>, b: Captured<T>)
    ensures a == b <==> a.IntoInner() == b.IntoInner() && a.Input() == b.Input()
  {
  }

  /** Sequence facts stated once, for any element type: the solver proves
      them cheaply here and each use only instantiates them. */
  lemma ConsParts<T>(x: T, xs: seq<T>)
    ensures ([x] + xs)[0] == x && ([x] + xs)[1..] == xs
  {
  }

  /** Splitting off the head of the first of two joined sequences. */
  lemma HeadTailAppend<T>(a: seq<T>, b: seq<T>)
    requires a != []
    ensures [a[0]] + (a[1..] + b) == a + b && (a + b)[0] == a[0] && (a + b)[1..] == a[1..] + b
  {
    assert a == [a[0]] + a[1..];
  }

  /** The two halves of a joined sequence. */
  lemma AppendParts<T>(a: seq<T>, b: seq<T>)
    ensures |a + b| == |a| + |b| && (a + b)[..|a|] == a && (a + b)[|a|..] == b
  {
  }

  lemma AppendAssoc<T>(a: seq<T>, b: seq<T>, c: seq<T>)
    ensures (a + b) + c == a + (b + c)
  {
  }
}
