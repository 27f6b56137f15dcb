/** The line and byte helpers the Markdown grammar calls
    (`beginning_of_line`, `end_of_line_or_input`, `blank_line`,
    `take_until_end_of_line_or_input`, `take_line_while1`, `take_end`) and
    the nom primitives it combines them with (`tag`, `take`,
    `not_line_ending`). The helpers live in src/parsers/util, whose
    implementation is not part of this model: each is given the smallest
    definition its name and call sites allow. Only '\n' ends a line. */
module Lines {
  import opened Parsers
  import opened Whitespace

  /** The length of the first line of `t`, without its line feed. */
  function LineLen(t: string): (n: nat)
    ensures n <= |t| && (n < |t| ==> t[n] == '\n')
    ensures forall i :: 0 <= i < n ==> t[i] != '\n'
  {
    if t == [] || t[0] == '\n' then 0 else 1 + LineLen(t[1..])
  }

  /** A prefix free of line feeds that ends at a line feed or at the end of
      the text is the first line. */
  lemma {:induction false} LineLenIsMaximal(t: string, n: nat)
    requires n <= |t| && (forall i :: 0 <= i < n ==> t[i] != '\n') && (n < |t| ==> t[n] == '\n')
    ensures LineLen(t) == n
    decreases n
  {
    if n > 0 {
      assert t[0] != '\n';
      assert forall i :: 0 <= i < n - 1 ==> t[1..][i] == t[i + 1];
      LineLenIsMaximal(t[1..], n - 1);
    }
  }

  /** The first line of `t`, without its line feed. */
  function FirstLine(t: string): (l: string)
    ensures |l| <= |t| && '\n' !in l && l == t[..|l|] && (|l| < |t| ==> t[|l|] == '\n')
  {
    assert t == t[..LineLen(t)] + t[LineLen(t)..];
    t[..LineLen(t)]
  }

  /** What follows the first line of `t` and its line feed, if it has one. */
  function AfterLine(t: string): (a: string)
    ensures |FirstLine(t)| < |t| ==> t == FirstLine(t) + "\n" + a
    ensures |FirstLine(t)| == |t| ==> a == []
  {
    if t == [] then []
    else if t[0] == '\n' then t[1..]
    else
      assert t == [t[0]] + t[1..] && FirstLine(t) == [t[0]] + FirstLine(t[1..]);
      AfterLine(t[1..])
  }

  /** The number of bytes a whole first line occupies, line feed included. */
  function LineSpan(t: string): (n: nat)
    ensures n <= |t| && t[n..] == AfterLine(t)
    ensures n == |t| || n == |FirstLine(t)| + 1
  {
    if LineLen(t) < |t| then LineLen(t) + 1 else LineLen(t)
  }

  /** Dropping bytes from inside the first line leaves the rest of that
      line first, and the lines after it unchanged. */
  lemma {:induction false} LineSkip(t: string, d: nat)
    requires d <= LineLen(t)
    ensures FirstLine(t[d..]) == FirstLine(t)[d..]
    ensures AfterLine(t[d..]) == AfterLine(t)
  {
    var n := LineLen(t);
    assert forall i :: 0 <= i < n - d ==> t[d..][i] == t[d + i];
    LineLenIsMaximal(t[d..], n - d);
    AfterLineSkip(t, d);
  }

  lemma {:induction false} AfterLineSkip(t: string, d: nat)
    requires d <= LineLen(t)
    ensures AfterLine(t[d..]) == AfterLine(t)
  {
    if d > 0 {
      assert t[0] != '\n' && AfterLine(t) == AfterLine(t[1..]);
      AfterLineSkip(t[1..], d - 1);
      assert t[1..][d - 1..] == t[d..];
    }
  }

  /** The leading spaces and tabs of `t` lie inside its first line. */
  lemma {:induction false} IndentOfLine(t: string)
    ensures var k := CountWhile(t, IsSpace); var line := FirstLine(t);
            && k <= LineLen(t) && CountWhile(line, IsSpace) == k
            && TrimStart(line) == line[k..] && FirstLine(t[k..]) == line[k..]
            && AfterLine(t[k..]) == AfterLine(t)
            && (AllSpace(line) <==> line[k..] == [])
            && (AllSpace(line[k..]) <==> line[k..] == [])
  {
    var k := CountWhile(t, IsSpace);
    var line := FirstLine(t);
    assert k <= LineLen(t);
    LineSkip(t, k);
    assert forall i :: 0 <= i < k ==> line[i] == t[i];
    CountWhileIsMaximalRun(line, IsSpace, k);
    if line[k..] != [] {
      assert line[k..][0] == line[k];
    }
  }

  /** What is left after the first line's text is its line ending. */
  lemma AtLineEnd(t: string)
    ensures var u := t[|FirstLine(t)|..];
            (u == [] || u[0] == '\n') && AfterLine(u) == AfterLine(t)
  {
    LineSkip(t, LineLen(t));
  }

  /** A span stands at the beginning of a line: at the start of the text or
      right after a line feed. */
  predicate AtLineStart(s: Span) {
    s.start == 0 || s.text[s.start - 1] == '\n'
  }

  /** What follows a consumed line and its line feed starts a line. */
  lemma AfterLineStartsLine(s: Span, rest: Span)
    requires Suffix(s, rest) && Rem(rest) == AfterLine(Rem(s))
    ensures Rem(rest) != [] ==> AtLineStart(rest)
  {
    if Rem(rest) != [] {
      var t := Rem(s);
      var k := |FirstLine(t)|;
      assert k < |t|;
      assert rest.start == s.start + k + 1;
      assert s.text[rest.start - 1] == t[k];
    }
  }

  /** The beginning of a line is column 1. */
  lemma AtLineStartIsColumnOne(s: Span)
    ensures AtLineStart(s) <==> ColumnAt(s.text, s.start) == 1
  {
  }

  /** `beginning_of_line`: succeeds, consuming nothing, at column 1. */
  function BeginningOfLine(s: Span): (r: PResult<()>)
    ensures r.Ok? <==> AtLineStart(s)
    ensures r.Ok? ==> r.rest == s
  {
    if AtLineStart(s) then Ok(s, ()) else Err
  }

  /** `end_of_line_or_input`: the end of the input, or one line feed. */
  function EndOfLineOrInput(s: Span): (r: PResult<()>)
    ensures r.Ok? <==> Rem(s) == [] || Rem(s)[0] == '\n'
    ensures r.Ok? ==> Suffix(s, r.rest) && Rem(r.rest) == AfterLine(Rem(s))
    ensures r.Ok? && Rem(s) != [] ==> AtLineStart(r.rest) && Rem(s) == "\n" + Rem(r.rest)
    ensures r.Ok? && Rem(s) == [] ==> r.rest == s
  {
    if Rem(s) == [] then Ok(s, ())
    else if Rem(s)[0] == '\n' then Ok(Skip(s, 1), ())
    else Err
  }

  /** `not_line_ending` and `take_until_end_of_line_or_input`: the rest of
      the line, possibly empty, up to but not including its line feed. */
  function NotLineEnding(s: Span): (r: PResult<Span>)
    ensures r.Ok? && Suffix(s, r.rest)
    ensures Rem(r.value) == FirstLine(Rem(s)) && r.value.text == s.text && r.value.start == s.start
    ensures Rem(r.rest) == Rem(s)[|FirstLine(Rem(s))|..]
  {
    var n := LineLen(Rem(s));
    Ok(Skip(s, n), WithLength(s, n))
  }

  /** `blank_line`: at the beginning of a line, only spaces and tabs up to
      the end of the line or input; the line feed is consumed. */
  function BlankLine(s: Span): (r: PResult<()>)
    ensures r.Ok? <==> AtLineStart(s) && AllSpace(FirstLine(Rem(s)))
    ensures r.Ok? ==> Suffix(s, r.rest) && Rem(r.rest) == AfterLine(Rem(s))
  {
    if !AtLineStart(s) then Err
    else
      var sp := Space0(s);
      BlankIffSpacesToEnd(Rem(s));
      match EndOfLineOrInput(sp.rest)
      case Err => Err
      case Ok(rest, _) => Ok(rest, ())
  }

  /** A first line is blank exactly when the leading run of spaces and tabs
      reaches the end of the input or a line feed; that run then is the
      whole first line. */
  lemma {:induction false} BlankIffSpacesToEnd(t: string)
    ensures var k := CountWhile(t, IsSpace);
            AllSpace(FirstLine(t)) <==> k == |t| || t[k] == '\n'
    ensures var k := CountWhile(t, IsSpace);
            (k == |t| || t[k] == '\n') ==> LineLen(t) == k && AfterLine(t) == AfterLine(t[k..])
  {
    var k := CountWhile(t, IsSpace);
    var n := LineLen(t);
    if k == |t| || t[k] == '\n' {
      assert n == k;
      if k < |t| {
        assert t[k..][0] == '\n';
        assert LineLen(t[k..]) == 0;
      }
    } else {
      assert n > k;
      assert FirstLine(t)[k] == t[k];
    }
  }

  /** `tag(t)`: consumes `t` when the input starts with it. */
  function Tag(s: Span, t: string): (r: PResult<Span>)
    ensures r.Ok? <==> |t| <= |Rem(s)| && Rem(s)[..|t|] == t
    ensures r.Ok? ==> Suffix(s, r.rest) && Rem(s) == t + Rem(r.rest) && Rem(r.value) == t
  {
    if |t| <= |Rem(s)| && Rem(s)[..|t|] == t then
      assert Rem(s) == t + Rem(s)[|t|..];
      Ok(Skip(s, |t|), WithLength(s, |t|))
    else Err
  }

  /** `take(n)`: the first `n` bytes. */
  function Take(s: Span, n: nat): (r: PResult<Span>)
    ensures r.Ok? <==> n <= |Rem(s)|
    ensures r.Ok? ==> Suffix(s, r.rest) && Rem(r.value) == Rem(s)[..n] && Rem(r.rest) == Rem(s)[n..]
  {
    if n <= |Rem(s)| then Ok(Skip(s, n), WithLength(s, n)) else Err
  }

  /** `take_end(n)`: splits off the last `n` bytes; the remainder is the
      span without them. */
  function TakeEnd(s: Span, n: nat): (r: PResult<Span>)
    ensures r.Ok? <==> n <= |Rem(s)|
    ensures r.Ok? ==> Rem(s) == Rem(r.rest) + Rem(r.value) && |Rem(r.value)| == n
    ensures r.Ok? ==> r.rest.text == s.text && r.rest.start == s.start
  {
    if n <= |Rem(s)| then
      var k := |Rem(s)| - n;
      assert Rem(s) == Rem(s)[..k] + Rem(s)[k..];
      Ok(WithLength(s, k), Skip(s, k))
    else Err
  }

  predicate IsHash(c: char) {
    c == '#'
  }

  /** `take_line_while1(char('#'))`: the non-empty leading run of '#'. */
  function TakeHashes(s: Span): (r: PResult<Span>)
    ensures r.Ok? <==> Rem(s) != [] && Rem(s)[0] == '#'
    ensures r.Ok? ==> Suffix(s, r.rest) && Rem(s) == Rem(r.value) + Rem(r.rest)
    ensures r.Ok? ==> |Rem(r.value)| == CountWhile(Rem(s), IsHash)
  {
    var n := CountWhile(Rem(s), IsHash);
    if n == 0 then Err
    else
      assert Rem(s) == Rem(s)[..n] + Rem(s)[n..];
      Ok(Skip(s, n), WithLength(s, n))
  }
}
