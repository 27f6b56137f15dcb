/** Trimming spaces and tabs off a span (src/parsers/util/whitespace.rs).
    "Whitespace" here is nom's `is_space`: a space or a tab, never a line
    feed. */
module Whitespace {
  import opened Parsers

  predicate IsSpace(c: char) {
    c == ' ' || c == '\t'
  }

  predicate AllSpace(r: string) {
    forall i :: 0 <= i < |r| ==> IsSpace(r[i])
  }

  /** The length of the maximal run of spaces and tabs that ends `r`. */
  function TrailingSpaceCount(r: string): (n: nat)
    ensures n <= |r|
    ensures AllSpace(r[|r| - n..])
    ensures n < |r| ==> !IsSpace(r[|r| - n - 1])
  {
    if |r| > 0 && IsSpace(r[|r| - 1]) then 1 + TrailingSpaceCount(r[..|r| - 1]) else 0
  }

  /** A trailing run of spaces that cannot be extended is THE trailing run. */
  lemma TrailingRunUnique(r: string, n: nat)
    requires n <= |r| && AllSpace(r[|r| - n..])
    requires n < |r| ==> !IsSpace(r[|r| - n - 1])
    ensures n == TrailingSpaceCount(r)
  {
  }

  /** `count_trailing_whitespace`: walks the bytes from the end, counting
      until the first byte that is not a space or tab. The input is returned
      unconsumed. */
  method CountTrailingWhitespace(input: Span) returns (rest: Span, cnt: nat)
    ensures rest == input
    ensures cnt == TrailingSpaceCount(Rem(input))
  {
    var bytes := Rem(input);
    cnt := 0;
    var i := |bytes|;
    while i > 0
      invariant 0 <= i <= |bytes| && cnt == |bytes| - i
      invariant AllSpace(bytes[i..])
      decreases i
    {
      if !IsSpace(bytes[i - 1]) {
        break;
      }
      cnt := cnt + 1;
      i := i - 1;
    }
    TrailingRunUnique(bytes, cnt);
    rest := input;
  }

  /** `r` without its trailing spaces and tabs. */
  function TrimEnd(r: string): (t: string)
    ensures |t| <= |r| && t == r[..|t|] && AllSpace(r[|t|..])
    ensures t == [] || !IsSpace(t[|t| - 1])
  {
    r[..|r| - TrailingSpaceCount(r)]
  }

  /** `r` without its leading spaces and tabs (what `space0` skips). */
  function TrimStart(r: string): (t: string)
    ensures |t| <= |r| && t == r[|r| - |t|..] && AllSpace(r[..|r| - |t|])
    ensures t == [] || !IsSpace(t[0])
  {
    var n := CountWhile(r, IsSpace);
    assert AllSpace(r[..n]) by {
      forall i | 0 <= i < n ensures IsSpace(r[..n][i]) {
        assert r[..n][i] == r[i];
      }
    }
    r[n..]
  }

  /** nom's `space0`: the leading spaces and tabs, possibly none. */
  function Space0(input: Span): (r: PResult<Span>)
    ensures r.Ok? && Suffix(input, r.rest) && AllSpace(Rem(r.value))
    ensures Rem(input) == Rem(r.value) + Rem(r.rest) && Rem(r.rest) == TrimStart(Rem(input))
  {
    var n := CountWhile(Rem(input), IsSpace);
    Ok(Skip(input, n), WithLength(input, n))
  }

  /** `trim_trailing_whitespace`: keeps the first `len - cnt` bytes of the
      span, so leading whitespace is untouched. */
  function TrimTrailingWhitespace(input: Span): (r: PResult<()>)
    ensures r.Ok? && r.rest.text == input.text && r.rest.start == input.start
    ensures Rem(r.rest) == TrimEnd(Rem(input))
  {
    var len := |Rem(input)|;
    var cnt := TrailingSpaceCount(Rem(input));
    Ok(WithLength(input, len - cnt), ())
  }

  /** `trim_whitespace`: `space0`, then the trailing trim. */
  function TrimWhitespace(input: Span): (r: PResult<()>)
    ensures r.Ok? && r.rest.text == input.text && input.start <= r.rest.start
    ensures Rem(r.rest) == TrimEnd(TrimStart(Rem(input)))
  {
    TrimTrailingWhitespace(Space0(input).rest)
  }

  /** The string trimmed on both sides. */
  function Trim(r: string): string {
    TrimEnd(TrimStart(r))
  }

  /** The trimmed text is the interior of the input: the input is a run of
      spaces, the result, and another run of spaces; and the result neither
      starts nor ends with a space or tab. */
  lemma {:induction false} TrimShape(r: string)
    ensures exists i, j :: 0 <= i <= j <= |r| && Trim(r) == r[i..j] && AllSpace(r[..i]) && AllSpace(r[j..])
  {
    var i := |r| - |TrimStart(r)|;
    var j := i + |Trim(r)|;
    TrimSlice(r, i, j);
    assert Trim(r) == r[i..j] && AllSpace(r[..i]) && AllSpace(r[j..]);
  }

  lemma TrimSlice(r: string, i: nat, j: nat)
    requires i == |r| - |TrimStart(r)| && j == i + |Trim(r)|
    ensures j <= |r| && Trim(r) == r[i..j] && AllSpace(r[..i]) && AllSpace(r[j..])
  {
    var s := TrimStart(r);
    var t := TrimEnd(s);
    assert s == r[i..];
    assert t == s[..|t|];
    assert r[j..] == s[|t|..];
  }

  /** The trimmed text neither starts nor ends with a space or tab. */
  lemma {:induction false} TrimEnds(r: string)
    ensures Trim(r) == [] || (!IsSpace(Trim(r)[0]) && !IsSpace(Trim(r)[|Trim(r)| - 1]))
  {
    var s := TrimStart(r);
    var t := TrimEnd(s);
    if t != [] {
      assert t[0] == s[0];
    }
  }

  /** Leading and trailing trims leave a string already free of leading and
      trailing spaces unchanged, so trimming is idempotent. */
  lemma {:induction false} TrimIdempotent(r: string)
    ensures Trim(Trim(r)) == Trim(r)
  {
    var t := Trim(r);
    TrimEnds(r);
    assert CountWhile(t, IsSpace) == 0;
    assert TrimStart(t) == t;
    assert TrailingSpaceCount(t) == 0;
  }

  /** `trim_whitespace` applied to its own result changes nothing. */
  lemma TrimWhitespaceIdempotent(input: Span)
    ensures Rem(TrimWhitespace(TrimWhitespace(input).rest).rest) == Rem(TrimWhitespace(input).rest)
  {
    TrimIdempotent(Rem(input));
  }
}
