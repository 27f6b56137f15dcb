/** The AsciiDoc sketch (src/asciidoc/parser.rs): recognisers over plain
    text (`&str`) that the rest of the crate does not call yet. Most are
    nom's `delimited(tag(open), is_not(stops), tag(close))`: an opening
    tag, a non-empty run of characters none of which occurs in `stops`,
    and a closing tag. `is_not` treats its argument as a SET of
    characters, so `is_not("**")` stops at a single '*'. */
module AsciiDoc {
  import opened Parsers

  /** `IResult<&str, T>`: the text left over and the value, or an error. */
  datatype Parsed<T> = Done(rest: string, value: T) | Fail

  predicate StartsWith(t: string, p: string) {
    |p| <= |t| && t[..|p|] == p
  }

  /** nom's `tag(p)`. */
  function TagStr(i: string, p: string): (r: Parsed<string>)
    ensures r.Done? <==> StartsWith(i, p)
    ensures r.Done? ==> r.value == p && i == p + r.rest
  {
    if StartsWith(i, p) then
      assert i == i[..|p|] + i[|p|..];
      Done(i[|p|..], p)
    else Fail
  }

  /** nom's `is_not(stops)`: the non-empty leading run of characters that
      are not in `stops`; at the end of the input the run is all of it. */
  function IsNot(i: string, stops: string): (r: Parsed<string>)
    ensures r.Done? <==> i != [] && i[0] !in stops
    ensures r.Done? ==> && i == r.value + r.rest && r.value != []
                        && (forall c <- r.value :: c !in stops)
                        && (r.rest == [] || r.rest[0] in stops)
  {
    var n := CountWhile(i, c => c !in stops);
    if n == 0 then Fail
    else
      assert i == i[..n] + i[n..];
      assert forall k :: 0 <= k < n ==> i[..n][k] == i[k];
      Done(i[n..], i[..n])
  }

  /** `delimited(tag(open), is_not(stops), tag(close))`. */
  function Delimited(i: string, open: string, stops: string, close: string): (r: Parsed<string>)
    ensures r.Done? ==> && i == open + r.value + close + r.rest && r.value != []
                        && (forall c <- r.value :: c !in stops)
  {
    match TagStr(i, open)
    case Fail => Fail
    case Done(i1, _) =>
      match IsNot(i1, stops)
      case Fail => Fail
      case Done(i2, w) =>
        match TagStr(i2, close)
        case Fail => Fail
        case Done(i3, _) =>
          assert i1 == w + close + i3;
          AppendAssoc(open, w + close, i3);
          AppendAssoc(open, w, close);
          Done(i3, w)
  }

  /** Delimiting text between `open` and `close` and parsing it back gives
      the text and what follows, when the text is a non-empty run free of
      `stops` and the closing tag begins with a stop character (so the run
      cannot swallow it). */
  lemma {:induction false} DelimitedRoundTrip(open: string, w: string, stops: string, close: string, rest: string)
    requires w != [] && (forall c <- w :: c !in stops)
    requires close != [] && close[0] in stops
    ensures Delimited(open + w + close + rest, open, stops, close) == Done(rest, w)
  {
    var i := open + w + close + rest;
    var i1 := w + close + rest;
    assert i == open + i1 && StartsWith(i, open) && i[|open|..] == i1;
    assert forall k :: 0 <= k < |w| ==> i1[k] == w[k];
    assert i1[|w|] == close[0];
    CountWhileIsMaximalRun(i1, c => c !in stops, |w|);
    assert i1[|w|..] == close + rest;
    assert i1[..|w|] == w;
    assert StartsWith(close + rest, close) && (close + rest)[|close|..] == rest;
  }

  // ---------------------------------------------------------- front matter

  /** `parse_front_matter`: the text between two "---" lines. Since the
      stop set of `is_not("---")` is {'-'}, the value contains no '-'. */
  function FrontMatter(i: string): (r: Parsed<string>)
    ensures r.Done? ==> && i == "---" + r.value + "---" + r.rest
                        && r.value != [] && '-' !in r.value
  {
    Delimited(i, "---", "---", "---")
  }

  /** Front matter without '-' is read back exactly. */
  lemma FrontMatterRoundTrip(w: string, rest: string)
    requires w != [] && '-' !in w
    ensures FrontMatter("---" + w + "---" + rest) == Done(rest, w)
  {
    DelimitedRoundTrip("---", w, "---", "---", rest);
  }

  /** The test of parser.rs: the author line between two fences. */
  lemma FrontMatterExample()
    ensures FrontMatter("---\nAuthor: Sean\n---") == Done("", "\nAuthor: Sean\n")
  {
    var w := "\nAuthor: Sean\n";
    assert "---\nAuthor: Sean\n---" == "---" + w + "---" + "";
    FrontMatterRoundTrip(w, "");
  }

  // --------------------------------------------------------- bold, italics

  /** `parse_constrained_bold`: "*", a run without '*', "*". */
  function ConstrainedBold(i: string): (r: Parsed<string>)
    ensures r.Done? ==> i == "*" + r.value + "*" + r.rest && r.value != [] && '*' !in r.value
  {
    Delimited(i, "*", "*", "*")
  }

  /** `parse_unconstrained_bold`: "**", a run without '*', "**". */
  function UnconstrainedBold(i: string): (r: Parsed<string>)
    ensures r.Done? ==> i == "**" + r.value + "**" + r.rest && r.value != [] && '*' !in r.value
  {
    Delimited(i, "**", "**", "**")
  }

  /** `parse_constrained_italics`: "_", a run without '_', "_". */
  function ConstrainedItalics(i: string): (r: Parsed<string>)
    ensures r.Done? ==> i == "_" + r.value + "_" + r.rest && r.value != [] && '_' !in r.value
  {
    Delimited(i, "_", "_", "_")
  }

  /** `parse_unconstrained_italics`: "__", a run without '_', "__". */
  function UnconstrainedItalics(i: string): (r: Parsed<string>)
    ensures r.Done? ==> i == "__" + r.value + "__" + r.rest && r.value != [] && '_' !in r.value
  {
    Delimited(i, "__", "__", "__")
  }

  /** Bold text free of '*' is read back by both bold parsers. */
  lemma BoldRoundTrip(w: string, rest: string)
    requires w != [] && '*' !in w
    ensures ConstrainedBold("*" + w + "*" + rest) == Done(rest, w)
    ensures UnconstrainedBold("**" + w + "**" + rest) == Done(rest, w)
  {
    DelimitedRoundTrip("*", w, "*", "*", rest);
    DelimitedRoundTrip("**", w, "**", "**", rest);
  }

  /** Italic text free of '_' is read back by both italics parsers. */
  lemma ItalicsRoundTrip(w: string, rest: string)
    requires w != [] && '_' !in w
    ensures ConstrainedItalics("_" + w + "_" + rest) == Done(rest, w)
    ensures UnconstrainedItalics("__" + w + "__" + rest) == Done(rest, w)
  {
    DelimitedRoundTrip("_", w, "_", "_", rest);
    DelimitedRoundTrip("__", w, "__", "__", rest);
  }

  // ------------------------------------------------------ monospace, code

  /** `parse_constrained_monospace` as written: opened by '`' but closed
      by the digit '1', and the run stops only at '1'. */
  function ConstrainedMonospace(i: string): (r: Parsed<string>)
    ensures r.Done? ==> i == "`" + r.value + "1" + r.rest && r.value != [] && '1' !in r.value
  {
    Delimited(i, "`", "1", "1")
  }

  /** What the as-written parser accepts: text closed by '1'. */
  lemma ConstrainedMonospaceRoundTrip(w: string, rest: string)
    requires w != [] && '1' !in w
    ensures ConstrainedMonospace("`" + w + "1" + rest) == Done(rest, w)
  {
    DelimitedRoundTrip("`", w, "1", "1", rest);
  }

  /** The as-written parser rejects text closed by a backtick, such as
      "`code`": the run takes the closing backtick too and no '1' follows. */
  lemma {:induction false} ConstrainedMonospaceRejectsBackticks(w: string)
    requires '1' !in w
    ensures ConstrainedMonospace("`" + w + "`").Fail?
  {
    var i1 := w + "`";
    assert "`" + w + "`" == "`" + i1;
    assert forall k :: 0 <= k < |i1| ==> i1[k] != '1';
    CountWhileIsMaximalRun(i1, c => c !in "1", |i1|);
  }

  /** `parse_constrained_monospace` as its neighbours indicate: '`', a run
      without '`', '`'. */
  function ConstrainedMonospaceCorrected(i: string): (r: Parsed<string>)
    ensures r.Done? ==> i == "`" + r.value + "`" + r.rest && r.value != [] && '`' !in r.value
  {
    Delimited(i, "`", "`", "`")
  }

  /** Monospace text free of '`' is read back by the corrected parser. */
  lemma ConstrainedMonospaceCorrectedRoundTrip(w: string, rest: string)
    requires w != [] && '`' !in w
    ensures ConstrainedMonospaceCorrected("`" + w + "`" + rest) == Done(rest, w)
  {
    DelimitedRoundTrip("`", w, "`", "`", rest);
  }

  /** `parse_unconstrained_monospace`: "``", a run without '`', "``". */
  function UnconstrainedMonospace(i: string): (r: Parsed<string>)
    ensures r.Done? ==> i == "``" + r.value + "``" + r.rest && r.value != [] && '`' !in r.value
  {
    Delimited(i, "``", "``", "``")
  }

  /** `parse_inline_code`: "`+", a run without '`' and '+', "`+". */
  function InlineCode(i: string): (r: Parsed<string>)
    ensures r.Done? ==> && i == "`+" + r.value + "`+" + r.rest && r.value != []
                        && '`' !in r.value && '+' !in r.value
  {
    Delimited(i, "`+", "`+", "`+")
  }

  /** `parse_code_block`: "```", a run without '`', "```". */
  function CodeBlock(i: string): (r: Parsed<string>)
    ensures r.Done? ==> i == "```" + r.value + "```" + r.rest && r.value != [] && '`' !in r.value
  {
    Delimited(i, "```", "```", "```")
  }

  /** Code free of the delimiter characters is read back by the
      unconstrained monospace, inline code and code block parsers. */
  lemma CodeRoundTrip(w: string, rest: string)
    requires w != [] && '`' !in w
    ensures UnconstrainedMonospace("``" + w + "``" + rest) == Done(rest, w)
    ensures CodeBlock("```" + w + "```" + rest) == Done(rest, w)
    ensures '+' !in w ==> InlineCode("`+" + w + "`+" + rest) == Done(rest, w)
  {
    DelimitedRoundTrip("``", w, "``", "``", rest);
    DelimitedRoundTrip("```", w, "```", "```", rest);
    if '+' !in w {
      DelimitedRoundTrip("`+", w, "`+", "`+", rest);
    }
  }

  // ----------------------------------------------------------------- image

  /** `parse_image` as written: "image::", a target without '[', "[",
      then a second "[", a text without ']', "]": the bracket is opened
      twice. */
  function Image(i: string): (r: Parsed<(string, string)>)
    ensures r.Done? ==> && i == "image::" + r.value.0 + "[" + "[" + r.value.1 + "]" + r.rest
                        && r.value.0 != [] && '[' !in r.value.0
                        && r.value.1 != [] && ']' !in r.value.1
  {
    match Delimited(i, "image::", "[", "[")
    case Fail => Fail
    case Done(i1, target) =>
      match Delimited(i1, "[", "]", "]")
      case Fail => Fail
      case Done(i2, alt) =>
        AppendAssoc("image::" + target + "[", "[" + alt + "]", i2);
        AppendAssoc("image::" + target + "[", "[" + alt, "]");
        AppendAssoc("image::" + target + "[", "[", alt);
        Done(i2, (target, alt))
  }

  /** What the as-written parser accepts: a doubled opening bracket. */
  lemma ImageRoundTrip(target: string, alt: string, rest: string)
    requires target != [] && '[' !in target && alt != [] && ']' !in alt
    ensures Image("image::" + target + "[" + "[" + alt + "]" + rest) == Done(rest, (target, alt))
  {
    var i1 := "[" + alt + "]" + rest;
    AppendAssoc("image::" + target + "[", "[" + alt + "]", rest);
    AppendAssoc("image::" + target + "[", "[" + alt, "]");
    AppendAssoc("image::" + target + "[", "[", alt);
    DelimitedRoundTrip("image::", target, "[", "[", i1);
    DelimitedRoundTrip("[", alt, "]", "]", rest);
  }

  /** The usual macro form, such as "image::a.png[alt]", is rejected as
      written: after the target's bracket a second '[' is required. */
  lemma ImageRejectsMacro(target: string, alt: string)
    requires target != [] && '[' !in target && (alt == [] || alt[0] != '[')
    ensures Image("image::" + target + "[" + alt).Fail?
  {
    DelimitedRoundTrip("image::", target, "[", "[", alt);
  }

  /** nom's `terminated(is_not(stops), tag(close))`. */
  function Terminated(i: string, stops: string, close: string): (r: Parsed<string>)
    ensures r.Done? ==> && i == r.value + close + r.rest && r.value != []
                        && (forall c <- r.value :: c !in stops)
  {
    match IsNot(i, stops)
    case Fail => Fail
    case Done(i1, w) =>
      match TagStr(i1, close)
      case Fail => Fail
      case Done(i2, _) =>
        AppendAssoc(w, close, i2);
        Done(i2, w)
  }

  /** A run free of `stops` followed by `close` is read back, when `close`
      begins with a stop character. */
  lemma {:induction false} TerminatedRoundTrip(w: string, stops: string, close: string, rest: string)
    requires w != [] && (forall c <- w :: c !in stops)
    requires close != [] && close[0] in stops
    ensures Terminated(w + close + rest, stops, close) == Done(rest, w)
  {
    var i := w + close + rest;
    assert forall k :: 0 <= k < |w| ==> i[k] == w[k];
    assert i[|w|] == close[0];
    CountWhileIsMaximalRun(i, c => c !in stops, |w|);
    assert i[|w|..] == close + rest && i[..|w|] == w;
    assert StartsWith(close + rest, close) && (close + rest)[|close|..] == rest;
  }

  /** `parse_image` with the second `delimited` replaced by its evident
      intent, `terminated(is_not("]"), tag("]"))`: "image::", a target, one
      bracketed text. */
  function ImageCorrected(i: string): (r: Parsed<(string, string)>)
    ensures r.Done? ==> && i == "image::" + r.value.0 + "[" + r.value.1 + "]" + r.rest
                        && r.value.0 != [] && '[' !in r.value.0
                        && r.value.1 != [] && ']' !in r.value.1
  {
    match Delimited(i, "image::", "[", "[")
    case Fail => Fail
    case Done(i1, target) =>
      match Terminated(i1, "]", "]")
      case Fail => Fail
      case Done(i2, alt) =>
        AppendAssoc("image::" + target + "[", alt + "]", i2);
        AppendAssoc("image::" + target + "[", alt, "]");
        Done(i2, (target, alt))
  }

  /** The corrected parser reads back the macro form. */
  lemma ImageCorrectedRoundTrip(target: string, alt: string, rest: string)
    requires target != [] && '[' !in target && alt != [] && ']' !in alt
    ensures ImageCorrected("image::" + target + "[" + alt + "]" + rest) == Done(rest, (target, alt))
  {
    var i1 := alt + "]" + rest;
    AppendAssoc("image::" + target + "[", alt + "]", rest);
    AppendAssoc("image::" + target + "[", alt, "]");
    DelimitedRoundTrip("image::", target, "[", "[", i1);
    TerminatedRoundTrip(alt, "]", "]", rest);
  }

  // ------------------------------------------------------------- plaintext

  /** One of the tags `parse_plaintext` refuses to start on: "*", "`",
      "[", "![" or a line feed. */
  predicate StartsSpecial(t: string) {
    t != [] && (t[0] in "*`[\n" || (t[0] == '!' && |t| >= 2 && t[1] == '['))
  }

  /** The rounds of `many1(preceded(not(special), take(1)))`: the
      one-character strings taken until a special tag or the end of the
      input. `Plaintext` adds `many1`'s demand for at least one. */
  function PlainChars(i: string): (r: seq<string>)
    ensures |r| <= |i| && (forall c <- r :: |c| == 1)
    ensures forall k :: 0 <= k < |r| ==> r[k] == [i[k]] && !StartsSpecial(i[k..])
    ensures |r| == |i| || StartsSpecial(i[|r|..])
  {
    if i == [] || StartsSpecial(i) then []
    else
      var tail := PlainChars(i[1..]);
      assert forall k :: 1 <= k <= |tail| ==> i[k..] == i[1..][k - 1..];
      [[i[0]]] + tail
  }

  /** `vec.join("")`. */
  function Join(cs: seq<string>): string {
    if cs == [] then [] else cs[0] + Join(cs[1..])
  }

  /** Joining single characters taken from the front of `i` gives back
      that prefix of `i`. */
  lemma {:induction false} JoinChars(i: string, cs: seq<string>)
    requires |cs| <= |i| && forall k :: 0 <= k < |cs| ==> cs[k] == [i[k]]
    ensures Join(cs) == i[..|cs|]
  {
    if cs != [] {
      assert forall k :: 0 <= k < |cs| - 1 ==> cs[1..][k] == [i[1..][k]];
      JoinChars(i[1..], cs[1..]);
      assert i[..|cs|] == [i[0]] + i[1..][..|cs| - 1];
    }
  }

  /** `parse_plaintext`: at least one character, taken one at a time
      until a special tag or the end of the input, joined in order. */
  function Plaintext(i: string): (r: Parsed<string>)
    ensures r.Done? <==> i != [] && !StartsSpecial(i)
    ensures r.Done? ==> && i == r.value + r.rest && r.value != []
                        && (forall k :: 0 <= k < |r.value| ==> !StartsSpecial(i[k..]))
                        && (r.rest == [] || StartsSpecial(r.rest))
  {
    var cs := PlainChars(i);
    if cs == [] then Fail
    else
      JoinChars(i, cs);
      assert i == i[..|cs|] + i[|cs|..];
      Done(i[|cs|..], Join(cs))
  }

  /** Plain text stops where it cannot go on: parsing plain text again
      from where it stopped fails. */
  lemma PlaintextIsMaximal(i: string)
    requires Plaintext(i).Done?
    ensures Plaintext(Plaintext(i).rest).Fail?
  {
  }

  // ------------------------------------------------------------------- tags

  predicate IsEquals(c: char) {
    c == '='
  }

  /** `n` copies of '='. */
  function EqualsRun(n: nat): (e: string)
    ensures |e| == n && forall c <- e :: c == '='
  {
    seq(n, _ => '=')
  }

  /** `parse_header_tag`: a non-empty run of '=' and one space; the value
      is the length of the run. */
  function HeaderTag(i: string): (r: Parsed<nat>)
    ensures r.Done? ==> r.value >= 1 && i == EqualsRun(r.value) + " " + r.rest
  {
    var n := CountWhile(i, IsEquals);
    if n == 0 then Fail
    else
      match TagStr(i[n..], " ")
      case Fail => Fail
      case Done(rest, _) =>
        assert i[..n] == EqualsRun(n);
        assert i == i[..n] + i[n..];
        Done(rest, n)
  }

  /** A run of `n` '=' and a space is read back as level `n`. */
  lemma {:induction false} HeaderTagRoundTrip(n: nat, rest: string)
    requires n >= 1
    ensures HeaderTag(EqualsRun(n) + " " + rest) == Done(rest, n)
  {
    var i := EqualsRun(n) + " " + rest;
    assert forall k :: 0 <= k < n ==> i[k] == '=';
    assert i[n] == ' ';
    CountWhileIsMaximalRun(i, IsEquals, n);
    assert i[n..] == " " + rest;
  }

  /** `parse_unordered_list_tag`: "*" followed by a space. */
  function UnorderedListTag(i: string): (r: Parsed<string>)
    ensures r.Done? <==> StartsWith(i, "* ")
    ensures r.Done? ==> r.value == "*" && i == "* " + r.rest
  {
    match TagStr(i, "*")
    case Fail => Fail
    case Done(i1, star) =>
      match TagStr(i1, " ")
      case Fail => Fail
      case Done(i2, _) =>
        assert i[..2] == "*" + i1[..1];
        Done(i2, star)
  }

  /** Rust's `is_digit(d as u8)`: the cast keeps only the low byte of the
      character's code point, so U+0131 passes as '1'. */
  predicate IsDigitLowByte(c: char) {
    48 <= (c as int) % 256 <= 57
  }

  /** `parse_ordered_list_tag` as written: a non-empty run of characters
      whose low byte is an ASCII digit, ".", then a space. */
  function OrderedListTag(i: string): (r: Parsed<string>)
    ensures r.Done? ==> && i == r.value + ". " + r.rest && r.value != []
                        && (forall c <- r.value :: IsDigitLowByte(c))
  {
    var n := CountWhile(i, IsDigitLowByte);
    if n == 0 then Fail
    else
      match TagStr(i[n..], ". ")
      case Fail => Fail
      case Done(rest, _) =>
        assert forall k :: 0 <= k < n ==> i[..n][k] == i[k];
        assert i == i[..n] + i[n..];
        Done(rest, i[..n])
  }

  /** A list number, ". " and the rest is read back as that number. */
  lemma {:induction false} OrderedListTagRoundTrip(digits: string, rest: string)
    requires digits != [] && forall c <- digits :: IsDigitLowByte(c)
    ensures OrderedListTag(digits + ". " + rest) == Done(rest, digits)
  {
    var i := digits + ". " + rest;
    var n := |digits|;
    assert forall k :: 0 <= k < n ==> i[k] == digits[k];
    assert i[n] == '.';
    CountWhileIsMaximalRun(i, IsDigitLowByte, n);
    assert i[..n] == digits && i[n..] == ". " + rest;
  }

  /** The dotless i (U+0131) has low byte 0x31, the code of '1', so the
      as-written parser takes "ı. " for a list number. */
  lemma OrderedListTagAcceptsDotlessI()
    ensures OrderedListTag("\U{0131}. item") == Done("item", "\U{0131}")
  {
    assert IsDigitLowByte('\U{0131}');
    assert "\U{0131}. item" == "\U{0131}" + ". " + "item";
    OrderedListTagRoundTrip("\U{0131}", "item");
  }

  predicate IsAsciiDigit(c: char) {
    '0' <= c <= '9'
  }

  /** `parse_ordered_list_tag` with the digit test on the character itself
      (`char::is_ascii_digit`): ASCII digits, ".", a space. */
  function OrderedListTagCorrected(i: string): (r: Parsed<string>)
    ensures r.Done? ==> && i == r.value + ". " + r.rest && r.value != []
                        && (forall c <- r.value :: IsAsciiDigit(c))
  {
    var n := CountWhile(i, IsAsciiDigit);
    if n == 0 then Fail
    else
      match TagStr(i[n..], ". ")
      case Fail => Fail
      case Done(rest, _) =>
        assert forall k :: 0 <= k < n ==> i[..n][k] == i[k];
        assert i == i[..n] + i[n..];
        Done(rest, i[..n])
  }

  /** The corrected parser reads back a decimal list number, and refuses
      any text that does not start with an ASCII digit. */
  lemma {:induction false} OrderedListTagCorrectedRoundTrip(digits: string, rest: string)
    requires digits != [] && forall c <- digits :: IsAsciiDigit(c)
    ensures OrderedListTagCorrected(digits + ". " + rest) == Done(rest, digits)
    ensures OrderedListTagCorrected("\U{0131}" + rest).Fail?
  {
    var i := digits + ". " + rest;
    var n := |digits|;
    assert forall k :: 0 <= k < n ==> i[k] == digits[k];
    assert i[n] == '.';
    CountWhileIsMaximalRun(i, IsAsciiDigit, n);
    assert i[..n] == digits && i[n..] == ". " + rest;
    assert ("\U{0131}" + rest)[0] == '\U{0131}';
  }
}
