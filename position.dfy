/** Source coordinates (src/ast/location/position.rs): a `Point` is one place
    in the source, a `Position` the region between two points. */
module SourcePosition {
  import opened Parsers

  datatype Option<T> = None | Some(value: T)

  /** `line` and `column` are 1-indexed, `offset` is 0-indexed. The derived
      `Default` builds all three as 0, bypassing `Point::new`'s checks. */
  datatype Point = Point(line: nat, column: nat, offset: nat) {

    /** `Point::new` asserts a 1-indexed line and column. */
    static function New(line: nat, column: nat, offset: nat): (p: Point)
      requires line >= 1 && column >= 1
      ensures p.Line() == line && p.Column() == column && p.Offset() == offset
    {
      Point(line, column, offset)
    }

    function Line(): nat { line }

    function Column(): nat { column }

    function Offset(): nat { offset }
  }

  /** `end` is the place of the first byte after the region. */
  datatype Position = Position(start: Point, end: Point, indent: Option<nat>) {

    /** `Position::default()`. */
    static function Default(): Position {
      Position(Point(0, 0, 0), Point(0, 0, 0), None)
    }

    /** `Position::new`: no indent. */
    static function New(start: Point, end: Point): (p: Position)
      ensures p.start == start && p.end == end && p.indent.None?
    {
      Position(start, end, None)
    }

    /** `Position::new_with_indent` asserts a 1-indexed indent. */
    static function NewWithIndent(start: Point, end: Point, indent: nat): (p: Position)
      requires indent >= 1
      ensures p.start == start && p.end == end && p.indent == Some(indent)
    {
      Position(start, end, Some(indent))
    }

    /** `with_indent`: the same region with the indent replaced. */
    function WithIndent(indent: nat): (q: Position)
      requires indent >= 1
      ensures q.start == start && q.end == end && q.indent == Some(indent)
    {
      NewWithIndent(start, end, indent)
    }

    /** `Position::from_span`: the region of the span's remaining input. */
    static function FromSpan(s: Span): (p: Position)
      ensures p.StartingOffset() == s.start && p.EndingOffset() == s.end && p.indent.None?
      ensures p.start.line >= 1 && p.start.column >= 1
    {
      New(Point.New(LineAt(s.text, s.start), ColumnAt(s.text, s.start), s.start),
          Point.New(LineAt(s.text, s.end), ColumnAt(s.text, s.end), s.end))
    }

    function StartingOffset(): nat { start.Offset() }

    function EndingOffset(): nat { end.Offset() }

    predicate Contains(offset: nat) {
      offset >= StartingOffset() && offset < EndingOffset()
    }

    /** `len` subtracts `usize`s: a region that ends before it starts would
        underflow, so the region must not be reversed. */
    function Len(): nat
      requires StartingOffset() <= EndingOffset()
    {
      EndingOffset() - StartingOffset()
    }

    predicate IsEmpty()
      requires StartingOffset() <= EndingOffset()
    {
      Len() == 0
    }

    /** The offsets the region contains. */
    function Offsets(): set<nat> {
      set o: nat | o < EndingOffset() && Contains(o)
    }
  }

  /** The offsets in [lo, hi). */
  function Range(lo: nat, hi: nat): (r: set<nat>)
    ensures forall o: nat :: o in r <==> lo <= o < hi
    ensures |r| == if lo <= hi then hi - lo else 0
    decreases hi - lo
  {
    if hi <= lo then {} else Range(lo, hi - 1) + {hi - 1}
  }

  /** A region contains exactly `len()` offsets: the half-open interval from
      the starting to the ending offset. */
  lemma ContainsCountsLen(p: Position)
    requires p.StartingOffset() <= p.EndingOffset()
    ensures |p.Offsets()| == p.Len()
    ensures forall o: nat :: o in p.Offsets() <==> p.StartingOffset() <= o < p.EndingOffset()
  {
    assert p.Offsets() == Range(p.StartingOffset(), p.EndingOffset());
  }

  /** `is_empty()` holds exactly when the region contains no offset, that is
      when it starts where it ends. */
  lemma IsEmptyIffContainsNothing(p: Position)
    requires p.StartingOffset() <= p.EndingOffset()
    ensures p.IsEmpty() <==> forall o: nat :: !p.Contains(o)
    ensures p.IsEmpty() <==> p.StartingOffset() == p.EndingOffset()
  {
    if !p.IsEmpty() {
      assert p.Contains(p.StartingOffset());
    }
  }

  /** The region 2..4 of the test at position.rs:131-142, as `contains` is
      written: it holds 2 and 3 and not 4, where the test asserts the
      opposite for 2 and for 4. The code agrees with the documented meaning
      of `end`, the first place after the region. */
  lemma ContainsTestRegion()
    ensures var p := Position.New(Point.New(1, 3, 2), Point.New(1, 5, 4));
            && p.Contains(2) && p.Contains(3) && !p.Contains(4)
            && !p.Contains(0) && !p.Contains(1) && !p.Contains(5)
  {
  }

  /** The region of a span contains exactly the offsets of its remaining bytes. */
  lemma FromSpanCoversRemainder(s: Span, o: nat)
    ensures Position.FromSpan(s).Contains(o) <==> s.start <= o < s.start + |Rem(s)|
    ensures Position.FromSpan(s).Len() == |Rem(s)|
  {
  }
}
