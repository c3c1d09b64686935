/** Positions and locations in a source text, as the generated parsers keep them
    (3rd_party/bison/position.hh, 3rd_party/bison/location.hh). */
module SourcePosition {
  import opened Options
  import opened Words

  /** The source's `int`. */
  type Int32 = i: int | -0x8000_0000 <= i < 0x8000_0000

  /** The value of a position: file name, line and column. */
  datatype Pos = Pos(file: Option<string>, line: Word, column: Word)

  /** Conversion of an `int` to `unsigned int`. */
  function Unsigned(i: Int32): Word {
    i % WORD_RANGE
  }

  /** Unary minus on `unsigned int`. */
  function Negated(u: Word): Word {
    (WORD_RANGE - u) % WORD_RANGE
  }

  /** `add_`. */
  function Add(lhs: Word, rhs: Int32, min: Word): Word {
    if 0 < rhs || Negated(Unsigned(rhs)) < lhs then (rhs + lhs) % WORD_RANGE else min
  }

  /** The sum modulo 2^32 where it is positive, and the minimum otherwise. */
  lemma AddIs(lhs: Word, rhs: Int32)
    ensures Add(lhs, rhs, 1) == if lhs + rhs < 1 then 1 else (lhs + rhs) % 0x1_0000_0000
  {
    if rhs < 0 {
      assert Unsigned(rhs) == rhs + WORD_RANGE;
      assert Negated(Unsigned(rhs)) == 0 - rhs;
    }
  }

  /** With minimum 1 the wrapping arithmetic computes the clamped sum for every int if and only if
      the sum does not leave the range at the top. */
  lemma AddIsClampedExactly(lhs: Word, rhs: Int32)
    requires 1 <= lhs
    ensures Add(lhs, rhs, 1) == (if lhs + rhs >= 1 then lhs + rhs else 1) <==> lhs + rhs < WORD_RANGE
  {
    if rhs < 0 {
      assert Unsigned(rhs) == rhs + WORD_RANGE;
      assert Negated(Unsigned(rhs)) == 0 - rhs;
    }
    if lhs + rhs >= WORD_RANGE {
      assert (rhs + lhs) % WORD_RANGE == lhs + rhs - WORD_RANGE;
    }
  }

  function ColumnsOf(p: Pos, count: Int32): Pos {
    p.(column := Add(p.column, count, 1))
  }

  function LinesOf(p: Pos, count: Int32): Pos {
    if count == 0 then p else p.(line := Add(p.line, count, 1), column := 1)
  }

  /** Adding a width and subtracting it again gives the position back if and only if the column
      does not leave its range. */
  lemma AddThenSubtract(p: Pos, width: Int32)
    requires 1 <= p.column && 0 <= width
    ensures ColumnsOf(ColumnsOf(p, width), -width) == p <==> p.column + width < WORD_RANGE
  {
    var column := Add(p.column, width, 1);
    AddIsClampedExactly(p.column, width);
    if p.column + width < WORD_RANGE {
      AddIsClampedExactly(column, -width);
    } else {
      assert column == p.column + width - WORD_RANGE < width;
      if column > 0 {
        AddIsClampedExactly(column, -width);
      }
      assert Add(column, -width, 1) == 1;
    }
  }

  /** Subtracting a width and adding it again gives the position back if and only if the width is
      below the column: otherwise the subtraction was cut off at column 1. */
  lemma SubtractThenAdd(p: Pos, width: Int32)
    requires 1 <= p.column && 0 <= width
    ensures ColumnsOf(ColumnsOf(p, -width), width) == p <==> width < p.column
  {
    AddIsClampedExactly(p.column, -width);
    AddIsClampedExactly(Add(p.column, -width, 1), width);
  }

  class Position {
    var filename: Option<string>
    var line: Word
    var column: Word

    function Value(): Pos
      reads this
    {
      Pos(filename, line, column)
    }

    constructor (f: Option<string>, l: Word, c: Word)
      ensures filename == f && line == l && column == c
    {
      filename, line, column := f, l, c;
    }

    method Initialize(f: Option<string>, l: Word, c: Word)
      modifies this
      ensures filename == f && line == l && column == c
    {
      filename, line, column := f, l, c;
    }

    /** Advance to the count next lines: any move of lines leads to column 1. */
    method Lines(count: Int32)
      modifies this
      ensures filename == old(filename)
      ensures count == 0 ==> line == old(line) && column == old(column)
      ensures count != 0 ==>
        column == 1 && line == if old(line) + count < 1 then 1 else (old(line) + count) % 0x1_0000_0000
      ensures Value() == LinesOf(old(Value()), count)
    {
      AddIs(line, count);
      if count != 0 {
        column := 1;
        line := Add(line, count, 1);
      }
    }

    /** Advance to the count next columns. */
    method Columns(count: Int32)
      modifies this
      ensures filename == old(filename) && line == old(line)
      ensures column == if old(column) + count < 1 then 1 else (old(column) + count) % 0x1_0000_0000
      ensures Value() == ColumnsOf(old(Value()), count)
    {
      AddIs(column, count);
      column := Add(column, count, 1);
    }

    /** `+=`. */
    method Plus(width: Int32)
      modifies this
      ensures filename == old(filename) && line == old(line)
      ensures column == if old(column) + width < 1 then 1 else (old(column) + width) % 0x1_0000_0000
      ensures Value() == ColumnsOf(old(Value()), width)
    {
      Columns(width);
    }

    /** `-=`; the width is negated as an int. */
    method Minus(width: Int32)
      requires width != -0x8000_0000
      modifies this
      ensures filename == old(filename) && line == old(line)
      ensures column == if old(column) - width < 1 then 1 else (old(column) - width) % 0x1_0000_0000
      ensures Value() == ColumnsOf(old(Value()), -width)
    {
      Plus(-width);
    }
  }

  /** The value of a location. */
  datatype Loc = Loc(begin: Pos, end: Pos)

  datatype Op = Step | Columns(count: Int32) | Lines(count: Int32)

  function Apply(l: Loc, op: Op): Loc {
    match op
    case Step => Loc(l.end, l.end)
    case Columns(n) => l.(end := ColumnsOf(l.end, n))
    case Lines(n) => l.(end := LinesOf(l.end, n))
  }

  class Location {
    const begin: Position
    const end: Position

    function Value(): Loc
      reads begin, end
    {
      Loc(begin.Value(), end.Value())
    }

    ghost predicate Valid() {
      begin != end
    }

    constructor (b: Pos, e: Pos)
      ensures Valid() && fresh(begin) && fresh(end) && Value() == Loc(b, e)
    {
      begin := new Position(b.file, b.line, b.column);
      end := new Position(e.file, e.line, e.column);
    }

    method Initialize(f: Option<string>, l: Word, c: Word)
      requires Valid()
      modifies begin, end
      ensures Value() == Loc(Pos(f, l, c), Pos(f, l, c))
    {
      begin.Initialize(f, l, c);
      end.Initialize(begin.filename, begin.line, begin.column);
    }

    /** Reset the beginning to the end. */
    method Step()
      requires Valid()
      modifies begin
      ensures begin.filename == end.filename && begin.line == end.line && begin.column == end.column
      ensures Value() == Apply(old(Value()), Op.Step)
    {
      begin.Initialize(end.filename, end.line, end.column);
    }

    /** Extend to the count next columns. */
    method Columns(count: Int32)
      requires Valid()
      modifies end
      ensures end.filename == old(end.filename) && end.line == old(end.line)
      ensures end.column
           == if old(end.column) + count < 1 then 1 else (old(end.column) + count) % 0x1_0000_0000
      ensures Value() == Apply(old(Value()), Op.Columns(count))
    {
      end.Plus(count);
    }

    /** Extend to the count next lines. */
    method Lines(count: Int32)
      requires Valid()
      modifies end
      ensures end.filename == old(end.filename)
      ensures count == 0 ==> end.line == old(end.line) && end.column == old(end.column)
      ensures count != 0 ==>
        && end.column == 1
        && end.line == if old(end.line) + count < 1 then 1 else (old(end.line) + count) % 0x1_0000_0000
      ensures Value() == Apply(old(Value()), Op.Lines(count))
    {
      end.Lines(count);
    }

    /** `+=` with a location: join, in place. */
    method Join(other: Location)
      requires Valid()
      modifies end
      ensures end.filename == old(other.end.filename)
      ensures end.line == old(other.end.line) && end.column == old(other.end.column)
      ensures Value() == JoinOf(old(Value()), old(other.Value()))
    {
      end.Initialize(other.end.filename, other.end.line, other.end.column);
    }
  }

  function JoinOf(l: Loc, other: Loc): Loc {
    l.(end := other.end)
  }

  // ---- Whole runs of a scanner. ----

  /** Lexicographic order of line and column. */
  predicate AtMost(p: Pos, q: Pos) {
    p.line < q.line || (p.line == q.line && p.column <= q.column)
  }

  predicate Sound(l: Loc) {
    && 1 <= l.begin.line && 1 <= l.begin.column && 1 <= l.end.line && 1 <= l.end.column
    && AtMost(l.begin, l.end)
  }

  /** The operation moves forward and stays within the range of its counter. */
  predicate Forward(l: Loc, op: Op) {
    match op
    case Step => true
    case Columns(n) => 0 <= n && l.end.column + n < WORD_RANGE
    case Lines(n) => 0 <= n && l.end.line + n < WORD_RANGE
  }

  /** The location after the operations, each of them moving forward. */
  function Run(l: Loc, ops: seq<Op>): Loc
    decreases ops
  {
    if ops == [] then l else Run(Apply(l, ops[0]), ops[1..])
  }

  predicate ForwardRun(l: Loc, ops: seq<Op>)
    decreases ops
  {
    ops == [] || (Forward(l, ops[0]) && ForwardRun(Apply(l, ops[0]), ops[1..]))
  }

  /** The ranges between the steps of a run, the last one unfinished. */
  function Ranges(l: Loc, ops: seq<Op>): (r: seq<Loc>)
    ensures r != []
    ensures r[0].begin == l.begin
    decreases ops
  {
    if ops == [] then [l]
    else if ops[0].Step? then [l] + Ranges(Apply(l, ops[0]), ops[1..])
    else Ranges(Apply(l, ops[0]), ops[1..])
  }

  /** All ranges joined, first to last. */
  function JoinAll(r: seq<Loc>): Loc
    requires r != []
  {
    if |r| == 1 then r[0] else JoinOf(r[0], JoinAll(r[1..]))
  }

  lemma ApplySound(l: Loc, op: Op)
    requires Sound(l) && Forward(l, op)
    ensures Sound(Apply(l, op))
    ensures AtMost(l.end, Apply(l, op).end)
  {
    match op
    case Step =>
    case Columns(n) => AddIsClampedExactly(l.end.column, n);
    case Lines(n) => AddIsClampedExactly(l.end.line, n);
  }

  /** Over every forward run, lines and columns stay positive and no range ends before it begins;
      each range begins where the one before it ends, and joining them all spans from the first
      begin to the last end. */
  lemma {:induction false} RangesTile(l: Loc, ops: seq<Op>)
    requires Sound(l) && ForwardRun(l, ops)
    ensures Sound(Run(l, ops))
    ensures forall k :: 0 <= k < |Ranges(l, ops)| ==> Sound(Ranges(l, ops)[k])
    ensures forall k :: 0 < k < |Ranges(l, ops)| ==> Ranges(l, ops)[k - 1].end == Ranges(l, ops)[k].begin
    ensures JoinAll(Ranges(l, ops)) == Loc(l.begin, Run(l, ops).end)
    decreases ops
  {
    if ops != [] {
      var l', rest := Apply(l, ops[0]), ops[1..];
      ApplySound(l, ops[0]);
      RangesTile(l', rest);
      if ops[0].Step? {
        var r := Ranges(l', rest);
        assert Ranges(l, ops) == [l] + r;
        assert ([l] + r)[1..] == r;
      }
    }
  }
}
