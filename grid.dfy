/**
 The arena of the snake game: a fixed 10 x 10 grid of cells, the four
 headings, one-cell steps and the wall test the movement step applies.
 */
module Grid {

  const ArenaWidth: int := 10
  const ArenaHeight: int := 10

  /** The range of a Rust `i32`, the type of both coordinates. */
  const I32Min: int := -0x8000_0000
  const I32Max: int := 0x7fff_ffff

  predicate IsI32(v: int) {
    I32Min <= v <= I32Max
  }

  datatype Direction = Left | Right | Up | Down {

    /** The reverse heading; no heading is its own reverse. */
    function Opposite(): (r: Direction)
      ensures r != this
      ensures (this == Left || this == Right) <==> (r == Left || r == Right)
    {
      match this
      case Left => Right
      case Right => Left
      case Up => Down
      case Down => Up
    }
  }

  lemma OppositeInvolution(d: Direction)
    ensures d.Opposite().Opposite() == d
    ensures forall e: Direction :: e.Opposite() == d <==> e == d.Opposite()
  {
  }

  /** A grid cell; equality is plain equality of both coordinates. */
  datatype Position = Position(x: int, y: int)

  /** The cell one step from `p` along heading `d` (x grows to the right, y grows upwards). */
  function Step(p: Position, d: Direction): (q: Position)
    ensures Distance(p, q) == 1
    ensures (d == Left || d == Right) <==> q.y == p.y
    ensures d == Right ==> q.x > p.x
    ensures d == Left ==> q.x < p.x
    ensures d == Up ==> q.y > p.y
    ensures d == Down ==> q.y < p.y
  {
    match d
    case Left => Position(p.x - 1, p.y)
    case Right => Position(p.x + 1, p.y)
    case Up => Position(p.x, p.y + 1)
    case Down => Position(p.x, p.y - 1)
  }

  function Abs(v: int): nat {
    if v < 0 then -v else v
  }

  /** Manhattan distance between two cells. */
  function Distance(p: Position, q: Position): nat {
    Abs(p.x - q.x) + Abs(p.y - q.y)
  }

  /** Stepping back along the reverse heading returns to the start cell. */
  lemma StepBack(p: Position, d: Direction)
    ensures Step(Step(p, d), d.Opposite()) == p
    ensures forall e: Direction :: Step(Step(p, d), e) == p <==> e == d.Opposite()
  {
  }

  /** The reference bounds predicate: 0 <= x < width and 0 <= y < height. */
  predicate InBounds(p: Position) {
    0 <= p.x < ArenaWidth && 0 <= p.y < ArenaHeight
  }

  predicate AllInBounds(s: seq<Position>) {
    forall p :: p in s ==> InBounds(p)
  }

  /** Rust's `v as u32` on an `i32`: the low 32 bits read as unsigned. */
  function AsU32(v: int): int {
    v % 0x1_0000_0000
  }

  /**
   The wall test of the movement step as written: the sign tests come first,
   and the unsigned comparisons are only reached for non-negative coordinates.
   */
  predicate HitsWall(p: Position) {
    p.x < 0 || p.y < 0 || AsU32(p.x) >= ArenaWidth || AsU32(p.y) >= ArenaHeight
  }

  /** For every i32 cell the wall test fires exactly when the cell is outside the arena. */
  lemma HitsWallIffOutside(p: Position)
    requires IsI32(p.x) && IsI32(p.y)
    ensures HitsWall(p) <==> !InBounds(p)
  {
  }

  /**
   A negative i32 read as u32 is at least 2^31, so the unsigned comparison on
   its own would also reject it: the sign tests change no verdict.
   */
  lemma CastAloneRejectsNegative(v: int)
    requires IsI32(v) && v < 0
    ensures AsU32(v) >= ArenaWidth && AsU32(v) >= ArenaHeight
  {
  }

  /**
   For every i32 cell the wall test gives the same verdict as its two
   unsigned comparisons alone: the sign tests only short-circuit the casts.
   */
  lemma ShortCircuitChangesNoVerdict(p: Position)
    requires IsI32(p.x) && IsI32(p.y)
    ensures HitsWall(p) <==> AsU32(p.x) >= ArenaWidth || AsU32(p.y) >= ArenaHeight
  {
    if p.x < 0 {
      CastAloneRejectsNegative(p.x);
    }
    if p.y < 0 {
      CastAloneRejectsNegative(p.y);
    }
  }
}
