/** The static game tables the playfield code reads: piece shapes, piece
    colours, wall-kick offsets, per-level fall delays and the horizontal move
    throttle. Their concrete values are not part of this model; every result
    below holds for any tables that satisfy `WellFormed`. */
module Config {

  /** The seven piece kinds. Only `I` (its own kick table) and `O` (its own
      spawn column) are treated specially by the code. */
  datatype Kind = I | O | T | S | Z | J | L

  /** An RGB colour triple. */
  datatype Color = Rgb(r: int, g: int, b: int)

  /** A grid coordinate or an offset: `x` is the column, `y` the row
      (growing downwards; negative rows lie above the visible top). */
  datatype Point = Point(x: int, y: int)

  /** One rotation state of a piece: rows of cells, `true` where occupied. */
  type Shape = seq<seq<bool>>

  /** A wall-kick table: from a rotation transition (from, to) to the ordered
      list of offsets to try. */
  type KickTable = map<(int, int), seq<Point>>

  datatype Tables = Tables(
    shapes: map<Kind, seq<Shape>>,     // four rotation bitmaps per kind
    colors: map<Kind, Color>,          // the colour a piece of each kind locks with
    iKicks: KickTable,                 // kick offsets for the I piece
    defaultKicks: KickTable,           // kick offsets for every other piece
    levelSpeeds: seq<nat>,             // fall delay (ms) indexed by level
    moveDelay: nat                     // minimum time (ms) between two horizontal steps
  )

  /** True when some cell of the bitmap is occupied. */
  predicate HasCell(shape: Shape)
  {
    exists r, c :: 0 <= r < |shape| && 0 <= c < |shape[r]| && shape[r][c]
  }

  /** What the code takes for granted about the tables: every kind has a
      colour and exactly four rotation bitmaps, each of which occupies at
      least one cell (a piece with no cell would never stop falling). */
  predicate WellFormed(t: Tables)
  {
    forall k: Kind ::
      k in t.shapes && k in t.colors && |t.shapes[k]| == 4 &&
      forall rot :: 0 <= rot < 4 ==> HasCell(t.shapes[k][rot])
  }

  /** The offsets `rotate` tries for a transition: the I table for I pieces,
      the default table otherwise, and the single zero offset when the
      transition has no entry. */
  function KickList(t: Tables, kind: Kind, from: int, to: int): (kicks: seq<Point>)
    ensures kind == I && (from, to) in t.iKicks ==> kicks == t.iKicks[(from, to)]
    ensures kind != I && (from, to) in t.defaultKicks ==> kicks == t.defaultKicks[(from, to)]
    ensures (kind == I && (from, to) !in t.iKicks) || (kind != I && (from, to) !in t.defaultKicks)
      ==> kicks == [Point(0, 0)]
  {
    var table := if kind == I then t.iKicks else t.defaultKicks;
    if (from, to) in table then table[(from, to)] else [Point(0, 0)]
  }

  /** The rotation index after turning by `direction` quarter turns. The
      source's `%` floors; with the positive modulus 4 that agrees with
      Dafny's Euclidean `%`, so the result is never negative. */
  function NextRotation(rotation: int, direction: int): (next: int)
    requires 0 <= rotation < 4
    ensures 0 <= next < 4
    ensures (next - rotation - direction) % 4 == 0
    ensures direction == 1 ==> next == (if rotation == 3 then 0 else rotation + 1)
    ensures direction == -1 ==> next == (if rotation == 0 then 3 else rotation - 1)
  {
    (rotation + direction) % 4
  }
}
