/** The puzzle surface shared by every part of the generator: cells, the
    square grid indexed grid[y][x], the four placement directions and the
    cells a word occupies along one of them. */
module Grids {

  /** A cell is either empty (the empty string in the source) or holds one letter. */
  datatype Cell = Empty | Letter(ch: char)

  type Grid = seq<seq<Cell>>

  /** A coordinate: x is the column, y the row, as in grid[y][x]. */
  datatype Pos = Pos(x: int, y: int)

  /** The four directions, as (dx, dy): right (1, 0), down (0, 1),
      down-right (1, 1) and up-right (1, -1). Rows grow downwards, so a
      negative dy climbs towards row 0. */
  datatype Dir = Right | Down | DownRight | UpRight

  function DX(d: Dir): int {
    match d
    case Right => 1
    case Down => 0
    case DownRight => 1
    case UpRight => 1
  }

  function DY(d: Dir): int {
    match d
    case Right => 0
    case Down => 1
    case DownRight => 1
    case UpRight => -1
  }

  predicate IsSquare(g: Grid, size: nat) {
    |g| == size && forall y :: 0 <= y < size ==> |g[y]| == size
  }

  predicate InBounds(p: Pos, size: nat) {
    0 <= p.x < size && 0 <= p.y < size
  }

  function At(g: Grid, size: nat, p: Pos): Cell
    requires IsSquare(g, size) && InBounds(p, size)
  {
    g[p.y][p.x]
  }

  /** The grid with one cell replaced, as `grid[y][x] = c` does. */
  function Put(g: Grid, size: nat, p: Pos, c: Cell): (g': Grid)
    requires IsSquare(g, size) && InBounds(p, size)
    ensures IsSquare(g', size)
    ensures At(g', size, p) == c
    ensures forall q :: InBounds(q, size) && q != p ==> At(g', size, q) == At(g, size, q)
  {
    g[p.y := g[p.y][p.x := c]]
  }

  /** Two square grids of the same size that agree on every cell are equal. */
  lemma GridExtensionality(g: Grid, g': Grid, size: nat)
    requires IsSquare(g, size) && IsSquare(g', size)
    requires forall p :: InBounds(p, size) ==> At(g, size, p) == At(g', size, p)
    ensures g == g'
  {
    forall y | 0 <= y < size
      ensures g[y] == g'[y]
    {
      forall x | 0 <= x < size
        ensures g[y][x] == g'[y][x]
      {
        assert At(g, size, Pos(x, y)) == At(g', size, Pos(x, y));
      }
    }
  }

  /** The i-th cell of the path that starts at s and runs along d. */
  function PathCell(s: Pos, d: Dir, i: int): Pos {
    Pos(s.x + i * DX(d), s.y + i * DY(d))
  }

  /** Where cell p would sit on the path from s along d: every direction
      moves by exactly one along x or, for Down, along y. */
  function PathIndex(s: Pos, d: Dir, p: Pos): int {
    if DX(d) != 0 then p.x - s.x else p.y - s.y
  }

  /** p is one of the cells i, i+1, ..., n-1 of the path. */
  predicate OnPath(s: Pos, d: Dir, i: int, n: int, p: Pos) {
    i <= PathIndex(s, d, p) < n && PathCell(s, d, PathIndex(s, d, p)) == p
  }

  lemma PathIndexOfCell(s: Pos, d: Dir, i: int)
    ensures PathIndex(s, d, PathCell(s, d, i)) == i
  {
  }

  predicate PathInBounds(s: Pos, d: Dir, n: int, size: nat) {
    forall i :: 0 <= i < n ==> InBounds(PathCell(s, d, i), size)
  }

  /** A straight path whose first and last cells are on the grid lies on the
      grid entirely; this is why the source only tests the end cell. */
  lemma EndpointsBoundPath(s: Pos, d: Dir, n: int, size: nat)
    requires InBounds(s, size)
    requires n >= 1 ==> InBounds(PathCell(s, d, n - 1), size)
    ensures PathInBounds(s, d, n, size)
  {
    forall i | 0 <= i < n
      ensures InBounds(PathCell(s, d, i), size)
    {
      match d
      case Right =>
      case Down =>
      case DownRight =>
      case UpRight =>
    }
  }

  /** The word w can be read on g from s along d. */
  predicate ReadsAt(g: Grid, size: nat, w: string, s: Pos, d: Dir)
    requires IsSquare(g, size)
  {
    && PathInBounds(s, d, |w|, size)
    && forall i {:trigger w[i]} :: 0 <= i < |w| ==> At(g, size, PathCell(s, d, i)) == Letter(w[i])
  }

  /** g' keeps every letter already present in g. */
  ghost predicate Extends(g: Grid, g': Grid, size: nat) {
    && IsSquare(g, size)
    && IsSquare(g', size)
    && forall p :: InBounds(p, size) && At(g, size, p) != Empty ==> At(g', size, p) == At(g, size, p)
  }

  lemma ExtendsTransitive(g: Grid, g': Grid, g'': Grid, size: nat)
    requires Extends(g, g', size) && Extends(g', g'', size)
    ensures Extends(g, g'', size)
  {
  }

  /** A word readable on a grid stays readable on every extension of it. */
  lemma ReadsAtExtends(g: Grid, g': Grid, size: nat, w: string, s: Pos, d: Dir)
    requires Extends(g, g', size)
    requires ReadsAt(g, size, w, s, d)
    ensures ReadsAt(g', size, w, s, d)
  {
    forall i | 0 <= i < |w|
      ensures At(g', size, PathCell(s, d, i)) == Letter(w[i])
    {
      assert At(g, size, PathCell(s, d, i)) == Letter(w[i]);
    }
  }
}
