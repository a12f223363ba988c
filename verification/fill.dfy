/** `WordSearchGenerator.fill_random_chars`: every empty cell, visited row by
    row and left to right, receives the next letter of a noise stream drawn
    from the 26-letter alphabet. */
module Fill {
  import opened Grids

  const Alphabet: string := "ABCDEFGHIJKLMNOPQRSTUVWXYZ"

  /** Letters that `random.choice(alphabet)` can return. */
  predicate AllInAlphabet(noise: seq<char>) {
    forall i :: 0 <= i < |noise| ==> noise[i] in Alphabet
  }

  function EmptyCount(row: seq<Cell>): (n: nat)
    ensures n <= |row|
  {
    if row == [] then 0 else (if row[0] == Empty then 1 else 0) + EmptyCount(row[1..])
  }

  /** The empty cells of the first rows of a grid. */
  function EmptyCountRows(g: Grid): nat {
    if g == [] then 0 else EmptyCount(g[0]) + EmptyCountRows(g[1..])
  }

  lemma EmptyCountPrefix(row: seq<Cell>, x: nat)
    requires x < |row|
    ensures EmptyCount(row[..x + 1]) == EmptyCount(row[..x]) + (if row[x] == Empty then 1 else 0)
  {
    if x > 0 {
      assert row[..x + 1][1..] == row[1..][..x];
      assert row[..x][1..] == row[1..][..x - 1];
      EmptyCountPrefix(row[1..], x - 1);
    }
  }

  /** The inner loop over one row: an empty cell takes the next noise letter,
      a filled cell is skipped without consuming one. */
  function FillRow(row: seq<Cell>, noise: seq<char>): (r: seq<Cell>)
    requires EmptyCount(row) <= |noise|
    ensures |r| == |row|
    ensures forall x :: 0 <= x < |row| && row[x] != Empty ==> r[x] == row[x]
    ensures forall x :: 0 <= x < |row| && row[x] == Empty ==>
      EmptyCount(row[..x]) < |noise| && r[x] == Letter(noise[EmptyCount(row[..x])])
  {
    if row == [] then []
    else if row[0] == Empty then
      var rest := FillRow(row[1..], noise[1..]);
      PrefixShift(row);
      [Letter(noise[0])] + rest
    else
      var rest := FillRow(row[1..], noise);
      PrefixShift(row);
      [row[0]] + rest
  }

  lemma PrefixShift(row: seq<Cell>)
    requires row != []
    ensures forall x :: 0 < x <= |row| ==>
      EmptyCount(row[..x]) == (if row[0] == Empty then 1 else 0) + EmptyCount(row[1..][..x - 1])
  {
    forall x | 0 < x <= |row|
      ensures EmptyCount(row[..x]) == (if row[0] == Empty then 1 else 0) + EmptyCount(row[1..][..x - 1])
    {
      assert row[..x][1..] == row[1..][..x - 1];
    }
  }

  /** The outer loop over the rows: row y consumes the noise letters left
      over by the rows above it. */
  function FillRows(g: Grid, noise: seq<char>): (r: Grid)
    requires EmptyCountRows(g) <= |noise|
    ensures |r| == |g|
    ensures forall y :: 0 <= y < |g| ==>
      EmptyCountRows(g[..y]) + EmptyCount(g[y]) <= |noise| &&
      r[y] == FillRow(g[y], noise[EmptyCountRows(g[..y])..])
  {
    if g == [] then []
    else
      var skip := EmptyCount(g[0]);
      var rest := FillRows(g[1..], noise[skip..]);
      var r := [FillRow(g[0], noise)] + rest;
      RowsPrefixShift(g);
      assert forall y :: 0 < y < |g| ==>
        EmptyCountRows(g[..y]) + EmptyCount(g[y]) <= |noise| &&
        r[y] == FillRow(g[y], noise[EmptyCountRows(g[..y])..]) by {
        forall y | 0 < y < |g|
          ensures EmptyCountRows(g[..y]) + EmptyCount(g[y]) <= |noise|
          ensures r[y] == FillRow(g[y], noise[EmptyCountRows(g[..y])..])
        {
          var k := EmptyCountRows(g[1..][..y - 1]);
          assert g[1..][y - 1] == g[y] && r[y] == rest[y - 1];
          assert noise[skip..][k..] == noise[skip + k..];
        }
      }
      assert g[..0] == [];
      r
  }

  /** The empty cells of the first y rows are those of row 0 and those of
      the next y - 1 rows. */
  lemma RowsPrefixShift(g: Grid)
    requires g != []
    ensures forall y :: 0 < y <= |g| ==>
      EmptyCountRows(g[..y]) == EmptyCount(g[0]) + EmptyCountRows(g[1..][..y - 1])
  {
    forall y | 0 < y <= |g|
      ensures EmptyCountRows(g[..y]) == EmptyCount(g[0]) + EmptyCountRows(g[1..][..y - 1])
    {
      assert g[..y][1..] == g[1..][..y - 1];
    }
  }

  /** A cell holds a letter. */
  predicate Filled(c: Cell) {
    c != Empty
  }

  ghost predicate Covered(g: Grid, size: nat)
    requires IsSquare(g, size)
  {
    forall p :: InBounds(p, size) ==> Filled(At(g, size, p))
  }

  /** After the fill no cell is empty, every letter already on the grid is
      kept, and every letter added comes from the alphabet. */
  function FillRandomChars(g: Grid, size: nat, noise: seq<char>): (r: Grid)
    requires IsSquare(g, size) && EmptyCountRows(g) <= |noise| && AllInAlphabet(noise)
    ensures IsSquare(r, size)
    ensures Extends(g, r, size)
    ensures Covered(r, size)
    ensures forall p :: InBounds(p, size) && At(g, size, p) == Empty ==> At(r, size, p).ch in Alphabet
  {
    var r := FillRows(g, noise);
    assert forall y :: 0 <= y < size ==> |r[y]| == |g[y]| == size;
    r
  }

  /** A grid with no empty cell is left as it is by the fill. */
  lemma FillOfFullGridIsIdentity(g: Grid, size: nat, noise: seq<char>)
    requires IsSquare(g, size) && Covered(g, size) && AllInAlphabet(noise)
    ensures EmptyCountRows(g) == 0
    ensures FillRandomChars(g, size, noise) == g
  {
    NoEmptyRows(g, size);
    var r := FillRandomChars(g, size, noise);
    GridExtensionality(r, g, size);
  }

  lemma {:induction false} NoEmptyRows(g: Grid, size: nat)
    requires IsSquare(g, size) && Covered(g, size)
    ensures EmptyCountRows(g) == 0
  {
    var k := 0;
    while k < size
      invariant 0 <= k <= size
      invariant EmptyCountRows(g[size - k..]) == 0
    {
      var y := size - k - 1;
      NoEmptyInRow(g[y], y, g, size);
      assert g[y..] == [g[y]] + g[size - k..];
      k := k + 1;
    }
    assert g[0..] == g;
  }

  lemma NoEmptyInRow(row: seq<Cell>, y: nat, g: Grid, size: nat)
    requires IsSquare(g, size) && Covered(g, size) && y < size && row == g[y]
    ensures EmptyCount(row) == 0
  {
    var x := 0;
    while x < size
      invariant 0 <= x <= size
      invariant EmptyCount(row[..x]) == 0
    {
      assert Filled(At(g, size, Pos(x, y)));
      EmptyCountPrefix(row, x);
      x := x + 1;
    }
    assert row[..size] == row;
  }

  /** The fill never needs more noise letters than the grid has cells. */
  lemma {:induction false} EmptyCountRowsBound(g: Grid, size: nat)
    requires forall y :: 0 <= y < |g| ==> |g[y]| == size
    ensures EmptyCountRows(g) <= |g| * size
  {
    if g != [] {
      EmptyCountRowsBound(g[1..], size);
      assert (|g| - 1) * size + size == |g| * size;
    }
  }
}
