/** `WordSearchGenerator.place_word`: a randomized search over the four
    directions for a start cell from which a word fits, followed by the
    write of its letters. The random choices are inputs (see `Draws`). */
module Placement {
  import opened Grids
  import opened Words

  /** The generator's state: the side of the grid, the grid, and the
      upper-cased words placed so far, in placement order. */
  datatype Generator = Generator(size: nat, grid: Grid, solutions: seq<string>)

  predicate WellFormed(gen: Generator) {
    IsSquare(gen.grid, gen.size)
  }

  /** The constructor: a size-by-size grid of empty cells and no solutions. */
  function NewGenerator(size: nat): (gen: Generator)
    ensures WellFormed(gen) && gen.size == size && gen.solutions == []
    ensures forall p :: InBounds(p, size) ==> At(gen.grid, size, p) == Empty
  {
    Generator(size, seq(size, _ => seq(size, _ => Empty)), [])
  }

  /** The random choices one call of `place_word` may consume: `order` is the
      shuffled list of directions and `starts[j]` the start cells drawn, one
      per attempt, while direction `order[j]` is being tried. */
  datatype Draws = Draws(order: seq<Dir>, starts: seq<seq<Pos>>)

  /** `random.shuffle` of the four directions yields each exactly once. */
  predicate IsShuffle(order: seq<Dir>) {
    |order| == 4 && forall i, j :: 0 <= i < j < 4 ==> order[i] != order[j]
  }

  /** Draws that `random.shuffle` and `random.randint(0, size - 1)` can
      produce, with a budget of `maxAttempts` start cells per direction. */
  predicate ValidDraws(dr: Draws, size: nat, maxAttempts: nat) {
    && IsShuffle(dr.order)
    && |dr.starts| == 4
    && (forall j :: 0 <= j < 4 ==> |dr.starts[j]| == maxAttempts)
    && forall j, k :: 0 <= j < 4 && 0 <= k < maxAttempts ==> InBounds(dr.starts[j][k], size)
  }

  /** The last cell of a word of length n: start + (n - 1) * (dx, dy). */
  function EndCell(s: Pos, d: Dir, n: int): Pos {
    PathCell(s, d, n - 1)
  }

  predicate Compatible(c: Cell, ch: char) {
    c == Empty || c == Letter(ch)
  }

  /** The independent reading of a valid placement: every cell of the path
      is on the grid and is empty or already holds the matching letter. */
  predicate Fits(g: Grid, size: nat, w: string, s: Pos, d: Dir)
    requires IsSquare(g, size)
  {
    && PathInBounds(s, d, |w|, size)
    && forall i :: 0 <= i < |w| ==> Compatible(At(g, size, PathCell(s, d, i)), w[i])
  }

  /** The scan over the path that stops at the first conflicting cell. */
  function ScanFrom(g: Grid, size: nat, w: string, s: Pos, d: Dir, i: nat): (ok: bool)
    requires IsSquare(g, size) && PathInBounds(s, d, |w|, size) && i <= |w|
    ensures ok <==> forall m :: i <= m < |w| ==> Compatible(At(g, size, PathCell(s, d, m)), w[m])
    decreases |w| - i
  {
    if i == |w| then true
    else
      var c := At(g, size, PathCell(s, d, i));
      if c != Empty && c != Letter(w[i]) then false
      else ScanFrom(g, size, w, s, d, i + 1)
  }

  /** One attempt as the source makes it: reject when the end cell is off the
      grid, otherwise scan the path for a conflicting letter. */
  predicate Accepts(g: Grid, size: nat, w: string, s: Pos, d: Dir)
    requires IsSquare(g, size) && InBounds(s, size)
  {
    && InBounds(EndCell(s, d, |w|), size)
    && (EndpointsBoundPath(s, d, |w|, size); ScanFrom(g, size, w, s, d, 0))
  }

  /** For a non-empty word, the source's end-cell test followed by the scan
      accepts exactly the placements that fit. */
  lemma AcceptsIffFits(g: Grid, size: nat, w: string, s: Pos, d: Dir)
    requires IsSquare(g, size) && InBounds(s, size) && |w| >= 1
    ensures Accepts(g, size, w, s, d) <==> Fits(g, size, w, s, d)
  {
    if Fits(g, size, w, s, d) {
      assert InBounds(PathCell(s, d, |w| - 1), size);
    }
    if Accepts(g, size, w, s, d) {
      EndpointsBoundPath(s, d, |w|, size);
    }
  }

  lemma AcceptedPathInBounds(g: Grid, size: nat, w: string, s: Pos, d: Dir)
    requires IsSquare(g, size) && InBounds(s, size) && Accepts(g, size, w, s, d)
    ensures Fits(g, size, w, s, d)
  {
    EndpointsBoundPath(s, d, |w|, size);
  }

  /** A word longer than the side of the grid has its end cell off the grid
      from every start cell, in every direction. */
  lemma TooLongNeverAccepted(g: Grid, size: nat, w: string, s: Pos, d: Dir)
    requires IsSquare(g, size) && InBounds(s, size) && |w| > size
    ensures !Accepts(g, size, w, s, d)
  {
    var e := EndCell(s, d, |w|);
    match d
    case Right => assert e.x >= size;
    case Down => assert e.y >= size;
    case DownRight => assert e.x >= size;
    case UpRight => assert e.x >= size;
  }

  /** The letter-by-letter write of `place_word`, from letter i on. */
  function WriteFrom(g: Grid, size: nat, w: string, s: Pos, d: Dir, i: nat): (g': Grid)
    requires IsSquare(g, size) && PathInBounds(s, d, |w|, size) && i <= |w|
    ensures IsSquare(g', size)
    ensures forall p :: InBounds(p, size) ==>
      At(g', size, p) == (if OnPath(s, d, i, |w|, p) then Letter(w[PathIndex(s, d, p)]) else At(g, size, p))
    decreases |w| - i
  {
    if i == |w| then g
    else
      var g1 := Put(g, size, PathCell(s, d, i), Letter(w[i]));
      var g' := WriteFrom(g1, size, w, s, d, i + 1);
      assert forall p :: InBounds(p, size) ==>
        At(g', size, p) == (if OnPath(s, d, i, |w|, p) then Letter(w[PathIndex(s, d, p)]) else At(g, size, p)) by {
        forall p | InBounds(p, size)
          ensures At(g', size, p) == (if OnPath(s, d, i, |w|, p) then Letter(w[PathIndex(s, d, p)]) else At(g, size, p))
        {
          PathIndexOfCell(s, d, i);
          if p == PathCell(s, d, i) {
            assert !OnPath(s, d, i + 1, |w|, p);
          }
        }
      }
      g'
  }

  function Write(g: Grid, size: nat, w: string, s: Pos, d: Dir): (g': Grid)
    requires IsSquare(g, size) && PathInBounds(s, d, |w|, size)
    ensures IsSquare(g', size)
  {
    WriteFrom(g, size, w, s, d, 0)
  }

  /** Writing a word that fits: the word can then be read along its path,
      no letter already on the grid changes, and every cell off the path is
      left as it was. */
  lemma WriteFitting(g: Grid, size: nat, w: string, s: Pos, d: Dir)
    requires IsSquare(g, size) && Fits(g, size, w, s, d)
    ensures ReadsAt(Write(g, size, w, s, d), size, w, s, d)
    ensures Extends(g, Write(g, size, w, s, d), size)
    ensures forall p :: InBounds(p, size) && !OnPath(s, d, 0, |w|, p) ==>
      At(Write(g, size, w, s, d), size, p) == At(g, size, p)
  {
    var g' := Write(g, size, w, s, d);
    forall i | 0 <= i < |w|
      ensures At(g', size, PathCell(s, d, i)) == Letter(w[i])
    {
      PathIndexOfCell(s, d, i);
    }
    forall p | InBounds(p, size) && At(g, size, p) != Empty
      ensures At(g', size, p) == At(g, size, p)
    {
      if OnPath(s, d, 0, |w|, p) {
        var k := PathIndex(s, d, p);
        assert Compatible(At(g, size, PathCell(s, d, k)), w[k]);
      }
    }
  }

  /** Rewriting a word along a path that already spells it changes nothing. */
  lemma WriteIdempotent(g: Grid, size: nat, w: string, s: Pos, d: Dir)
    requires IsSquare(g, size) && ReadsAt(g, size, w, s, d)
    ensures Write(g, size, w, s, d) == g
  {
    var g' := Write(g, size, w, s, d);
    forall p | InBounds(p, size)
      ensures At(g', size, p) == At(g, size, p)
    {
      if OnPath(s, d, 0, |w|, p) {
        var k := PathIndex(s, d, p);
        assert At(g, size, PathCell(s, d, k)) == Letter(w[k]);
      }
    }
    GridExtensionality(g', g, size);
  }

  /** The inner `while` loop for one direction: the index of the first start
      cell, at or after k, that the source accepts; |starts| when none is. */
  function FirstAccepted(g: Grid, size: nat, w: string, d: Dir, starts: seq<Pos>, k: nat): (r: nat)
    requires IsSquare(g, size) && k <= |starts|
    requires forall m :: 0 <= m < |starts| ==> InBounds(starts[m], size)
    ensures k <= r <= |starts|
    ensures r < |starts| ==> Accepts(g, size, w, starts[r], d)
    ensures forall m :: k <= m < r ==> !Accepts(g, size, w, starts[m], d)
    decreases |starts| - k
  {
    if k == |starts| then k
    else if Accepts(g, size, w, starts[k], d) then k
    else FirstAccepted(g, size, w, d, starts, k + 1)
  }

  /** How one call of `place_word` ends: with the first accepted candidate,
      found on attempt `index` of direction `order[round]`, or with every
      budget spent. `attempts` counts every start cell examined, including
      those rejected by the end-cell test. */
  datatype Outcome =
    | Found(round: nat, index: nat, dir: Dir, start: Pos, attempts: nat)
    | Exhausted(attempts: nat)

  /** The attempts spent by `rounds` directions that each use up their budget. */
  function Spent(from: nat, to: nat, maxAttempts: nat): nat
    decreases to - from
  {
    if to <= from then 0 else maxAttempts + Spent(from + 1, to, maxAttempts)
  }

  /** The directions from..to-1 spend (to - from) * maxAttempts attempts,
      and stopping earlier never spends more. */
  lemma {:induction false} SpentIsProduct(from: nat, to: nat, more: nat, maxAttempts: nat)
    requires from <= to <= more
    ensures Spent(from, to, maxAttempts) == (to - from) * maxAttempts
    ensures Spent(from, to, maxAttempts) <= Spent(from, more, maxAttempts)
    decreases more - from
  {
    if from < to {
      SpentIsProduct(from + 1, to, more, maxAttempts);
    } else if from < more {
      SpentIsProduct(from + 1, more, more, maxAttempts);
    }
  }

  /** None of the first n start cells drawn for direction d is accepted. */
  predicate RoundRejected(g: Grid, size: nat, w: string, d: Dir, starts: seq<Pos>, n: nat)
    requires IsSquare(g, size) && n <= |starts|
    requires forall m :: 0 <= m < |starts| ==> InBounds(starts[m], size)
  {
    forall k :: 0 <= k < n ==> !Accepts(g, size, w, starts[k], d)
  }

  /** The outer loop over the shuffled directions, from direction j on. */
  function SearchFrom(g: Grid, size: nat, w: string, order: seq<Dir>, starts: seq<seq<Pos>>, maxAttempts: nat, j: nat): (r: Outcome)
    requires IsSquare(g, size) && |order| == |starts| && j <= |order|
    requires forall jj :: 0 <= jj < |starts| ==> |starts[jj]| == maxAttempts
    requires forall jj, k :: 0 <= jj < |starts| && 0 <= k < maxAttempts ==> InBounds(starts[jj][k], size)
    ensures r.Found? ==>
      && j <= r.round < |order| && r.index < maxAttempts
      && r.dir == order[r.round] && r.start == starts[r.round][r.index]
      && Accepts(g, size, w, r.start, r.dir)
      && r.attempts == Spent(j, r.round, maxAttempts) + r.index + 1
      && (forall jj :: j <= jj < r.round ==> RoundRejected(g, size, w, order[jj], starts[jj], maxAttempts))
      && RoundRejected(g, size, w, r.dir, starts[r.round], r.index)
    ensures r.Exhausted? ==>
      && r.attempts == Spent(j, |order|, maxAttempts)
      && forall jj :: j <= jj < |order| ==> RoundRejected(g, size, w, order[jj], starts[jj], maxAttempts)
    decreases |order| - j
  {
    if j == |order| then Exhausted(0)
    else
      var k := FirstAccepted(g, size, w, order[j], starts[j], 0);
      if k < maxAttempts then Found(j, k, order[j], starts[j][k], k + 1)
      else
        assert k == maxAttempts;
        var rest := SearchFrom(g, size, w, order, starts, maxAttempts, j + 1);
        match rest
        case Found(round, index, dir, start, attempts) =>
          Found(round, index, dir, start, attempts + maxAttempts)
        case Exhausted(attempts) =>
          Exhausted(attempts + maxAttempts)
  }

  /** The result of one call of `place_word`: how the search ended and the
      generator afterwards. */
  datatype Step = Step(outcome: Outcome, gen: Generator)

  /** `place_word(word)`: upper-case the word, search, and on the first
      accepted candidate write the letters and record the word. A failed
      call changes nothing; a successful one records exactly one solution.
      At most 4 * maxAttempts start cells are examined, and all of them when
      the word is not placed. */
  function PlaceWord(gen: Generator, word: string, dr: Draws, maxAttempts: nat): (r: Step)
    requires WellFormed(gen) && ValidDraws(dr, gen.size, maxAttempts)
    ensures WellFormed(r.gen) && r.gen.size == gen.size
    ensures r.outcome.Exhausted? ==> r.gen == gen
    ensures r.outcome.Found? ==> r.gen.solutions == gen.solutions + [Upper(word)]
    ensures r.outcome.attempts <= 4 * maxAttempts
    ensures r.outcome.Exhausted? ==> r.outcome.attempts == 4 * maxAttempts
  {
    var w := Upper(word);
    var out := SearchFrom(gen.grid, gen.size, w, dr.order, dr.starts, maxAttempts, 0);
    match out
    case Exhausted(_) =>
      SpentIsProduct(0, 4, 4, maxAttempts);
      Step(out, gen)
    case Found(round, index, dir, start, attempts) =>
      AcceptedPathInBounds(gen.grid, gen.size, w, start, dir);
      SpentIsProduct(0, round, 3, maxAttempts);
      SpentIsProduct(0, 4, 4, maxAttempts);
      Step(out, Generator(gen.size, Write(gen.grid, gen.size, w, start, dir), gen.solutions + [w]))
  }

  /** `place_word` fails exactly when no drawn candidate is accepted. */
  lemma PlaceWordFailsIffNoneAccepted(gen: Generator, word: string, dr: Draws, maxAttempts: nat)
    requires WellFormed(gen) && ValidDraws(dr, gen.size, maxAttempts)
    ensures PlaceWord(gen, word, dr, maxAttempts).outcome.Exhausted? <==>
      forall j, k :: 0 <= j < 4 && 0 <= k < maxAttempts ==>
        !Accepts(gen.grid, gen.size, Upper(word), dr.starts[j][k], dr.order[j])
  {
    var out := SearchFrom(gen.grid, gen.size, Upper(word), dr.order, dr.starts, maxAttempts, 0);
    if out.Found? {
      assert Accepts(gen.grid, gen.size, Upper(word), dr.starts[out.round][out.index], dr.order[out.round]);
    }
  }

  /** On success the candidate written is a drawn one, and it is the first
      accepted draw: every draw of an earlier direction, and every earlier
      draw of the same direction, was rejected, and the attempts counted are
      exactly the draws examined. */
  lemma PlaceWordTakesFirstAccepted(gen: Generator, word: string, dr: Draws, maxAttempts: nat)
    requires WellFormed(gen) && ValidDraws(dr, gen.size, maxAttempts)
    ensures var o := PlaceWord(gen, word, dr, maxAttempts).outcome;
      o.Found? ==>
        && o.round < 4 && o.index < maxAttempts
        && o.dir == dr.order[o.round] && o.start == dr.starts[o.round][o.index]
        && o.attempts == o.round * maxAttempts + o.index + 1
        && forall j, k :: 0 <= j < 4 && 0 <= k < maxAttempts && (j < o.round || (j == o.round && k < o.index)) ==>
             !Accepts(gen.grid, gen.size, Upper(word), dr.starts[j][k], dr.order[j])
  {
    var w := Upper(word);
    var o := SearchFrom(gen.grid, gen.size, w, dr.order, dr.starts, maxAttempts, 0);
    if o.Found? {
      SpentIsProduct(0, o.round, o.round, maxAttempts);
      forall j, k | 0 <= j < 4 && 0 <= k < maxAttempts && (j < o.round || (j == o.round && k < o.index))
        ensures !Accepts(gen.grid, gen.size, w, dr.starts[j][k], dr.order[j])
      {
        if j < o.round {
          assert RoundRejected(gen.grid, gen.size, w, dr.order[j], dr.starts[j], maxAttempts);
        }
      }
    }
  }

  /** On success the grid is the old grid with the upper-cased word written
      along a candidate that fits. */
  lemma PlaceWordFoundWrites(gen: Generator, word: string, dr: Draws, maxAttempts: nat)
    requires WellFormed(gen) && ValidDraws(dr, gen.size, maxAttempts)
    ensures var r := PlaceWord(gen, word, dr, maxAttempts);
      r.outcome.Found? ==>
        && Fits(gen.grid, gen.size, Upper(word), r.outcome.start, r.outcome.dir)
        && r.gen.grid == Write(gen.grid, gen.size, Upper(word), r.outcome.start, r.outcome.dir)
  {
    var w := Upper(word);
    match SearchFrom(gen.grid, gen.size, w, dr.order, dr.starts, maxAttempts, 0)
    case Exhausted(_) =>
    case Found(round, index, dir, start, attempts) =>
      AcceptedPathInBounds(gen.grid, gen.size, w, start, dir);
  }

  /** On success the upper-cased word reads from the chosen start in the
      chosen direction, and no cell off that path changes. */
  lemma PlaceWordWritesPath(gen: Generator, word: string, dr: Draws, maxAttempts: nat)
    requires WellFormed(gen) && ValidDraws(dr, gen.size, maxAttempts)
    ensures var r := PlaceWord(gen, word, dr, maxAttempts);
      r.outcome.Found? ==>
        && ReadsAt(r.gen.grid, gen.size, Upper(word), r.outcome.start, r.outcome.dir)
        && forall p :: InBounds(p, gen.size) && !OnPath(r.outcome.start, r.outcome.dir, 0, |word|, p) ==>
             At(r.gen.grid, gen.size, p) == At(gen.grid, gen.size, p)
  {
    var w := Upper(word);
    var r := PlaceWord(gen, word, dr, maxAttempts);
    PlaceWordFoundWrites(gen, word, dr, maxAttempts);
    if r.outcome.Found? {
      WriteFitting(gen.grid, gen.size, w, r.outcome.start, r.outcome.dir);
    }
  }

  /** Success or failure, no letter already on the grid is lost. */
  lemma PlaceWordKeepsLetters(gen: Generator, word: string, dr: Draws, maxAttempts: nat)
    requires WellFormed(gen) && ValidDraws(dr, gen.size, maxAttempts)
    ensures Extends(gen.grid, PlaceWord(gen, word, dr, maxAttempts).gen.grid, gen.size)
  {
    var w := Upper(word);
    match SearchFrom(gen.grid, gen.size, w, dr.order, dr.starts, maxAttempts, 0)
    case Exhausted(_) =>
    case Found(round, index, dir, start, attempts) =>
      AcceptedPathInBounds(gen.grid, gen.size, w, start, dir);
      WriteFitting(gen.grid, gen.size, w, start, dir);
  }

  /** The search is bounded and fails on words that cannot fit: a word longer
      than the side of the grid is never placed, uses the full budget of
      4 * maxAttempts attempts and leaves the generator unchanged. */
  lemma TooLongWordSkipped(gen: Generator, word: string, dr: Draws, maxAttempts: nat)
    requires WellFormed(gen) && ValidDraws(dr, gen.size, maxAttempts)
    requires |word| > gen.size
    ensures PlaceWord(gen, word, dr, maxAttempts).outcome == Exhausted(4 * maxAttempts)
    ensures PlaceWord(gen, word, dr, maxAttempts).gen == gen
  {
    PlaceWordFailsIffNoneAccepted(gen, word, dr, maxAttempts);
    forall j, k | 0 <= j < 4 && 0 <= k < maxAttempts
      ensures !Accepts(gen.grid, gen.size, Upper(word), dr.starts[j][k], dr.order[j])
    {
      TooLongNeverAccepted(gen.grid, gen.size, Upper(word), dr.starts[j][k], dr.order[j]);
    }
  }

  /** A non-empty word is skipped exactly when none of the drawn candidates
      fits it in the sense of `Fits`. */
  lemma SkippedIffNothingFits(gen: Generator, word: string, dr: Draws, maxAttempts: nat)
    requires WellFormed(gen) && ValidDraws(dr, gen.size, maxAttempts) && |word| >= 1
    ensures PlaceWord(gen, word, dr, maxAttempts).outcome.Exhausted? <==>
      forall j, k :: 0 <= j < 4 && 0 <= k < maxAttempts ==>
        !Fits(gen.grid, gen.size, Upper(word), dr.starts[j][k], dr.order[j])
  {
    var w := Upper(word);
    PlaceWordFailsIffNoneAccepted(gen, word, dr, maxAttempts);
    forall j, k | 0 <= j < 4 && 0 <= k < maxAttempts
      ensures Accepts(gen.grid, gen.size, w, dr.starts[j][k], dr.order[j]) <==>
        Fits(gen.grid, gen.size, w, dr.starts[j][k], dr.order[j])
    {
      AcceptsIffFits(gen.grid, gen.size, w, dr.starts[j][k], dr.order[j]);
    }
  }
}
