/** `WordSearchGenerator.calculate_word_count`: the number of words to place
    for a difficulty level, scaled by the grid's area against a 28 by 28
    reference grid. */
module Difficulty {

  /** The area of the reference grid, 28 * 28. */
  const BaseArea: nat := 784

  /** int(base * size * size / 784) for a non-negative result: the float is
      truncated, which for non-negative values is the floor that integer
      division computes. */
  function Scaled(base: nat, size: nat): nat {
    (base * (size * size)) / BaseArea
  }

  function Max(a: int, b: int): int {
    if a >= b then a else b
  }

  /** The level names are compared as strings; any other name falls back. */
  function WordCount(level: string, size: nat): (n: nat)
    ensures n >= 1
    ensures level == "Easy" ==> n == 100
    ensures level == "Impossible" ==> n == 1
    ensures level == "Medium" ==> n >= 3
    ensures level == "Hard" ==> n >= 2
    ensures level !in {"Easy", "Medium", "Hard", "Impossible"} ==> n == 20
  {
    if level == "Easy" then 100
    else if level == "Medium" then Max(3, Scaled(20, size))
    else if level == "Hard" then Max(2, Scaled(10, size))
    else if level == "Impossible" then 1
    else 20
  }

  /** The Medium count is the truncation of 20 words per reference area,
      the largest n with n * 784 <= 20 * size * size, unless that is below
      the floor of 3, which is then taken instead. */
  lemma MediumIsTruncatedScale(size: nat)
    ensures (WordCount("Medium", size) == 3 && 20 * (size * size) < 4 * BaseArea) || (
      WordCount("Medium", size) * BaseArea <= 20 * (size * size) < (WordCount("Medium", size) + 1) * BaseArea)
  {
  }

  /** The same for Hard, at 10 words per reference area and a floor of 2. */
  lemma HardIsTruncatedScale(size: nat)
    ensures (WordCount("Hard", size) == 2 && 10 * (size * size) < 3 * BaseArea) || (
      WordCount("Hard", size) * BaseArea <= 10 * (size * size) < (WordCount("Hard", size) + 1) * BaseArea)
  {
  }

  /** The reference grid yields the unscaled counts, and a grid of twice the
      side yields four times as many Medium words. */
  lemma ReferencePoints()
    ensures WordCount("Medium", 28) == 20
    ensures WordCount("Hard", 28) == 10
    ensures WordCount("Medium", 56) == 80
    ensures WordCount("Hard", 56) == 40
    ensures WordCount("Medium", 10) == 3
    ensures WordCount("Hard", 10) == 2
  {
  }

  /** A larger grid never asks for fewer words, and Medium never asks for
      fewer than Hard. */
  lemma {:induction false} CountMonotone(level: string, size: nat, size': nat)
    requires size <= size'
    ensures WordCount(level, size) <= WordCount(level, size')
    ensures WordCount("Hard", size) <= WordCount("Medium", size)
  {
    assert size * size <= size' * size' by {
      MulMono(size, size', size);
      MulMono(size, size', size');
    }
    MulMono(size * size, size' * size', 20);
    MulMono(size * size, size' * size', 10);
    DivMono(20 * (size * size), 20 * (size' * size'), BaseArea);
    DivMono(10 * (size * size), 10 * (size' * size'), BaseArea);
    DivMono(10 * (size * size), 20 * (size * size), BaseArea);
  }

  lemma MulMono(a: nat, b: nat, c: nat)
    requires a <= b
    ensures a * c <= b * c && c * a <= c * b
  {
  }

  lemma DivMono(a: nat, b: nat, d: nat)
    requires a <= b && d > 0
    ensures a / d <= b / d
  {
    var qa, qb := a / d, b / d;
    assert qa * d + a % d == a && qb * d + b % d == b;
    if qa > qb {
      MulMono(qb + 1, qa, d);
      assert false;
    }
  }
}
