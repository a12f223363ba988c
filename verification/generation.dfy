/** The pure part of `WordSearchGenerator.generate_from_file`: pick the
    target number of words, order them longest first, place them one by one
    and fill the rest of the grid with noise. The word list arrives already
    read, stripped and without blank lines. */
module Generation {
  import opened Grids
  import opened Words
  import opened Placement
  import opened Fill
  import opened Difficulty

  function Min(a: int, b: int): int {
    if a <= b then a else b
  }

  /** Positions that `random.sample(population, k)` can return: k distinct
      indices into a population of n. */
  predicate IsSample(pick: seq<nat>, n: nat, k: nat) {
    && |pick| == k
    && (forall i :: 0 <= i < k ==> pick[i] < n)
    && forall i, j :: 0 <= i < j < k ==> pick[i] != pick[j]
  }

  /** The words at the given positions, in the order of the positions. */
  function Gather(all: seq<string>, pick: seq<nat>): (r: seq<string>)
    requires forall i :: 0 <= i < |pick| ==> pick[i] < |all|
    ensures |r| == |pick|
    ensures forall i :: 0 <= i < |pick| ==> r[i] == all[pick[i]]
  {
    if pick == [] then [] else [all[pick[0]]] + Gather(all, pick[1..])
  }

  /** Dropping one position from the picks drops its word once from the
      gathered words. */
  lemma GatherRemove(all: seq<string>, pick: seq<nat>, p: nat, rest: seq<nat>)
    requires forall i :: 0 <= i < |pick| ==> pick[i] < |all|
    requires p < |pick| && rest == pick[..p] + pick[p + 1..]
    requires forall i :: 0 <= i < |rest| ==> rest[i] < |all|
    ensures multiset(Gather(all, pick)) == multiset(Gather(all, rest)) + multiset{all[pick[p]]}
  {
    var g := Gather(all, pick);
    var h := Gather(all, rest);
    assert g == g[..p] + [g[p]] + g[p + 1..];
    assert |h| == |g[..p] + g[p + 1..]|;
    forall i | 0 <= i < |h|
      ensures h[i] == (g[..p] + g[p + 1..])[i]
    {
      if i < p {
        assert rest[i] == pick[i];
      } else {
        assert rest[i] == pick[i + 1];
      }
    }
    assert h == g[..p] + g[p + 1..];
  }

  /** Picks below |init| gather the same words from init as from any
      extension of it. */
  lemma GatherPrefix(init: seq<string>, all: seq<string>, pick: seq<nat>)
    requires init <= all
    requires forall i :: 0 <= i < |pick| ==> pick[i] < |init|
    ensures Gather(init, pick) == Gather(all, pick)
  {
  }

  /** Dropping the pick of the last position leaves distinct picks of the
      positions before it. */
  lemma DropPick(pick: seq<nat>, p: nat, last: nat, rest: seq<nat>)
    requires forall i :: 0 <= i < |pick| ==> pick[i] <= last
    requires forall i, j :: 0 <= i < j < |pick| ==> pick[i] != pick[j]
    requires p < |pick| && pick[p] == last && rest == pick[..p] + pick[p + 1..]
    ensures forall i :: 0 <= i < |rest| ==> rest[i] < last
    ensures forall i, j :: 0 <= i < j < |rest| ==> rest[i] != rest[j]
  {
    assert forall i :: 0 <= i < |rest| ==> rest[i] == pick[if i < p then i else i + 1];
  }

  /** Distinct positions pick each word of the population at most as often
      as it occurs there. */
  lemma {:induction false} GatherDistinctSubMultiset(all: seq<string>, pick: seq<nat>)
    requires forall i :: 0 <= i < |pick| ==> pick[i] < |all|
    requires forall i, j :: 0 <= i < j < |pick| ==> pick[i] != pick[j]
    ensures multiset(Gather(all, pick)) <= multiset(all)
    decreases |all|
  {
    if |all| == 0 {
      assert pick == [];
    } else {
      var last := |all| - 1;
      var init := all[..last];
      assert all == init + [all[last]];
      if p :| 0 <= p < |pick| && pick[p] == last {
        var rest := pick[..p] + pick[p + 1..];
        DropPick(pick, p, last, rest);
        GatherDistinctSubMultiset(init, rest);
        GatherPrefix(init, all, rest);
        GatherRemove(all, pick, p, rest);
      } else {
        GatherDistinctSubMultiset(init, pick);
        GatherPrefix(init, all, pick);
      }
    }
  }

  /** The selection step of `generate_from_file`: a sample of `target` words when the list is longer than
      the target, otherwise the whole list. */
  function Select(all: seq<string>, target: nat, pick: seq<nat>): (sel: seq<string>)
    requires |all| > target ==> IsSample(pick, |all|, target)
    ensures |sel| == Min(|all|, target)
    ensures multiset(sel) <= multiset(all)
    ensures |all| <= target ==> sel == all
  {
    if |all| > target then
      GatherDistinctSubMultiset(all, pick);
      Gather(all, pick)
    else all
  }

  /** Longest first: no word is shorter than one placed after it. */
  predicate NonIncreasing(ws: seq<string>) {
    forall i, j :: 0 <= i < j < |ws| ==> |ws[i]| >= |ws[j]|
  }

  /** The words of length n, in their order of occurrence. */
  function OfLength(ws: seq<string>, n: nat): seq<string> {
    if ws == [] then [] else (if |ws[0]| == n then [ws[0]] else []) + OfLength(ws[1..], n)
  }

  lemma {:induction false} OfLengthAppend(a: seq<string>, b: seq<string>, n: nat)
    ensures OfLength(a + b, n) == OfLength(a, n) + OfLength(b, n)
  {
    if a != [] {
      OfLengthAppend(a[1..], b, n);
      var head := if |a[0]| == n then [a[0]] else [];
      assert (a + b)[0] == a[0];
      assert (a + b)[1..] == a[1..] + b;
      calc {
        OfLength(a + b, n);
        head + OfLength(a[1..] + b, n);
        head + (OfLength(a[1..], n) + OfLength(b, n));
        (head + OfLength(a[1..], n)) + OfLength(b, n);
        OfLength(a, n) + OfLength(b, n);
      }
    } else {
      assert a + b == b;
    }
  }

  /** Insert x in front of the first word that is not longer than it. */
  function InsertByLength(x: string, s: seq<string>): (r: seq<string>)
    ensures multiset(r) == multiset(s) + multiset{x}
    ensures NonIncreasing(s) ==> NonIncreasing(r)
    ensures forall n: nat :: OfLength(r, n) == OfLength([x] + s, n)
  {
    if s == [] then [x]
    else if |x| >= |s[0]| then
      PrependLongest(x, s);
      [x] + s
    else
      var rest := InsertByLength(x, s[1..]);
      assert s == [s[0]] + s[1..];
      InsertKeepsOrder(x, s, rest);
      InsertKeepsLengthClasses(x, s, rest);
      [s[0]] + rest
  }

  lemma PrependLongest(x: string, s: seq<string>)
    requires s != [] && |x| >= |s[0]|
    ensures NonIncreasing(s) ==> NonIncreasing([x] + s)
  {
    if NonIncreasing(s) {
      forall i, j | 0 <= i < j < |s| + 1
        ensures |([x] + s)[i]| >= |([x] + s)[j]|
      {
        assert ([x] + s)[j] == s[j - 1];
        if i > 0 {
          assert ([x] + s)[i] == s[i - 1];
        }
      }
    }
  }

  lemma InsertKeepsOrder(x: string, s: seq<string>, rest: seq<string>)
    requires s != [] && |x| < |s[0]|
    requires multiset(rest) == multiset(s[1..]) + multiset{x}
    requires NonIncreasing(s[1..]) ==> NonIncreasing(rest)
    ensures NonIncreasing(s) ==> NonIncreasing([s[0]] + rest)
  {
    if NonIncreasing(s) {
      assert NonIncreasing(s[1..]);
      forall j | 0 <= j < |rest|
        ensures |s[0]| >= |rest[j]|
      {
        assert rest[j] in multiset(rest);
        if rest[j] != x {
          assert rest[j] in multiset(s[1..]);
          var k :| 0 <= k < |s[1..]| && s[1..][k] == rest[j];
          assert s[1..][k] == s[k + 1];
        }
      }
    }
  }

  lemma InsertKeepsLengthClasses(x: string, s: seq<string>, rest: seq<string>)
    requires s != [] && |x| < |s[0]|
    requires forall n: nat :: OfLength(rest, n) == OfLength([x] + s[1..], n)
    ensures forall n: nat :: OfLength([s[0]] + rest, n) == OfLength([x] + s, n)
  {
    assert s == [s[0]] + s[1..];
    forall n: nat
      ensures OfLength([s[0]] + rest, n) == OfLength([x] + s, n)
    {
      var hx, hs, tail := OfLength([x], n), OfLength([s[0]], n), OfLength(s[1..], n);
      OfLengthSingle(x, n);
      OfLengthSingle(s[0], n);
      assert hx == [] || hs == [];
      OfLengthAppend([s[0]], rest, n);
      OfLengthAppend([x], s[1..], n);
      OfLengthAppend([x], s, n);
      OfLengthAppend([s[0]], s[1..], n);
      calc {
        OfLength([s[0]] + rest, n);
        hs + (hx + tail);
        { assert hs + (hx + tail) == hx + (hs + tail); }
        hx + (hs + tail);
        OfLength([x] + s, n);
      }
    }
  }

  lemma OfLengthSingle(w: string, n: nat)
    ensures OfLength([w], n) == if |w| == n then [w] else []
  {
    assert [w][1..] == [];
  }

  /** `words.sort(key=len, reverse=True)`: Python's sort is stable, also in
      reverse, so words of equal length keep their relative order. */
  function SortByLength(ws: seq<string>): (r: seq<string>)
    ensures multiset(r) == multiset(ws)
    ensures NonIncreasing(r)
    ensures forall n: nat :: OfLength(r, n) == OfLength(ws, n)
  {
    if ws == [] then []
    else
      var rest := SortByLength(ws[1..]);
      var r := InsertByLength(ws[0], rest);
      assert ws == [ws[0]] + ws[1..];
      assert forall n: nat :: OfLength(r, n) == OfLength(ws, n) by {
        forall n: nat
          ensures OfLength(r, n) == OfLength(ws, n)
        {
          assert ([ws[0]] + rest)[1..] == rest;
        }
      }
      r
  }

  /** The words whose flag equals b, in their original order. */
  function Keep(ws: seq<string>, flags: seq<bool>, b: bool): (r: seq<string>)
    requires |flags| == |ws|
    ensures |r| <= |ws|
  {
    if ws == [] then [] else (if flags[0] == b then [ws[0]] else []) + Keep(ws[1..], flags[1..], b)
  }

  /** Keep on a non-empty list: the head goes first when its flag is b. */
  lemma KeepCons(ws: seq<string>, flags: seq<bool>, tail: seq<bool>)
    requires ws != [] && |flags| == |ws| && tail == flags[1..]
    ensures Keep(ws, flags, true) == (if flags[0] then [ws[0]] else []) + Keep(ws[1..], tail, true)
    ensures Keep(ws, flags, false) == (if flags[0] then [] else [ws[0]]) + Keep(ws[1..], tail, false)
  {
  }

  /** Splitting by a flag loses and duplicates nothing. */
  lemma {:induction false} KeepPartition(ws: seq<string>, flags: seq<bool>)
    requires |flags| == |ws|
    ensures multiset(Keep(ws, flags, true) + Keep(ws, flags, false)) == multiset(ws)
    ensures |Keep(ws, flags, true)| + |Keep(ws, flags, false)| == |ws|
  {
    if ws != [] {
      KeepPartition(ws[1..], flags[1..]);
      KeepCons(ws, flags, flags[1..]);
      HeadTailMultiset(ws);
    }
  }

  lemma HeadTailMultiset(ws: seq<string>)
    requires ws != []
    ensures multiset(ws) == multiset{ws[0]} + multiset(ws[1..])
  {
    assert ws == [ws[0]] + ws[1..];
  }

  /** Each side of the split keeps the longest-first order. */
  lemma {:induction false} KeepNonIncreasing(ws: seq<string>, flags: seq<bool>, b: bool)
    requires |flags| == |ws| && NonIncreasing(ws)
    ensures NonIncreasing(Keep(ws, flags, b))
  {
    if ws != [] {
      var tail := ws[1..];
      assert NonIncreasing(tail);
      KeepNonIncreasing(tail, flags[1..], b);
      KeepBounded(tail, flags[1..], b, |ws[0]|);
    }
  }

  /** A length bound on every word holds on every word kept. */
  lemma {:induction false} KeepBounded(ws: seq<string>, flags: seq<bool>, b: bool, bound: nat)
    requires |flags| == |ws| && forall j :: 0 <= j < |ws| ==> |ws[j]| <= bound
    ensures forall j :: 0 <= j < |Keep(ws, flags, b)| ==> |Keep(ws, flags, b)[j]| <= bound
  {
    if ws != [] {
      KeepBounded(ws[1..], flags[1..], b, bound);
    }
  }

  function UpperAll(ws: seq<string>): (r: seq<string>)
    ensures |r| == |ws| && forall i :: 0 <= i < |ws| ==> r[i] == Upper(ws[i])
  {
    if ws == [] then [] else [Upper(ws[0])] + UpperAll(ws[1..])
  }

  lemma UpperAllCons(w: string, ws: seq<string>)
    ensures UpperAll([w] + ws) == [Upper(w)] + UpperAll(ws)
  {
    assert ([w] + ws)[1..] == ws;
  }

  lemma SolutionsCons(before: seq<string>, w: string, placed: seq<string>, after: seq<string>)
    requires after == (before + [Upper(w)]) + UpperAll(placed)
    ensures after == before + UpperAll([w] + placed)
  {
    UpperAllCons(w, placed);
  }

  /** Where a placed word went. */
  datatype Location = Location(word: string, dir: Dir, start: Pos)

  /** The result of the placement loop: `placed` and `skipped` as the source
      returns them, the position of every placed word, one flag per word
      (true when it was placed) and the generator afterwards. */
  datatype Run = Run(placed: seq<string>, skipped: seq<string>, placements: seq<Location>, flags: seq<bool>, gen: Generator)

  predicate DrawsFor(draws: seq<Draws>, n: nat, size: nat, maxAttempts: nat) {
    |draws| >= n && forall i :: 0 <= i < |draws| ==> ValidDraws(draws[i], size, maxAttempts)
  }

  lemma LocationsCons(loc: Location, placed: seq<string>, locs: seq<Location>)
    requires |locs| == |placed| && forall k :: 0 <= k < |locs| ==> locs[k].word == placed[k]
    ensures forall k :: 0 <= k < |locs| + 1 ==> ([loc] + locs)[k].word == ([loc.word] + placed)[k]
  {
  }

  /** The placement loop of `generate_from_file`: each word in turn goes to `placed` when `place_word`
      succeeds and to `skipped` otherwise; draws[i] are the random choices
      of the i-th call. */
  function PlaceAll(gen: Generator, words: seq<string>, draws: seq<Draws>, maxAttempts: nat): (r: Run)
    requires WellFormed(gen) && DrawsFor(draws, |words|, gen.size, maxAttempts)
    ensures WellFormed(r.gen) && r.gen.size == gen.size
    ensures |r.flags| == |words|
    ensures r.placed == Keep(words, r.flags, true)
    ensures r.skipped == Keep(words, r.flags, false)
    ensures r.gen.solutions == gen.solutions + UpperAll(r.placed)
    ensures |r.placements| == |r.placed|
    ensures forall k :: 0 <= k < |r.placements| ==> r.placements[k].word == r.placed[k]
    decreases |words|
  {
    if words == [] then Run([], [], [], [], gen)
    else
      var step := PlaceWord(gen, words[0], draws[0], maxAttempts);
      var rest := PlaceAll(step.gen, words[1..], draws[1..], maxAttempts);
      match step.outcome
      case Exhausted(_) =>
        KeepCons(words, [false] + rest.flags, rest.flags);
        Run(rest.placed, [words[0]] + rest.skipped, rest.placements, [false] + rest.flags, rest.gen)
      case Found(_, _, dir, start, _) =>
        KeepCons(words, [true] + rest.flags, rest.flags);
        SolutionsCons(gen.solutions, words[0], rest.placed, rest.gen.solutions);
        var loc := Location(words[0], dir, start);
        LocationsCons(loc, rest.placed, rest.placements);
        Run([words[0]] + rest.placed, rest.skipped, [loc] + rest.placements, [true] + rest.flags, rest.gen)
  }

  /** Every placed word can be read at its recorded location. */
  predicate AllReadable(g: Grid, size: nat, placed: seq<string>, locs: seq<Location>)
    requires IsSquare(g, size) && |locs| == |placed|
  {
    forall k :: 0 <= k < |locs| ==> ReadsAt(g, size, Upper(placed[k]), locs[k].start, locs[k].dir)
  }

  lemma AllReadableCons(g: Grid, size: nat, w: string, loc: Location, placed: seq<string>, locs: seq<Location>)
    requires IsSquare(g, size) && |locs| == |placed|
    requires ReadsAt(g, size, Upper(w), loc.start, loc.dir) && AllReadable(g, size, placed, locs)
    ensures AllReadable(g, size, [w] + placed, [loc] + locs)
  {
    forall k | 0 <= k < |locs| + 1
      ensures ReadsAt(g, size, Upper(([w] + placed)[k]), ([loc] + locs)[k].start, ([loc] + locs)[k].dir)
    {
      if k > 0 {
        assert ([w] + placed)[k] == placed[k - 1] && ([loc] + locs)[k] == locs[k - 1];
      }
    }
  }

  lemma AllReadableExtends(g: Grid, g': Grid, size: nat, placed: seq<string>, locs: seq<Location>)
    requires Extends(g, g', size) && |locs| == |placed|
    requires AllReadable(g, size, placed, locs)
    ensures AllReadable(g', size, placed, locs)
  {
    forall k | 0 <= k < |locs|
      ensures ReadsAt(g', size, Upper(placed[k]), locs[k].start, locs[k].dir)
    {
      ReadsAtExtends(g, g', size, Upper(placed[k]), locs[k].start, locs[k].dir);
    }
  }

  /** No corruption across the whole loop: the letters on the grid before
      the loop are all still there, and every placed word can still be read
      where it was put, whatever was placed after it. */
  lemma {:induction false} PlaceAllKeepsWords(gen: Generator, words: seq<string>, draws: seq<Draws>, maxAttempts: nat)
    requires WellFormed(gen) && DrawsFor(draws, |words|, gen.size, maxAttempts)
    ensures var r := PlaceAll(gen, words, draws, maxAttempts);
      && Extends(gen.grid, r.gen.grid, gen.size)
      && AllReadable(r.gen.grid, gen.size, r.placed, r.placements)
    decreases |words|
  {
    if words != [] {
      var step := PlaceWord(gen, words[0], draws[0], maxAttempts);
      PlaceWordKeepsLetters(gen, words[0], draws[0], maxAttempts);
      if step.outcome.Found? {
        PlaceWordWritesPath(gen, words[0], draws[0], maxAttempts);
      }
      var rest := PlaceAll(step.gen, words[1..], draws[1..], maxAttempts);
      PlaceAllKeepsWords(step.gen, words[1..], draws[1..], maxAttempts);
      ExtendsTransitive(gen.grid, step.gen.grid, rest.gen.grid, gen.size);
      if step.outcome.Found? {
        var loc := Location(words[0], step.outcome.dir, step.outcome.start);
        ReadsAtExtends(step.gen.grid, rest.gen.grid, gen.size, Upper(words[0]), loc.start, loc.dir);
        AllReadableCons(rest.gen.grid, gen.size, words[0], loc, rest.placed, rest.placements);
      }
    }
  }

  /** The generator that the i-th word meets: the starting generator after
      `place_word` has run, in order, on each of the words before it. */
  function Before(gen: Generator, words: seq<string>, draws: seq<Draws>, maxAttempts: nat, i: nat): (b: Generator)
    requires WellFormed(gen) && DrawsFor(draws, |words|, gen.size, maxAttempts) && i <= |words|
    ensures WellFormed(b) && b.size == gen.size
    decreases i
  {
    if i == 0 then gen
    else Before(PlaceWord(gen, words[0], draws[0], maxAttempts).gen, words[1..], draws[1..], maxAttempts, i - 1)
  }

  /** The loop calls `place_word` on every word in turn, each time on the
      generator the earlier calls left: word i is flagged as placed exactly
      when its call succeeds, and the loop ends with the generator after the
      last call. */
  lemma PlaceAllFollowsPlaceWord(gen: Generator, words: seq<string>, draws: seq<Draws>, maxAttempts: nat)
    requires WellFormed(gen) && DrawsFor(draws, |words|, gen.size, maxAttempts)
    ensures var r := PlaceAll(gen, words, draws, maxAttempts);
      && r.gen == Before(gen, words, draws, maxAttempts, |words|)
      && forall i :: 0 <= i < |words| ==>
           r.flags[i] == PlaceWord(Before(gen, words, draws, maxAttempts, i), words[i], draws[i], maxAttempts).outcome.Found?
  {
    PlaceAllEndsAfterLastWord(gen, words, draws, maxAttempts);
    PlaceAllFlagsFollowPlaceWord(gen, words, draws, maxAttempts);
  }

  lemma {:induction false} PlaceAllEndsAfterLastWord(gen: Generator, words: seq<string>, draws: seq<Draws>, maxAttempts: nat)
    requires WellFormed(gen) && DrawsFor(draws, |words|, gen.size, maxAttempts)
    ensures PlaceAll(gen, words, draws, maxAttempts).gen == Before(gen, words, draws, maxAttempts, |words|)
    decreases |words|
  {
    if words != [] {
      var step := PlaceWord(gen, words[0], draws[0], maxAttempts);
      PlaceAllCons(gen, words, draws, maxAttempts);
      PlaceAllEndsAfterLastWord(step.gen, words[1..], draws[1..], maxAttempts);
      assert Before(gen, words, draws, maxAttempts, |words|)
        == Before(step.gen, words[1..], draws[1..], maxAttempts, |words[1..]|);
    }
  }

  lemma {:induction false} PlaceAllFlagsFollowPlaceWord(gen: Generator, words: seq<string>, draws: seq<Draws>, maxAttempts: nat)
    requires WellFormed(gen) && DrawsFor(draws, |words|, gen.size, maxAttempts)
    ensures var r := PlaceAll(gen, words, draws, maxAttempts);
      forall i :: 0 <= i < |words| ==>
        r.flags[i] == PlaceWord(Before(gen, words, draws, maxAttempts, i), words[i], draws[i], maxAttempts).outcome.Found?
    decreases |words|
  {
    if words != [] {
      var step := PlaceWord(gen, words[0], draws[0], maxAttempts);
      var r := PlaceAll(gen, words, draws, maxAttempts);
      var rest := PlaceAll(step.gen, words[1..], draws[1..], maxAttempts);
      PlaceAllCons(gen, words, draws, maxAttempts);
      PlaceAllFlagsFollowPlaceWord(step.gen, words[1..], draws[1..], maxAttempts);
      forall i | 0 <= i < |words|
        ensures r.flags[i] == PlaceWord(Before(gen, words, draws, maxAttempts, i), words[i], draws[i], maxAttempts).outcome.Found?
      {
        if i > 0 {
          assert words[1..][i - 1] == words[i] && draws[1..][i - 1] == draws[i];
          assert r.flags[i] == rest.flags[i - 1];
        }
      }
    }
  }

  /** One step of the loop: the first flag is the outcome of the first call,
      and the rest of the run is the loop on the generator it leaves. */
  lemma PlaceAllCons(gen: Generator, words: seq<string>, draws: seq<Draws>, maxAttempts: nat)
    requires WellFormed(gen) && DrawsFor(draws, |words|, gen.size, maxAttempts) && words != []
    ensures var step := PlaceWord(gen, words[0], draws[0], maxAttempts);
      var r := PlaceAll(gen, words, draws, maxAttempts);
      var rest := PlaceAll(step.gen, words[1..], draws[1..], maxAttempts);
      && r.flags == [step.outcome.Found?] + rest.flags
      && r.gen == rest.gen
  {
  }

  /** Per word of the loop: a word longer than the grid side is always
      skipped, and a non-empty word is skipped exactly when none of its drawn
      candidates fits the grid as that word found it. */
  lemma PlaceAllSkipsIffNothingFits(gen: Generator, words: seq<string>, draws: seq<Draws>, maxAttempts: nat, i: nat)
    requires WellFormed(gen) && DrawsFor(draws, |words|, gen.size, maxAttempts) && i < |words|
    ensures var r := PlaceAll(gen, words, draws, maxAttempts);
      var b := Before(gen, words, draws, maxAttempts, i);
      && (|words[i]| > gen.size ==> !r.flags[i])
      && (|words[i]| >= 1 ==>
            (!r.flags[i] <==> forall j, k :: 0 <= j < 4 && 0 <= k < maxAttempts ==>
               !Fits(b.grid, gen.size, Upper(words[i]), draws[i].starts[j][k], draws[i].order[j])))
  {
    var b := Before(gen, words, draws, maxAttempts, i);
    PlaceAllFollowsPlaceWord(gen, words, draws, maxAttempts);
    if |words[i]| > gen.size {
      TooLongWordSkipped(b, words[i], draws[i], maxAttempts);
    }
    if |words[i]| >= 1 {
      SkippedIffNothingFits(b, words[i], draws[i], maxAttempts);
    }
  }

  /** `generate_from_file` after the file has been read: select, sort
      longest first, place, then fill. */
  function Generate(gen: Generator, allWords: seq<string>, level: string, maxAttempts: nat,
                    pick: seq<nat>, draws: seq<Draws>, noise: seq<char>): (r: Run)
    requires WellFormed(gen)
    requires |allWords| > WordCount(level, gen.size) ==> IsSample(pick, |allWords|, WordCount(level, gen.size))
    requires DrawsFor(draws, Min(|allWords|, WordCount(level, gen.size)), gen.size, maxAttempts)
    requires |noise| >= gen.size * gen.size && AllInAlphabet(noise)
    ensures WellFormed(r.gen) && r.gen.size == gen.size
    ensures |r.placed| + |r.skipped| == Min(|allWords|, WordCount(level, gen.size))
    ensures multiset(r.placed + r.skipped) <= multiset(allWords)
    ensures |allWords| <= WordCount(level, gen.size) ==> multiset(r.placed + r.skipped) == multiset(allWords)
    ensures NonIncreasing(r.placed) && NonIncreasing(r.skipped)
    ensures r.gen.solutions == gen.solutions + UpperAll(r.placed)
    ensures Extends(gen.grid, r.gen.grid, gen.size) && Covered(r.gen.grid, gen.size)
    ensures |r.placements| == |r.placed|
    ensures forall k :: 0 <= k < |r.placements| ==> r.placements[k].word == r.placed[k]
    ensures AllReadable(r.gen.grid, gen.size, r.placed, r.placements)
  {
    var words := SortByLength(Select(allWords, WordCount(level, gen.size), pick));
    var run := PlaceAll(gen, words, draws, maxAttempts);
    PlaceAllKeepsWords(gen, words, draws, maxAttempts);
    KeepPartition(words, run.flags);
    KeepNonIncreasing(words, run.flags, true);
    KeepNonIncreasing(words, run.flags, false);
    EmptyCountRowsBound(run.gen.grid, gen.size);
    var g' := FillRandomChars(run.gen.grid, gen.size, noise);
    ExtendsTransitive(gen.grid, run.gen.grid, g', gen.size);
    AllReadableExtends(run.gen.grid, g', gen.size, run.placed, run.placements);
    run.(gen := run.gen.(grid := g'))
  }

  /** Every cell empty in g holds a capital letter A-Z in g'. */
  ghost predicate FilledFromAlphabet(g: Grid, g': Grid, size: nat)
    requires IsSquare(g, size) && IsSquare(g', size)
  {
    forall p :: InBounds(p, size) && At(g, size, p) == Empty ==> Filled(At(g', size, p)) && At(g', size, p).ch in Alphabet
  }

  /** The run splits ws by flag, each flag is the outcome of `place_word`
      on the generator the earlier words left, the solutions are those of
      the generator after the last word, and its grid only gained letters,
      each of them a capital A-Z in a cell that was empty. */
  ghost predicate ProcessedAs(r: Run, gen: Generator, ws: seq<string>, draws: seq<Draws>, maxAttempts: nat)
    requires WellFormed(gen) && DrawsFor(draws, |ws|, gen.size, maxAttempts)
  {
    var last := Before(gen, ws, draws, maxAttempts, |ws|);
    && |r.flags| == |ws|
    && r.placed == Keep(ws, r.flags, true)
    && r.skipped == Keep(ws, r.flags, false)
    && (forall i :: 0 <= i < |ws| ==>
          r.flags[i] == PlaceWord(Before(gen, ws, draws, maxAttempts, i), ws[i], draws[i], maxAttempts).outcome.Found?)
    && r.gen.solutions == last.solutions
    && r.gen.size == last.size
    && Extends(last.grid, r.gen.grid, gen.size)
    && FilledFromAlphabet(last.grid, r.gen.grid, gen.size)
  }

  /** The selected words are processed longest first, and words of equal
      length in their selection order: the stable longest-first arrangement
      of the selection is the one the loop followed. */
  lemma GenerateProcessesLongestFirst(gen: Generator, allWords: seq<string>, level: string, maxAttempts: nat,
                                      pick: seq<nat>, draws: seq<Draws>, noise: seq<char>)
    requires WellFormed(gen)
    requires |allWords| > WordCount(level, gen.size) ==> IsSample(pick, |allWords|, WordCount(level, gen.size))
    requires DrawsFor(draws, Min(|allWords|, WordCount(level, gen.size)), gen.size, maxAttempts)
    requires |noise| >= gen.size * gen.size && AllInAlphabet(noise)
    ensures exists ws ::
      && |ws| == Min(|allWords|, WordCount(level, gen.size))
      && NonIncreasing(ws)
      && multiset(ws) == multiset(Select(allWords, WordCount(level, gen.size), pick))
      && (forall n: nat :: OfLength(ws, n) == OfLength(Select(allWords, WordCount(level, gen.size), pick), n))
      && ProcessedAs(Generate(gen, allWords, level, maxAttempts, pick, draws, noise), gen, ws, draws, maxAttempts)
  {
    var ws := SortByLength(Select(allWords, WordCount(level, gen.size), pick));
    var run := PlaceAll(gen, ws, draws, maxAttempts);
    PlaceAllFollowsPlaceWord(gen, ws, draws, maxAttempts);
    EmptyCountRowsBound(run.gen.grid, gen.size);
    var g' := FillRandomChars(run.gen.grid, gen.size, noise);
    assert FilledFromAlphabet(run.gen.grid, g', gen.size);
    assert Generate(gen, allWords, level, maxAttempts, pick, draws, noise) == run.(gen := run.gen.(grid := g'));
    assert ProcessedAs(run.(gen := run.gen.(grid := g')), gen, ws, draws, maxAttempts);
  }
}
