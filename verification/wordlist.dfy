/** The arithmetic behind the "Words to find" table of `save_to_docx`: the
    solutions are sorted as Python sorts strings and laid out row by row in a
    table of `ListColumns` columns. Rendering is not modelled. */
module WordList {

  /** The number of columns of the word-list table. */
  const ListColumns: nat := 4

  /** Python's string order: compare code points left to right; a proper
      prefix comes first. */
  predicate LexLe(a: string, b: string)
    decreases |a|
  {
    a == [] || (b != [] && (a[0] < b[0] || (a[0] == b[0] && LexLe(a[1..], b[1..]))))
  }

  lemma {:induction false} LexTotal(a: string, b: string)
    ensures LexLe(a, b) || LexLe(b, a)
    decreases |a|
  {
    if a != [] && b != [] && a[0] == b[0] {
      LexTotal(a[1..], b[1..]);
    }
  }

  lemma {:induction false} LexTransitive(a: string, b: string, c: string)
    requires LexLe(a, b) && LexLe(b, c)
    ensures LexLe(a, c)
    decreases |a|
  {
    if a != [] && a[0] == b[0] && b[0] == c[0] {
      LexTransitive(a[1..], b[1..], c[1..]);
    }
  }

  lemma {:induction false} LexAntisymmetric(a: string, b: string)
    requires LexLe(a, b) && LexLe(b, a)
    ensures a == b
    decreases |a|
  {
    if a != [] {
      LexAntisymmetric(a[1..], b[1..]);
      assert a == [a[0]] + a[1..] && b == [b[0]] + b[1..];
    }
  }

  predicate Sorted(ws: seq<string>) {
    forall i, j :: 0 <= i < j < |ws| ==> LexLe(ws[i], ws[j])
  }

  function Insert(x: string, s: seq<string>): (r: seq<string>)
    requires Sorted(s)
    ensures |r| == |s| + 1
    ensures multiset(r) == multiset(s) + multiset{x}
    ensures Sorted(r)
  {
    if s == [] then [x]
    else if LexLe(x, s[0]) then
      BelowHeadBelowAll(x, s);
      SortedCons(x, s);
      [x] + s
    else
      SortedTail(s);
      var rest := Insert(x, s[1..]);
      LexTotal(x, s[0]);
      HeadBelowAll(s[0], s[1..], x, rest);
      SortedCons(s[0], rest);
      assert s == [s[0]] + s[1..];
      [s[0]] + rest
  }

  /** A sorted list stays sorted under a new head that lies below all of it. */
  lemma SortedCons(h: string, s: seq<string>)
    requires Sorted(s) && forall j :: 0 <= j < |s| ==> LexLe(h, s[j])
    ensures Sorted([h] + s)
  {
    forall i, j | 0 <= i < j < |s| + 1
      ensures LexLe(([h] + s)[i], ([h] + s)[j])
    {
      assert ([h] + s)[j] == s[j - 1];
      if i > 0 {
        assert ([h] + s)[i] == s[i - 1];
      }
    }
  }

  /** What lies below the head of a sorted list lies below all of it. */
  lemma BelowHeadBelowAll(x: string, s: seq<string>)
    requires Sorted(s) && s != [] && LexLe(x, s[0])
    ensures forall j :: 0 <= j < |s| ==> LexLe(x, s[j])
  {
    forall j | 0 < j < |s|
      ensures LexLe(x, s[j])
    {
      LexTransitive(x, s[0], s[j]);
    }
  }

  /** The tail of a sorted list is sorted and bounded below by the head. */
  lemma SortedTail(s: seq<string>)
    requires Sorted(s) && s != []
    ensures Sorted(s[1..])
    ensures forall j :: 0 <= j < |s[1..]| ==> LexLe(s[0], s[1..][j])
  {
    forall i, j | 0 <= i < j < |s[1..]|
      ensures LexLe(s[1..][i], s[1..][j])
    {
      assert s[1..][i] == s[i + 1] && s[1..][j] == s[j + 1];
    }
    forall j | 0 <= j < |s[1..]|
      ensures LexLe(s[0], s[1..][j])
    {
      assert s[1..][j] == s[j + 1];
    }
  }

  /** A lower bound of a sorted tail and of `x` bounds every element of a
      permutation of the tail with `x` added. */
  lemma HeadBelowAll(lo: string, tail: seq<string>, x: string, rest: seq<string>)
    requires forall j :: 0 <= j < |tail| ==> LexLe(lo, tail[j])
    requires LexLe(lo, x) && multiset(rest) == multiset(tail) + multiset{x}
    ensures forall j :: 0 <= j < |rest| ==> LexLe(lo, rest[j])
  {
    forall j | 0 <= j < |rest|
      ensures LexLe(lo, rest[j])
    {
      assert rest[j] in multiset(rest);
      if rest[j] != x {
        assert rest[j] in multiset(tail);
      }
    }
  }

  /** `sorted(self.solutions)`. */
  function SortWords(ws: seq<string>): (r: seq<string>)
    ensures |r| == |ws|
    ensures multiset(r) == multiset(ws)
    ensures Sorted(r)
  {
    if ws == [] then []
    else
      assert ws == [ws[0]] + ws[1..];
      Insert(ws[0], SortWords(ws[1..]))
  }

  /** Python's order on strings is total and antisymmetric, so a list has
      exactly one sorted arrangement: any sorted permutation of the
      solutions is the one `SortWords` returns. */
  lemma {:induction false} SortedPermutationUnique(a: seq<string>, b: seq<string>)
    requires Sorted(a) && Sorted(b) && multiset(a) == multiset(b)
    ensures a == b
    decreases |a|
  {
    if a != [] {
      assert |b| == |a| by {
        assert |multiset(a)| == |multiset(b)|;
      }
      assert a[0] in multiset(b);
      assert b[0] in multiset(a);
      var i :| 0 <= i < |b| && b[i] == a[0];
      var j :| 0 <= j < |a| && a[j] == b[0];
      if i > 0 && j > 0 {
        assert LexLe(b[0], b[i]) && LexLe(a[0], a[j]);
        LexAntisymmetric(a[0], b[0]);
      }
      assert a[0] == b[0];
      TailMultiset(a);
      TailMultiset(b);
      SortedPermutationUnique(a[1..], b[1..]);
    }
  }

  lemma TailMultiset<T>(s: seq<T>)
    requires s != []
    ensures multiset(s[1..]) == multiset(s) - multiset{s[0]}
  {
    assert s == [s[0]] + s[1..];
  }

  /** `math.ceil(n / cols)`, in integer arithmetic. */
  function NumRows(n: nat, cols: nat): nat
    requires cols >= 1
  {
    (n + cols - 1) / cols
  }

  /** The list index of the first cell of row r: r * cols, counted row by
      row so that the layout proofs stay linear. */
  function RowStart(r: nat, cols: nat): nat {
    if r == 0 then 0 else RowStart(r - 1, cols) + cols
  }

  lemma {:induction false} RowStartIsProduct(r: nat, cols: nat)
    ensures RowStart(r, cols) == r * cols
  {
    if r > 0 {
      RowStartIsProduct(r - 1, cols);
    }
  }

  /** Later rows start later. */
  lemma RowStartOrder(a: nat, b: nat, cols: nat)
    ensures a <= b ==> RowStart(a, cols) <= RowStart(b, cols)
    ensures RowStart(a, cols) < RowStart(b, cols) ==> a < b
  {
    RowStartMono(a, b, cols);
    RowStartMono(b, a, cols);
  }

  lemma {:induction false} RowStartMono(a: nat, b: nat, cols: nat)
    ensures a <= b ==> RowStart(a, cols) <= RowStart(b, cols)
    decreases b
  {
    if b > 0 {
      RowStartMono(a, b - 1, cols);
    }
  }

  /** NumRows is the ceiling: the rows hold all n entries, and one row fewer
      would not. */
  lemma NumRowsIsCeiling(n: nat, cols: nat)
    requires cols >= 1
    ensures n <= RowStart(NumRows(n, cols), cols)
    ensures NumRows(n, cols) == 0 || RowStart(NumRows(n, cols) - 1, cols) < n
  {
    var rows := NumRows(n, cols);
    var m := (n + cols - 1) % cols;
    assert rows * cols + m == n + cols - 1;
    RowStartIsProduct(rows, cols);
  }

  /** Row-major position: index i is at row i / cols, column i % cols, and
      that is the only cell whose row-major index is i. */
  lemma RowMajor(i: nat, cols: nat, r: nat, c: int)
    requires cols >= 1 && 0 <= c < cols
    ensures RowStart(r, cols) + c == i <==> (r == i / cols && c == i % cols)
  {
    var q, m := i / cols, i % cols;
    assert q * cols + m == i;
    RowStartIsProduct(r, cols);
    RowStartIsProduct(q, cols);
    RowStartOrder(r, q, cols);
    RowStartOrder(q, r, cols);
    RowStartOrder(r + 1, q, cols);
    RowStartOrder(q + 1, r, cols);
    assert RowStart(r + 1, cols) == RowStart(r, cols) + cols;
    assert RowStart(q + 1, cols) == RowStart(q, cols) + cols;
  }

  /** Index i of a list of n entries lies in row i / cols of a table of
      `NumRows(n, cols)` rows. */
  lemma RowOfIndex(i: nat, n: nat, cols: nat)
    requires cols >= 1 && i < n
    ensures i / cols < NumRows(n, cols)
  {
    RowMajor(i, cols, i / cols, i % cols);
    NumRowsIsCeiling(n, cols);
    RowStartOrder(i / cols, NumRows(n, cols), cols);
  }

  /** A cell of the word-list table: empty, or one word. */
  datatype Slot = Blank | Entry(word: string)

  /** The first `i` words sit at their row-major cells of a `rows` by `cols`
      table; every other cell is blank. */
  predicate LaidOut(table: seq<seq<Slot>>, words: seq<string>, cols: nat, rows: nat, i: nat)
    requires i <= |words|
  {
    |table| == rows &&
    (forall r :: 0 <= r < rows ==> |table[r]| == cols) &&
    forall r, c :: 0 <= r < rows && 0 <= c < cols ==>
      table[r][c] == (if RowStart(r, cols) + c < i then Entry(words[RowStart(r, cols) + c]) else Blank)
  }

  /** Writing word i at row r = i / cols, column c = i % cols extends the
      layout by one word. */
  lemma LayOutStep(table: seq<seq<Slot>>, words: seq<string>, cols: nat, i: nat, r: nat, c: nat)
    requires cols >= 1 && i < |words| && r == i / cols && c == i % cols
    requires LaidOut(table, words, cols, NumRows(|words|, cols), i)
    ensures r < |table| && c < |table[r]|
    ensures LaidOut(table[r := table[r][c := Entry(words[i])]], words, cols, NumRows(|words|, cols), i + 1)
  {
    var rows := NumRows(|words|, cols);
    RowOfIndex(i, |words|, cols);
    var next := table[r := table[r][c := Entry(words[i])]];
    forall r', c' | 0 <= r' < rows && 0 <= c' < cols
      ensures next[r'][c'] == (if RowStart(r', cols) + c' < i + 1 then Entry(words[RowStart(r', cols) + c']) else Blank)
    {
      RowMajor(i, cols, r', c');
    }
  }

  /** A table of `rows` rows of `cols` blank cells. */
  function BlankTable(rows: nat, cols: nat): (t: seq<seq<Slot>>)
    ensures |t| == rows
    ensures forall r :: 0 <= r < rows ==> |t[r]| == cols && forall c :: 0 <= c < cols ==> t[r][c] == Blank
  {
    seq(rows, _ => seq(cols, _ => Blank))
  }

  /** A blank table holds none of the words yet. */
  lemma BlankLaidOut(words: seq<string>, cols: nat, rows: nat)
    ensures LaidOut(BlankTable(rows, cols), words, cols, rows, 0)
  {
  }

  /** The word-list table of `save_to_docx`: a table of `NumRows(n, cols)` rows and `cols` columns
      receives word i at row i // cols and column i % cols. */
  method LayOut(words: seq<string>, cols: nat) returns (table: seq<seq<Slot>>)
    requires cols >= 1
    ensures LaidOut(table, words, cols, NumRows(|words|, cols), |words|)
    ensures forall i :: 0 <= i < |words| ==>
      i / cols < |table| && table[i / cols][i % cols] == Entry(words[i])
  {
    var rows := NumRows(|words|, cols);
    table := BlankTable(rows, cols);
    BlankLaidOut(words, cols, rows);
    var i := 0;
    while i < |words|
      invariant 0 <= i <= |words|
      invariant LaidOut(table, words, cols, rows, i)
    {
      var r, c := i / cols, i % cols;
      LayOutStep(table, words, cols, i, r, c);
      table := table[r := table[r][c := Entry(words[i])]];
      i := i + 1;
    }
    EveryWordListed(table, words, cols);
  }

  /** Distinct list positions land in distinct cells of the table. */
  lemma CellsDistinct(i: nat, j: nat, cols: nat)
    requires cols >= 1 && i != j
    ensures i / cols != j / cols || i % cols != j % cols
  {
    RowMajor(i, cols, i / cols, i % cols);
    RowMajor(j, cols, i / cols, i % cols);
  }

  /** Every word of the list appears in the table, at row i / cols and
      column i % cols. */
  lemma EveryWordListed(table: seq<seq<Slot>>, words: seq<string>, cols: nat)
    requires cols >= 1 && LaidOut(table, words, cols, NumRows(|words|, cols), |words|)
    ensures forall i :: 0 <= i < |words| ==>
      i / cols < |table| && table[i / cols][i % cols] == Entry(words[i])
  {
    forall i | 0 <= i < |words|
      ensures i / cols < |table| && table[i / cols][i % cols] == Entry(words[i])
    {
      RowMajor(i, cols, i / cols, i % cols);
      RowOfIndex(i, |words|, cols);
    }
  }

  /** The word list as `save_to_docx` lays it out: the sorted solutions in
      row-major order, and blank cells after the last word. */
  method WordTable(solutions: seq<string>) returns (table: seq<seq<Slot>>)
    ensures LaidOut(table, SortWords(solutions), ListColumns, NumRows(|solutions|, ListColumns), |solutions|)
    ensures |table| == NumRows(|solutions|, ListColumns)
    ensures forall r :: 0 <= r < |table| ==> |table[r]| == ListColumns
    ensures forall i :: 0 <= i < |solutions| ==>
      i / ListColumns < |table| && table[i / ListColumns][i % ListColumns] == Entry(SortWords(solutions)[i])
  {
    table := LayOut(SortWords(solutions), ListColumns);
  }
}
