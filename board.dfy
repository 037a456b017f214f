/** The playing field of tetris.c: a fixed BoardHeight x BoardWidth grid of
    colour identifiers (0 = empty, 1..NumBlocks = a locked cell), and what
    clearLines does to it, stated as functions on the grid's rows. */
module Board {

  const BoardWidth: int := 10
  const BoardHeight: int := 20
  /** Number of tetromino kinds, and so of colour identifiers. */
  const NumBlocks: int := 7

  type Row = seq<int>
  /** Rows listed top (row 0) to bottom (row BoardHeight - 1). */
  type Grid = seq<Row>

  predicate IsGrid(g: Grid) {
    |g| == BoardHeight && forall r :: 0 <= r < |g| ==> |g[r]| == BoardWidth
  }

  /** Every cell is empty or holds a colour identifier 1..NumBlocks. */
  predicate CellsInRange(g: Grid) {
    forall r, c :: 0 <= r < |g| && 0 <= c < |g[r]| ==> 0 <= g[r][c] <= NumBlocks
  }

  /** A row is full when none of its cells is empty. */
  predicate IsFull(row: Row) {
    forall c :: 0 <= c < |row| ==> row[c] != 0
  }

  predicate NoFullRow(g: Grid) {
    forall r :: 0 <= r < |g| ==> !IsFull(g[r])
  }

  function EmptyRow(): (row: Row)
    ensures |row| == BoardWidth
    ensures forall c :: 0 <= c < |row| ==> row[c] == 0
  {
    seq(BoardWidth, _ => 0)
  }

  /** Two grids that agree cell by cell are equal. */
  lemma GridsEqual(a: Grid, b: Grid)
    requires IsGrid(a) && IsGrid(b)
    requires forall r, c :: 0 <= r < BoardHeight && 0 <= c < BoardWidth ==> a[r][c] == b[r][c]
    ensures a == b
  {
    forall r | 0 <= r < BoardHeight
      ensures a[r] == b[r]
    {
      assert forall c :: 0 <= c < BoardWidth ==> a[r][c] == b[r][c];
    }
  }

  /** k empty rows: the rows vacated at the top by clearing k lines, and
      (with k = BoardHeight) the board that initBoard leaves. */
  function EmptyRows(k: nat): (g: Grid)
    ensures |g| == k
    ensures forall r :: 0 <= r < k ==> g[r] == EmptyRow()
  {
    seq(k, _ => EmptyRow())
  }

  /** The number of full rows of g. */
  function CountFull(g: Grid): (k: nat)
    ensures k <= |g|
  {
    if g == [] then 0
    else CountFull(g[..|g| - 1]) + (if IsFull(g[|g| - 1]) then 1 else 0)
  }

  /** The rows of g that are not full, in their original order. */
  function Kept(g: Grid): (kept: Grid)
    ensures |kept| + CountFull(g) == |g|
    ensures forall i :: 0 <= i < |kept| ==> kept[i] in g && !IsFull(kept[i])
  {
    if g == [] then []
    else Kept(g[..|g| - 1]) + (if IsFull(g[|g| - 1]) then [] else [g[|g| - 1]])
  }

  /** The grid after clearLines: the non-full rows keep their order and drop
      to the bottom, and as many empty rows as were full fill the top. */
  function Cleared(g: Grid): (h: Grid)
    ensures |h| == |g|
  {
    EmptyRows(CountFull(g)) + Kept(g)
  }

  /** Points awarded for clearing k rows with one lock. */
  function LineScore(k: nat): (points: nat)
    ensures k == 0 <==> points == 0
    ensures k > 0 ==> points >= 100
  {
    k * k * 100
  }

  /** Clearing keeps the board's shape and the range of its cell values. */
  lemma ClearedWellFormed(g: Grid)
    requires IsGrid(g)
    ensures IsGrid(Cleared(g))
    ensures CellsInRange(g) ==> CellsInRange(Cleared(g))
  {
    var h := Cleared(g);
    var n := CountFull(g);
    forall r | 0 <= r < |h|
      ensures |h[r]| == BoardWidth
      ensures CellsInRange(g) ==> forall c :: 0 <= c < |h[r]| ==> 0 <= h[r][c] <= NumBlocks
    {
      if r >= n {
        var kept := Kept(g);
        assert h[r] == kept[r - n];
        assert kept[r - n] in g;
      }
    }
  }

  /** No row is full after clearing. */
  lemma ClearedHasNoFullRow(g: Grid)
    ensures NoFullRow(Cleared(g))
  {
    var h := Cleared(g);
    var n := CountFull(g);
    forall r | 0 <= r < |h|
      ensures !IsFull(h[r])
    {
      if r < n {
        assert h[r] == EmptyRow() && h[r][0] == 0;
      } else {
        assert h[r] == Kept(g)[r - n];
      }
    }
  }

  /** With no full row, nothing is kept out: Kept is the identity. */
  lemma {:induction false} KeptAllWhenNoneFull(g: Grid)
    requires CountFull(g) == 0
    ensures Kept(g) == g
  {
    if g != [] {
      var init := g[..|g| - 1];
      KeptAllWhenNoneFull(init);
      assert init + [g[|g| - 1]] == g;
    }
  }

  /** Clearing a grid with no full row changes nothing. */
  lemma NothingFullNothingCleared(g: Grid)
    requires CountFull(g) == 0
    ensures Cleared(g) == g
  {
    KeptAllWhenNoneFull(g);
    assert EmptyRows(0) == [];
  }

  /** Kept distributes over concatenation: it preserves the relative order
      of the rows it keeps, whatever the split. */
  lemma {:induction false} KeptConcat(a: Grid, b: Grid)
    ensures Kept(a + b) == Kept(a) + Kept(b)
    ensures CountFull(a + b) == CountFull(a) + CountFull(b)
    decreases |b|
  {
    if b == [] {
      assert a + b == a;
    } else {
      var b' := b[..|b| - 1];
      KeptConcat(a, b');
      assert (a + b)[..|a + b| - 1] == a + b';
      assert (a + b)[|a + b| - 1] == b[|b| - 1];
    }
  }

  /** Every row that is not full survives clearing. */
  lemma {:induction false} KeptComplete(g: Grid, i: int)
    requires 0 <= i < |g| && !IsFull(g[i])
    ensures g[i] in Kept(g)
  {
    assert g == g[..i] + [g[i]] + g[i + 1..];
    KeptConcat(g[..i] + [g[i]], g[i + 1..]);
    KeptConcat(g[..i], [g[i]]);
    assert [g[i]][..0] == [];
    assert Kept([g[i]]) == [g[i]];
  }

  /** How the clear of a prefix grows by one row: a full row adds an empty
      row on top, any other row is appended at the bottom. This is the step
      the in-place, top-to-bottom loop of clearLines takes. */
  lemma ClearedStep(g: Grid, i: int)
    requires 0 <= i < |g|
    ensures IsFull(g[i]) ==> Cleared(g[..i + 1]) == [EmptyRow()] + Cleared(g[..i])
    ensures !IsFull(g[i]) ==> Cleared(g[..i + 1]) == Cleared(g[..i]) + [g[i]]
    ensures CountFull(g[..i + 1]) == CountFull(g[..i]) + (if IsFull(g[i]) then 1 else 0)
  {
    assert g[..i + 1][..i] == g[..i];
    assert g[..i + 1][i] == g[i];
    var n := CountFull(g[..i]);
    if IsFull(g[i]) {
      assert EmptyRows(n + 1) == [EmptyRow()] + EmptyRows(n);
    }
  }

  /** One pass of the in-place loop of clearLines at row i, on a board whose
      rows above i already hold the clear of g's first i rows and whose rows
      from i on are still g's: shifting when row i is full (and leaving the
      board alone otherwise) extends both facts to row i + 1. */
  lemma ClearedPrefixStep(g: Grid, before: Grid, after: Grid, i: int, full: bool)
    requires |before| == |g| && 0 <= i < |g|
    requires before[..i] == Cleared(g[..i]) && before[i..] == g[i..]
    requires full == IsFull(before[i])
    requires full ==> after == [EmptyRow()] + before[..i] + before[i + 1..]
    requires !full ==> after == before
    ensures after[..i + 1] == Cleared(g[..i + 1]) && after[i + 1..] == g[i + 1..]
    ensures |after| == |g|
  {
    assert before[i] == g[i] by {
      assert before[i..][0] == g[i..][0];
    }
    assert before[i + 1..] == g[i + 1..] by {
      assert before[i + 1..] == before[i..][1..];
      assert g[i + 1..] == g[i..][1..];
    }
    ClearedStep(g, i);
    if full {
      assert after[..i + 1] == [EmptyRow()] + before[..i];
      assert after[i + 1..] == before[i + 1..];
    } else {
      assert after[..i + 1] == before[..i] + [before[i]];
    }
  }

  /** The case where only the bottom row is full: one line is cleared, and
      every other row moves down by one under a new empty top row. */
  lemma ClearBottomRowOnly(g: Grid)
    requires IsGrid(g)
    requires IsFull(g[BoardHeight - 1])
    requires forall r :: 0 <= r < BoardHeight - 1 ==> !IsFull(g[r])
    ensures CountFull(g) == 1
    ensures Cleared(g) == [EmptyRow()] + g[..BoardHeight - 1]
  {
    var top := g[..BoardHeight - 1];
    NoFullRowCountsZero(top);
    KeptAllWhenNoneFull(top);
    assert top + [g[BoardHeight - 1]] == g;
  }

  /** A grid without a full row counts none. */
  lemma {:induction false} NoFullRowCountsZero(g: Grid)
    requires NoFullRow(g)
    ensures CountFull(g) == 0
  {
    if g != [] {
      NoFullRowCountsZero(g[..|g| - 1]);
    }
  }
}
