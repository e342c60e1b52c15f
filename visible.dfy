/** Model of VisibleField.java: what the player sees of each square, the
    guess cycle, uncovering with its flood fill, and the end-of-game passes.

    The Java class keeps an `int[][]` of statuses; here it is an `array2<int>`,
    and the ghost field `Status` is the same grid as a value, tied to the array
    by `Valid()`.  Statuses keep the Java encoding. */
module Visible {
  import opened Field

  // Covered states (negative).
  const COVERED: int := -1        // initial value of every square
  const MINE_GUESS: int := -2
  const QUESTION: int := -3
  // Uncovered states: 0..8 is the number of adjacent mines, then the
  // end-of-game markers.
  const MINE: int := 9            // a mine not guessed, shown after a loss
  const INCORRECT_GUESS: int := 10
  const EXPLODED_MINE: int := 11  // the mine whose uncovering lost the game

  /** One of the twelve states a square can be in. */
  predicate IsStatus(s: int) {
    s == COVERED || s == MINE_GUESS || s == QUESTION || 0 <= s <= 8 ||
    s == MINE || s == INCORRECT_GUESS || s == EXPLODED_MINE
  }

  /** The test of isUncovered. */
  predicate Uncovered(s: int) {
    s > COVERED
  }

  /** A square the flood fill would open: neither uncovered nor guessed. */
  predicate Openable(s: int) {
    !Uncovered(s) && s != MINE_GUESS
  }

  /** g has the shape of the mine grid m. */
  ghost predicate SameShape(m: seq<seq<bool>>, g: seq<seq<int>>) {
    |g| == |m| && forall r :: 0 <= r < |m| ==> |g[r]| == |m[r]|
  }

  /** Outside the grid, or a square the fill stops at. */
  ghost predicate SettledAt(g: seq<seq<int>>, r: int, c: int) {
    InField(g, r, c) ==> !Openable(g[r][c])
  }

  /** The squares the flood fill may still open; it shrinks with every square
      opened, which is why the recursion of openAdjSquares terminates. */
  ghost function OpenableCells(g: seq<seq<int>>): set<Cell> {
    set r, c | 0 <= r < |g| && 0 <= c < |g[r]| && Openable(g[r][c]) :: (r, c)
  }

  // ---------------------------------------------------------------------------
  // The guess cycle.

  /** Status after cycleGuess. */
  function CycleStatus(s: int): int {
    if s == COVERED then MINE_GUESS
    else if s == MINE_GUESS then QUESTION
    else if s == QUESTION then COVERED
    else s
  }

  /** Change of numMinesGuessed made by cycleGuess. */
  function CycleCount(s: int): int {
    if s == COVERED then 1 else if s == MINE_GUESS then -1 else 0
  }

  /** Three guesses bring any square back to where it was, with no net change
      of the guess counter; an uncovered square is not touched at all. */
  lemma CycleThrice(s: int)
    ensures CycleStatus(CycleStatus(CycleStatus(s))) == s
    ensures CycleCount(s) + CycleCount(CycleStatus(s)) + CycleCount(CycleStatus(CycleStatus(s))) == 0
    ensures Uncovered(s) ==> CycleStatus(s) == s && CycleCount(s) == 0
    ensures IsStatus(s) ==> IsStatus(CycleStatus(s))
  {
  }

  // ---------------------------------------------------------------------------
  // The flood fill.

  /** Between b and a, the fill has only opened squares: squares it stops at
      keep their status, and every square that changed holds no mine and now
      shows its number of adjacent mines. */
  ghost predicate OnlyOpens(m: seq<seq<bool>>, b: seq<seq<int>>, a: seq<seq<int>>) {
    SameShape(m, b) && SameShape(m, a) &&
    forall r, c :: InField(m, r, c) ==>
      (!Openable(b[r][c]) ==> a[r][c] == b[r][c]) &&
      (a[r][c] != b[r][c] ==> !m[r][c] && a[r][c] == AdjacentMines(m, r, c))
  }

  /** If (r, c) was opened with no adjacent mine, the fill went on to every
      neighbour: none of them is left openable. */
  ghost predicate ZeroClosed(m: seq<seq<bool>>, b: seq<seq<int>>, a: seq<seq<int>>, r: int, c: int)
    requires SameShape(m, b) && SameShape(m, a)
  {
    InField(m, r, c) && a[r][c] != b[r][c] && a[r][c] == 0 ==>
      forall r2, c2 :: Adjacent(r, c, r2, c2) ==> SettledAt(a, r2, c2)
  }

  ghost predicate Closed(m: seq<seq<bool>>, b: seq<seq<int>>, a: seq<seq<int>>)
    requires SameShape(m, b) && SameShape(m, a)
  {
    forall r, c :: ZeroClosed(m, b, a, r, c)
  }

  ghost predicate ClosedExcept(m: seq<seq<bool>>, b: seq<seq<int>>, a: seq<seq<int>>, sr: int, sc: int)
    requires SameShape(m, b) && SameShape(m, a)
  {
    forall r, c :: (r != sr || c != sc) ==> ZeroClosed(m, b, a, r, c)
  }

  /** One entry of the order in which a fill opens squares: the square, and
      the index of the earlier entry whose visit opened it (unused for the
      first entry, the start). */
  datatype Step = Step(cell: Cell, from: int)

  /** The squares an opening order lists. */
  ghost function Cells(s: seq<Step>): set<Cell> {
    set k | 0 <= k < |s| :: s[k].cell
  }

  /** p is in the field and changed between b and a. */
  ghost predicate OpenedAt(m: seq<seq<bool>>, b: seq<seq<int>>, a: seq<seq<int>>, p: Cell)
    requires SameShape(m, b) && SameShape(m, a)
  {
    InField(m, p.0, p.1) && a[p.0][p.1] != b[p.0][p.1]
  }

  /** p is in the field and shows 0 in g. */
  ghost predicate ShowsZero(g: seq<seq<int>>, p: Cell) {
    InField(g, p.0, p.1) && g[p.0][p.1] == 0
  }

  /** s is an order in which the squares changed between b and a were opened
      by a fill from (sr, sc): it lists exactly those squares, starts at
      (sr, sc), and every later square is a neighbour of an earlier listed
      square that shows 0, whose visit opened it.  So the changed squares are
      the ones the fill reaches from the start through zero squares. */
  ghost predicate OpenOrder(m: seq<seq<bool>>, b: seq<seq<int>>, a: seq<seq<int>>,
                            sr: int, sc: int, s: seq<Step>)
    requires SameShape(m, b) && SameShape(m, a)
  {
    (|s| > 0 ==> s[0].cell == (sr, sc)) &&
    (forall k :: 0 <= k < |s| ==> OpenedAt(m, b, a, s[k].cell)) &&
    (forall r, c :: InField(m, r, c) && a[r][c] != b[r][c] ==> (r, c) in Cells(s)) &&
    (forall k :: 0 < k < |s| ==>
       0 <= s[k].from < k && ShowsZero(a, s[s[k].from].cell) &&
       Adjacent(s[s[k].from].cell.0, s[s[k].from].cell.1, s[k].cell.0, s[k].cell.1))
  }

  /** The order t of a fill from (row, col) followed by the order u of the
      recursive call on a neighbour: u's first square was opened from t's
      first square, and u's other links move past the end of t. */
  ghost function Graft(t: seq<Step>, u: seq<Step>): seq<Step> {
    t + seq(|u|, k requires 0 <= k < |u| => Step(u[k].cell, if k == 0 then 0 else u[k].from + |t|))
  }

  /** The entries of Graft(t, u): t's unchanged, then u's relinked. */
  lemma GraftAt(t: seq<Step>, u: seq<Step>)
    ensures var g := Graft(t, u);
      |g| == |t| + |u| &&
      (forall k :: 0 <= k < |t| ==> g[k] == t[k]) &&
      (forall k :: 0 <= k < |u| ==> g[|t| + k] == Step(u[k].cell, if k == 0 then 0 else u[k].from + |t|))
  {
  }

  lemma CellsGraft(t: seq<Step>, u: seq<Step>)
    ensures Cells(Graft(t, u)) == Cells(t) + Cells(u)
  {
    var g := Graft(t, u);
    GraftAt(t, u);
    forall p | p in Cells(t) + Cells(u) ensures p in Cells(g) {
      if p in Cells(t) {
        var k :| 0 <= k < |t| && t[k].cell == p;
        assert g[k].cell == p;
      } else {
        var k :| 0 <= k < |u| && u[k].cell == p;
        assert g[|t| + k].cell == p;
      }
    }
    forall p | p in Cells(g) ensures p in Cells(t) + Cells(u) {
      var k :| 0 <= k < |g| && g[k].cell == p;
      if k < |t| {
        assert t[k].cell == p;
      } else {
        assert u[k - |t|].cell == p;
      }
    }
  }

  /** What openAdjSquares(sr, sc) does to the grid b, leaving a, opening
      squares in the order s. */
  ghost predicate Filled(m: seq<seq<bool>>, b: seq<seq<int>>, a: seq<seq<int>>, sr: int, sc: int,
                         s: seq<Step>) {
    OnlyOpens(m, b, a) && Closed(m, b, a) && OpenOrder(m, b, a, sr, sc, s) &&
    SettledAt(a, sr, sc) &&
    (!(InField(b, sr, sc) && Openable(b[sr][sc])) ==> a == b)
  }

  /** A fill never makes a square openable again. */
  lemma OnlyOpensShrinks(m: seq<seq<bool>>, b: seq<seq<int>>, a: seq<seq<int>>)
    requires OnlyOpens(m, b, a)
    ensures OpenableCells(a) <= OpenableCells(b)
  {
    forall p: Cell | p in OpenableCells(a) ensures p in OpenableCells(b) {
      var (r, c) := p;
      assert InField(a, r, c) && Openable(a[r][c]);
      assert InField(m, r, c);
      assert a[r][c] == b[r][c];
    }
  }

  /** Around a mine-free square with no adjacent mine, no square of its
      3-by-3 block holds a mine: the recursive calls of the fill are safe. */
  lemma ZeroBlockSafe(m: seq<seq<bool>>, row: int, col: int, i: int, j: int)
    requires InField(m, row, col) && !m[row][col] && AdjacentMines(m, row, col) == 0
    requires row - 1 <= i <= row + 1 && col - 1 <= j <= col + 1
    ensures InField(m, i, j) ==> !m[i][j]
  {
    if InField(m, i, j) && (i != row || j != col) {
      AdjacentMinesZero(m, row, col);
      assert Adjacent(row, col, i, j);
    }
  }

  /** A start that is off the grid, uncovered or guessed leaves the grid as
      it is, which is a (trivial) fill that opens nothing. */
  lemma FillNothing(m: seq<seq<bool>>, b: seq<seq<int>>, row: int, col: int)
    requires SameShape(m, b) && !(InField(b, row, col) && Openable(b[row][col]))
    ensures Filled(m, b, b, row, col, [])
  {
  }

  /** Opening one openable, mine-free square to its count starts a fill
      whose order so far is that square alone. */
  lemma OpenOne(m: seq<seq<bool>>, b: seq<seq<int>>, row: int, col: int)
    requires SameShape(m, b) && InField(m, row, col)
    requires Openable(b[row][col]) && !m[row][col]
    ensures var a := b[row := b[row][col := AdjacentMines(m, row, col)]];
      OpenableCells(a) < OpenableCells(b) &&
      (AdjacentMines(m, row, col) > 0 ==> Filled(m, b, a, row, col, [Step((row, col), -1)])) &&
      (AdjacentMines(m, row, col) == 0 ==> Filling(m, b, a, row, col, row - 1, col - 1, [Step((row, col), -1)]))
  {
    var a := b[row := b[row][col := AdjacentMines(m, row, col)]];
    var s := [Step((row, col), -1)];
    assert forall r, c :: InField(m, r, c) && (r != row || c != col) ==> a[r][c] == b[r][c];
    OnlyOpensShrinks(m, b, a);
    assert (row, col) in OpenableCells(b) - OpenableCells(a);
    assert s[0].cell == (row, col);
  }

  /** One call of the fill loop: the squares opened before it (o to mid, in
      the order t) and by the call on (i, j), a neighbour of the start (mid to
      cur, in the order u), together still form a fill from (row, col), in
      the order Graft(t, u). */
  lemma {:induction false} FillCompose(m: seq<seq<bool>>, o: seq<seq<int>>, mid: seq<seq<int>>,
                                       cur: seq<seq<int>>, row: int, col: int, i: int, j: int,
                                       t: seq<Step>, u: seq<Step>)
    requires OnlyOpens(m, o, mid) && OnlyOpens(m, mid, cur)
    requires ClosedExcept(m, o, mid, row, col) && Closed(m, mid, cur)
    requires OpenOrder(m, o, mid, row, col, t) && OpenOrder(m, mid, cur, i, j, u)
    requires InField(m, row, col) && o[row][col] != mid[row][col] && mid[row][col] == 0
    requires row - 1 <= i <= row + 1 && col - 1 <= j <= col + 1
    ensures OnlyOpens(m, o, cur)
    ensures ClosedExcept(m, o, cur, row, col)
    ensures OpenOrder(m, o, cur, row, col, Graft(t, u))
    ensures cur[row][col] == 0
  {
    // A square opened between o and mid is settled in mid, so cur keeps it.
    forall r, c | InField(m, r, c) && mid[r][c] != o[r][c]
      ensures cur[r][c] == mid[r][c]
    {
      assert !Openable(mid[r][c]);
    }
    // A square opened between mid and cur was openable in mid, so o had it.
    forall r, c | InField(m, r, c) && cur[r][c] != mid[r][c]
      ensures mid[r][c] == o[r][c]
    {
    }
    forall r, c | InField(m, r, c)
      ensures (!Openable(o[r][c]) ==> cur[r][c] == o[r][c])
      ensures (cur[r][c] != o[r][c] ==> !m[r][c] && cur[r][c] == AdjacentMines(m, r, c))
    {
    }
    forall r, c | r != row || c != col ensures ZeroClosed(m, o, cur, r, c) {
      if InField(m, r, c) && cur[r][c] != o[r][c] && cur[r][c] == 0 {
        if mid[r][c] != o[r][c] {
          assert ZeroClosed(m, o, mid, r, c);
          forall r2, c2 | Adjacent(r, c, r2, c2) ensures SettledAt(cur, r2, c2) {
            assert SettledAt(mid, r2, c2);
            if InField(cur, r2, c2) { assert InField(m, r2, c2); }
          }
        } else {
          assert ZeroClosed(m, mid, cur, r, c);
        }
      }
    }
    GraftOrder(m, o, mid, cur, row, col, i, j, t, u);
  }

  /** The order part of FillCompose. */
  lemma GraftOrder(m: seq<seq<bool>>, o: seq<seq<int>>, mid: seq<seq<int>>,
                   cur: seq<seq<int>>, row: int, col: int, i: int, j: int,
                   t: seq<Step>, u: seq<Step>)
    requires OnlyOpens(m, o, mid) && OnlyOpens(m, mid, cur)
    requires OpenOrder(m, o, mid, row, col, t) && OpenOrder(m, mid, cur, i, j, u)
    requires InField(m, row, col) && o[row][col] != mid[row][col] && mid[row][col] == 0
    requires row - 1 <= i <= row + 1 && col - 1 <= j <= col + 1
    requires forall r, c :: InField(m, r, c) && mid[r][c] != o[r][c] ==> cur[r][c] == mid[r][c]
    requires forall r, c :: InField(m, r, c) && cur[r][c] != mid[r][c] ==> mid[r][c] == o[r][c]
    ensures OpenOrder(m, o, cur, row, col, Graft(t, u))
  {
    var g := Graft(t, u);
    GraftAt(t, u);
    CellsGraft(t, u);
    assert (row, col) in Cells(t);
    assert g[0] == t[0];
    forall k | 0 <= k < |g| ensures OpenedAt(m, o, cur, g[k].cell) {
      if k < |t| {
        assert OpenedAt(m, o, mid, t[k].cell);
      } else {
        assert OpenedAt(m, mid, cur, u[k - |t|].cell);
      }
    }
    forall r, c | InField(m, r, c) && cur[r][c] != o[r][c] ensures (r, c) in Cells(g) {
      if mid[r][c] != o[r][c] {
        assert (r, c) in Cells(t);
      } else {
        assert (r, c) in Cells(u);
      }
    }
    forall k | 0 < k < |g|
      ensures 0 <= g[k].from < k && ShowsZero(cur, g[g[k].from].cell)
      ensures Adjacent(g[g[k].from].cell.0, g[g[k].from].cell.1, g[k].cell.0, g[k].cell.1)
    {
      if k < |t| {
        assert OpenedAt(m, o, mid, t[t[k].from].cell);
      } else if k == |t| {
        // The call on (i, j) opened it, so (i, j) was openable in mid and is
        // not the start, which already shows 0.
        assert OpenedAt(m, mid, cur, u[0].cell);
        assert u[0].cell != (row, col);
      } else {
        var k2 := k - |t|;
        assert g[|t| + u[k2].from] == Step(u[u[k2].from].cell, if u[k2].from == 0 then 0 else u[u[k2].from].from + |t|);
      }
    }
  }

  /** The state of openAdjSquares(row, col) from grid o, the start opened
      with count 0, just before the call on (i, j) of its 3-by-3 block: a fill
      so far, in the order t, closed except maybe at the start, and every
      square of the block visited already is settled. */
  ghost predicate Filling(m: seq<seq<bool>>, o: seq<seq<int>>, a: seq<seq<int>>,
                          row: int, col: int, i: int, j: int, t: seq<Step>)
  {
    OnlyOpens(m, o, a) && ClosedExcept(m, o, a, row, col) && OpenOrder(m, o, a, row, col, t) &&
    InField(m, row, col) && o[row][col] != a[row][col] && a[row][col] == 0 &&
    forall r2, c2 :: ((row - 1 <= r2 < i && col - 1 <= c2 <= col + 1) || (r2 == i && col - 1 <= c2 < j)) ==>
      SettledAt(a, r2, c2)
  }

  /** The call on (i, j) keeps the fill going and settles (i, j). */
  lemma FillingStep(m: seq<seq<bool>>, o: seq<seq<int>>, mid: seq<seq<int>>, cur: seq<seq<int>>,
                    row: int, col: int, i: int, j: int, t: seq<Step>, u: seq<Step>)
    requires Filling(m, o, mid, row, col, i, j, t)
    requires Filled(m, mid, cur, i, j, u)
    requires row - 1 <= i <= row + 1 && col - 1 <= j <= col + 1
    ensures Filling(m, o, cur, row, col, i, j + 1, Graft(t, u))
    ensures OpenableCells(cur) <= OpenableCells(mid)
  {
    FillCompose(m, o, mid, cur, row, col, i, j, t, u);
    OnlyOpensShrinks(m, mid, cur);
    forall r2, c2 | SettledAt(mid, r2, c2) ensures SettledAt(cur, r2, c2) {
      if InField(cur, r2, c2) { assert InField(m, r2, c2); }
    }
  }

  lemma FillingNextRow(m: seq<seq<bool>>, o: seq<seq<int>>, a: seq<seq<int>>, row: int, col: int, i: int,
                       t: seq<Step>)
    requires Filling(m, o, a, row, col, i, col + 2, t)
    ensures Filling(m, o, a, row, col, i + 1, col - 1, t)
  {
  }

  /** With the whole block settled, the fill from an openable start is done. */
  lemma FillingDone(m: seq<seq<bool>>, o: seq<seq<int>>, a: seq<seq<int>>, row: int, col: int, t: seq<Step>)
    requires Filling(m, o, a, row, col, row + 2, col - 1, t)
    ensures Filled(m, o, a, row, col, t)
  {
    forall r, c ensures ZeroClosed(m, o, a, r, c) {
      if r != row || c != col { assert ZeroClosed(m, o, a, r, c); }
    }
  }

  /** Every square of an opening order is reached from the start: a chain of
      opened squares leads there from (sr, sc), each step leaving a square
      that shows 0 for one of its neighbours. */
  lemma {:induction false} ReachedFromStart(m: seq<seq<bool>>, b: seq<seq<int>>, a: seq<seq<int>>,
                                            sr: int, sc: int, s: seq<Step>, k: int)
    returns (path: seq<Cell>)
    requires SameShape(m, b) && SameShape(m, a) && OpenOrder(m, b, a, sr, sc, s)
    requires 0 <= k < |s|
    ensures |path| > 0 && path[0] == (sr, sc) && path[|path| - 1] == s[k].cell
    ensures forall n :: 0 <= n < |path| ==> OpenedAt(m, b, a, path[n])
    ensures forall n :: 0 <= n < |path| - 1 ==>
      ShowsZero(a, path[n]) && Adjacent(path[n].0, path[n].1, path[n + 1].0, path[n + 1].1)
    decreases k
  {
    if k == 0 {
      path := [s[0].cell];
    } else {
      var p := ReachedFromStart(m, b, a, sr, sc, s, s[k].from);
      path := p + [s[k].cell];
    }
  }

  /** The squares a fill opens are the ones connected to its start: each is
      reached from (sr, sc) through opened squares showing 0. */
  lemma FillConnected(m: seq<seq<bool>>, b: seq<seq<int>>, a: seq<seq<int>>,
                      sr: int, sc: int, s: seq<Step>, r: int, c: int)
    returns (path: seq<Cell>)
    requires Filled(m, b, a, sr, sc, s) && InField(m, r, c) && a[r][c] != b[r][c]
    ensures |path| > 0 && path[0] == (sr, sc) && path[|path| - 1] == (r, c)
    ensures forall n :: 0 <= n < |path| ==> OpenedAt(m, b, a, path[n])
    ensures forall n :: 0 <= n < |path| - 1 ==>
      ShowsZero(a, path[n]) && Adjacent(path[n].0, path[n].1, path[n + 1].0, path[n + 1].1)
  {
    assert (r, c) in Cells(s);
    var k :| 0 <= k < |s| && s[k].cell == (r, c);
    path := ReachedFromStart(m, b, a, sr, sc, s, k);
  }

  // ---------------------------------------------------------------------------
  // End of game.

  /** Status of a square after the loss pass of uncover. */
  function LossStatus(s: int, mine: bool): int {
    if s == MINE_GUESS && !mine then INCORRECT_GUESS
    else if (s == QUESTION || s == COVERED) && mine then MINE
    else s
  }

  /** The whole-grid rewrite made by uncovering the mine (row, col). */
  ghost predicate Detonated(m: seq<seq<bool>>, b: seq<seq<int>>, a: seq<seq<int>>, row: int, col: int)
    requires SameShape(m, b)
  {
    SameShape(m, a) &&
    forall r, c :: InField(m, r, c) ==>
      a[r][c] == if r == row && c == col then EXPLODED_MINE else LossStatus(b[r][c], m[r][c])
  }

  /** Status of a square after the win pass of isGameOver. */
  function WinStatus(s: int, mine: bool): int {
    if mine && !Uncovered(s) then MINE_GUESS else s
  }

  /** The whole-grid rewrite made by isGameOver on a win. */
  ghost predicate WinFlagged(m: seq<seq<bool>>, b: seq<seq<int>>, a: seq<seq<int>>)
    requires SameShape(m, b)
  {
    SameShape(m, a) &&
    forall r, c :: InField(m, r, c) ==> a[r][c] == WinStatus(b[r][c], m[r][c])
  }

  ghost predicate HasExploded(m: seq<seq<bool>>, g: seq<seq<int>>)
    requires SameShape(m, g)
  {
    exists r, c :: InField(m, r, c) && g[r][c] == EXPLODED_MINE
  }

  /** Every square without a mine is uncovered. */
  ghost predicate AllSafeUncovered(m: seq<seq<bool>>, g: seq<seq<int>>)
    requires SameShape(m, g)
  {
    forall r, c :: InField(m, r, c) && !m[r][c] ==> Uncovered(g[r][c])
  }

  ghost predicate AllStatuses(m: seq<seq<bool>>, g: seq<seq<int>>)
    requires SameShape(m, g)
  {
    forall r, c :: InField(m, r, c) ==> IsStatus(g[r][c])
  }

  /** After a loss the game is over, no mine is left covered or questioned,
      every incorrect-guess marker sits on a square without a mine, and all
      statuses stay in range. */
  lemma LossReveals(m: seq<seq<bool>>, b: seq<seq<int>>, a: seq<seq<int>>, row: int, col: int)
    requires SameShape(m, b) && AllStatuses(m, b) && InField(m, row, col)
    requires Detonated(m, b, a, row, col)
    ensures HasExploded(m, a) && AllStatuses(m, a)
    ensures forall r, c :: InField(m, r, c) && m[r][c] ==> a[r][c] != COVERED && a[r][c] != QUESTION
    ensures forall r, c :: InField(m, r, c) && a[r][c] == INCORRECT_GUESS && b[r][c] != INCORRECT_GUESS ==> !m[r][c]
  {
    assert a[row][col] == EXPLODED_MINE;
  }

  /** A won grid stays won: after the win pass no safe square is covered,
      nothing has exploded, and a second pass changes nothing, so isGameOver
      keeps answering true without further effect. */
  lemma WinIsStable(m: seq<seq<bool>>, b: seq<seq<int>>, a: seq<seq<int>>)
    requires SameShape(m, b) && AllStatuses(m, b)
    requires !HasExploded(m, b) && AllSafeUncovered(m, b)
    requires WinFlagged(m, b, a)
    ensures AllStatuses(m, a) && !HasExploded(m, a) && AllSafeUncovered(m, a)
    ensures WinFlagged(m, a, a)
    ensures forall r, c :: InField(m, r, c) ==> Uncovered(a[r][c]) || a[r][c] == MINE_GUESS
  {
    forall r, c | InField(m, r, c) ensures a[r][c] != EXPLODED_MINE {
      assert b[r][c] != EXPLODED_MINE;
    }
  }

  // ---------------------------------------------------------------------------

  class VisibleField {
    /** The layout this display covers; its methods never change it. */
    var mineField: MineField
    var gameMatrix: array2<int>
    /** The mine field's declared count, copied at construction. */
    var numMines: int
    var numMinesGuessed: int

    /** The display as a value: Status[r][c] is the status of (r, c). */
    ghost var Status: seq<seq<int>>

    ghost predicate Valid()
      reads this, gameMatrix, mineField, mineField.mineFieldMatrix
    {
      mineField.Valid() &&
      gameMatrix.Length0 == mineField.numRows && gameMatrix.Length1 == mineField.numCols &&
      numMines == mineField.numMines &&
      IsRect(Status, mineField.numRows, mineField.numCols) &&
      (forall r, c :: 0 <= r < mineField.numRows && 0 <= c < mineField.numCols ==>
         Status[r][c] == gameMatrix[r, c] && IsStatus(Status[r][c]))
    }

    lemma Shape()
      requires Valid()
      ensures SameShape(mineField.Mines, Status) && AllStatuses(mineField.Mines, Status)
      ensures forall r, c :: InField(mineField.Mines, r, c) <==> mineField.InRange(r, c)
    {
    }

    /** A display of mineField with every square covered and no guesses. */
    constructor (mineField: MineField)
      requires mineField.Valid()
      ensures Valid() && fresh(gameMatrix)
      ensures this.mineField == mineField && numMinesGuessed == 0
      ensures numMines == mineField.numMines
      ensures forall r, c :: InField(Status, r, c) ==> Status[r][c] == COVERED
    {
      this.mineField := mineField;
      numMines := mineField.NumMines();
      var rows, cols := mineField.NumRows(), mineField.NumCols();
      gameMatrix := new int[rows, cols]((_, _) => 0);
      numMinesGuessed := 0;
      Status := seq(rows, _ => seq(cols, _ => 0));
      new;
      ResetGameDisplay();
    }

    /** Writes one square, keeping Status in step with the array. */
    method SetStatus(row: int, col: int, s: int)
      requires Valid() && mineField.InRange(row, col) && IsStatus(s)
      modifies gameMatrix, this`Status
      ensures Valid()
      ensures Status == old(Status[row := Status[row][col := s]])
    {
      gameMatrix[row, col] := s;
      Status := Status[row := Status[row][col := s]];
    }

    /** Covers every square again.  The guess counter is left as it was. */
    method ResetGameDisplay()
      requires Valid()
      modifies gameMatrix, this`Status
      ensures Valid()
      ensures forall r, c :: InField(Status, r, c) ==> Status[r][c] == COVERED
      ensures numMinesGuessed == old(numMinesGuessed)
    {
      var row := 0;
      while row < mineField.NumRows()
        invariant 0 <= row <= mineField.numRows
        invariant Valid()
        invariant forall r, c :: 0 <= r < row && 0 <= c < mineField.numCols ==> Status[r][c] == COVERED
      {
        var col := 0;
        while col < mineField.NumCols()
          invariant 0 <= col <= mineField.numCols
          invariant Valid()
          invariant forall r, c :: 0 <= r < row && 0 <= c < mineField.numCols ==> Status[r][c] == COVERED
          invariant forall c :: 0 <= c < col ==> Status[row][c] == COVERED
        {
          SetStatus(row, col, COVERED);
          col := col + 1;
        }
        row := row + 1;
      }
    }

    /** The status of (row, col): one of the twelve states. */
    function GetStatus(row: int, col: int): (s: int)
      reads this, gameMatrix, mineField, mineField.mineFieldMatrix
      requires Valid() && mineField.InRange(row, col)
      ensures s == Status[row][col] && IsStatus(s)
    {
      gameMatrix[row, col]
    }

    /** Mines left to guess: the declared count minus the guesses made, which
        is negative once more squares are guessed than there are mines. */
    function NumMinesLeft(): (n: int)
      reads this, gameMatrix, mineField, mineField.mineFieldMatrix
      requires Valid()
      ensures n == mineField.numMines - numMinesGuessed
    {
      numMines - numMinesGuessed
    }

    /** Moves a covered square along COVERED, MINE_GUESS, QUESTION and back,
        updating the guess counter; an uncovered square is left alone. */
    method CycleGuess(row: int, col: int)
      requires Valid() && mineField.InRange(row, col)
      modifies gameMatrix, this`Status, this`numMinesGuessed
      ensures Valid()
      ensures Status == old(Status[row := Status[row][col := CycleStatus(Status[row][col])]])
      ensures numMinesGuessed == old(numMinesGuessed + CycleCount(Status[row][col]))
    {
      if GetStatus(row, col) == COVERED {
        SetStatus(row, col, MINE_GUESS);
        numMinesGuessed := numMinesGuessed + 1;
      } else if GetStatus(row, col) == MINE_GUESS {
        SetStatus(row, col, QUESTION);
        numMinesGuessed := numMinesGuessed - 1;
      } else if GetStatus(row, col) == QUESTION {
        SetStatus(row, col, COVERED);
      } else {
        assert Status[row][col := Status[row][col]] == Status[row];
        assert Status[row := Status[row]] == Status;
        return;   // an uncovered square is not touched
      }
    }

    /** Uncovers (row, col) and answers whether it was safe.  On a mine, even
        a guessed one, the loss pass rewrites the grid; otherwise the flood
        fill opens the region around it, in the order `order`. */
    method Uncover(row: int, col: int) returns (safe: bool, ghost order: seq<Step>)
      requires Valid() && mineField.InRange(row, col)
      modifies gameMatrix, this`Status
      ensures Valid()
      ensures safe == !mineField.Mines[row][col]
      ensures !safe ==> Detonated(mineField.Mines, old(Status), Status, row, col)
      ensures safe ==> Filled(mineField.Mines, old(Status), Status, row, col, order)
    {
      Shape();
      if mineField.HasMine(row, col) {
        Detonate(row, col);
        return false, [];
      } else {
        order := OpenAdjSquares(row, col);
        return true, order;
      }
    }

    /** The loss pass of uncover on the mine (row, col): it explodes, every
        guessed square without a mine is marked as an incorrect guess, and
        every covered or questioned mine is shown. */
    method Detonate(row: int, col: int)
      requires Valid() && mineField.InRange(row, col) && mineField.Mines[row][col]
      modifies gameMatrix, this`Status
      ensures Valid()
      ensures SameShape(mineField.Mines, old(Status))
      ensures Detonated(mineField.Mines, old(Status), Status, row, col)
    {
      Shape();
      SetStatus(row, col, EXPLODED_MINE);
      ghost var exploded := Status;
      ghost var m := mineField.Mines;
      var i := 0;
      while i < mineField.NumRows()
        invariant 0 <= i <= mineField.numRows
        invariant Valid()
        invariant forall r, c :: InField(m, r, c) ==>
          Status[r][c] == if r < i then LossStatus(exploded[r][c], m[r][c]) else exploded[r][c]
      {
        var j := 0;
        while j < mineField.NumCols()
          invariant 0 <= j <= mineField.numCols
          invariant Valid()
          invariant forall r, c :: InField(m, r, c) ==>
            Status[r][c] == if r < i || (r == i && c < j) then LossStatus(exploded[r][c], m[r][c])
                            else exploded[r][c]
        {
          RevealSquare(i, j);
          j := j + 1;
        }
        i := i + 1;
      }
    }

    /** One square of the loss pass: a guess without a mine becomes an
        incorrect guess, a covered or questioned mine is shown. */
    method RevealSquare(i: int, j: int)
      requires Valid() && mineField.InRange(i, j)
      modifies gameMatrix, this`Status
      ensures Valid()
      ensures Status == old(Status[i := Status[i][j := LossStatus(Status[i][j], mineField.Mines[i][j])]])
    {
      var status, mine := GetStatus(i, j), mineField.HasMine(i, j);
      if status == MINE_GUESS && !mine {
        SetStatus(i, j, INCORRECT_GUESS);
      } else if (status == QUESTION || status == COVERED) && mine {
        SetStatus(i, j, MINE);
      } else {
        assert Status[i][j := Status[i][j]] == Status[i];
        assert Status[i := Status[i]] == Status;
      }
    }

    /** Whether the game is over: true at once if a mine has exploded; false
        while a square without a mine is still covered; otherwise the game is
        won, and before answering true every covered mine square is turned
        into a guess (without counting those guesses). */
    method IsGameOver() returns (over: bool)
      requires Valid()
      modifies gameMatrix, this`Status
      ensures Valid()
      ensures SameShape(mineField.Mines, old(Status))
      ensures HasExploded(mineField.Mines, old(Status)) ==> over && Status == old(Status)
      ensures !HasExploded(mineField.Mines, old(Status)) && !AllSafeUncovered(mineField.Mines, old(Status)) ==>
                !over && Status == old(Status)
      ensures !HasExploded(mineField.Mines, old(Status)) && AllSafeUncovered(mineField.Mines, old(Status)) ==>
                over && WinFlagged(mineField.Mines, old(Status), Status)
    {
      Shape();
      var exploded := AnyExploded();
      if exploded {
        return true;
      }
      var allOpen := AllSafeOpen();
      if !allOpen {
        return false;
      }
      FlagMines();
      return true;
    }

    /** The first pass of isGameOver: whether some square shows an exploded
        mine. */
    method AnyExploded() returns (found: bool)
      requires Valid()
      ensures SameShape(mineField.Mines, Status)
      ensures found <==> HasExploded(mineField.Mines, Status)
    {
      Shape();
      ghost var m := mineField.Mines;
      var row := 0;
      while row < mineField.NumRows()
        invariant 0 <= row <= mineField.numRows
        invariant forall r, c :: InField(m, r, c) && r < row ==> Status[r][c] != EXPLODED_MINE
      {
        var col := 0;
        while col < mineField.NumCols()
          invariant 0 <= col <= mineField.numCols
          invariant forall r, c :: InField(m, r, c) && (r < row || (r == row && c < col)) ==>
                      Status[r][c] != EXPLODED_MINE
        {
          if gameMatrix[row, col] == EXPLODED_MINE {
            assert InField(m, row, col) && Status[row][col] == EXPLODED_MINE;
            return true;
          }
          col := col + 1;
        }
        row := row + 1;
      }
      return false;
    }

    /** The second pass of isGameOver: whether every square without a mine
        is uncovered. */
    method AllSafeOpen() returns (all: bool)
      requires Valid()
      ensures SameShape(mineField.Mines, Status)
      ensures all <==> AllSafeUncovered(mineField.Mines, Status)
    {
      Shape();
      ghost var m := mineField.Mines;
      var row := 0;
      while row < mineField.NumRows()
        invariant 0 <= row <= mineField.numRows
        invariant forall r, c :: InField(m, r, c) && r < row ==> m[r][c] || Uncovered(Status[r][c])
      {
        var col := 0;
        while col < mineField.NumCols()
          invariant 0 <= col <= mineField.numCols
          invariant forall r, c :: InField(m, r, c) && (r < row || (r == row && c < col)) ==>
                      m[r][c] || Uncovered(Status[r][c])
        {
          if !mineField.HasMine(row, col) && !IsUncovered(row, col) {
            assert InField(m, row, col) && !m[row][col] && !Uncovered(Status[row][col]);
            return false;
          }
          col := col + 1;
        }
        row := row + 1;
      }
      return true;
    }

    /** The last pass of isGameOver on a win: every mine square not
        uncovered becomes a guess; the guess counter is not touched. */
    method FlagMines()
      requires Valid()
      modifies gameMatrix, this`Status
      ensures Valid()
      ensures SameShape(mineField.Mines, old(Status))
      ensures WinFlagged(mineField.Mines, old(Status), Status)
    {
      Shape();
      ghost var m := mineField.Mines;
      ghost var won := Status;
      var row := 0;
      while row < mineField.NumRows()
        invariant 0 <= row <= mineField.numRows
        invariant Valid()
        invariant forall r, c :: InField(m, r, c) ==>
          Status[r][c] == if r < row then WinStatus(won[r][c], m[r][c]) else won[r][c]
      {
        var col := 0;
        while col < mineField.NumCols()
          invariant 0 <= col <= mineField.numCols
          invariant Valid()
          invariant forall r, c :: InField(m, r, c) ==>
            Status[r][c] == if r < row || (r == row && c < col) then WinStatus(won[r][c], m[r][c])
                            else won[r][c]
        {
          if mineField.HasMine(row, col) && !IsUncovered(row, col) {
            SetStatus(row, col, MINE_GUESS);
          }
          col := col + 1;
        }
        row := row + 1;
      }
    }

    /** Whether (row, col) is in one of the uncovered states rather than one
        of the three covered ones. */
    predicate IsUncovered(row: int, col: int): (u: bool)
      reads this, gameMatrix, mineField, mineField.mineFieldMatrix
      requires Valid() && mineField.InRange(row, col)
      ensures u <==> Status[row][col] != COVERED && Status[row][col] != MINE_GUESS && Status[row][col] != QUESTION
    {
      gameMatrix[row, col] > COVERED
    }

    /** The flood fill from (row, col): stops outside the field and at
        uncovered or guessed squares; otherwise opens the square to its count
        and, when that count is 0, visits all nine squares of its block.
        `order` lists the squares it opens, in the order it opens them. */
    method OpenAdjSquares(row: int, col: int) returns (ghost order: seq<Step>)
      requires Valid()
      requires mineField.InRange(row, col) ==> !mineField.Mines[row][col]
      modifies gameMatrix, this`Status
      decreases OpenableCells(Status), 0
      ensures Valid()
      ensures Filled(mineField.Mines, old(Status), Status, row, col, order)
    {
      Shape();
      ghost var m := mineField.Mines;
      if !mineField.InRange(row, col) || IsUncovered(row, col) || gameMatrix[row, col] == MINE_GUESS {
        FillNothing(m, Status, row, col);
        return [];
      }

      var numAdjMines := mineField.NumAdjacentMines(row, col);
      OpenOne(m, Status, row, col);
      SetStatus(row, col, numAdjMines);
      order := [Step((row, col), -1)];
      if numAdjMines > 0 {
        return;
      }
      order := OpenBlock(row, col, old(Status), order);
    }

    /** The loop of openAdjSquares over the 3-by-3 block of a start that it
        has just opened with count 0: one recursive call per square, row by
        row, from the grid o it started on and the order t so far. */
    method OpenBlock(row: int, col: int, ghost o: seq<seq<int>>, ghost t: seq<Step>)
      returns (ghost order: seq<Step>)
      requires Valid() && Filling(mineField.Mines, o, Status, row, col, row - 1, col - 1, t)
      modifies gameMatrix, this`Status
      decreases OpenableCells(Status), 1
      ensures Valid() && Filled(mineField.Mines, o, Status, row, col, order)
    {
      ghost var m := mineField.Mines;
      order := t;
      var i := row - 1;
      while i <= row + 1
        invariant row - 1 <= i <= row + 2
        invariant Valid() && mineField.Mines == m
        invariant Filling(m, o, Status, row, col, i, col - 1, order)
        invariant OpenableCells(Status) <= old(OpenableCells(Status))
      {
        var j := col - 1;
        while j <= col + 1
          invariant col - 1 <= j <= col + 2
          invariant Valid() && mineField.Mines == m
          invariant Filling(m, o, Status, row, col, i, j, order)
          invariant OpenableCells(Status) <= old(OpenableCells(Status))
        {
          ghost var before := Status;
          ZeroBlockSafe(m, row, col, i, j);
          ghost var sub := OpenAdjSquares(i, j);
          FillingStep(m, o, before, Status, row, col, i, j, order, sub);
          order := Graft(order, sub);
          j := j + 1;
        }
        FillingNextRow(m, o, Status, row, col, i, order);
        i := i + 1;
      }
      FillingDone(m, o, Status, row, col, order);
    }
  }
}
