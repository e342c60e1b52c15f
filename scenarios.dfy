/** Clients of the model: games a caller can follow using nothing but the
    contracts of MineField and VisibleField. */
module Scenarios {
  import opened Field
  import opened Visible

  /** The one-mine map [[mine, -], [-, -]]. */
  function SmallMap(): seq<seq<bool>> {
    [[true, false], [false, false]]
  }

  lemma SmallMapMines()
    ensures MineCells(SmallMap()) == {(0, 0)} && MineCount(SmallMap()) == 1
  {
    var m := SmallMap();
    forall p: Cell | p in MineCells(m) ensures p == (0, 0) {
      var (r, c) := p;
      assert m[r][c];
    }
    assert (0, 0) in MineCells(m);
  }

  /** A display of SmallMap whose mine square is covered and whose other
      squares are covered or show 1. */
  ghost predicate Plausible(g: seq<seq<int>>) {
    SameShape(SmallMap(), g) && g[0][0] == COVERED &&
    forall r, c :: InField(g, r, c) && (r != 0 || c != 0) ==> g[r][c] == COVERED || g[r][c] == 1
  }

  lemma SmallCount(r: int, c: int)
    requires InField(SmallMap(), r, c) && (r != 0 || c != 0)
    ensures !SmallMap()[r][c] && AdjacentMines(SmallMap(), r, c) == 1
  {
    if r == 0 {
      assert c == 1;
    } else if c == 0 {
      assert r == 1;
    } else {
      assert r == 1 && c == 1;
    }
  }

  /** Opening a safe square of SmallMap shows 1 there and keeps every shown
      number. */
  lemma UncoverSmall(b: seq<seq<int>>, a: seq<seq<int>>, row: int, col: int, s: seq<Step>)
    requires Plausible(b) && InField(b, row, col) && (row != 0 || col != 0)
    requires OnlyOpens(SmallMap(), b, a) && SettledAt(a, row, col)
    ensures Plausible(a) && a[row][col] == 1
    ensures forall r, c :: InField(b, r, c) && b[r][c] == 1 ==> a[r][c] == 1
  {
    var m := SmallMap();
    assert InField(m, 0, 0) && m[0][0];
    assert a[0][0] == b[0][0];
    forall r, c | InField(a, r, c) && (r != 0 || c != 0) ensures a[r][c] == COVERED || a[r][c] == 1 {
      assert InField(m, r, c);
      SmallCount(r, c);
      assert a[r][c] == b[r][c] || a[r][c] == AdjacentMines(m, r, c);
    }
    forall r, c | InField(b, r, c) && b[r][c] == 1 ensures a[r][c] == 1 {
      assert InField(m, r, c) && !Openable(b[r][c]);
    }
  }


  /** A display of SmallMap showing 1 on its three safe squares is a win in
      waiting: nothing exploded, every safe square uncovered. */
  lemma SmallWon(g: seq<seq<int>>)
    requires Plausible(g) && g[0][1] == 1 && g[1][0] == 1 && g[1][1] == 1
    ensures !HasExploded(SmallMap(), g) && AllSafeUncovered(SmallMap(), g)
  {
    forall r, c | InField(SmallMap(), r, c) && !SmallMap()[r][c] ensures Uncovered(g[r][c]) {
      SmallCount(r, c);
    }
  }

  /** On the map [[mine, -], [-, -]] each safe square opens to 1; once all
      three are open the game is won and the mine is flagged. */
  method WinOnSmallMap() {
    var field := new MineField.FromData(SmallMap());
    var display := new VisibleField(field);
    SmallMapMines();
    OpenSafe(display, 0, 1);
    OpenSafe(display, 1, 0);
    OpenSafe(display, 1, 1);
    ghost var g := display.Status;
    SmallWon(g);
    var over := display.IsGameOver();
    assert over && WinFlagged(SmallMap(), g, display.Status);
    assert display.Status[0][0] == MINE_GUESS && display.NumMinesLeft() == 1;
  }

  /** Uncovers the safe square (row, col) of a SmallMap display. */
  method OpenSafe(display: VisibleField, row: int, col: int)
    requires display.Valid() && display.mineField.Mines == SmallMap() && Plausible(display.Status)
    requires InField(SmallMap(), row, col) && (row != 0 || col != 0)
    modifies display.gameMatrix, display`Status
    ensures display.Valid() && Plausible(display.Status) && display.Status[row][col] == 1
    ensures forall r, c :: InField(SmallMap(), r, c) && old(display.Status[r][c]) == 1 ==> display.Status[r][c] == 1
  {
    display.Shape();
    ghost var b := display.Status;
    var safe, order := display.Uncover(row, col);
    UncoverSmall(b, display.Status, row, col, order);
  }

  /** On the same map, uncovering the mine loses at once; no other square
      changes, since nothing was guessed. */
  method LossOnSmallMap() {
    var field := new MineField.FromData(SmallMap());
    var display := new VisibleField(field);
    var safe, order := display.Uncover(0, 0);
    assert !safe && display.Status[0][0] == EXPLODED_MINE;
    assert display.Status[0][1] == COVERED && display.Status[1][0] == COVERED && display.Status[1][1] == COVERED;
    var over := display.IsGameOver();
    assert over;
  }

  /** Guessing three squares of a one-mine field leaves -2 mines to guess;
      covering the display again does not reset that count. */
  method OverGuessing() {
    var field := new MineField.FromData(SmallMap());
    var display := new VisibleField(field);
    SmallMapMines();
    display.CycleGuess(0, 1);
    display.CycleGuess(1, 0);
    display.CycleGuess(1, 1);
    assert display.NumMinesLeft() == -2;
    display.ResetGameDisplay();
    assert display.Status[0][1] == COVERED && display.NumMinesLeft() == -2;
  }

  /** Three guesses on a covered square bring it back, counter included. */
  method GuessCycle() {
    var field := new MineField.FromData(SmallMap());
    var display := new VisibleField(field);
    display.CycleGuess(0, 0);
    assert display.Status[0][0] == MINE_GUESS && display.numMinesGuessed == 1;
    display.CycleGuess(0, 0);
    assert display.Status[0][0] == QUESTION && display.numMinesGuessed == 0;
    display.CycleGuess(0, 0);
    assert display.Status[0][0] == COVERED && display.numMinesGuessed == 0;
  }

  /** Deferred population, as the game board does it: the display of an
      empty 2-by-2 field with one declared mine exists first; the field is
      then populated around the first click (1, 1) with a generator that first
      yields the avoided square and then (0, 0).  The display stays valid, as
      populating changes neither the dimensions nor the declared count, and
      the first click is safe. */
  method PopulateAroundFirstClick() {
    var field := new MineField.Empty(2, 2, 1);
    var display := new VisibleField(field);
    ghost var draws := [(1, 1), (0, 0)];
    assert Accepted(draws, (1, 1)) == {(0, 0)} by {
      assert draws[..1] == [(1, 1)] && [(1, 1)][..0] == [];
    }
    field.PopulateMineField(1, 1, [(1, 1), (0, 0)]);
    assert MineCells(field.Mines) == {(0, 0)};
    assert display.Valid();
    var safe, order := display.Uncover(1, 1);
    assert safe;
  }

  /** A one-row field of three squares without mines. */
  ghost predicate IsLane(m: seq<seq<bool>>) {
    |m| == 1 && |m[0]| == 3 && forall c :: 0 <= c < 3 ==> !m[0][c]
  }

  /** A lane display with its middle square guessed, the others covered. */
  function GuessedLane(): seq<seq<int>> {
    [[COVERED, MINE_GUESS, COVERED]]
  }

  lemma LaneCount(m: seq<seq<bool>>, c: int)
    requires IsLane(m) && 0 <= c < 3
    ensures AdjacentMines(m, 0, c) == 0
  {
    AdjacentMinesZero(m, 0, c);
  }

  /** From (0, 0) of the guessed lane, the fill opens (0, 0) to 0 and stops
      at the guess. */
  lemma LaneFill(m: seq<seq<bool>>)
    requires IsLane(m)
    ensures Filled(m, GuessedLane(), [[0, MINE_GUESS, COVERED]], 0, 0, [Step((0, 0), -1)])
  {
    var b, a := GuessedLane(), [[0, MINE_GUESS, COVERED]];
    var s := [Step((0, 0), -1)];
    LaneCount(m, 0);
    forall r, c | InField(m, r, c) && a[r][c] != b[r][c] ensures r == 0 && c == 0 {
    }
    assert OnlyOpens(m, b, a);
    forall r, c ensures ZeroClosed(m, b, a, r, c) {
      if InField(m, r, c) && a[r][c] != b[r][c] && a[r][c] == 0 {
        assert r == 0 && c == 0;
        forall r2, c2 | Adjacent(r, c, r2, c2) && InField(a, r2, c2) ensures !Openable(a[r2][c2]) {
          assert r2 == 0 && c2 == 1;
        }
      }
    }
    assert s[0].cell == (0, 0);
    assert OpenOrder(m, b, a, 0, 0, s);
  }

  /** On a one-row field, a guessed square at column g walls off a fill
      started to its left: no square to the right of the guess changes. */
  lemma {:induction false} GuessWallsFill(m: seq<seq<bool>>, b: seq<seq<int>>, a: seq<seq<int>>,
                                          sc: int, s: seq<Step>, g: int, c: int)
    requires Filled(m, b, a, 0, sc, s) && |m| == 1
    requires 0 <= sc < g < c < |m[0]| && b[0][g] == MINE_GUESS
    ensures a[0][c] == b[0][c]
  {
    assert OnlyOpens(m, b, a);
    assert |a[0]| == |b[0]| == |m[0]|;
    assert InField(m, 0, g) && !Openable(b[0][g]);
    assert a[0][g] == b[0][g];
    if a[0][c] != b[0][c] {
      var path := FillConnected(m, b, a, 0, sc, s, 0, c);
      var n := 0;
      while n < |path| - 1
        invariant 0 <= n < |path| && path[n].1 < g
      {
        var p := path[n + 1];
        assert OpenedAt(m, b, a, p) && Adjacent(path[n].0, path[n].1, p.0, p.1);
        assert p.0 == 0 && p.1 <= g;
        assert a[0][p.1] != b[0][p.1];
        assert p.1 != g;
        n := n + 1;
      }
      assert false;
    }
  }

  /** On the guessed lane that fill is the only one: no opening order lets a
      fill from (0, 0) pass the guess and open the square behind it. */
  lemma GuessStopsFill(m: seq<seq<bool>>, a: seq<seq<int>>, s: seq<Step>)
    requires IsLane(m) && Filled(m, GuessedLane(), a, 0, 0, s)
    ensures a == [[0, MINE_GUESS, COVERED]]
  {
    var b := GuessedLane();
    GuessWallsFill(m, b, a, 0, s, 1, 2);
    assert OnlyOpens(m, b, a) && SettledAt(a, 0, 0);
    assert |a| == 1 && |a[0]| == 3;
    LaneCount(m, 0);
    assert InField(m, 0, 0) && InField(m, 0, 1);
    assert a[0][0] != b[0][0];
    assert a[0] == [0, MINE_GUESS, COVERED];
  }
}
