/** Model of MineField.java: where the mines of one Minesweeper game lie.

    The Java class keeps a rectangular `boolean[][]` grid and a declared mine
    count.  Here the grid is an `array2<bool>`; the ghost field `Mines` is the
    same grid as a value, tied to the array by `Valid()`, so that contracts and
    lemmas can speak about the layout as a sequence of rows. */
module Field {

  /** A grid location, (row, column), both counted from 0. */
  type Cell = (int, int)

  /** (r, c) indexes an element of g. */
  predicate InField<T>(g: seq<seq<T>>, r: int, c: int) {
    0 <= r < |g| && 0 <= c < |g[r]|
  }

  /** g has `rows` rows of `cols` elements each. */
  predicate IsRect<T>(g: seq<seq<T>>, rows: int, cols: int) {
    |g| == rows && forall r :: 0 <= r < rows ==> |g[r]| == cols
  }

  /** (r2, c2) is one of the eight cells around (r, c), diagonals included. */
  predicate Adjacent(r: int, c: int, r2: int, c2: int) {
    r - 1 <= r2 <= r + 1 && c - 1 <= c2 <= c + 1 && (r2 != r || c2 != c)
  }

  /** 1 if (r, c) is inside the field and holds a mine, 0 otherwise. */
  function MineAt(m: seq<seq<bool>>, r: int, c: int): nat {
    if InField(m, r, c) && m[r][c] then 1 else 0
  }

  /** The number of mines on the eight neighbours of (r, c) that lie inside
      the field; (r, c) itself is not one of them. */
  function AdjacentMines(m: seq<seq<bool>>, r: int, c: int): nat {
    MineAt(m, r - 1, c - 1) + MineAt(m, r - 1, c) + MineAt(m, r - 1, c + 1) +
    MineAt(m, r, c - 1)                           + MineAt(m, r, c + 1) +
    MineAt(m, r + 1, c - 1) + MineAt(m, r + 1, c) + MineAt(m, r + 1, c + 1)
  }

  /** The cells that hold a mine. */
  ghost function MineCells(m: seq<seq<bool>>): set<Cell> {
    set r, c | 0 <= r < |m| && 0 <= c < |m[r]| && m[r][c] :: (r, c)
  }

  /** The number of mines actually on the grid. */
  ghost function MineCount(m: seq<seq<bool>>): nat {
    |MineCells(m)|
  }

  /** No cell of m holds a mine. */
  ghost predicate NoMines(m: seq<seq<bool>>) {
    forall r, c :: InField(m, r, c) ==> !m[r][c]
  }

  /** The all-empty grid of the given dimensions. */
  function EmptyGrid(rows: nat, cols: nat): (m: seq<seq<bool>>)
    ensures IsRect(m, rows, cols) && NoMines(m)
  {
    seq(rows, _ => seq(cols, _ => false))
  }

  // ---------------------------------------------------------------------------
  // Counting mines cell by cell, in the order of the constructor's loops.

  /** The mines of m on the cells that precede (row, col) in row-major order. */
  ghost function MinesBefore(m: seq<seq<bool>>, row: int, col: int): set<Cell> {
    set r, c | 0 <= r < |m| && 0 <= c < |m[r]| && (r < row || (r == row && c < col)) && m[r][c] :: (r, c)
  }

  lemma MinesBeforeStep(m: seq<seq<bool>>, row: int, col: int)
    requires InField(m, row, col)
    ensures (row, col) !in MinesBefore(m, row, col)
    ensures MinesBefore(m, row, col + 1) ==
            MinesBefore(m, row, col) + (if m[row][col] then {(row, col)} else {})
  {
    var now, next := MinesBefore(m, row, col), MinesBefore(m, row, col + 1);
    var add: set<Cell> := if m[row][col] then {(row, col)} else {};
    forall p: Cell | p in next ensures p in now + add {
      var (r, c) := p;
      if r == row && c == col { assert m[row][col]; } else { assert p in now; }
    }
    forall p: Cell | p in now + add ensures p in next {
      var (r, c) := p;
      if p in add { assert InField(m, r, c) && m[r][c]; }
    }
  }

  lemma MinesBeforeRowEnd(m: seq<seq<bool>>, row: int)
    requires 0 <= row < |m|
    ensures MinesBefore(m, row, |m[row]|) == MinesBefore(m, row + 1, 0)
  {
    var a, b := MinesBefore(m, row, |m[row]|), MinesBefore(m, row + 1, 0);
    forall p: Cell | p in b ensures p in a {
      var (r, c) := p;
      assert InField(m, r, c) && (r < row || r == row) && m[r][c];
    }
  }

  lemma MinesBeforeAll(m: seq<seq<bool>>)
    ensures MinesBefore(m, |m|, 0) == MineCells(m)
  {
    var a, b := MinesBefore(m, |m|, 0), MineCells(m);
    forall p: Cell | p in b ensures p in a {
      var (r, c) := p;
      assert InField(m, r, c) && r < |m| && m[r][c];
    }
  }

  /** Placing a mine on an empty cell adds exactly that cell to the mine set,
      so the number of mines on the grid goes up by one. */
  lemma {:induction false} PlaceMine(m: seq<seq<bool>>, r: int, c: int)
    requires InField(m, r, c) && !m[r][c]
    ensures MineCells(m[r := m[r][c := true]]) == MineCells(m) + {(r, c)}
    ensures MineCount(m[r := m[r][c := true]]) == MineCount(m) + 1
  {
    var m' := m[r := m[r][c := true]];
    forall p: Cell | p in MineCells(m') ensures p in MineCells(m) + {(r, c)} {
      var (r2, c2) := p;
      assert InField(m', r2, c2) && m'[r2][c2];
      if p != (r, c) { assert InField(m, r2, c2) && m[r2][c2]; }
    }
    forall p: Cell | p in MineCells(m) + {(r, c)} ensures p in MineCells(m') {
      var (r2, c2) := p;
      if p != (r, c) { assert InField(m, r2, c2) && m[r2][c2]; }
      assert InField(m', r2, c2) && m'[r2][c2];
    }
    assert (r, c) !in MineCells(m);
  }

  /** A grid without mines has a mine count of zero. */
  lemma NoMinesCount(m: seq<seq<bool>>)
    requires NoMines(m)
    ensures MineCells(m) == {} && MineCount(m) == 0
  {
    forall p: Cell ensures p !in MineCells(m) {
      var (r, c) := p;
      if InField(m, r, c) { assert !m[r][c]; }
    }
  }

  // ---------------------------------------------------------------------------
  // The random draws of populateMineField.

  /** The distinct cells other than `avoid` among `draws`: the cells that the
      rejection loop of populateMineField accepts when the generator yields
      `draws` and the loop keeps going. */
  ghost function Accepted(draws: seq<Cell>, avoid: Cell): set<Cell> {
    if draws == [] then {}
    else Accepted(draws[..|draws| - 1], avoid) +
         (if draws[|draws| - 1] == avoid then {} else {draws[|draws| - 1]})
  }

  // ---------------------------------------------------------------------------
  // The 3-by-3 scan of numAdjacentMines.

  /** Mines on (r, c0), ..., (r, c1 - 1), counting only cells inside the field. */
  function RowMines(m: seq<seq<bool>>, r: int, c0: int, c1: int): nat
    decreases c1 - c0
  {
    if c1 <= c0 then 0 else RowMines(m, r, c0, c1 - 1) + MineAt(m, r, c1 - 1)
  }

  /** Mines on rows r0, ..., r1 - 1 of the columns c0, ..., c1 - 1. */
  function BlockMines(m: seq<seq<bool>>, r0: int, r1: int, c0: int, c1: int): nat
    decreases r1 - r0
  {
    if r1 <= r0 then 0 else BlockMines(m, r0, r1 - 1, c0, c1) + RowMines(m, r1 - 1, c0, c1)
  }

  /** The 3-by-3 block around (r, c) holds the neighbours' mines plus the
      centre's own. */
  lemma {:induction false} BlockAroundCell(m: seq<seq<bool>>, r: int, c: int)
    ensures BlockMines(m, r - 1, r + 2, c - 1, c + 2) == AdjacentMines(m, r, c) + MineAt(m, r, c)
  {
    forall x | r - 1 <= x <= r + 1
      ensures RowMines(m, x, c - 1, c + 2) == MineAt(m, x, c - 1) + MineAt(m, x, c) + MineAt(m, x, c + 1)
    {
      assert RowMines(m, x, c - 1, c + 1) == RowMines(m, x, c - 1, c) + MineAt(m, x, c);
      assert RowMines(m, x, c - 1, c) == MineAt(m, x, c - 1);
    }
    assert BlockMines(m, r - 1, r + 1, c - 1, c + 2) ==
           BlockMines(m, r - 1, r, c - 1, c + 2) + RowMines(m, r, c - 1, c + 2);
    assert BlockMines(m, r - 1, r, c - 1, c + 2) == RowMines(m, r - 1, c - 1, c + 2);
  }

  /** numAdjacentMines is 0 exactly when no neighbour inside the field holds
      a mine: the condition under which the flood fill keeps expanding. */
  lemma AdjacentMinesZero(m: seq<seq<bool>>, r: int, c: int)
    ensures AdjacentMines(m, r, c) == 0 <==>
            forall r2, c2 :: Adjacent(r, c, r2, c2) && InField(m, r2, c2) ==> !m[r2][c2]
  {
    if AdjacentMines(m, r, c) == 0 {
      forall r2, c2 | Adjacent(r, c, r2, c2) && InField(m, r2, c2) ensures !m[r2][c2] {
        assert MineAt(m, r2, c2) == 0;
      }
    }
  }

  /** The cells around (r, c) that lie inside the field and hold a mine. */
  ghost function NeighbourMines(m: seq<seq<bool>>, r: int, c: int): set<Cell> {
    set r2, c2 | r - 1 <= r2 <= r + 1 && c - 1 <= c2 <= c + 1 && (r2 != r || c2 != c) &&
                 InField(m, r2, c2) && m[r2][c2] :: (r2, c2)
  }

  /** {(r, c)} if (r, c) is inside the field and holds a mine, {} otherwise. */
  ghost function MineSet(m: seq<seq<bool>>, r: int, c: int): set<Cell> {
    if InField(m, r, c) && m[r][c] then {(r, c)} else {}
  }

  /** The mined cells among (r, c - 1), (r, c) if `centre`, and (r, c + 1). */
  ghost function RowSet(m: seq<seq<bool>>, r: int, c: int, centre: bool): set<Cell> {
    MineSet(m, r, c - 1) + (if centre then MineSet(m, r, c) else {}) + MineSet(m, r, c + 1)
  }

  lemma MineSetSize(m: seq<seq<bool>>, r: int, c: int)
    ensures |MineSet(m, r, c)| == MineAt(m, r, c)
    ensures forall p :: p in MineSet(m, r, c) ==> p == (r, c)
  {
  }

  lemma RowSetSize(m: seq<seq<bool>>, r: int, c: int, centre: bool)
    ensures |RowSet(m, r, c, centre)| ==
            MineAt(m, r, c - 1) + (if centre then MineAt(m, r, c) else 0) + MineAt(m, r, c + 1)
    ensures forall p :: p in RowSet(m, r, c, centre) ==> p.0 == r
  {
    var a, d := MineSet(m, r, c - 1), MineSet(m, r, c + 1);
    var b: set<Cell> := if centre then MineSet(m, r, c) else {};
    MineSetSize(m, r, c - 1);
    MineSetSize(m, r, c);
    MineSetSize(m, r, c + 1);
    assert |b| == if centre then MineAt(m, r, c) else 0;
    assert a !! b && |a + b| == |a| + |b|;
    assert (a + b) !! d;
  }

  /** NeighbourMines as the union of the mined cells of the three rows. */
  ghost function NeighbourUnion(m: seq<seq<bool>>, r: int, c: int): set<Cell> {
    RowSet(m, r - 1, c, true) + RowSet(m, r, c, false) + RowSet(m, r + 1, c, true)
  }

  lemma NeighbourMinesUnion(m: seq<seq<bool>>, r: int, c: int)
    ensures NeighbourMines(m, r, c) == NeighbourUnion(m, r, c)
  {
    forall p: Cell | p in NeighbourMines(m, r, c) ensures p in NeighbourUnion(m, r, c) {
      var (r2, c2) := p;
      assert p in MineSet(m, r2, c2);
    }
    forall p: Cell | p in NeighbourUnion(m, r, c) ensures p in NeighbourMines(m, r, c) {
      var (r2, c2) := p;
      assert InField(m, r2, c2) && m[r2][c2];
    }
  }

  lemma NeighbourUnionSize(m: seq<seq<bool>>, r: int, c: int)
    ensures |NeighbourUnion(m, r, c)| == AdjacentMines(m, r, c)
  {
    var top, mid, bot := RowSet(m, r - 1, c, true), RowSet(m, r, c, false), RowSet(m, r + 1, c, true);
    RowSetSize(m, r - 1, c, true);
    RowSetSize(m, r, c, false);
    RowSetSize(m, r + 1, c, true);
    assert top * mid == {};
    assert |top + mid| == |top| + |mid|;
    assert (top + mid) * bot == {};
  }

  /** AdjacentMines is the number of mined cells among the in-field
      neighbours of (r, c). */
  lemma AdjacentMinesCount(m: seq<seq<bool>>, r: int, c: int)
    ensures AdjacentMines(m, r, c) == |NeighbourMines(m, r, c)|
  {
    NeighbourMinesUnion(m, r, c);
    NeighbourUnionSize(m, r, c);
  }

  // ---------------------------------------------------------------------------

  class MineField {
    var numRows: int
    var numCols: int
    var mineFieldMatrix: array2<bool>
    /** The declared number of mines; after resetEmpty, and before the first
        populateMineField of a field made by `Empty`, the grid holds fewer. */
    var numMines: int

    /** The grid as a value: Mines[r][c] iff there is a mine at (r, c). */
    ghost var Mines: seq<seq<bool>>

    ghost predicate Valid()
      reads this, mineFieldMatrix
    {
      0 < numRows == mineFieldMatrix.Length0 &&
      0 < numCols == mineFieldMatrix.Length1 &&
      0 <= numMines &&
      IsRect(Mines, numRows, numCols) &&
      forall r, c :: 0 <= r < numRows && 0 <= c < numCols ==> Mines[r][c] == mineFieldMatrix[r, c]
    }

    /** The field described by mineData: its dimensions, its mines, and as
        declared count the number of mines in it. */
    constructor FromData(mineData: seq<seq<bool>>)
      requires |mineData| >= 1 && |mineData[0]| >= 1
      requires IsRect(mineData, |mineData|, |mineData[0]|)
      ensures Valid() && fresh(mineFieldMatrix)
      ensures numRows == |mineData| && numCols == |mineData[0]|
      ensures Mines == mineData
      ensures numMines == MineCount(mineData)
    {
      var rows, cols := |mineData|, |mineData[0]|;
      var matrix := new bool[rows, cols];
      var count := 0;
      var row := 0;
      while row < rows
        modifies matrix
        invariant 0 <= row <= rows
        invariant forall r, c :: 0 <= r < row && 0 <= c < cols ==> matrix[r, c] == mineData[r][c]
        invariant count == |MinesBefore(mineData, row, 0)|
      {
        var col := 0;
        while col < cols
          modifies matrix
          invariant 0 <= col <= cols
          invariant forall r, c :: 0 <= r < rows && 0 <= c < cols && (r < row || (r == row && c < col)) ==>
                      matrix[r, c] == mineData[r][c]
          invariant count == |MinesBefore(mineData, row, col)|
        {
          matrix[row, col] := mineData[row][col];
          MinesBeforeStep(mineData, row, col);
          if mineData[row][col] {
            count := count + 1;
          }
          col := col + 1;
        }
        MinesBeforeRowEnd(mineData, row);
        row := row + 1;
      }
      MinesBeforeAll(mineData);
      numRows, numCols, mineFieldMatrix, numMines := rows, cols, matrix, count;
      Mines := mineData;
    }

    /** A field of the given dimensions with no mine on it yet; numMines is
        the count that populateMineField will place. */
    constructor Empty(numRows: int, numCols: int, numMines: int)
      requires numRows > 0 && numCols > 0
      requires 0 <= numMines && 3 * numMines < numRows * numCols
      ensures Valid() && fresh(mineFieldMatrix)
      ensures this.numRows == numRows && this.numCols == numCols && this.numMines == numMines
      ensures NoMines(Mines)
    {
      this.numRows := numRows;
      this.numCols := numCols;
      this.numMines := numMines;
      mineFieldMatrix := new bool[numRows, numCols]((_, _) => false);
      Mines := EmptyGrid(numRows, numCols);
    }

    /** Clears every cell; the dimensions and the declared count stay. */
    method ResetEmpty()
      requires Valid()
      modifies mineFieldMatrix, this`Mines
      ensures Valid()
      ensures numRows == old(numRows) && numCols == old(numCols) && numMines == old(numMines)
      ensures NoMines(Mines) && MineCount(Mines) == 0
    {
      var row := 0;
      while row < numRows
        invariant 0 <= row <= numRows
        invariant forall r, c :: 0 <= r < row && 0 <= c < numCols ==> !mineFieldMatrix[r, c]
      {
        var col := 0;
        while col < numCols
          invariant 0 <= col <= numCols
          invariant forall r, c :: 0 <= r < row && 0 <= c < numCols ==> !mineFieldMatrix[r, c]
          invariant forall c :: 0 <= c < col ==> !mineFieldMatrix[row, c]
        {
          mineFieldMatrix[row, col] := false;
          col := col + 1;
        }
        row := row + 1;
      }
      Mines := EmptyGrid(numRows, numCols);
      NoMinesCount(Mines);
    }

    /** Clears the field and places numMines mines, none on (row, col), by
        rejection sampling.  `draws` are the (row, column) pairs the random
        generator yields, in order; the loop runs until it has accepted
        numMines of them, which it does exactly when they contain numMines
        distinct cells other than (row, col). */
    method PopulateMineField(row: int, col: int, draws: seq<Cell>)
      requires Valid() && InRange(row, col)
      requires 3 * numMines < numRows * numCols
      requires forall i :: 0 <= i < |draws| ==> 0 <= draws[i].0 < numRows && 0 <= draws[i].1 < numCols
      requires numMines <= |Accepted(draws, (row, col))|
      modifies mineFieldMatrix, this`Mines
      ensures Valid()
      ensures numRows == old(numRows) && numCols == old(numCols) && numMines == old(numMines)
      ensures MineCount(Mines) == numMines
      ensures !Mines[row][col]
      ensures MineCells(Mines) <= Accepted(draws, (row, col))
    {
      ResetEmpty();
      var curNumMines := 0;
      var k := 0;
      while curNumMines < numMines
        invariant Valid()
        invariant 0 <= k <= |draws|
        invariant MineCells(Mines) == Accepted(draws[..k], (row, col))
        invariant curNumMines == MineCount(Mines) <= numMines
        decreases |draws| - k
      {
        AcceptedPrefix(draws, k, (row, col));
        var (randomMineInRow, randomMineInCol) := draws[k];
        DrawStep(Mines, draws, k, (row, col));
        k := k + 1;
        if (row == randomMineInRow && col == randomMineInCol) ||
           mineFieldMatrix[randomMineInRow, randomMineInCol]
        {
          continue;
        }
        SetMine(randomMineInRow, randomMineInCol);
        curNumMines := curNumMines + 1;
      }
      AcceptedPrefix(draws, k, (row, col));
      AcceptedAvoids(draws[..k], (row, col));
    }

    /** Puts a mine on (row, col), keeping Mines in step with the array. */
    method SetMine(row: int, col: int)
      requires Valid() && InRange(row, col)
      modifies mineFieldMatrix, this`Mines
      ensures Valid()
      ensures Mines == old(Mines[row := Mines[row][col := true]])
    {
      mineFieldMatrix[row, col] := true;
      Mines := Mines[row := Mines[row][col := true]];
    }

    /** The number of mines on the eight cells around (row, col). */
    method NumAdjacentMines(row: int, col: int) returns (numAdjacentMines: int)
      requires Valid() && InRange(row, col)
      ensures numAdjacentMines == AdjacentMines(Mines, row, col) == |NeighbourMines(Mines, row, col)|
      ensures 0 <= numAdjacentMines <= 8
    {
      numAdjacentMines := 0;
      var adjRow := row - 1;
      while adjRow <= row + 1
        invariant row - 1 <= adjRow <= row + 2
        invariant numAdjacentMines == BlockMines(Mines, row - 1, adjRow, col - 1, col + 2)
      {
        var adjCol := col - 1;
        while adjCol <= col + 1
          invariant col - 1 <= adjCol <= col + 2
          invariant numAdjacentMines ==
                    BlockMines(Mines, row - 1, adjRow, col - 1, col + 2) + RowMines(Mines, adjRow, col - 1, adjCol)
        {
          if InRange(adjRow, adjCol) && HasMine(adjRow, adjCol) {
            numAdjacentMines := numAdjacentMines + 1;
          }
          adjCol := adjCol + 1;
        }
        adjRow := adjRow + 1;
      }
      BlockAroundCell(Mines, row, col);
      AdjacentMinesCount(Mines, row, col);
      if HasMine(row, col) {
        numAdjacentMines := numAdjacentMines - 1;
      }
    }

    /** (row, col) is a location of the field. */
    predicate InRange(row: int, col: int): (b: bool)
      reads this, mineFieldMatrix
      requires Valid()
      ensures b <==> InField(Mines, row, col)
    {
      0 <= row && row < numRows && 0 <= col && col < numCols
    }

    function NumRows(): (n: int)
      reads this, mineFieldMatrix
      requires Valid()
      ensures n == |Mines| && n > 0
    {
      numRows
    }

    function NumCols(): (n: int)
      reads this, mineFieldMatrix
      requires Valid()
      ensures n > 0 && forall r :: 0 <= r < |Mines| ==> |Mines[r]| == n
    {
      numCols
    }

    /** Whether (row, col) holds a mine. */
    function HasMine(row: int, col: int): (b: bool)
      reads this, mineFieldMatrix
      requires Valid() && InRange(row, col)
      ensures b == Mines[row][col]
      ensures b <==> (row, col) in MineCells(Mines)
    {
      mineFieldMatrix[row, col]
    }

    /** The declared mine count, which need not match the grid. */
    function NumMines(): (n: int)
      reads this, mineFieldMatrix
      requires Valid()
      ensures n >= 0
    {
      numMines
    }
  }

  /** Once the generator has yielded all of `draws`, the accepted set is
      Accepted(draws). */
  lemma AcceptedPrefix(draws: seq<Cell>, k: int, avoid: Cell)
    requires 0 <= k <= |draws|
    ensures k == |draws| ==> Accepted(draws[..k], avoid) == Accepted(draws, avoid)
    ensures Accepted(draws[..k], avoid) <= Accepted(draws, avoid)
  {
    AcceptedMono(draws, k, avoid);
    assert k == |draws| ==> draws[..k] == draws;
  }

  /** One turn of the rejection loop: with the mines so far being the cells
      accepted from the first k draws, a rejected draw keeps the grid, and an
      accepted one places a mine on a new cell. */
  lemma DrawStep(m: seq<seq<bool>>, draws: seq<Cell>, k: int, avoid: Cell)
    requires 0 <= k < |draws| && InField(m, draws[k].0, draws[k].1)
    requires MineCells(m) == Accepted(draws[..k], avoid)
    ensures var (r, c) := draws[k];
      if draws[k] == avoid || m[r][c] then MineCells(m) == Accepted(draws[..k + 1], avoid)
      else MineCells(m[r := m[r][c := true]]) == Accepted(draws[..k + 1], avoid) &&
           MineCount(m[r := m[r][c := true]]) == MineCount(m) + 1
  {
    var (r, c) := draws[k];
    AcceptedStep(draws, k, avoid);
    if draws[k] == avoid {
    } else if m[r][c] {
      assert draws[k] in MineCells(m);
    } else {
      PlaceMine(m, r, c);
    }
  }

  /** One more draw adds the drawn cell unless it is the avoided one. */
  lemma AcceptedStep(draws: seq<Cell>, k: int, avoid: Cell)
    requires 0 <= k < |draws|
    ensures Accepted(draws[..k + 1], avoid) ==
            Accepted(draws[..k], avoid) + (if draws[k] == avoid then {} else {draws[k]})
  {
    assert draws[..k + 1][..k] == draws[..k];
  }

  lemma {:induction false} AcceptedMono(draws: seq<Cell>, k: int, avoid: Cell)
    requires 0 <= k <= |draws|
    ensures Accepted(draws[..k], avoid) <= Accepted(draws, avoid)
    decreases |draws|
  {
    if k < |draws| {
      var init := draws[..|draws| - 1];
      assert init[..k] == draws[..k];
      AcceptedMono(init, k, avoid);
    } else {
      assert draws[..k] == draws;
    }
  }

  /** The avoided cell is never accepted. */
  lemma {:induction false} AcceptedAvoids(draws: seq<Cell>, avoid: Cell)
    ensures avoid !in Accepted(draws, avoid)
    decreases |draws|
  {
    if draws != [] {
      AcceptedAvoids(draws[..|draws| - 1], avoid);
    }
  }
}
