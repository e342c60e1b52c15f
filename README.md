# Minesweeper game model in Dafny

This project models the game logic of a Minesweeper program: the two classes
`MineField` and `VisibleField`.

`MineField` (module `Field`, `field.dfy`) holds where the mines lie. It keeps
a rectangular boolean grid and a declared mine count. It can be built in two
ways:

- from an explicit map, in which case the count is the number of mines on it;
- empty, with a count that is only reached by `populateMineField`.

`populateMineField` places the mines by rejection sampling and keeps one square
free: the square of the player's first click. `numAdjacentMines` counts the
mines around a square.

`VisibleField` (module `Visible`, `visible.dfy`) is what the player sees. It
keeps one integer status per square and uses the class's own encoding:

- covered squares are negative: `COVERED` -1, `MINE_GUESS` -2, `QUESTION` -3;
- an uncovered square shows its count, 0..8;
- 9, 10 and 11 (`MINE`, `INCORRECT_GUESS`, `EXPLODED_MINE`) mark the end of a lost game.

It also keeps a counter of guesses. It implements the guess cycle, uncovering a
square, the flood fill that opens a region of zero squares, and the end-of-game
test.

Both classes change their grids in place, so each is a Dafny `class`. A Java
`boolean[][]` or `int[][]` becomes an `array2`. The ghost fields `Mines` and
`Status` hold the same grid as a sequence of rows. `Valid()` ties each ghost
field to its array, so contracts and lemmas can speak about whole grids. One
of the facts `Valid()` carries is that every status is one of the twelve
states. Every method keeps it.

Some parts of Java methods are separate methods here, each with its own
contract:

- the three passes of `isGameOver` are `AnyExploded`, `AllSafeOpen` and
  `FlagMines`;
- the loss pass of `uncover` is `Detonate`;
- one square of the loss pass is `RevealSquare`;
- the loop of `openAdjSquares` over the 3-by-3 block is `OpenBlock`, which
  calls `OpenAdjSquares` back for each square.

Their loops and branches are those of the Java code.

The flood fill is specified by the predicate `Filled`. It says:

- squares that are uncovered or guessed keep their status;
- every square that changed holds no mine and shows its number of adjacent mines;
- every opened zero square has all its in-field neighbours settled, that is,
  uncovered or guessed;
- the changed squares are exactly the squares of an opening order: a sequence
  of `Step`s that starts at the clicked square, in which every later square is
  a neighbour of an earlier listed square that shows 0.

The opening order is a ghost result of `OpenAdjSquares` and `Uncover`. With
it, every opened square is reached from the clicked square through opened
zero squares (`FillConnected`). So the fill opens the connected area around
the click and nothing beyond it: a region of zero squares that a guess cuts
off stays covered (`GuessStopsFill`).

The recursion terminates because the set of squares that are neither uncovered
nor guessed strictly shrinks with every square opened.

The Java random generator is a parameter `draws`: the (row, column) pairs it
yields, in order. The rejection loop is kept as written.

Three behaviours of the code are kept on purpose:

- `resetGameDisplay` covers every square but leaves the guess counter as it was;
- the win pass of `isGameOver` flags the remaining mines without counting those
  guesses, although its comment calls it "not a mutator";
- `uncover` on a mine explodes it even when it is marked `MINE_GUESS`.

Where the documentation says otherwise (the reset "to its initial state", the
non-mutating `isGameOver`), the model follows the code.

`scenarios.dfy` (module `Scenarios`) plays small games using only the
contracts:

- a win and a loss on a 2-by-2 map with one mine;
- guessing more squares than there are mines, which makes the count of mines
  left negative;
- the three-step guess cycle;
- deferred population: the display exists first, then the mine field is
  populated around the first click, and the display stays valid;
- a one-row field where a guessed square stops the fill.

## Model

| member | source | states |
|---|---|---|
| Field.EmptyGrid | MineField.java:59 | a freshly allocated grid is rectangular with the given dimensions and holds no mine |
| Field.PlaceMine | MineField.java:83-84 | putting a mine on a mine-free square adds exactly that square to the set of mined squares, so the mine count grows by one |
| Field.NoMinesCount | MineField.java:97-105 | a grid without mines has an empty mine set and a count of 0 |
| Field.AcceptedStep | MineField.java:77-85 | one more draw adds the drawn square to the accepted set unless it is the avoided square |
| Field.AcceptedAvoids | MineField.java:79-80 | the avoided square is never accepted, whatever the generator yields |
| Field.AcceptedPrefix | MineField.java:76-86 | while draws remain, the squares accepted so far are among those all the draws give, and once every draw is used they are exactly those |
| Field.AcceptedMono | MineField.java:76-86 | more draws never lose an accepted square: the squares accepted from a prefix of the draws are among those accepted from all of them |
| Field.DrawStep | MineField.java:79-85 | one turn of the rejection loop: a draw of the avoided square or of a mined square leaves the mines as they are, and any other draw adds one mine on a new square, so the mines stay exactly the accepted draws |
| Field.BlockAroundCell | MineField.java:120-129 | the mines counted over the 3-by-3 block, clipped to the field, are the neighbours' mines plus the centre's own, so subtracting the centre leaves the neighbour count |
| Field.AdjacentMinesCount | MineField.java:108-132 | the neighbour count equals the number of squares in the 3-by-3 block, other than the centre, that lie in the field and hold a mine |
| Field.AdjacentMinesZero | MineField.java:108-132 | the neighbour count is 0 exactly when no in-field neighbour holds a mine |
| Field.MineField.FromData | MineField.java:21-41 | the dimensions are the map's, hasMine(r, c) equals mineData[r][c] for every square, and numMines is the number of mines in the map; requires a non-empty rectangular map |
| Field.MineField.Empty | MineField.java:44-61 | dimensions and declared count are stored as given and no square holds a mine |
| Field.MineField.ResetEmpty | MineField.java:91-105 | afterwards no square holds a mine, and numRows, numCols and numMines are unchanged |
| Field.MineField.PopulateMineField | MineField.java:64-88 | on exit exactly numMines squares hold mines, (row, col) holds none, every mine lies on a square the generator drew, and the dimensions and declared count are unchanged; the loop keeps curNumMines equal to the mines on the grid |
| Field.MineField.SetMine | MineField.java:83 | writes a mine at one square and changes nothing else |
| Field.MineField.NumAdjacentMines | MineField.java:108-132 | returns the number of in-field neighbours holding a mine, in [0, 8], and changes nothing |
| Field.MineField.InRange | MineField.java:135-149 | true exactly when 0 <= row < numRows and 0 <= col < numCols |
| Field.MineField.NumRows | MineField.java:152-160 | the number of rows of the grid, which is positive |
| Field.MineField.NumCols | MineField.java:163-171 | the length of every row of the grid, which is positive |
| Field.MineField.HasMine | MineField.java:174-185 | true exactly when (row, col) is one of the mined squares |
| Field.MineField.NumMines | MineField.java:188-198 | the declared count, which is never negative |
| Visible.CycleThrice | VisibleField.java:113-138 | three guess-cycle steps bring any status back with a net counter change of 0; an uncovered status is not touched; the cycle stays within the twelve states |
| Visible.OnlyOpensShrinks | VisibleField.java:243-262 | a fill never makes a square openable again, so the set of squares that are neither uncovered nor guessed only shrinks |
| Visible.FillNothing | VisibleField.java:245-248 | a start that is off the grid, uncovered or guessed leaves the grid unchanged, and that counts as a complete fill |
| Visible.OpenOne | VisibleField.java:251-256 | opening one covered, unguessed, mine-free square to its count strictly shrinks the openable squares; with a positive count this is already the whole fill, and with count 0 it is the state in which the loop over the 3-by-3 block starts |
| Visible.ZeroBlockSafe | VisibleField.java:254-260 | around a mine-free square with count 0, no square of the 3-by-3 block holds a mine, so every recursive call starts on a safe square |
| Visible.FillCompose | VisibleField.java:258-262 | the squares opened before the recursive call on a neighbour, together with those that call opens, still form a fill from the start, in the order of the earlier squares followed by the call's |
| Visible.GraftOrder | VisibleField.java:258-262 | the recursive call on a neighbour of the start opens its first square from the start, which shows 0, so appending the call's opening order to the earlier one gives an opening order from the start |
| Visible.FillingStep | VisibleField.java:258-262 | each recursive call keeps the loop's fill invariant, settles the neighbour it visits, and keeps every settled square settled |
| Visible.FillingNextRow | VisibleField.java:258-259 | finishing one row of the 3-by-3 block moves the invariant to the next row |
| Visible.FillingDone | VisibleField.java:243-264 | once the whole 3-by-3 block is settled, the fill from a zero square is complete and closed |
| Visible.ReachedFromStart | VisibleField.java:258-262 | every square of an opening order is reached from the start by a chain of opened squares, each step leaving a square that shows 0 |
| Visible.FillConnected | VisibleField.java:140-145 | every square a fill opens is connected to the clicked square through opened squares, each of which except the last shows 0 |
| Scenarios.LaneFill | VisibleField.java:245-262 | on a mine-free one-row field of three squares with the middle one guessed, the fill from the first square opens it to 0 and stops at the guess |
| Scenarios.GuessWallsFill | VisibleField.java:145 | on a one-row field, no fill started left of a guessed square changes any square right of it |
| Scenarios.GuessStopsFill | VisibleField.java:140-145 | on that guessed lane, the fill from the first square has exactly one outcome: the first square shows 0, the guess stays, and the square behind it stays covered |
| Visible.LossReveals | VisibleField.java:155-171 | after the loss pass the game counts as exploded, no mine is left covered or questioned, every new incorrect-guess marker lies on a mine-free square, and all statuses stay in range |
| Visible.WinIsStable | VisibleField.java:186-216 | after the win pass nothing has exploded, every safe square is uncovered, every square is uncovered or guessed, and a second pass changes nothing |
| Visible.VisibleField.Shape | VisibleField.java:23-33 | the display has the mine field's shape, every status is one of the twelve states, and a square is in the display exactly when it is in range |
| Visible.VisibleField.constructor | VisibleField.java:45-56 | the display has the mine field's dimensions, every square is COVERED, no guesses are counted, and the declared count is copied |
| Visible.VisibleField.SetStatus | VisibleField.java:124 | writes one status and changes nothing else |
| Visible.VisibleField.ResetGameDisplay | VisibleField.java:59-71 | every square becomes COVERED and the guess counter is unchanged |
| Visible.VisibleField.GetStatus | VisibleField.java:85-97 | the status of (row, col), always one of the twelve states |
| Visible.VisibleField.NumMinesLeft | VisibleField.java:100-110 | the declared count minus the guesses; there is no lower bound, so it can be negative |
| Visible.VisibleField.CycleGuess | VisibleField.java:113-138 | only (row, col) changes: COVERED to MINE_GUESS with counter +1, MINE_GUESS to QUESTION with counter -1, QUESTION to COVERED with no change, and an uncovered square is left alone |
| Visible.VisibleField.Uncover | VisibleField.java:141-178 | returns false exactly on a mine; on a mine (row, col) becomes EXPLODED_MINE, each guessed mine-free square becomes INCORRECT_GUESS, each covered or questioned mine becomes MINE, and nothing else changes; otherwise the grid changes as a flood fill from (row, col), and `order` lists the opened squares from (row, col) outwards, each next to an earlier opened zero square |
| Visible.VisibleField.Detonate | VisibleField.java:157-169 | the loss pass: (row, col) becomes EXPLODED_MINE and every other square becomes its loss status, which marks incorrect guesses and shows covered or questioned mines, and leaves all else as it was |
| Visible.VisibleField.RevealSquare | VisibleField.java:163-167 | one square of the loss pass changes to its loss status and no other square changes |
| Visible.VisibleField.IsGameOver | VisibleField.java:181-216 | if a square shows EXPLODED_MINE, returns true and changes nothing; else if a mine-free square is not uncovered, returns false and changes nothing; else returns true, turns every covered or questioned mine into MINE_GUESS, and keeps the counter |
| Visible.VisibleField.AnyExploded | VisibleField.java:188-195 | the first pass finds a square showing EXPLODED_MINE exactly when one exists, and changes nothing |
| Visible.VisibleField.AllSafeOpen | VisibleField.java:197-204 | the second pass answers true exactly when every mine-free square is uncovered, and changes nothing |
| Visible.VisibleField.FlagMines | VisibleField.java:206-214 | the win pass turns every mine square that is not uncovered into MINE_GUESS, leaves all other squares as they were, and does not touch the guess counter |
| Visible.VisibleField.IsUncovered | VisibleField.java:219-229 | true exactly when the status is none of COVERED, MINE_GUESS and QUESTION |
| Visible.VisibleField.OpenAdjSquares | VisibleField.java:235-264 | terminates; out of range, uncovered or guessed starts change nothing; otherwise only covered or questioned mine-free squares change, each to its count, every opened zero square has all in-field neighbours settled, the opened squares are exactly those of an opening order from (row, col) in which each later square neighbours an earlier opened zero square, and the start ends settled |
| Visible.VisibleField.OpenBlock | VisibleField.java:258-262 | after the loop over the 3-by-3 block of a start opened with count 0, the grid is a complete fill from that start, with the order of the earlier squares followed by those each recursive call opened |

## Left out

- The distribution of `java.util.Random` (MineField.java:74-78) is not modelled. The generator's output is the parameter `draws`, and only the postconditions that hold on exit are proved.
- Field.MineField.PopulateMineField: requires that `draws` contains at least numMines distinct squares other than (row, col). This is exactly the condition under which the Java loop exits. Runs of the generator that never supply enough squares, which would loop forever, are not modelled.
- `getMineField` (VisibleField.java:78-82) only hands out the mine field reference. It is not a separate member: the display reads its `mineField` field directly. No method of `VisibleField` changes the mine field. The game board changes it through that reference with `populateMineField` or `resetEmpty`. The display's `Valid()` still holds after such a call, because `PopulateMineField` and `ResetEmpty` keep the mine field valid and keep its dimensions and declared count; `PopulateAroundFirstClick` shows this. Other writes through that reference are not modelled.
- Java's 32-bit `int` is modelled as an unbounded integer. The guess counter and the mine counts would have to pass 2^31 to wrap, which needs more squares or guesses than a game can hold.
- The depth of the Java recursion in `openAdjSquares` is not modelled. A large enough field could exhaust the call stack.
- The index checks that Java performs at run time are preconditions here. Each operation documented with `PRE: inRange(row, col)` requires it, and the map constructor requires a non-empty rectangular map.
- The view and controller (`GameBoardPanel`) are not part of this model. Nor is the order in which it calls these operations, beyond the deferred population that `PopulateAroundFirstClick` plays out.
- The unused `java.util.Arrays` import is not modelled. The constants `MINE_EXIST` and `MINE_NOT_EXIST` appear only as their values `true` and `false`.
