/** Tic-tac-toe: the board, moves, the successor function that drives the game
    tree, and the static evaluation of a board.

    A board is a list of nine squares, numbered 0 to 8 row by row; a square is
    empty (None) or holds the mark of player 0 (X) or player 1 (O). */
module TicTacToe {
  import opened FoldTree
  import opened Game

  const NumPos: nat := 9

  type Player = p: int | 0 <= p <= 1
  type Index = i: int | 0 <= i < NumPos

  datatype Square = Empty | Mark(player: Player)

  type Board = b: seq<Square> | |b| == NumPos witness seq(NumPos, _ => Empty)

  /** The number of squares of `s` equal to `x` (`list.count`). */
  function Count(s: seq<Square>, x: Square): nat
    decreases |s|
  {
    if s == [] then 0 else (if s[0] == x then 1 else 0) + Count(s[1..], x)
  }

  /** The empty board: nine empty squares; player 0 moves first. */
  function InitBoard(): (b: Board)
    ensures forall i :: 0 <= i < NumPos ==> b[i] == Empty
    ensures Count(b, Empty) == NumPos && Count(b, Mark(0)) == 0 && Count(b, Mark(1)) == 0
  {
    var b := seq(NumPos, _ => Empty);
    CountAll(b, Empty);
    CountNone(b, Mark(0));
    CountNone(b, Mark(1));
    b
  }

  /** The board after `player` marks the empty square `move`. */
  function Place(b: Board, move: Index, player: Player): Board
  {
    b[move := Mark(player)]
  }

  /** `make_move`: copy the board, then mark square `move` of the copy. The
      square must be empty and the player 0 or 1; the board passed in is a
      value and stays as it was. */
  method MakeMove(board: Board, move: int, player: int) returns (r: Board)
    requires 0 <= move < NumPos && board[move] == Empty
    requires 0 <= player <= 1
    ensures r == Place(board, move, player)
    ensures r[move] == Mark(player)
    ensures forall i :: 0 <= i < NumPos && i != move ==> r[i] == board[i]
    ensures Count(r, Empty) + 1 == Count(board, Empty)
    ensures Count(r, Mark(player)) == Count(board, Mark(player)) + 1
  {
    var copy := new Square[NumPos](i => if 0 <= i < NumPos then board[i] else Empty);
    assert copy[..] == board;
    copy[move] := Mark(player);
    r := copy[..];
    assert r == board[move := Mark(player)];
    CountUpdate(board, move, Mark(player), Empty);
    CountUpdate(board, move, Mark(player), Mark(player));
  }

  /** The player to move: marks of player 0 minus marks of player 1. */
  function NextPlayer(b: Board): int
  {
    Count(b, Mark(0)) - Count(b, Mark(1))
  }

  /** A board on which `make_move` accepts the next player. */
  predicate Legal(b: Board)
  {
    0 <= NextPlayer(b) <= 1
  }

  /** The empty squares from `i` on, in increasing order. */
  function EmptyFrom(b: Board, i: nat): (r: seq<Index>)
    requires i <= NumPos
    ensures |r| == Count(b[i..], Empty)
    decreases NumPos - i
  {
    if i == NumPos then []
    else
      assert b[i..][1..] == b[i + 1..];
      (if b[i] == Empty then [i] else []) + EmptyFrom(b, i + 1)
  }

  /** `candidate_moves`: the empty squares in increasing order. */
  function EmptySquares(b: Board): (r: seq<Index>)
    ensures |r| == Count(b, Empty)
  {
    assert b[0..] == b;
    EmptyFrom(b, 0)
  }

  /** `EmptyFrom(b, i)` is the empty square `i`, if it is one, followed by
      the empty squares from `i + 1` on. */
  lemma EmptyFromStep(b: Board, i: nat)
    requires i < NumPos
    ensures EmptyFrom(b, i) == (if b[i] == Empty then [i] else []) + EmptyFrom(b, i + 1)
  {
  }

  /** Every square listed from `i` on is at or after `i`, and empty. */
  lemma {:induction false} EmptyFromSound(b: Board, i: nat)
    requires i <= NumPos
    ensures forall k :: 0 <= k < |EmptyFrom(b, i)| ==> i <= EmptyFrom(b, i)[k] && b[EmptyFrom(b, i)[k]] == Empty
    decreases NumPos - i
  {
    if i < NumPos {
      EmptyFromStep(b, i);
      EmptyFromSound(b, i + 1);
    }
  }

  /** Every empty square from `i` on is listed. */
  lemma {:induction false} EmptyFromComplete(b: Board, i: nat)
    requires i <= NumPos
    ensures forall j :: i <= j < NumPos && b[j] == Empty ==> j in EmptyFrom(b, i)
    decreases NumPos - i
  {
    if i < NumPos {
      EmptyFromStep(b, i);
      EmptyFromComplete(b, i + 1);
    }
  }

  /** The squares are listed in increasing order. */
  lemma {:induction false} EmptyFromSorted(b: Board, i: nat)
    requires i <= NumPos
    ensures forall k, l :: 0 <= k < l < |EmptyFrom(b, i)| ==> EmptyFrom(b, i)[k] < EmptyFrom(b, i)[l]
    decreases NumPos - i
  {
    if i < NumPos {
      EmptyFromStep(b, i);
      EmptyFromSound(b, i + 1);
      EmptyFromSorted(b, i + 1);
    }
  }

  /** The candidate moves are exactly the empty squares, each once, in
      increasing order. */
  lemma EmptySquaresSpec(b: Board)
    ensures forall j :: 0 <= j < NumPos ==> (b[j] == Empty <==> j in EmptySquares(b))
    ensures forall k, l :: 0 <= k < l < |EmptySquares(b)| ==> EmptySquares(b)[k] < EmptySquares(b)[l]
  {
    EmptyFromSound(b, 0);
    EmptyFromComplete(b, 0);
    EmptyFromSorted(b, 0);
  }

  /** `moves`: one successor per empty square, in increasing square order, each
      made by the next player. `make_move` rejects a next player other than 0
      or 1, which matters only when there is an empty square. */
  function Moves(b: Board): (r: seq<Board>)
    requires EmptySquares(b) == [] || Legal(b)
  {
    var es := EmptySquares(b);
    seq(|es|, k requires 0 <= k < |es| => Place(b, es[k], NextPlayer(b)))
  }

  // ---------------------------------------------------------------------------
  // Counting lemmas.

  lemma {:induction false} CountAll(s: seq<Square>, x: Square)
    requires forall i :: 0 <= i < |s| ==> s[i] == x
    ensures Count(s, x) == |s|
    decreases |s|
  {
    if s != [] {
      CountAll(s[1..], x);
    }
  }

  lemma {:induction false} CountNone(s: seq<Square>, x: Square)
    requires forall i :: 0 <= i < |s| ==> s[i] != x
    ensures Count(s, x) == 0
    decreases |s|
  {
    if s != [] {
      CountNone(s[1..], x);
    }
  }

  /** Overwriting one square changes each count by what left and what came. */
  lemma {:induction false} CountUpdate(s: seq<Square>, i: nat, y: Square, x: Square)
    requires i < |s|
    ensures Count(s[i := y], x) ==
      Count(s, x) - (if s[i] == x then 1 else 0) + (if y == x then 1 else 0)
    decreases |s|
  {
    if i > 0 {
      assert s[i := y][1..] == s[1..][i - 1 := y];
      CountUpdate(s[1..], i - 1, y, x);
    } else {
      assert s[i := y][1..] == s[1..];
    }
  }

  /** A board holds nine squares, each empty or marked by one of the two players. */
  lemma {:induction false} CountSplit(s: seq<Square>)
    ensures Count(s, Empty) + Count(s, Mark(0)) + Count(s, Mark(1)) == |s|
    decreases |s|
  {
    if s != [] {
      CountSplit(s[1..]);
    }
  }

  // ---------------------------------------------------------------------------
  // Moves.

  /** Successor `k` of `b` is `b` with the next player's mark on the `k`-th
      empty square and every other square unchanged, and a full board has no
      successor. */
  lemma MovesSpec(b: Board)
    requires EmptySquares(b) == [] || Legal(b)
    ensures |Moves(b)| == Count(b, Empty)
    ensures Count(b, Empty) == 0 ==> Moves(b) == []
    ensures forall k :: 0 <= k < |Moves(b)| ==>
      && Moves(b)[k][EmptySquares(b)[k]] == Mark(NextPlayer(b))
      && (forall i :: 0 <= i < NumPos && i != EmptySquares(b)[k] ==> Moves(b)[k][i] == b[i])
  {
  }

  /** Successor `k` marks the `k`-th empty square, which was empty, for the
      next player, who is 0 or 1. */
  lemma MovesAt(b: Board, k: nat)
    requires EmptySquares(b) == [] || Legal(b)
    requires k < |Moves(b)|
    ensures Legal(b) && Moves(b)[k] == b[EmptySquares(b)[k] := Mark(NextPlayer(b))]
    ensures b[EmptySquares(b)[k]] == Empty
  {
    EmptySquaresSpec(b);
    assert EmptySquares(b)[k] in EmptySquares(b);
  }

  /** Each successor has exactly one empty square fewer. */
  lemma MovesFillOneSquare(b: Board)
    requires EmptySquares(b) == [] || Legal(b)
    ensures forall k :: 0 <= k < |Moves(b)| ==> Count(Moves(b)[k], Empty) + 1 == Count(b, Empty)
  {
    forall k | 0 <= k < |Moves(b)| ensures Count(Moves(b)[k], Empty) + 1 == Count(b, Empty) {
      MovesAt(b, k);
      CountUpdate(b, EmptySquares(b)[k], Mark(NextPlayer(b)), Empty);
    }
  }

  /** Play alternates: on a legal board every successor is legal and the turn
      passes to the other player. */
  lemma MovesAlternate(b: Board)
    requires Legal(b)
    ensures forall k :: 0 <= k < |Moves(b)| ==>
      Legal(Moves(b)[k]) && NextPlayer(Moves(b)[k]) == 1 - NextPlayer(b)
  {
    forall k | 0 <= k < |Moves(b)| ensures NextPlayer(Moves(b)[k]) == 1 - NextPlayer(b) {
      MovesAt(b, k);
      CountUpdate(b, EmptySquares(b)[k], Mark(NextPlayer(b)), Mark(0));
      CountUpdate(b, EmptySquares(b)[k], Mark(NextPlayer(b)), Mark(1));
    }
  }

  /** The boards reached by alternating play from the empty board. */
  type LegalBoard = b: Board | Legal(b) witness InitBoard()

  /** `moves` as the successor function of the game tree. */
  function Successors(b: LegalBoard): seq<LegalBoard>
  {
    MovesAlternate(b);
    Moves(b)
  }

  /** Player 0 moves first, and has nine moves. */
  lemma InitBoardLegal()
    ensures Legal(InitBoard()) && NextPlayer(InitBoard()) == 0
    ensures |Successors(InitBoard())| == NumPos
  {
    MovesSpec(InitBoard());
  }

  /** A board on which player 0 has the middle column and two squares are
      still empty. */
  function WonBoard(): Board
  {
    [Mark(1), Mark(0), Mark(0), Mark(1), Mark(0), Empty, Empty, Mark(0), Mark(1)]
  }

  /** Four marks of player 0, three of player 1: player 1 moves next. */
  lemma WonBoardCounts()
    ensures Count(WonBoard(), Mark(0)) == 4 && Count(WonBoard(), Mark(1)) == 3
    ensures Count(WonBoard(), Empty) == 2
  {
  }

  /** Squares 5 and 6 are the empty ones. */
  lemma WonBoardEmptySquares()
    ensures EmptySquares(WonBoard()) == [5, 6]
  {
  }

  /** `moves` does not look for a winner: player 0 has the middle column here,
      and player 1 is still offered both empty squares. */
  lemma MovesIgnoresWins()
    ensures Legal(WonBoard()) && Wins(WonBoard(), 0)
    ensures |Moves(WonBoard())| == 2
    ensures Moves(WonBoard())[0] == Place(WonBoard(), 5, 1)
    ensures Moves(WonBoard())[1] == Place(WonBoard(), 6, 1)
  {
    var b := WonBoard();
    WonBoardCounts();
    WonBoardEmptySquares();
    assert Cell(b, 0, 1) == Mark(0) && Cell(b, 1, 1) == Mark(0) && Cell(b, 2, 1) == Mark(0);
  }

  // ---------------------------------------------------------------------------
  // The game tree of tic-tac-toe.

  /** A legal board has one successor per empty square. */
  lemma SuccessorCount(b: LegalBoard)
    ensures |Successors(b)| == Count(b, Empty)
  {
    MovesSpec(b);
  }

  /** Successor `k` of a legal board has one empty square fewer. */
  lemma SuccessorAt(b: LegalBoard, k: nat)
    requires k < |Successors(b)|
    ensures Count(Successors(b)[k], Empty) + 1 == Count(b, Empty)
  {
    MovesFillOneSquare(b);
  }

  /** The number of moves left on a board: every move fills one square. */
  function EmptyCount(b: LegalBoard): nat
  {
    Count(b, Empty)
  }

  /** Every move lowers the number of empty squares. */
  lemma MovesLowerEmptyCount()
    ensures forall y: LegalBoard, i :: 0 <= i < |Successors(y)| ==> EmptyCount(Successors(y)[i]) < EmptyCount(y)
  {
    forall y: LegalBoard, i | 0 <= i < |Successors(y)| ensures EmptyCount(Successors(y)[i]) < EmptyCount(y) {
      SuccessorAt(y, i);
    }
  }

  /** A pruned tic-tac-toe tree is no deeper than one more than the number of
      empty squares of its root: a game ends when the board is full. */
  lemma GameTreeDepth(b: LegalBoard, n: nat)
    ensures TreeDepth(PrunedTree<LegalBoard>(Successors, b, n)) <= 1 + Count(b, Empty)
  {
    MovesLowerEmptyCount();
    PrunedTreeDepthMeasure<LegalBoard>(Successors, EmptyCount, b, n);
  }

  /** Pruning a tic-tac-toe tree at any depth from the number of empty squares
      of its root on gives the same tree as pruning at that number. */
  lemma GameTreePruneBeyondEnd(b: LegalBoard, n: nat)
    requires n >= Count(b, Empty)
    ensures PrunedTree<LegalBoard>(Successors, b, n) == PrunedTree<LegalBoard>(Successors, b, Count(b, Empty))
  {
    MovesLowerEmptyCount();
    PrunedTreeSettles<LegalBoard>(Successors, EmptyCount, b, n, Count(b, Empty));
  }

  /** `prune(n, gametree(moves, init_board()))`, observed deeply enough, is the
      finite tree rooted at the empty board with its nine first moves, at
      most ten levels deep, and the same for every `n` from 9 on. */
  lemma GameTreeFromEmptyBoard(n: nat, d: nat)
    requires n <= d
    ensures Prune(n, GameTree<LegalBoard>(Successors, InitBoard(), d)) == Embed(PrunedTree<LegalBoard>(Successors, InitBoard(), n))
    ensures n > 0 ==> |PrunedTree<LegalBoard>(Successors, InitBoard(), n).subtrees| == NumPos
    ensures TreeDepth(PrunedTree<LegalBoard>(Successors, InitBoard(), n)) <= NumPos + 1
    ensures n >= NumPos ==> PrunedTree<LegalBoard>(Successors, InitBoard(), n) == PrunedTree<LegalBoard>(Successors, InitBoard(), NumPos)
  {
    InitBoardLegal();
    PruneRepTree<LegalBoard>(Successors, InitBoard(), n, d);
    GameTreeDepth(InitBoard(), n);
    if n >= NumPos {
      GameTreePruneBeyondEnd(InitBoard(), n);
    }
  }

  // ---------------------------------------------------------------------------
  // Lines.

  /** The rows, the columns and the two diagonals. */
  const LineIdx: seq<seq<Index>> :=
    [[0, 1, 2], [3, 4, 5], [6, 7, 8], [0, 3, 6], [1, 4, 7], [2, 5, 8], [0, 4, 8], [2, 4, 6]]

  /** `board_line`: the squares at the given indices. */
  function BoardLine(idx: seq<Index>, b: Board): (r: seq<Square>)
    ensures |r| == |idx| && forall k :: 0 <= k < |idx| ==> r[k] == b[idx[k]]
  {
    seq(|idx|, k requires 0 <= k < |idx| => b[idx[k]])
  }

  /** `board_lines`: the eight lines of the board. */
  function BoardLines(b: Board): (r: seq<seq<Square>>)
    ensures |r| == |LineIdx| == 8
    ensures forall k :: 0 <= k < 8 ==> |r[k]| == 3
  {
    seq(|LineIdx|, k requires 0 <= k < |LineIdx| => BoardLine(LineIdx[k], b))
  }

  /** The square in row `r` and column `c`. */
  function Cell(b: Board, r: nat, c: nat): Square
    requires r < 3 && c < 3
  {
    b[3 * r + c]
  }

  /** Player `p` has three in a row: a full row, column or diagonal. */
  ghost predicate Wins(b: Board, p: Player)
  {
    || (exists r: nat :: r < 3 && Cell(b, r, 0) == Cell(b, r, 1) == Cell(b, r, 2) == Mark(p))
    || (exists c: nat :: c < 3 && Cell(b, 0, c) == Cell(b, 1, c) == Cell(b, 2, c) == Mark(p))
    || (Cell(b, 0, 0) == Cell(b, 1, 1) == Cell(b, 2, 2) == Mark(p))
    || (Cell(b, 0, 2) == Cell(b, 1, 1) == Cell(b, 2, 0) == Mark(p))
  }

  /** Some line is all `p`'s, as `static_eval_0` tests it. */
  predicate HasFullLine(lines: seq<seq<Square>>, p: Player)
  {
    exists k :: 0 <= k < |lines| && Count(lines[k], Mark(p)) == 3
  }

  lemma CountThree(l: seq<Square>, x: Square)
    requires |l| == 3
    ensures Count(l, x) == 3 <==> l[0] == x && l[1] == x && l[2] == x
  {
    assert l[1..][1..][1..] == [];
    assert Count(l, x) == (if l[0] == x then 1 else 0) + Count(l[1..], x);
    assert Count(l[1..], x) == (if l[1] == x then 1 else 0) + Count(l[1..][1..], x);
    assert Count(l[1..][1..], x) == (if l[2] == x then 1 else 0) + Count(l[1..][1..][1..], x);
  }

  /** Line `k` is all `p`'s exactly when its three squares are. */
  lemma LineFull(b: Board, k: nat, p: Player)
    requires k < 8
    ensures Count(BoardLines(b)[k], Mark(p)) == 3 <==>
      b[LineIdx[k][0]] == Mark(p) && b[LineIdx[k][1]] == Mark(p) && b[LineIdx[k][2]] == Mark(p)
  {
    CountThree(BoardLines(b)[k], Mark(p));
  }

  /** A row, column or diagonal of `p`'s is one of the lines `static_eval_0`
      looks at. */
  lemma WinsHasFullLine(b: Board, p: Player)
    requires Wins(b, p)
    ensures HasFullLine(BoardLines(b), p)
  {
    var lines := BoardLines(b);
    if exists r: nat :: r < 3 && Cell(b, r, 0) == Cell(b, r, 1) == Cell(b, r, 2) == Mark(p) {
      var r: nat :| r < 3 && Cell(b, r, 0) == Cell(b, r, 1) == Cell(b, r, 2) == Mark(p);
      LineFull(b, r, p);
      assert Count(lines[r], Mark(p)) == 3;
    } else if exists c: nat :: c < 3 && Cell(b, 0, c) == Cell(b, 1, c) == Cell(b, 2, c) == Mark(p) {
      var c: nat :| c < 3 && Cell(b, 0, c) == Cell(b, 1, c) == Cell(b, 2, c) == Mark(p);
      LineFull(b, 3 + c, p);
      assert Count(lines[3 + c], Mark(p)) == 3;
    } else if Cell(b, 0, 0) == Cell(b, 1, 1) == Cell(b, 2, 2) == Mark(p) {
      LineFull(b, 6, p);
      assert Count(lines[6], Mark(p)) == 3;
    } else {
      LineFull(b, 7, p);
      assert Count(lines[7], Mark(p)) == 3;
    }
  }

  /** Each of the eight lines is a row, a column or a diagonal. */
  lemma HasFullLineWins(b: Board, p: Player)
    requires HasFullLine(BoardLines(b), p)
    ensures Wins(b, p)
  {
    var k :| 0 <= k < |BoardLines(b)| && Count(BoardLines(b)[k], Mark(p)) == 3;
    LineFull(b, k, p);
    if k < 3 {
      assert Cell(b, k, 0) == Cell(b, k, 1) == Cell(b, k, 2) == Mark(p);
    } else if k < 6 {
      assert Cell(b, 0, k - 3) == Cell(b, 1, k - 3) == Cell(b, 2, k - 3) == Mark(p);
    } else if k == 6 {
      assert Cell(b, 0, 0) == Cell(b, 1, 1) == Cell(b, 2, 2) == Mark(p);
    } else {
      assert Cell(b, 0, 2) == Cell(b, 1, 1) == Cell(b, 2, 0) == Mark(p);
    }
  }

  /** The eight lines of `board_lines` are exactly the rows, columns and
      diagonals: some line is all `p`'s exactly when `p` has three in a row. */
  lemma LinesAreRowsColumnsDiagonals(b: Board, p: Player)
    ensures HasFullLine(BoardLines(b), p) <==> Wins(b, p)
  {
    if Wins(b, p) {
      WinsHasFullLine(b, p);
    }
    if HasFullLine(BoardLines(b), p) {
      HasFullLineWins(b, p);
    }
  }

  // ---------------------------------------------------------------------------
  // Static evaluation.

  /** `is_good_line(n, p, l)`: exactly `n` of the line's squares are `p`'s and
      `3 - n` are empty; `n` must be 1 or 2 and `p` 0 or 1. */
  predicate IsGoodLine(n: int, p: int, line: seq<Square>)
    requires 1 <= n <= 2 && 0 <= p <= 1
  {
    Count(line, Mark(p)) == n && Count(line, Empty) == 3 - n
  }

  /** A good line of three squares holds none of the other player's marks:
      its squares are `p`'s or empty. */
  lemma GoodLineOwnMarksOnly(n: int, p: Player, line: seq<Square>)
    requires 1 <= n <= 2 && |line| == 3
    ensures IsGoodLine(n, p, line) ==> Count(line, Mark(1 - p)) == 0
  {
    CountSplit(line);
  }

  /** `count_good_lines`: how many of `lines` are good for `p` with `n` marks. */
  function CountGoodLines(n: int, p: int, lines: seq<seq<Square>>): (r: nat)
    requires 1 <= n <= 2 && 0 <= p <= 1
    ensures r <= |lines|
    decreases |lines|
  {
    if lines == [] then 0
    else (if IsGoodLine(n, p, lines[0]) then 1 else 0) + CountGoodLines(n, p, lines[1..])
  }

  const WinScore: int := 1000000

  /** `static_eval_0`: the value of a board for player 0. */
  function StaticEval0(b: Board): int
  {
    var lines := BoardLines(b);
    if HasFullLine(lines, 0) then WinScore
    else if HasFullLine(lines, 1) then -WinScore
    else
      var x2 := CountGoodLines(2, 0, lines);
      var x1 := CountGoodLines(1, 0, lines);
      var o2 := CountGoodLines(2, 1, lines);
      var o1 := CountGoodLines(1, 1, lines);
      3 * x2 + x1 - (3 * o2 + o1)
  }

  /** `static_eval_1`: the value of a board for player 1. */
  function StaticEval1(b: Board): int
  {
    -1 * StaticEval0(b)
  }

  /** A line with three squares is never good for both one and two marks. */
  lemma {:induction false} GoodLinesOfOnePlayer(p: Player, lines: seq<seq<Square>>)
    requires forall k :: 0 <= k < |lines| ==> |lines[k]| == 3
    ensures CountGoodLines(2, p, lines) + CountGoodLines(1, p, lines) <= |lines|
    decreases |lines|
  {
    if lines != [] {
      GoodLinesOfOnePlayer(p, lines[1..]);
    }
  }

  /** The value for player 0 is the winning score exactly when player 0 has a
      full line (checked first), its negation exactly when only player 1 has
      one, and otherwise lies within 24 of zero. */
  lemma StaticEvalRange(b: Board)
    ensures StaticEval0(b) == WinScore <==> Wins(b, 0)
    ensures StaticEval0(b) == -WinScore <==> !Wins(b, 0) && Wins(b, 1)
    ensures !Wins(b, 0) && !Wins(b, 1) ==> -24 <= StaticEval0(b) <= 24
    ensures StaticEval1(b) == -StaticEval0(b)
  {
    var lines := BoardLines(b);
    LinesAreRowsColumnsDiagonals(b, 0);
    LinesAreRowsColumnsDiagonals(b, 1);
    GoodLinesOfOnePlayer(0, lines);
    GoodLinesOfOnePlayer(1, lines);
  }

  /** The winning board gets the winning score for player 0 and its negation
      for player 1; with player 1's first column it is the other way round; a
      full board without a line is worth nothing. */
  lemma StaticEvalExamples()
    ensures StaticEval0(WonBoard()) == 1000000 && StaticEval1(WonBoard()) == -1000000
    ensures var b: Board := [Mark(1), Mark(0), Mark(0), Mark(1), Mark(0), Empty, Mark(1), Empty, Empty];
      StaticEval0(b) == -1000000 && StaticEval1(b) == 1000000
    ensures var b: Board := [Mark(1), Mark(0), Mark(1), Mark(0), Mark(0), Mark(1), Mark(0), Mark(1), Mark(0)];
      StaticEval0(b) == 0
  {
    var w := WonBoard();
    CountThree(BoardLines(w)[4], Mark(0));
    assert HasFullLine(BoardLines(w), 0);
    var b1: Board := [Mark(1), Mark(0), Mark(0), Mark(1), Mark(0), Empty, Mark(1), Empty, Empty];
    var l1 := BoardLines(b1);
    CountThree(l1[3], Mark(1));
    assert HasFullLine(l1, 1);
    forall k | 0 <= k < 8 ensures Count(l1[k], Mark(0)) != 3 {
      CountThree(l1[k], Mark(0));
    }
    var d: Board := [Mark(1), Mark(0), Mark(1), Mark(0), Mark(0), Mark(1), Mark(0), Mark(1), Mark(0)];
    var ld := BoardLines(d);
    forall k | 0 <= k < 8 ensures Count(ld[k], Mark(0)) != 3 && Count(ld[k], Mark(1)) != 3 && Count(ld[k], Empty) == 0 {
      CountThree(ld[k], Mark(0));
      CountThree(ld[k], Mark(1));
      CountNone(ld[k], Empty);
    }
    NoGoodLines(ld);
  }

  /** Lines without an empty square are good for nobody. */
  lemma {:induction false} NoGoodLines(lines: seq<seq<Square>>)
    requires forall k :: 0 <= k < |lines| ==> Count(lines[k], Empty) == 0
    ensures forall n, p :: 1 <= n <= 2 && 0 <= p <= 1 ==> CountGoodLines(n, p, lines) == 0
    decreases |lines|
  {
    if lines != [] {
      NoGoodLines(lines[1..]);
    }
  }

  // ---------------------------------------------------------------------------
  // The two evaluations are mirror images.

  /** The square with the players' marks exchanged. */
  function SwapSquare(s: Square): Square
  {
    match s
    case Empty => Empty
    case Mark(p) => Mark(1 - p)
  }

  /** The squares with the players' marks exchanged. */
  function Swap(s: seq<Square>): (r: seq<Square>)
    ensures |r| == |s|
  {
    seq(|s|, i requires 0 <= i < |s| => SwapSquare(s[i]))
  }

  /** Exchanging the marks exchanges the counts. */
  lemma {:induction false} CountSwap(s: seq<Square>, x: Square)
    ensures Count(Swap(s), SwapSquare(x)) == Count(s, x)
    decreases |s|
  {
    if s != [] {
      assert Swap(s)[1..] == Swap(s[1..]);
      assert Swap(s)[0] == SwapSquare(s[0]);
      assert (SwapSquare(s[0]) == SwapSquare(x)) == (s[0] == x);
      CountSwap(s[1..], x);
    }
  }

  /** The lines of the exchanged board are the exchanged lines. */
  lemma SwapBoardLines(b: Board)
    ensures |BoardLines(Swap(b))| == |BoardLines(b)|
    ensures forall k :: 0 <= k < 8 ==> BoardLines(Swap(b))[k] == Swap(BoardLines(b)[k])
  {
  }

  /** A line good for `p` becomes a line good for the other player. */
  lemma {:induction false} CountGoodLinesSwap(n: int, p: Player, lines: seq<seq<Square>>, swapped: seq<seq<Square>>)
    requires 1 <= n <= 2
    requires |swapped| == |lines| && forall k :: 0 <= k < |lines| ==> swapped[k] == Swap(lines[k])
    ensures CountGoodLines(n, 1 - p, swapped) == CountGoodLines(n, p, lines)
    ensures HasFullLine(swapped, 1 - p) <==> HasFullLine(lines, p)
    decreases |lines|
  {
    forall k | 0 <= k < |lines|
      ensures Count(swapped[k], Mark(1 - p)) == Count(lines[k], Mark(p))
      ensures Count(swapped[k], Empty) == Count(lines[k], Empty)
    {
      CountSwap(lines[k], Mark(p));
      CountSwap(lines[k], Empty);
    }
    if lines != [] {
      CountGoodLinesSwap(n, p, lines[1..], swapped[1..]);
    }
  }

  /** `static_eval_1` is `static_eval_0` with the players' roles exchanged,
      unless both players have a full line, where both give player 0's score. */
  lemma StaticEvalSwap(b: Board)
    requires !(Wins(b, 0) && Wins(b, 1))
    ensures StaticEval0(Swap(b)) == StaticEval1(b)
  {
    var lines := BoardLines(b);
    var swapped := BoardLines(Swap(b));
    SwapBoardLines(b);
    LinesAreRowsColumnsDiagonals(b, 0);
    LinesAreRowsColumnsDiagonals(b, 1);
    CountGoodLinesSwap(1, 0, lines, swapped);
    CountGoodLinesSwap(2, 0, lines, swapped);
    CountGoodLinesSwap(1, 1, lines, swapped);
    CountGoodLinesSwap(2, 1, lines, swapped);
  }
}
