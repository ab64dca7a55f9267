/**
 * Board engine and feature encoder of the tic-tac-toe self-play learner:
 * the nine-cell board, the terminal-position check and the two-hot input
 * vector that the network reads.
 */
module Board {

  /** A cell of the board; the program spells these ".", "X" and "O". */
  datatype Mark = Empty | X | O

  /**
   * What the program's `winner` string can hold: never written (the empty
   * string), the mark of a completed line, or "draw".
   */
  datatype Winner = Unset | Won(mark: Mark) | Draw

  datatype Option<T> = None | Some(value: T)

  /** Number of network inputs: two per cell. */
  const InputSize: nat := 18

  /** The board every game starts from. */
  function EmptyBoard(): seq<Mark>
  {
    seq(9, _ => Empty)
  }

  /** The mark written by the move with index k: X on even indices, O on odd ones. */
  function MarkOf(k: int): Mark
  {
    if k % 2 == 0 then X else O
  }

  /** `p ^ 1` on a two's-complement integer: the lowest bit is flipped. */
  function FlipLowBit(p: int): int
  {
    if p % 2 == 0 then p + 1 else p - 1
  }

  /*
   * Terminal check
   */

  /**
   * The cells of line j in the order the program checks them:
   * rows 0..2, columns 0..2, the main diagonal, the anti-diagonal.
   */
  function Line(j: nat): (cells: (int, int, int))
    requires j < 8
    ensures 0 <= cells.0 < 9 && 0 <= cells.1 < 9 && 0 <= cells.2 < 9
  {
    if j < 3 then (3 * j, 3 * j + 1, 3 * j + 2)
    else if j < 6 then (j - 3, j, j + 3)
    else if j == 6 then (0, 4, 8)
    else (2, 4, 6)
  }

  /** Line j holds three equal marks, none of them empty. */
  predicate Complete(b: seq<Mark>, j: nat)
    requires |b| == 9 && j < 8
  {
    var (p, q, r) := Line(j);
    b[p] != Empty && b[p] == b[q] && b[q] == b[r]
  }

  /** No line of the board is complete. */
  predicate NoLine(b: seq<Mark>)
    requires |b| == 9
  {
    forall j :: 0 <= j < 8 ==> !Complete(b, j)
  }

  /** The first complete line at position `from` or later in checking order. */
  function FirstComplete(b: seq<Mark>, from: nat): (r: Option<nat>)
    requires |b| == 9 && from <= 8
    ensures r.Some? ==> from <= r.value < 8 && Complete(b, r.value)
    ensures forall j :: from <= j < 8 && (r.None? || j < r.value) ==> !Complete(b, j)
    decreases 8 - from
  {
    if from == 8 then None
    else if Complete(b, from) then Some(from)
    else FirstComplete(b, from + 1)
  }

  /**
   * The outcome the terminal check reports: the mark of the first complete
   * line; otherwise a draw when no cell is empty; otherwise Unset, the game
   * goes on.
   */
  function Verdict(b: seq<Mark>): Winner
    requires |b| == 9
  {
    match FirstComplete(b, 0)
    case Some(j) => Won(b[Line(j).0])
    case None => if Empty in b then Unset else Draw
  }

  /** The first complete line in checking order decides the winner. */
  lemma VerdictFirstLine(b: seq<Mark>, j: nat)
    requires |b| == 9 && j < 8
    requires Complete(b, j) && forall i :: 0 <= i < j ==> !Complete(b, i)
    ensures Verdict(b) == Won(b[Line(j).0]) && b[Line(j).0] != Empty
  {
  }

  /** The three outcomes of the terminal check, each stated outright. */
  lemma VerdictCases(b: seq<Mark>)
    requires |b| == 9
    ensures Verdict(b).Won? <==> !NoLine(b)
    ensures Verdict(b).Won? ==> Verdict(b).mark != Empty
    ensures Verdict(b) == Draw <==> NoLine(b) && Empty !in b
    ensures Verdict(b) == Unset <==> NoLine(b) && Empty in b
  {
  }

  /*
   * Counting empty cells
   */

  /** Number of empty cells. */
  function CountEmpty(s: seq<Mark>): (n: nat)
    ensures n <= |s|
  {
    if s == [] then 0
    else CountEmpty(s[..|s| - 1]) + (if s[|s| - 1] == Empty then 1 else 0)
  }

  /** No empty cell is counted exactly when there is no empty cell. */
  lemma {:induction false} CountEmptyZero(s: seq<Mark>)
    ensures CountEmpty(s) == 0 <==> Empty !in s
  {
    if s != [] {
      var n := |s| - 1;
      CountEmptyZero(s[..n]);
      assert s == s[..n] + [s[n]];
    }
  }

  /** A sequence of empty cells counts all of its cells. */
  lemma {:induction false} CountEmptyAll(s: seq<Mark>)
    requires forall i :: 0 <= i < |s| ==> s[i] == Empty
    ensures CountEmpty(s) == |s|
  {
    if s != [] {
      CountEmptyAll(s[..|s| - 1]);
    }
  }

  /** Marking an empty cell removes exactly one empty cell. */
  lemma {:induction false} CountEmptyPlace(s: seq<Mark>, i: int, m: Mark)
    requires 0 <= i < |s| && s[i] == Empty && m != Empty
    ensures CountEmpty(s[i := m]) == CountEmpty(s) - 1
  {
    var n := |s| - 1;
    if i < n {
      assert s[i := m][..n] == s[..n][i := m];
      CountEmptyPlace(s[..n], i, m);
    } else {
      assert s[i := m][..n] == s[..n];
    }
  }

  /*
   * Feature encoding
   */

  /** The two inputs of one cell: (0,0) empty, (1,0) X, (0,1) O. */
  function CellInputs(m: Mark): seq<real>
  {
    match m
    case Empty => [0.0, 0.0]
    case X => [1.0, 0.0]
    case O => [0.0, 1.0]
  }

  /** The two-hot input vector of a board, cell i in slots 2i and 2i+1. */
  function Encode(b: seq<Mark>): (v: seq<real>)
    ensures |v| == 2 * |b|
  {
    if b == [] then []
    else Encode(b[..|b| - 1]) + CellInputs(b[|b| - 1])
  }

  /** Reads one cell back from its two inputs. */
  function CellOf(a: real, c: real): Mark
  {
    if a == 1.0 then X else if c == 1.0 then O else Empty
  }

  /** Reads a board back from an input vector, two slots per cell. */
  function Decode(v: seq<real>): (b: seq<Mark>)
    ensures |b| == |v| / 2
  {
    seq(|v| / 2, i requires 0 <= i < |v| / 2 => CellOf(v[2 * i], v[2 * i + 1]))
  }

  /** Slot 2i is 1 exactly for an X in cell i, slot 2i+1 exactly for an O; both are otherwise 0. */
  lemma {:induction false} EncodeAt(b: seq<Mark>, i: int)
    requires 0 <= i < |b|
    ensures Encode(b)[2 * i] == (if b[i] == X then 1.0 else 0.0)
    ensures Encode(b)[2 * i + 1] == (if b[i] == O then 1.0 else 0.0)
  {
    var n := |b| - 1;
    if i < n {
      EncodeAt(b[..n], i);
    }
  }

  /** The encoding loses nothing: decoding gives the board back. */
  lemma DecodeEncode(b: seq<Mark>)
    ensures Decode(Encode(b)) == b
  {
    var v := Encode(b);
    assert |v| / 2 == |b|;
    forall i | 0 <= i < |b|
      ensures Decode(v)[i] == b[i]
    {
      EncodeAt(b, i);
      assert Decode(v)[i] == CellOf(v[2 * i], v[2 * i + 1]);
    }
  }

  /** Every slot is 0 or 1 and no cell has both of its slots set. */
  lemma EncodeTwoHot(b: seq<Mark>)
    ensures forall k :: 0 <= k < |Encode(b)| ==> Encode(b)[k] == 0.0 || Encode(b)[k] == 1.0
    ensures forall i :: 0 <= i < |b| ==> Encode(b)[2 * i] == 0.0 || Encode(b)[2 * i + 1] == 0.0
  {
    forall k | 0 <= k < |Encode(b)|
      ensures Encode(b)[k] == 0.0 || Encode(b)[k] == 1.0
    {
      EncodeAt(b, k / 2);
      assert k == 2 * (k / 2) || k == 2 * (k / 2) + 1;
    }
    forall i | 0 <= i < |b|
      ensures Encode(b)[2 * i] == 0.0 || Encode(b)[2 * i + 1] == 0.0
    {
      EncodeAt(b, i);
    }
  }

  /*
   * The game state the program updates in place
   */

  class GameState {
    /** The nine cells, row by row. */
    const board: array<Mark>
    /** Whose turn it is: 0 for X, 1 for O. */
    var currentPlayer: int

    ghost predicate Valid()
    {
      board.Length == 9
    }

    /** A zero-valued game state: a board whose cells are not yet set, player 0. */
    constructor ()
      ensures Valid() && fresh(board) && currentPlayer == 0
    {
      board := new Mark[9];
      currentPlayer := 0;
    }

    /** Clears all nine cells and gives the turn to X. */
    method InitGame()
      requires Valid()
      modifies this, board
      ensures Valid()
      ensures board[..] == EmptyBoard() && currentPlayer == 0
    {
      currentPlayer := 0;
      forall i | 0 <= i < 9 {
        board[i] := Empty;
      }
    }

    /**
     * Checks rows, then columns, then the two diagonals for a complete line,
     * then counts empty cells. `winnerIn` is the value behind the program's
     * `winner` pointer, and `winner` the value it holds afterwards.
     */
    method CheckGameOver(winnerIn: Winner) returns (over: bool, winner: Winner)
      requires Valid()
      ensures over <==> Verdict(board[..]) != Unset
      ensures winner == if over then Verdict(board[..]) else winnerIn
    {
      ghost var b := board[..];
      for i := 0 to 3
        invariant forall j :: 0 <= j < i ==> !Complete(b, j)
      {
        if board[i * 3] != Empty && board[i * 3] == board[i * 3 + 1] && board[i * 3 + 1] == board[i * 3 + 2] {
          VerdictFirstLine(b, i);
          return true, Won(board[i * 3]);
        }
      }

      for i := 0 to 3
        invariant forall j :: 0 <= j < 3 + i ==> !Complete(b, j)
      {
        if board[i] == board[i + 3] && board[i + 3] == board[i + 6] && board[i] != Empty {
          VerdictFirstLine(b, 3 + i);
          return true, Won(board[i]);
        }
      }

      if board[0] == board[4] && board[4] == board[8] && board[0] != Empty {
        VerdictFirstLine(b, 6);
        return true, Won(board[0]);
      }
      if board[2] == board[4] && board[4] == board[6] && board[2] != Empty {
        VerdictFirstLine(b, 7);
        return true, Won(board[2]);
      }
      assert NoLine(b);

      var emptyTiles := 0;
      for i := 0 to 9
        invariant emptyTiles == CountEmpty(b[..i])
      {
        if board[i] == Empty {
          emptyTiles := emptyTiles + 1;
        }
        assert b[..i + 1][..i] == b[..i];
      }
      assert b[..9] == b;
      CountEmptyZero(b);
      VerdictCases(b);
      if emptyTiles == 0 {
        return true, Draw;
      }
      return false, winnerIn;
    }

    /**
     * Writes the two-hot encoding of the board into the first 18 slots of
     * `inputs` and hands the same buffer back.
     */
    method BoardToInputs(inputs: array<real>) returns (r: array<real>)
      requires Valid() && inputs.Length >= InputSize
      modifies inputs
      ensures r == inputs
      ensures inputs[..InputSize] == Encode(board[..])
      ensures inputs[InputSize..] == old(inputs[InputSize..])
    {
      ghost var encoded := Encode(board[..]);
      for i := 0 to 9
        invariant forall j :: 0 <= j < 2 * i ==> inputs[j] == encoded[j]
        invariant inputs[InputSize..] == old(inputs[InputSize..])
      {
        EncodeAt(board[..], i);
        if board[i] == Empty {
          inputs[i * 2] := 0.0;
          inputs[i * 2 + 1] := 0.0;
        } else if board[i] == X {
          inputs[i * 2] := 1.0;
          inputs[i * 2 + 1] := 0.0;
        } else {
          inputs[i * 2] := 0.0;
          inputs[i * 2 + 1] := 1.0;
        }
      }
      return inputs;
    }

    /**
     * The random opponent: some empty cell, chosen nondeterministically
     * (the program draws cells uniformly until it hits an empty one).
     */
    method GetRandomMove() returns (move: int)
      requires Valid() && Empty in board[..]
      ensures 0 <= move < 9 && board[move] == Empty
    {
      ghost var k :| 0 <= k < 9 && board[..][k] == Empty;
      move :| 0 <= move < 9 && board[move] == Empty;
    }
  }
}
