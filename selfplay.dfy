/**
 * Self-play against a random opponent: X moves at random, O is the network,
 * and the finished game is handed to the training pass.
 */
module SelfPlay {
  import opened Board
  import opened Selection
  import opened Training

  /**
   * Every move of `moves` was made on an empty cell of a game that was not
   * yet decided.
   */
  predicate LegalPlay(moves: seq<int>)
    decreases |moves|
  {
    InRange(moves) &&
    (|moves| > 0 ==>
      var n := |moves| - 1;
      LegalPlay(moves[..n]) &&
      Verdict(Replay(moves[..n])) == Unset && Replay(moves[..n])[moves[n]] == Empty)
  }

  /**
   * Every move with an odd index (O's moves) is the one the network's
   * selection loop picks on the board before it.
   */
  predicate NetworkMoves(moves: seq<int>, forward: seq<real> -> Probs)
    requires InRange(moves)
    decreases |moves|
  {
    |moves| > 0 ==>
      var n := |moves| - 1;
      var b := Replay(moves[..n]);
      NetworkMoves(moves[..n], forward) &&
      (n % 2 == 1 ==> BestEmpty(b, forward(Encode(b)), moves[n]))
  }

  /** A legal game never plays a cell twice, and so has at most nine moves. */
  lemma {:induction false} LegalPlayShape(moves: seq<int>)
    requires LegalPlay(moves)
    ensures Distinct(moves) && |moves| <= 9
  {
    if |moves| > 0 {
      var n := |moves| - 1;
      var prev := moves[..n];
      LegalPlayShape(prev);
      assert Replay(prev)[moves[n]] == Empty;
      forall j | 0 <= j < n
        ensures prev[j] != moves[n]
      {
        ReplayPlayed(prev, j);
      }
      assert moves == prev + [moves[n]];
      AtMostNineMoves(moves);
    }
  }

  /**
   * The board of a legal game of k moves has exactly k marked cells, and
   * the cell of move i holds X for even i and O for odd i.
   */
  lemma LegalPlayBoard(moves: seq<int>)
    requires LegalPlay(moves)
    ensures CountEmpty(Replay(moves)) == 9 - |moves|
    ensures forall i :: 0 <= i < |moves| ==> Replay(moves)[moves[i]] == MarkOf(i)
  {
    LegalPlayShape(moves);
    ReplayCount(moves);
    forall i | 0 <= i < |moves|
      ensures Replay(moves)[moves[i]] == MarkOf(i)
    {
      ReplayPlayed(moves, i);
    }
  }

  /** A legal game that ends in a draw has filled all nine cells. */
  lemma DrawFillsBoard(moves: seq<int>)
    requires LegalPlay(moves) && Verdict(Replay(moves)) == Draw
    ensures |moves| == 9
  {
    LegalPlayShape(moves);
    ReplayCount(moves);
    VerdictCases(Replay(moves));
    CountEmptyZero(Replay(moves));
  }

  /** A legal game that is not yet decided has room for another move. */
  lemma UndecidedHasRoom(moves: seq<int>)
    requires LegalPlay(moves) && Verdict(Replay(moves)) == Unset
    ensures |moves| < 9 && Empty in Replay(moves)
  {
    LegalPlayShape(moves);
    ReplayCount(moves);
    VerdictCases(Replay(moves));
    CountEmptyZero(Replay(moves));
  }

  /** Flipping the low bit of the player for move k gives the player for move k + 1. */
  lemma FlipLowBitNext(k: nat)
    ensures FlipLowBit(k % 2) == (k + 1) % 2
  {
  }

  /** A legal move on an undecided board extends a legal game by one move. */
  lemma ExtendPlay(prev: seq<int>, move: int, forward: seq<real> -> Probs)
    requires LegalPlay(prev) && NetworkMoves(prev, forward)
    requires Verdict(Replay(prev)) == Unset && 0 <= move < 9 && Replay(prev)[move] == Empty
    requires |prev| % 2 == 1 ==> BestEmpty(Replay(prev), forward(Encode(Replay(prev))), move)
    ensures LegalPlay(prev + [move]) && NetworkMoves(prev + [move], forward)
    ensures Replay(prev + [move]) == Replay(prev)[move := MarkOf(|prev|)]
  {
    var s := prev + [move];
    assert s[..|prev|] == prev;
    assert InRange(s);
  }

  /**
   * One game of X at random against the network as O, recorded in
   * `moveHistory`, followed by the training pass on it with the network on
   * the odd indices. `forward` is the network's forward pass, which the
   * game does not change.
   */
  method PlayRandomGame(forward: seq<real> -> Probs, moveHistory: array<int>)
      returns (winner: Winner, numMoves: int, steps: seq<TrainingStep>)
    requires moveHistory.Length >= 9
    modifies moveHistory
    ensures 0 <= numMoves <= 9
    ensures LegalPlay(moveHistory[..numMoves]) && NetworkMoves(moveHistory[..numMoves], forward)
    ensures winner != Unset && winner == Verdict(Replay(moveHistory[..numMoves]))
    ensures RecordedInRange(moveHistory[..], numMoves)
    ensures forall i :: numMoves <= i < moveHistory.Length ==> moveHistory[i] == old(moveHistory[i])
    ensures steps == Steps(moveHistory[..], numMoves, true, winner)
  {
    var gs := new GameState();
    winner := Unset;
    numMoves := 0;

    gs.InitGame();
    assert moveHistory[..0] == [];
    var over;
    over, winner := gs.CheckGameOver(winner);

    while !over
      invariant gs.Valid() && 0 <= numMoves <= 9
      invariant LegalPlay(moveHistory[..numMoves]) && NetworkMoves(moveHistory[..numMoves], forward)
      invariant gs.board[..] == Replay(moveHistory[..numMoves])
      invariant gs.currentPlayer == numMoves % 2
      invariant over <==> Verdict(gs.board[..]) != Unset
      invariant over ==> winner == Verdict(gs.board[..])
      invariant forall i :: numMoves <= i < moveHistory.Length ==> moveHistory[i] == old(moveHistory[i])
      decreases 9 - numMoves
    {
      UndecidedHasRoom(moveHistory[..numMoves]);
      PlayTurn(gs, forward, moveHistory, numMoves);
      numMoves := numMoves + 1;
      over, winner := gs.CheckGameOver(winner);
    }

    ghost var played := moveHistory[..numMoves];
    assert InRange(played);
    assert forall i :: 0 <= i < numMoves ==> moveHistory[..][i] == played[i];
    steps := LearnFromGame(moveHistory, numMoves, true, winner);
  }

  /**
   * The move of the player to move on an undecided board: any empty cell
   * for X, the network's choice for O.
   */
  method ChooseMove(gs: GameState, forward: seq<real> -> Probs) returns (move: int)
    requires gs.Valid() && Verdict(gs.board[..]) == Unset
    ensures 0 <= move < 9 && gs.board[move] == Empty
    ensures gs.currentPlayer != 0 ==> BestEmpty(gs.board[..], forward(Encode(gs.board[..])), move)
  {
    VerdictCases(gs.board[..]);
    if gs.currentPlayer == 0 {
      move := gs.GetRandomMove();
    } else {
      move := GetComputerMove(gs, forward);
    }
  }

  /**
   * One pass of the game loop before the terminal check: the player to move
   * picks a cell (at random for X, by the network for O), the mark is
   * written, the move is recorded at index numMoves and the turn passes.
   */
  method PlayTurn(gs: GameState, forward: seq<real> -> Probs, moveHistory: array<int>, numMoves: nat)
    requires gs.Valid() && numMoves < 9 <= moveHistory.Length
    requires LegalPlay(moveHistory[..numMoves]) && NetworkMoves(moveHistory[..numMoves], forward)
    requires gs.board[..] == Replay(moveHistory[..numMoves]) && Verdict(gs.board[..]) == Unset
    requires gs.currentPlayer == numMoves % 2
    modifies gs, gs.board, moveHistory
    ensures gs.Valid()
    ensures LegalPlay(moveHistory[..numMoves + 1]) && NetworkMoves(moveHistory[..numMoves + 1], forward)
    ensures gs.board[..] == Replay(moveHistory[..numMoves + 1])
    ensures gs.currentPlayer == (numMoves + 1) % 2
    ensures forall i :: 0 <= i < moveHistory.Length && i != numMoves ==> moveHistory[i] == old(moveHistory[i])
  {
    ghost var prev := moveHistory[..numMoves];
    ghost var before := gs.board[..];
    var move := ChooseMove(gs, forward);
    ExtendPlay(prev, move, forward);

    FlipLowBitNext(numMoves);
    var symbol := if gs.currentPlayer == 0 then X else O;
    gs.board[move] := symbol;
    assert gs.board[..] == before[move := MarkOf(numMoves)];
    moveHistory[numMoves] := move;
    assert moveHistory[..numMoves + 1] == prev + [move];
    gs.currentPlayer := FlipLowBit(gs.currentPlayer);
  }
}
