/**
 * How the network's move is chosen: the board is encoded, the forward pass
 * produces one probability per cell, and the highest-probability empty cell
 * is taken.
 */
module Selection {
  import opened Board

  /** The forward pass's output: one probability per cell. */
  type Probs = p: seq<real> | |p| == 9 witness seq(9, _ => 0.0)

  /**
   * `move` is what the selection loop picks from probabilities `p` on
   * board `b`: the sentinel -1 exactly when no cell is empty, otherwise an
   * empty cell whose probability no empty cell beats, ties going to the
   * lowest index.
   */
  predicate BestEmpty(b: seq<Mark>, p: seq<real>, move: int)
    requires |b| == 9 && |p| == 9
  {
    (move == -1 <==> Empty !in b) &&
    (move != -1 ==>
      0 <= move < 9 && b[move] == Empty &&
      forall i :: 0 <= i < 9 && b[i] == Empty ==> p[i] <= p[move] && (i < move ==> p[i] < p[move]))
  }

  /** The choice is deterministic: at most one cell satisfies BestEmpty. */
  lemma BestEmptyUnique(b: seq<Mark>, p: seq<real>, m1: int, m2: int)
    requires |b| == 9 && |p| == 9
    requires BestEmpty(b, p, m1) && BestEmpty(b, p, m2)
    ensures m1 == m2
  {
  }

  /**
   * The network's move on the board of `gs`. `forward` stands for the
   * network's forward pass, which the model leaves opaque: it maps the
   * 18 inputs to the 9 output probabilities.
   */
  method GetComputerMove(gs: GameState, forward: seq<real> -> Probs) returns (bestMove: int)
    requires gs.Valid()
    ensures BestEmpty(gs.board[..], forward(Encode(gs.board[..])), bestMove)
  {
    var inputs := new real[InputSize];
    inputs := gs.BoardToInputs(inputs);
    assert inputs[..] == inputs[..InputSize];
    var outputs := forward(inputs[..]);

    bestMove := -1;
    var bestLegalProba := -1.0;

    for i := 0 to 9
      invariant -1 <= bestMove < i
      invariant bestMove == -1 <==> forall j :: 0 <= j < i ==> gs.board[j] != Empty
      invariant bestMove != -1 ==> gs.board[bestMove] == Empty && bestLegalProba == outputs[bestMove]
      invariant bestMove != -1 ==> forall j :: 0 <= j < i && gs.board[j] == Empty ==>
                  outputs[j] <= outputs[bestMove] && (j < bestMove ==> outputs[j] < outputs[bestMove])
    {
      var proba := outputs[i];
      if gs.board[i] == Empty && (bestMove == -1 || proba > bestLegalProba) {
        bestMove := i;
        bestLegalProba := proba;
      }
    }
  }
}
