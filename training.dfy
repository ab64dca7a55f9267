/**
 * Credit assignment: after a game, every move the network made is turned
 * into a training example. The board before that move is rebuilt from the
 * move history, the game's outcome gives a reward, the move's position in
 * the game scales it, and the sign of the scaled reward decides whether the
 * target reinforces the move played or spreads its mass over the other
 * empty cells. The backward pass that consumes each example is left
 * opaque: the model returns the examples in the order they are handed to it.
 */
module Training {
  import opened Board

  /** Number of network outputs: one per cell. */
  const OutputSize: nat := 9
  /** Learning rate handed to every backward pass. */
  const LearningRate: real := 0.01
  /** Base rewards for the three outcomes, seen from the network's side. */
  const DrawReward: real := 0.3
  const WinReward: real := 1.0
  const LossReward: real := -2.0

  /** The arguments of one backward pass: the replayed inputs, the target vector, the learning rate and the reward scale. */
  datatype TrainingStep = TrainingStep(inputs: seq<real>, target: seq<real>, learningRate: real, rewardScale: real)

  /*
   * Move histories and the boards they rebuild
   */

  /** Every recorded move names a cell. */
  predicate InRange(moves: seq<int>)
  {
    forall i :: 0 <= i < |moves| ==> 0 <= moves[i] < 9
  }

  /** No cell is played twice. */
  predicate Distinct(moves: seq<int>)
  {
    forall i, j :: 0 <= i < j < |moves| ==> moves[i] != moves[j]
  }

  /** The first n entries of a history buffer are recorded moves. */
  predicate RecordedInRange(h: seq<int>, n: int)
  {
    n <= |h| && forall i :: 0 <= i < n ==> 0 <= h[i] < 9
  }

  /** The board obtained from the empty board by writing X and O alternately at the given cells. */
  function Replay(moves: seq<int>): (b: seq<Mark>)
    requires InRange(moves)
    ensures |b| == 9
  {
    if moves == [] then EmptyBoard()
    else
      var n := |moves| - 1;
      Replay(moves[..n])[moves[n] := MarkOf(n)]
  }

  /** A cell that no move names stays empty. */
  lemma {:induction false} ReplayUnplayed(moves: seq<int>, c: int)
    requires InRange(moves) && 0 <= c < 9 && c !in moves
    ensures Replay(moves)[c] == Empty
  {
    if moves != [] {
      var n := |moves| - 1;
      assert c !in moves[..n];
      ReplayUnplayed(moves[..n], c);
    }
  }

  /** With no cell played twice, the cell of move i holds X for even i and O for odd i. */
  lemma {:induction false} ReplayPlayed(moves: seq<int>, i: int)
    requires InRange(moves) && Distinct(moves) && 0 <= i < |moves|
    ensures Replay(moves)[moves[i]] == MarkOf(i)
  {
    var n := |moves| - 1;
    if i < n {
      ReplayPlayed(moves[..n], i);
    }
  }

  /** With no cell played twice, exactly one cell per move is non-empty. */
  lemma {:induction false} ReplayCount(moves: seq<int>)
    requires InRange(moves) && Distinct(moves)
    ensures CountEmpty(Replay(moves)) == 9 - |moves|
  {
    if moves == [] {
      CountEmptyAll(EmptyBoard());
    } else {
      var n := |moves| - 1;
      ReplayCount(moves[..n]);
      assert moves[n] !in moves[..n];
      ReplayUnplayed(moves[..n], moves[n]);
      CountEmptyPlace(Replay(moves[..n]), moves[n], MarkOf(n));
    }
  }

  /** A history that names every cell at most once has at most nine moves. */
  lemma AtMostNineMoves(moves: seq<int>)
    requires InRange(moves) && Distinct(moves)
    ensures |moves| <= 9
  {
    ReplayCount(moves);
  }

  /*
   * Which moves are trained, and with what reward
   */

  /** The network's mark: O when nnMovesEven is set, X otherwise. */
  function NnSymbol(nnMovesEven: bool): Mark
  {
    if nnMovesEven then O else X
  }

  /** Move index k is trained on: the program skips even indices when nnMovesEven is set and odd ones otherwise. */
  predicate Trained(k: int, nnMovesEven: bool)
  {
    !((nnMovesEven && k % 2 == 0) || (!nnMovesEven && k % 2 == 1))
  }

  /** The trained moves are exactly those on which the network's own mark was written. */
  lemma TrainedOwnMoves(k: int, nnMovesEven: bool)
    ensures Trained(k, nnMovesEven) <==> k % 2 == (if nnMovesEven then 1 else 0)
    ensures Trained(k, nnMovesEven) <==> MarkOf(k) == NnSymbol(nnMovesEven)
  {
  }

  /** Base reward of the game for the network: positive for a draw or its own win, negative otherwise. */
  function Reward(winner: Winner, nnMovesEven: bool): (r: real)
    ensures r > 0.0 <==> winner == Draw || winner == Won(NnSymbol(nnMovesEven))
    ensures r < 0.0 <==> winner != Draw && winner != Won(NnSymbol(nnMovesEven))
  {
    if winner == Draw then DrawReward
    else if winner == Won(NnSymbol(nnMovesEven)) then WinReward
    else LossReward
  }

  /** Weight of move k in a game of numMoves moves. */
  function Importance(moveIdx: int, numMoves: int): real
    requires numMoves != 0
  {
    0.5 + 0.5 * (moveIdx as real) / (numMoves as real)
  }

  /** The first move weighs 0.5 and every move of the game weighs less than 1. */
  lemma ImportanceRange(k: int, n: int)
    requires 0 <= k < n
    ensures Importance(0, n) == 0.5
    ensures 0.5 <= Importance(k, n) < 1.0
  {
    var q := (k as real) / (n as real);
    assert 0.0 <= q < 1.0 by {
      assert q * (n as real) == k as real;
    }
    assert 0.5 * (k as real) / (n as real) == 0.5 * q;
  }

  /** Later moves weigh strictly more. */
  lemma ImportanceIncreasing(k1: int, k2: int, n: int)
    requires 0 <= k1 < k2 < n
    ensures Importance(k1, n) < Importance(k2, n)
  {
    var q1, q2 := (k1 as real) / (n as real), (k2 as real) / (n as real);
    assert q1 < q2 by {
      assert q1 * (n as real) == k1 as real;
      assert q2 * (n as real) == k2 as real;
    }
    assert 0.5 * (k1 as real) / (n as real) == 0.5 * q1;
    assert 0.5 * (k2 as real) / (n as real) == 0.5 * q2;
  }

  /** The reward of the game weighted by the importance of move k of n. */
  function ScaledReward(winner: Winner, nnMovesEven: bool, k: int, n: int): real
    requires n != 0
  {
    Reward(winner, nnMovesEven) * Importance(k, n)
  }

  /** The product the training loop computes is the scaled reward. */
  lemma ScaledRewardIs(reward: real, importance: real, winner: Winner, nnMovesEven: bool, k: int, n: int)
    requires n != 0
    requires reward == Reward(winner, nnMovesEven)
    requires importance == 0.5 + 0.5 * (k as real) / (n as real)
    ensures reward * importance == ScaledReward(winner, nnMovesEven, k, n)
  {
  }

  /** Scaling by the importance keeps the sign of the reward. */
  lemma ScaledRewardSign(winner: Winner, nnMovesEven: bool, k: int, n: int)
    requires 0 <= k < n
    ensures ScaledReward(winner, nnMovesEven, k, n) > 0.0 <==> Reward(winner, nnMovesEven) > 0.0
    ensures ScaledReward(winner, nnMovesEven, k, n) < 0.0 <==> Reward(winner, nnMovesEven) < 0.0
  {
    ImportanceRange(k, n);
  }

  /*
   * Target vectors
   */

  /**
   * The mass given to each other empty cell when a move is discouraged:
   * 1 / (9 - moveIdx - 1). At moveIdx 8 the program divides by zero and
   * gets +Inf; the model uses 0 there (see LastMoveTargetsNothing).
   */
  function OtherProba(moveIdx: int): real
  {
    var validMovesLeft := 9 - moveIdx - 1;
    if validMovesLeft != 0 then 1.0 / (validMovesLeft as real) else 0.0
  }

  /** All mass on the cell played. */
  function OneHot(move: int): seq<real>
  {
    seq(OutputSize, i => if i == move then 1.0 else 0.0)
  }

  /** Mass p on every empty cell other than `move`, 0 elsewhere. */
  function Spread(b: seq<Mark>, move: int, p: real): (t: seq<real>)
    ensures |t| == |b|
  {
    if b == [] then []
    else
      var n := |b| - 1;
      Spread(b[..n], move, p) + [if b[n] == Empty && n != move then p else 0.0]
  }

  /** The target for a move: reinforce it when the scaled reward is non-negative, else spread its mass over the other empty cells. */
  function Target(b: seq<Mark>, move: int, moveIdx: int, scaledReward: real): seq<real>
    requires |b| == 9
  {
    if scaledReward >= 0.0 then OneHot(move) else Spread(b, move, OtherProba(moveIdx))
  }

  function Sum(s: seq<real>): real
  {
    if s == [] then 0.0 else Sum(s[..|s| - 1]) + s[|s| - 1]
  }

  lemma {:induction false} IndicatorSum(n: nat, move: int)
    ensures Sum(seq(n, i => if i == move then 1.0 else 0.0)) == if 0 <= move < n then 1.0 else 0.0
  {
    if n > 0 {
      var s := seq(n, i => if i == move then 1.0 else 0.0);
      assert s[..n - 1] == seq(n - 1, i => if i == move then 1.0 else 0.0);
      IndicatorSum(n - 1, move);
    }
  }

  lemma {:induction false} SpreadAt(b: seq<Mark>, move: int, p: real, i: int)
    requires 0 <= i < |b|
    ensures Spread(b, move, p)[i] == if b[i] == Empty && i != move then p else 0.0
  {
    var n := |b| - 1;
    if i < n {
      SpreadAt(b[..n], move, p, i);
    }
  }

  /** Number of empty cells other than `move`. */
  function OthersEmpty(b: seq<Mark>, move: int): nat
  {
    if b == [] then 0
    else
      var n := |b| - 1;
      OthersEmpty(b[..n], move) + (if b[n] == Empty && n != move then 1 else 0)
  }

  /** The other empty cells are all empty cells but the move's own, when that one is empty. */
  lemma {:induction false} OthersEmptyCount(b: seq<Mark>, move: int)
    ensures OthersEmpty(b, move) == CountEmpty(b) - (if 0 <= move < |b| && b[move] == Empty then 1 else 0)
  {
    if b != [] {
      var n := |b| - 1;
      OthersEmptyCount(b[..n], move);
      if 0 <= move < n {
        assert b[..n][move] == b[move];
      }
    }
  }

  /** n copies of p added up. */
  function Repeat(p: real, n: nat): real
  {
    if n == 0 then 0.0 else Repeat(p, n - 1) + p
  }

  /** Adding n copies of 1/n gives 1. */
  lemma {:induction false} RepeatReciprocal(n: nat)
    requires n > 0
    ensures Repeat(1.0 / (n as real), n) == 1.0
  {
    RepeatIsProduct(1.0 / (n as real), n);
  }

  lemma {:induction false} RepeatIsProduct(p: real, n: nat)
    ensures Repeat(p, n) == p * (n as real)
  {
    if n > 0 {
      RepeatIsProduct(p, n - 1);
      assert p * ((n - 1) as real) + p == p * (n as real);
    }
  }

  /** The spread mass adds up to one p per empty cell other than `move`. */
  lemma {:induction false} SpreadSum(b: seq<Mark>, move: int, p: real)
    ensures Sum(Spread(b, move, p)) == Repeat(p, OthersEmpty(b, move))
  {
    if b != [] {
      var n := |b| - 1;
      var t := Spread(b, move, p);
      assert t[..n] == Spread(b[..n], move, p);
      SpreadSum(b[..n], move, p);
    }
  }

  /** A non-negative scaled reward reinforces the move played: all the mass, and only it, goes there. */
  lemma TargetReinforces(b: seq<Mark>, move: int, moveIdx: int, scaledReward: real)
    requires |b| == 9 && 0 <= move < 9 && scaledReward >= 0.0
    ensures |Target(b, move, moveIdx, scaledReward)| == 9
    ensures Target(b, move, moveIdx, scaledReward)[move] == 1.0
    ensures forall i :: 0 <= i < 9 && i != move ==> Target(b, move, moveIdx, scaledReward)[i] == 0.0
    ensures Sum(Target(b, move, moveIdx, scaledReward)) == 1.0
  {
    IndicatorSum(9, move);
  }

  /**
   * A negative scaled reward on move k < 8 of a history without repeated
   * cells puts no mass on the move played and 1/(8-k) on each other empty
   * cell of the rebuilt board, which adds up to 1.
   */
  lemma TargetDiscourages(moves: seq<int>, k: nat, scaledReward: real)
    requires InRange(moves) && Distinct(moves) && k < |moves| && k < 8 && scaledReward < 0.0
    ensures |Target(Replay(moves[..k]), moves[k], k, scaledReward)| == 9
    ensures Target(Replay(moves[..k]), moves[k], k, scaledReward)[moves[k]] == 0.0
    ensures forall i :: 0 <= i < 9 ==>
      Target(Replay(moves[..k]), moves[k], k, scaledReward)[i] ==
        if Replay(moves[..k])[i] == Empty && i != moves[k] then 1.0 / ((8 - k) as real) else 0.0
    ensures Sum(Target(Replay(moves[..k]), moves[k], k, scaledReward)) == 1.0
  {
    var prefix := moves[..k];
    var b := Replay(prefix);
    var move := moves[k];
    var p := OtherProba(k);
    assert p == 1.0 / ((8 - k) as real);
    forall i | 0 <= i < 9
      ensures Spread(b, move, p)[i] == if b[i] == Empty && i != move then p else 0.0
    {
      SpreadAt(b, move, p, i);
    }
    assert Distinct(prefix);
    ReplayCount(prefix);
    assert move !in prefix;
    ReplayUnplayed(prefix, move);
    SpreadSum(b, move, p);
    OthersEmptyCount(b, move);
    RepeatReciprocal(8 - k);
  }

  /**
   * At move index 8 of a history without repeated cells the played cell is
   * the only empty one, so no cell receives the +Inf the program computes
   * there, and the discouraging target is all zeros.
   */
  lemma LastMoveTargetsNothing(moves: seq<int>, scaledReward: real)
    requires InRange(moves) && Distinct(moves) && |moves| > 8
    ensures forall i :: 0 <= i < 9 && i != moves[8] ==> Replay(moves[..8])[i] != Empty
    ensures scaledReward < 0.0 ==> forall i :: 0 <= i < 9 ==> Target(Replay(moves[..8]), moves[8], 8, scaledReward)[i] == 0.0
  {
    var prefix := moves[..8];
    var b := Replay(prefix);
    AtMostNineMoves(moves);
    ReplayCount(moves);
    CountEmptyZero(Replay(moves));
    forall i | 0 <= i < 9 && i != moves[8]
      ensures b[i] != Empty
    {
      if b[i] == Empty {
        assert i !in moves by {
          if i in moves {
            var j :| 0 <= j < |moves| && moves[j] == i;
            if j < 8 {
              assert Distinct(prefix);
              ReplayPlayed(prefix, j);
            }
          }
        }
        ReplayUnplayed(moves, i);
      }
    }
    forall i | 0 <= i < 9
      ensures Spread(b, moves[8], OtherProba(8))[i] == 0.0
    {
      SpreadAt(b, moves[8], OtherProba(8), i);
    }
  }

  /*
   * The examples handed to the backward pass
   */

  /** The backward-pass arguments for move k of history h. */
  function StepAt(h: seq<int>, numMoves: int, nnMovesEven: bool, winner: Winner, k: nat): TrainingStep
    requires k < numMoves && RecordedInRange(h, k + 1)
  {
    assert InRange(h[..k]);
    var b := Replay(h[..k]);
    var scaledReward := ScaledReward(winner, nnMovesEven, k, numMoves);
    TrainingStep(Encode(b), Target(b, h[k], k, scaledReward), LearningRate, scaledReward)
  }

  /** StepAt spelled out on the board before move k. */
  lemma StepAtParts(h: seq<int>, numMoves: int, nnMovesEven: bool, winner: Winner, k: nat)
    requires k < numMoves && RecordedInRange(h, k + 1)
    ensures InRange(h[..k])
    ensures StepAt(h, numMoves, nnMovesEven, winner, k) ==
      TrainingStep(Encode(Replay(h[..k])),
                   Target(Replay(h[..k]), h[k], k, ScaledReward(winner, nnMovesEven, k, numMoves)),
                   LearningRate, ScaledReward(winner, nnMovesEven, k, numMoves))
  {
  }

  /** The examples for the trained moves among the first k, in order. */
  function StepsUpTo(h: seq<int>, numMoves: int, nnMovesEven: bool, winner: Winner, k: nat): seq<TrainingStep>
    requires (k == 0 || k <= numMoves) && RecordedInRange(h, k)
  {
    if k == 0 then []
    else
      StepsUpTo(h, numMoves, nnMovesEven, winner, k - 1) +
      (if Trained(k - 1, nnMovesEven) then [StepAt(h, numMoves, nnMovesEven, winner, k - 1)] else [])
  }

  /** One more move index adds that move's example exactly when it is trained. */
  lemma StepsUpToNext(h: seq<int>, numMoves: int, nnMovesEven: bool, winner: Winner, k: nat)
    requires k < numMoves && RecordedInRange(h, numMoves)
    ensures RecordedInRange(h, k + 1)
    ensures StepsUpTo(h, numMoves, nnMovesEven, winner, k + 1) ==
      StepsUpTo(h, numMoves, nnMovesEven, winner, k) +
      (if Trained(k, nnMovesEven) then [StepAt(h, numMoves, nnMovesEven, winner, k)] else [])
  {
  }

  /** The examples learnFromGame hands to the backward pass, in order. */
  function Steps(h: seq<int>, numMoves: int, nnMovesEven: bool, winner: Winner): seq<TrainingStep>
    requires RecordedInRange(h, numMoves)
  {
    if numMoves <= 0 then [] else StepsUpTo(h, numMoves, nnMovesEven, winner, numMoves)
  }

  /** The trained move indices below k, in increasing order. */
  function TrainedBelow(k: nat, nnMovesEven: bool): seq<nat>
  {
    if k == 0 then []
    else TrainedBelow(k - 1, nnMovesEven) + (if Trained(k - 1, nnMovesEven) then [k - 1] else [])
  }

  /** The trained indices are the odd ones when nnMovesEven is set and the even ones otherwise, all of them. */
  lemma {:induction false} TrainedBelowExact(k: nat, nnMovesEven: bool)
    ensures |TrainedBelow(k, nnMovesEven)| == (k + (if nnMovesEven then 0 else 1)) / 2
    ensures forall j :: 0 <= j < |TrainedBelow(k, nnMovesEven)| ==>
      TrainedBelow(k, nnMovesEven)[j] == 2 * j + (if nnMovesEven then 1 else 0)
  {
    if k > 0 {
      TrainedBelowExact(k - 1, nnMovesEven);
    }
  }

  lemma {:induction false} StepsUpToTrainedBelow(h: seq<int>, numMoves: int, nnMovesEven: bool, winner: Winner, k: nat)
    requires (k == 0 || k <= numMoves) && RecordedInRange(h, k)
    ensures |StepsUpTo(h, numMoves, nnMovesEven, winner, k)| == |TrainedBelow(k, nnMovesEven)|
    ensures forall j :: 0 <= j < |TrainedBelow(k, nnMovesEven)| ==>
      TrainedBelow(k, nnMovesEven)[j] < k &&
      StepsUpTo(h, numMoves, nnMovesEven, winner, k)[j] == StepAt(h, numMoves, nnMovesEven, winner, TrainedBelow(k, nnMovesEven)[j])
  {
    if k > 0 {
      StepsUpToTrainedBelow(h, numMoves, nnMovesEven, winner, k - 1);
      var before := StepsUpTo(h, numMoves, nnMovesEven, winner, k - 1);
      var idx := TrainedBelow(k - 1, nnMovesEven);
      if Trained(k - 1, nnMovesEven) {
        assert TrainedBelow(k, nnMovesEven) == idx + [k - 1];
        assert StepsUpTo(h, numMoves, nnMovesEven, winner, k) == before + [StepAt(h, numMoves, nnMovesEven, winner, k - 1)];
      } else {
        assert TrainedBelow(k, nnMovesEven) == idx;
        assert StepsUpTo(h, numMoves, nnMovesEven, winner, k) == before;
      }
    }
  }

  /** The move index of the network's j-th move: 2j+1 when nnMovesEven is set, 2j otherwise. */
  function OwnIndex(j: int, nnMovesEven: bool): int
  {
    2 * j + (if nnMovesEven then 1 else 0)
  }

  /**
   * A game of numMoves moves yields one example per move of the network's
   * parity, in order: example j belongs to move index OwnIndex(j).
   */
  lemma StepsTrainOwnMoves(h: seq<int>, numMoves: int, nnMovesEven: bool, winner: Winner)
    requires 0 < numMoves && RecordedInRange(h, numMoves)
    ensures |Steps(h, numMoves, nnMovesEven, winner)| == (numMoves + (if nnMovesEven then 0 else 1)) / 2
    ensures forall j :: 0 <= j < |Steps(h, numMoves, nnMovesEven, winner)| ==>
      0 <= OwnIndex(j, nnMovesEven) < numMoves &&
      Steps(h, numMoves, nnMovesEven, winner)[j] == StepAt(h, numMoves, nnMovesEven, winner, OwnIndex(j, nnMovesEven))
  {
    TrainedBelowExact(numMoves, nnMovesEven);
    StepsUpToTrainedBelow(h, numMoves, nnMovesEven, winner, numMoves);
  }

  /**
   * After a draw or a win of the network, every example reinforces the move
   * the network played: a positive reward scale and a one-hot target on
   * that move.
   */
  lemma RewardedGameReinforces(h: seq<int>, numMoves: int, nnMovesEven: bool, winner: Winner)
    requires 0 < numMoves && RecordedInRange(h, numMoves)
    requires winner == Draw || winner == Won(NnSymbol(nnMovesEven))
    ensures forall j :: 0 <= j < |Steps(h, numMoves, nnMovesEven, winner)| ==>
      0 <= OwnIndex(j, nnMovesEven) < numMoves &&
      Steps(h, numMoves, nnMovesEven, winner)[j].rewardScale > 0.0 &&
      Steps(h, numMoves, nnMovesEven, winner)[j].target == OneHot(h[OwnIndex(j, nnMovesEven)])
  {
    var steps := Steps(h, numMoves, nnMovesEven, winner);
    StepsTrainOwnMoves(h, numMoves, nnMovesEven, winner);
    forall j | 0 <= j < |steps|
      ensures steps[j].rewardScale > 0.0 && steps[j].target == OneHot(h[OwnIndex(j, nnMovesEven)])
    {
      var k := OwnIndex(j, nnMovesEven);
      StepAtParts(h, numMoves, nnMovesEven, winner, k);
      ScaledRewardSign(winner, nnMovesEven, k, numMoves);
    }
  }

  /**
   * After a loss of the network, the example for its move k of a history
   * without repeated cells has a negative reward scale and no mass on the
   * move played; the target sums to 1 before the last index and to 0 at
   * index 8.
   */
  lemma DiscouragedStep(h: seq<int>, numMoves: int, nnMovesEven: bool, winner: Winner, k: nat)
    requires k < numMoves && RecordedInRange(h, numMoves) && Distinct(h[..numMoves])
    requires winner != Draw && winner != Won(NnSymbol(nnMovesEven))
    ensures StepAt(h, numMoves, nnMovesEven, winner, k).rewardScale < 0.0
    ensures |StepAt(h, numMoves, nnMovesEven, winner, k).target| == 9
    ensures StepAt(h, numMoves, nnMovesEven, winner, k).target[h[k]] == 0.0
    ensures Sum(StepAt(h, numMoves, nnMovesEven, winner, k).target) == if k < 8 then 1.0 else 0.0
  {
    var moves := h[..numMoves];
    StepAtParts(h, numMoves, nnMovesEven, winner, k);
    ScaledRewardSign(winner, nnMovesEven, k, numMoves);
    var scaled := ScaledReward(winner, nnMovesEven, k, numMoves);
    assert moves[..k] == h[..k] && moves[k] == h[k];
    if k < 8 {
      TargetDiscourages(moves, k, scaled);
    } else {
      AtMostNineMoves(moves);
      LastMoveTargetsNothing(moves, scaled);
      var t := Target(Replay(h[..k]), h[k], k, scaled);
      assert t == seq(9, i => 0.0);
      IndicatorSum(9, -1);
      assert seq(9, i => if i == -1 then 1.0 else 0.0) == t;
    }
  }

  /**
   * After a loss of the network on a history without repeated cells, every
   * example discourages the move the network played (see DiscouragedStep).
   */
  lemma LostGameDiscourages(h: seq<int>, numMoves: int, nnMovesEven: bool, winner: Winner)
    requires 0 < numMoves && RecordedInRange(h, numMoves) && Distinct(h[..numMoves])
    requires winner != Draw && winner != Won(NnSymbol(nnMovesEven))
    ensures forall j :: 0 <= j < |Steps(h, numMoves, nnMovesEven, winner)| ==>
      0 <= OwnIndex(j, nnMovesEven) < numMoves &&
      Steps(h, numMoves, nnMovesEven, winner)[j].rewardScale < 0.0 &&
      |Steps(h, numMoves, nnMovesEven, winner)[j].target| == 9 &&
      Steps(h, numMoves, nnMovesEven, winner)[j].target[h[OwnIndex(j, nnMovesEven)]] == 0.0 &&
      Sum(Steps(h, numMoves, nnMovesEven, winner)[j].target) == (if OwnIndex(j, nnMovesEven) < 8 then 1.0 else 0.0)
  {
    var steps := Steps(h, numMoves, nnMovesEven, winner);
    StepsTrainOwnMoves(h, numMoves, nnMovesEven, winner);
    forall j | 0 <= j < |steps|
      ensures steps[j].rewardScale < 0.0 && |steps[j].target| == 9 && steps[j].target[h[OwnIndex(j, nnMovesEven)]] == 0.0
      ensures Sum(steps[j].target) == (if OwnIndex(j, nnMovesEven) < 8 then 1.0 else 0.0)
    {
      DiscouragedStep(h, numMoves, nnMovesEven, winner, OwnIndex(j, nnMovesEven));
    }
  }

  /**
   * X takes the top row in moves [0, 3, 1, 4, 2]. Trained as X's own game,
   * the three examples come from move indices 0, 2 and 4 and reinforce
   * cells 0, 1 and 2.
   */
  lemma TopRowWinReinforcesOwnMoves()
    ensures |Steps([0, 3, 1, 4, 2], 5, false, Won(X))| == 3
    ensures Steps([0, 3, 1, 4, 2], 5, false, Won(X))[0].target == OneHot(0)
    ensures Steps([0, 3, 1, 4, 2], 5, false, Won(X))[1].target == OneHot(1)
    ensures Steps([0, 3, 1, 4, 2], 5, false, Won(X))[2].target == OneHot(2)
  {
    StepsTrainOwnMoves([0, 3, 1, 4, 2], 5, false, Won(X));
    RewardedGameReinforces([0, 3, 1, 4, 2], 5, false, Won(X));
  }

  /*
   * The imperative trainer
   */

  /** Resets the scratch board and replays the first moveIdx recorded moves on it. */
  method RebuildBoard(gs: GameState, moveHistory: array<int>, moveIdx: nat)
    requires gs.Valid() && RecordedInRange(moveHistory[..], moveIdx)
    modifies gs, gs.board
    ensures gs.Valid()
    ensures gs.board[..] == Replay(moveHistory[..moveIdx]) && gs.currentPlayer == 0
  {
    gs.InitGame();
    for i := 0 to moveIdx
      invariant gs.board[..] == Replay(moveHistory[..i]) && gs.currentPlayer == 0
    {
      var symbol := if i % 2 == 0 then X else O;
      gs.board[moveHistory[i]] := symbol;
      assert moveHistory[..i + 1][..i] == moveHistory[..i];
    }
  }

  /** Fills the reused target buffer for one trained move. */
  method FillTarget(targetProbas: array<real>, gs: GameState, move: int, moveIdx: int, scaledReward: real)
    requires gs.Valid() && targetProbas.Length == OutputSize && 0 <= move < 9
    modifies targetProbas
    ensures targetProbas[..] == Target(gs.board[..], move, moveIdx, scaledReward)
  {
    for i := 0 to OutputSize
      invariant forall j :: 0 <= j < i ==> targetProbas[j] == 0.0
    {
      targetProbas[i] := 0.0;
    }

    if scaledReward >= 0.0 {
      targetProbas[move] := 1.0;
    } else {
      var validMovesLeft := 9 - moveIdx - 1;
      var otherProba := if validMovesLeft != 0 then 1.0 / (validMovesLeft as real) else 0.0;
      ghost var spread := Spread(gs.board[..], move, otherProba);
      for i := 0 to 9
        invariant forall j :: 0 <= j < i ==> targetProbas[j] == spread[j]
        invariant forall j :: i <= j < 9 ==> targetProbas[j] == 0.0
      {
        SpreadAt(gs.board[..], move, otherProba, i);
        if gs.board[i] == Empty && i != move {
          targetProbas[i] := otherProba;
        }
      }
    }
  }

  /**
   * Trains on one finished game: for every move of the network's parity,
   * rebuilds the board before it, encodes it, and builds the target. The
   * result is the sequence of backward-pass calls, in order.
   */
  method LearnFromGame(moveHistory: array<int>, numMoves: int, nnMovesEven: bool, winner: Winner)
      returns (steps: seq<TrainingStep>)
    requires RecordedInRange(moveHistory[..], numMoves)
    ensures steps == Steps(moveHistory[..], numMoves, nnMovesEven, winner)
  {
    var reward: real;
    var nnSymbol: Mark;
    if nnMovesEven {
      nnSymbol := O;
    } else {
      nnSymbol := X;
    }
    if winner == Draw {
      reward := DrawReward;
    } else if winner == Won(nnSymbol) {
      reward := WinReward;
    } else {
      reward := LossReward;
    }

    var gs := new GameState();
    var targetProbas := new real[OutputSize];
    ghost var h := moveHistory[..];
    steps := [];

    var moveIdx := 0;
    while moveIdx < numMoves
      invariant 0 <= moveIdx && (moveIdx == 0 || moveIdx <= numMoves)
      invariant gs.Valid() && targetProbas.Length == OutputSize
      invariant moveHistory[..] == h
      invariant steps == StepsUpTo(h, numMoves, nnMovesEven, winner, moveIdx)
    {
      StepsUpToNext(h, numMoves, nnMovesEven, winner, moveIdx);
      if !((nnMovesEven && moveIdx % 2 == 0) || (!nnMovesEven && moveIdx % 2 == 1)) {
        var step := TrainOnMove(gs, targetProbas, moveHistory, numMoves, moveIdx, nnMovesEven, winner, reward);
        steps := steps + [step];
      }
      moveIdx := moveIdx + 1;
    }
  }

  /**
   * One iteration of the training loop for a trained move: rebuilds the
   * board before move `moveIdx`, encodes it, weighs the reward and fills the
   * target. The step returned is what the backward pass receives.
   */
  method TrainOnMove(gs: GameState, targetProbas: array<real>, moveHistory: array<int>,
                     numMoves: int, moveIdx: nat, nnMovesEven: bool, winner: Winner, reward: real)
      returns (step: TrainingStep)
    requires gs.Valid() && targetProbas.Length == OutputSize
    requires moveIdx < numMoves && RecordedInRange(moveHistory[..], moveIdx + 1)
    requires reward == Reward(winner, nnMovesEven)
    modifies gs, gs.board, targetProbas
    ensures gs.Valid()
    ensures step == StepAt(moveHistory[..], numMoves, nnMovesEven, winner, moveIdx)
    ensures gs.board[..] == Replay(moveHistory[..moveIdx]) && gs.currentPlayer == 0
    ensures targetProbas[..] == step.target
  {
    ghost var h := moveHistory[..];
    RebuildBoard(gs, moveHistory, moveIdx);
    ghost var board := Replay(h[..moveIdx]);

    var inputs := new real[InputSize];
    inputs := gs.BoardToInputs(inputs);
    assert inputs[..] == inputs[..InputSize] == Encode(board);
    // The forward pass on `inputs` is left opaque: it changes neither the board nor the target.

    var move := moveHistory[moveIdx];
    var moveImportance := 0.5 + 0.5 * (moveIdx as real) / (numMoves as real);
    var scaledReward := reward * moveImportance;
    ScaledRewardIs(reward, moveImportance, winner, nnMovesEven, moveIdx, numMoves);
    FillTarget(targetProbas, gs, move, moveIdx, scaledReward);
    StepAtParts(h, numMoves, nnMovesEven, winner, moveIdx);
    // The backward pass receives the target, the learning rate and the scaled reward.
    step := TrainingStep(inputs[..], targetProbas[..], LearningRate, scaledReward);
  }
}
