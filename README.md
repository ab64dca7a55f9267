# Tic-tac-toe self-play learner: the discrete core

This project models the game and training-target logic of `ttt-rl.go`. That
program is a tic-tac-toe player that learns by self-play: a small neural
network plays O against a random X, and after each game it is trained on its
own moves. The model has four modules:

- `Board` (`board.dfy`) holds the game state and the board engine:
  - the `GameState` class, with a nine-cell `board` array and `currentPlayer`;
  - `InitGame`;
  - the terminal check `CheckGameOver`, which looks at rows, then columns, then
    the two diagonals, then counts empty tiles;
  - the two-hot feature encoder `BoardToInputs`;
  - the random opponent `GetRandomMove`.

  `Verdict`, `Encode` and `CountEmpty` are the functions these methods are
  proved against.
- `Selection` (`selection.dfy`): `GetComputerMove`, the scan that picks the
  empty cell with the highest output probability. Ties go to the lowest index,
  and the result is -1 when no cell is empty. The forward pass is a parameter
  `forward` from the 18 inputs to 9 probabilities.
- `Training` (`training.dfy`): `LearnFromGame`. For each move of the network's
  parity, it replays the history up to that move (`RebuildBoard`), encodes the
  board, and weighs the reward by the move's importance. It then fills the
  target vector (`FillTarget`). The backward pass is opaque. Each call to it is
  recorded as a `TrainingStep` (inputs, target, learning rate, reward scale),
  so `LearnFromGame` returns the sequence of backward-pass calls. That sequence
  is proved equal to the function `Steps`, and the lemmas about `Steps`
  state which moves are trained and what each target is.
- `SelfPlay` (`selfplay.dfy`): `PlayRandomGame`, the loop that alternates a
  random X and the network's O until the game is decided, records the moves,
  and then trains. `LegalPlay` and `NetworkMoves` describe the histories it
  can produce.

Marks are the enumeration `Mark = Empty | X | O`, standing for the strings
`"."`, `"X"` and `"O"`. The winner string is `Winner = Unset | Won(mark) |
Draw`, standing for `""`, `"X"`/`"O"` and `"draw"`. Numbers the program holds
in `float64` are exact `real`s here.

The doc comment at `ttt-rl.go:320` says `nnMovesEven` means the network plays
X. The code at lines 325-329 and 343-345 makes the network O when
`nnMovesEven` is set and trains the odd move indices. The model follows the
code: see `Training.TrainedOwnMoves`.

The importance weight `0.5 + 0.5*moveIdx/numMoves` never reaches 1: the last
move of an n-move game weighs `0.5 + 0.5*(n-1)/n`. See
`Training.ImportanceRange`.

## Model

| member | source | states |
|---|---|---|
| Board.FirstComplete | ttt-rl.go:197-218 | the line found is complete and no line earlier in the order rows 0..2, columns 0..2, main diagonal, anti-diagonal is complete |
| Board.VerdictFirstLine | ttt-rl.go:196-218 | when line j is the first complete line in the checking order, the winner is the mark of that line and that mark is not empty |
| Board.VerdictCases | ttt-rl.go:196-231 | a win exactly when some line is complete, with a non-empty mark; a draw exactly when no line is complete and no cell is empty; undecided exactly when no line is complete and some cell is empty |
| Board.CountEmptyZero | ttt-rl.go:220-229 | the count of empty tiles is zero exactly when no cell is empty |
| Board.CountEmptyAll | ttt-rl.go:156-159 | a board of only empty cells has all its cells counted as empty |
| Board.CountEmptyPlace | ttt-rl.go:488-494 | writing a mark on an empty cell lowers the empty count by exactly one |
| Board.GameState.constructor | ttt-rl.go:11-14 | a fresh game state owns a fresh nine-cell board and has player 0 |
| Board.GameState.InitGame | ttt-rl.go:156-159 | afterwards all nine cells are empty and the player is 0 (X) |
| Board.GameState.CheckGameOver | ttt-rl.go:196-232 | returns true exactly when the board is won or drawn; the winner becomes the mark of the first complete line or draw, and is left untouched when false is returned |
| Board.EncodeAt | ttt-rl.go:176-187 | slot 2i is 1 exactly when cell i holds X and 0 otherwise; slot 2i+1 is 1 exactly when it holds O and 0 otherwise |
| Board.EncodeTwoHot | ttt-rl.go:176-187 | every input slot is 0 or 1, and the two slots of a cell are never both set |
| Board.DecodeEncode | ttt-rl.go:175-189 | the encoding loses nothing: reading the cells back from the slots gives the board |
| Board.GameState.BoardToInputs | ttt-rl.go:175-189 | the first 18 slots of the buffer become the encoding of the board, slots from 18 on are untouched, and the same buffer is returned |
| Board.GameState.GetRandomMove | ttt-rl.go:455-463 | on a board with an empty cell, the move is a cell index 0..8 that is empty |
| Selection.GetComputerMove | ttt-rl.go:239-273 | -1 exactly when no cell is empty; otherwise an empty cell whose probability is at least that of every empty cell and strictly above that of every empty cell with a lower index |
| Selection.BestEmptyUnique | ttt-rl.go:249-258 | the selection rule determines the move: two moves that both satisfy it are equal |
| Training.ReplayUnplayed | ttt-rl.go:347-356 | a cell that no replayed move names stays empty |
| Training.ReplayPlayed | ttt-rl.go:347-356 | in a history without repeated cells, the cell of move i holds X for even i and O for odd i |
| Training.ReplayCount | ttt-rl.go:347-356 | replaying k distinct moves leaves exactly 9 - k empty cells |
| Training.AtMostNineMoves | ttt-rl.go:342-356 | a history of distinct cells has at most nine moves |
| Training.TrainedOwnMoves | ttt-rl.go:325-345 | a move index is trained exactly when it is odd under nnMovesEven and even otherwise, that is, exactly when its mark is the network's symbol |
| Training.Reward | ttt-rl.go:331-337 | the reward is positive exactly for a draw or a win of the network's symbol and negative otherwise |
| Training.ImportanceRange | ttt-rl.go:365 | the importance of the first move is 0.5, and every move of the game weighs at least 0.5 and less than 1 |
| Training.ImportanceIncreasing | ttt-rl.go:365 | a later move weighs strictly more than an earlier one |
| Training.ScaledRewardSign | ttt-rl.go:365-366 | the scaled reward is positive exactly when the reward is, and negative exactly when the reward is |
| Training.SpreadAt | ttt-rl.go:377-381 | the spread loop gives each empty cell other than the played move the share, and every other cell 0 |
| Training.SpreadSum | ttt-rl.go:377-381 | the spread target adds up to the share repeated once per empty cell other than the played move |
| Training.TargetReinforces | ttt-rl.go:368-373 | with a non-negative scaled reward the target is 1 on the played move and 0 elsewhere, and sums to 1 |
| Training.TargetDiscourages | ttt-rl.go:374-381 | with a negative scaled reward at index k < 8 of a history without repeated cells, the target is 0 on the played move and 1/(8-k) on every other empty cell, and sums to 1 |
| Training.LastMoveTargetsNothing | ttt-rl.go:374-381 | at index 8 of a history without repeated cells the played cell is the only empty one, so the discouraging target is all zeros |
| Training.TrainedBelowExact | ttt-rl.go:342-345 | the trained indices below k are exactly the odd ones when nnMovesEven is set and the even ones otherwise, in increasing order |
| Training.StepsUpToTrainedBelow | ttt-rl.go:342-384 | the examples for the first k moves are the examples of the trained indices below k, in order |
| Training.StepsTrainOwnMoves | ttt-rl.go:342-384 | a game of n moves gives one example per move of the network's parity; example j belongs to move 2j+1 under nnMovesEven and to move 2j otherwise |
| Training.RewardedGameReinforces | ttt-rl.go:331-373 | after a draw or a network win, every example has a positive scale and a one-hot target on the move the network played |
| Training.DiscouragedStep | ttt-rl.go:331-381 | after a network loss, the example for a move has a negative scale and no mass on the move played; its target sums to 1 before index 8 and to 0 at index 8 |
| Training.LostGameDiscourages | ttt-rl.go:331-384 | after a network loss on a history without repeated cells, every example discourages the move played as DiscouragedStep states |
| Training.TopRowWinReinforcesOwnMoves | ttt-rl.go:322-386 | X winning the top row with moves 0,3,1,4,2, trained as X's game, gives three examples with one-hot targets on cells 0, 1 and 2 |
| Training.RebuildBoard | ttt-rl.go:347-356 | the scratch board becomes the replay of the first moveIdx recorded moves, and the player is reset to 0 |
| Training.FillTarget | ttt-rl.go:368-382 | the target buffer becomes the one-hot or spread target for the move |
| Training.TrainOnMove | ttt-rl.go:347-384 | one trained iteration hands the backward pass exactly the example StepAt describes: the encoded replayed board, the target for the played move, learning rate 0.01 and the reward times the importance; afterwards the scratch board is the replayed board with player 0 and the target buffer holds the example's target |
| Training.LearnFromGame | ttt-rl.go:322-386 | the backward-pass calls made are exactly Steps: one per trained move, in order, each with the replayed inputs, the target, the learning rate and the scaled reward |
| SelfPlay.LegalPlayShape | ttt-rl.go:479-499 | a legal game never plays a cell twice and has at most nine moves |
| SelfPlay.LegalPlayBoard | ttt-rl.go:488-494 | after k legal moves exactly k cells are marked, and the cell of move i holds X for even i and O for odd i |
| SelfPlay.DrawFillsBoard | ttt-rl.go:226-229 | a legal game that ends in a draw has filled all nine cells |
| SelfPlay.UndecidedHasRoom | ttt-rl.go:479-486 | an undecided legal game has fewer than nine moves and an empty cell, so both move sources have a cell to return |
| SelfPlay.FlipLowBitNext | ttt-rl.go:498 | flipping the low bit of the player for move k gives the player for move k + 1 |
| SelfPlay.ChooseMove | ttt-rl.go:482-486 | on an undecided board the move is an empty cell, and on O's turn it is the network's selection |
| SelfPlay.PlayTurn | ttt-rl.go:480-498 | one turn writes the player's mark, records the move at index numMoves, keeps the history legal and passes the turn |
| SelfPlay.PlayRandomGame | ttt-rl.go:472-503 | the game stops after at most nine moves; the recorded history is legal with O's moves chosen by the network; the winner is the decided verdict of the final board; the rest of the buffer is untouched; the training calls are Steps with the network on the odd indices |

## Left out

- The neural network itself is not modelled: `newNeuralNetwork`, `initNN`, `reLU`, `reLUDerivative`, `softmax`, `forwardPass` and `backwardPass` (ttt-rl.go:37-151, 280-314). They are `float64` numerics with `math.Exp` and random initial weights.
- In `getComputerMove` the forward pass is the function parameter `forward`. During a game the weights do not change, so one function stands for it throughout.
- In `learnFromGame`, the call to `forwardPass` before each backward pass is left opaque, because the target does not depend on it. Each call to `backwardPass` is recorded as a `TrainingStep` value. The weight update it performs, and its effect on later forward passes, are not modelled.
- Floating-point rounding is not modelled: importance, scaled reward and target shares are exact rationals.
- Training.OtherProba: at move index 8 the program divides 1.0 by 0 and gets +Inf, where the model takes 0. `Training.LastMoveTargetsNothing` shows the value is never stored for a history without repeated cells, which is every history `PlayRandomGame` produces. It would differ only for a hand-made history that repeats a cell.
- Board.GameState.GetRandomMove: the uniform rejection loop over `rand.Intn(9)` is a nondeterministic choice of an empty cell. Its distribution, and the fact that it terminates only with probability 1, are not modelled.
- Selection.GetComputerMove: the unused `maxProba` and the `displayProbas` debug output (ttt-rl.go:245, 249-251, 260-270) have no effect on the move and are not modelled.
- Training.LearnFromGame: requires every one of the first `numMoves` recorded entries to be a cell index. The program reads only the entries up to the last trained index, so an out-of-range entry at an untrained final index would go unread there.
- Board.GameState.BoardToInputs: the program writes O's inputs for any cell string other than `"."` and `"X"`. The enumeration has only the three marks, which are the only strings the program writes into cells.
- The zero-valued `""` cells of a `GameState` before `initGame` are not modelled beyond being unspecified. Every path the model covers calls `InitGame` before reading the board.
- `displayBoard`, `playGame`, `trainAgainstRandom` and `main` (ttt-rl.go:164-168, 393-446, 509-562) are console input and output and game counting, and are not modelled.
- `playRandomGame` and `trainAgainstRandom` take the network by value (ttt-rl.go:472, 509), while `learnFromGame` has a pointer receiver (ttt-rl.go:322) and so updates `playRandomGame`'s copy, whose weight slices are shared with the caller's network. That sharing of weights is not modelled.
