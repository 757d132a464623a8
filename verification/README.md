# Qwirkler rule engine in Dafny

A functional model of the rule engine of qwirkler, a Qwirkle-style tile
game. Tiles have one of six colours and one of six shapes. They are laid
in lines that are all one colour or all one shape, hold no repeated tile,
and are at most six long. Several revisions of the engine sit side by side
in the repository, and all of them are modelled:

- `pieces.dfy` (`Pieces`): the tile type, a bijective index of the 36
  tiles onto 0..35, and the compatibility tests the line validator calls.
  Those helpers are not among the modelled files, so they are defined here
  by the rules of the game.
- `linevalidator.dfy` (`LineValidation`): the incremental line
  validator. `add_piece` becomes a function returning `(accepted, new
  validator)`. The model proves that a validator accepts exactly the
  extensions that keep the line legal, and that its 36-slot table marks
  exactly the tiles of the line.
- `direction.dfy` (`Directions`): the direction algebra on integer
  squares.
- `partial.dfy` (`Partials`): the scored search node that grows one tile
  at a time.
- `player.dfy` (`Players`): player state and the "update only the current
  player" combinator.
- `search.dfy` (`Search`): `generate_best_move`.
  - The double-ended queue becomes a `seq`. The board's check and the
    one-tile extension step are passed in as an `Oracle` of functions.
  - The search is proved to terminate, to visit exactly the seeds and the
    extensions of accepted candidates, and to answer with the first
    accepted candidate of maximal positive score. When nothing scores, it
    answers with a swap or with nothing.
- `gamestate.dfy` (`Game`): `total_score` and `apply_move`, including the
  removal of placed tiles from the hand and the turn rotation. The board
  update (`put`) and the refill from the shared bag (`resupply`) are
  passed in as functions.
- `components.dfy` (`Components`): the older all-in-one revision.
  - Squares are unsigned 64-bit words that wrap around, and the board is
    a fixed 50 x 50 array indexed at coordinate + 25.
  - Because of the wrap-around, `get` is in bounds exactly for squares
    whose coordinates, read as signed numbers, lie in -25..24. So a step
    left from x = 0 lands on the readable column 24, not outside the
    board.
- `stub.dfy` (`StubGame`): the stub driver with integer tiles and a
  counter for a bag, together with its game loop.
- `moves.dfy`, `options.dfy`, `arithmetic.dfy`: the four-field move type,
  an option type, and facts about remainders.

## Model

| member | source | states |
|---|---|---|
| Pieces.IndexBijective | src/piece.rs:2-17 | the tile index is a bijection between the 36 colour/shape pairs and 0..35, so the seen table has one slot per tile |
| LineValidation.New | src/linevalidator.rs:23-31 | a new validator has length 1, no second tile, and exactly the first tile marked seen (one slot set) |
| LineValidation.NewTracks | src/linevalidator.rs:23-31 | a new validator tracks the one-tile line |
| LineValidation.AddPiece | src/linevalidator.rs:34-59 | a full line or an already-seen tile is rejected; acceptance requires compatibility with the first tile, or with first and second once the second is fixed; a rejection leaves the validator unchanged; an acceptance adds one to the length, fixes the second tile on the first add, marks the new tile and touches no other slot |
| LineValidation.AddPieceTracks | src/linevalidator.rs:34-59 | for a validator tracking a line, a tile is accepted exactly when the longer line is still legal (at most six, no repeats, one colour or one shape); the result then tracks the longer line, so the seen count equals the length |
| LineValidation.ExtendAllTracks | src/linevalidator.rs:34-59 | offering several tiles in turn succeeds exactly when the whole extended line is legal |
| LineValidation.ValidateAcceptsExactlyLegalLines | src/linevalidator.rs:23-59 | building a validator on a line's first tile and adding the rest succeeds exactly for legal lines |
| LineValidation.FullLineRejects | src/linevalidator.rs:35-36 | a validator of a six-tile line rejects every tile, so no line grows past six |
| LineValidation.RepeatRejects | src/linevalidator.rs:38-39 | a tile already in the line, the first included, is rejected |
| LineValidation.Clone | src/linevalidator.rs:11-20 | the copy equals the original in every field |
| Directions.Apply | src/direction.rs:10-18 | a step changes exactly one coordinate, by exactly one |
| Directions.Opposite | src/direction.rs:20-27 | the opposite differs from the direction, points the other way, and a step back undoes a step forward on every square |
| Directions.OppositeInvolution | src/direction.rs:20-27 | the opposite of the opposite is the direction itself |
| Directions.Perpendiculars | src/direction.rs:29-34 | the two perpendiculars are opposite to each other, neither is the direction or its opposite, and both are at right angles to it |
| Directions.PerpendicularsOfOpposite | src/direction.rs:29-34 | a direction and its opposite have the same perpendiculars |
| Directions.ApplyAll | src/direction.rs:36-44 | n squares, the i-th lies i steps from the start, each is one step from the one before |
| Directions.All | src/direction.rs:46-48 | four pairwise distinct directions, every direction among them |
| Directions.Initial | src/direction.rs:50-52 | the initial direction points along the positive x axis |
| Partials.New | src/partial.rs:14-21 | one tile, the given last square, both scores 0 |
| Partials.Extend | src/partial.rs:23-33 | the old tiles are kept and the new one appended; the last square moves one step; the mainline score is replaced and the perpendicular score is added |
| Partials.ExtendAlongShape | src/partial.rs:23-33 | k extensions in one direction append the k tiles in order, move the last square k steps, and sum the perpendicular scores |
| Partials.NewThenExtend | src/partial.rs:14-33 | from a single tile, k extensions give k + 1 tiles with the last square k steps from the start |
| Players.New | src/player.rs:10-12 | the given hand and score 0 |
| Players.MutateCurrent | src/player.rs:15-26 | the length is kept; the entry at the turn is mutated; every other entry is copied; an out-of-range turn changes nothing |
| Players.MutateCurrentIsUpdate | src/player.rs:15-26 | for an in-range turn this is the single-position update of the list |
| Game.TotalScore | src/gamestate.rs:37-43 | the front-to-back accumulation loop returns the sum of all players' scores |
| Game.Deplete | src/gamestate.rs:105-113 | the hand after removal is no longer than before and holds no tile equal to a placed one |
| Game.DepleteBag | src/gamestate.rs:105-113 | the nested removal loop computes the hand with the placed tiles removed |
| Game.DepleteContents | src/gamestate.rs:105-114 | after removal, a tile equal to a placed one has no copies left, and every other tile keeps all its copies |
| Game.DepleteConcat | src/gamestate.rs:105-113 | removal works piecewise on a split hand, so the remaining tiles keep their order |
| Game.ApplyMove | src/gamestate.rs:100-128 | the turn passes to (turn + 1) mod player count; other players are untouched. A placement puts the tiles on the board, adds its score to the current player, and refills the depleted hand. A swap keeps board and score, and refills an empty hand from the bag with the old hand returned to it |
| Game.ApplyMoveTotalScore | src/gamestate.rs:100-128 | a placement raises the game total by exactly its score; a swap leaves the total unchanged |
| Game.ApplyMovesRotates | src/gamestate.rs:100-128 | after k moves the turn is (turn + k) mod player count, and the total has grown by the placements' scores |
| Search.NewPartial | src/gamestate.rs:64-68 | a seed is a single tile at the start square, unscored and without a mainline validator |
| Search.Children | src/gamestate.rs:76-81 | at most one extension per tile in hand; every extension the step accepts is kept, and nothing else |
| Search.Seeds | src/gamestate.rs:64-68 | one single-tile seed per tile of the hand, in hand order |
| Search.Accepted | src/gamestate.rs:74-88 | the scored candidates are exactly the scored forms of the entries the board accepted |
| Search.AcceptedInOrder | src/gamestate.rs:74-88 | the scored candidates keep visit order: accepted entries i < j have their scored forms at positions k < l, one position per accepted entry |
| Search.Consider | src/gamestate.rs:84-87 | the kept score never drops and covers the candidate; an equal score keeps the earlier best; a change installs the candidate with its score |
| Search.PickBest | src/gamestate.rs:84-87 | the fold's score bounds every candidate; a score of 0 leaves the swap; a positive score comes with a placement carrying that score |
| Search.PickBestFirstMax | src/gamestate.rs:84-87 | the best score bounds every candidate; a positive best is the first candidate reaching it (ties keep the earlier one); a best of 0 leaves the swap |
| Search.Outcome | src/gamestate.rs:93-97 | nothing exactly when the shared bag is empty and the best score is 0, otherwise the best move |
| Search.OutcomeIsFirstMax | src/gamestate.rs:93-97 | the answer is nothing exactly when the shared bag is empty and nothing scored; it is a swap exactly when the bag has tiles and nothing scored; otherwise it is a positive first-maximal placement |
| Search.ChildrenLighter | src/gamestate.rs:70-91 | the extensions of an accepted candidate together weigh less than the candidate, which bounds the queue loop |
| Search.Visit | src/gamestate.rs:70-91 | the first-in first-out visit order of a queue: the front candidate comes first, then the visit order of the rest with its children pushed at the back |
| Search.VisitIsFifo | src/gamestate.rs:70-81 | the visit order is the initial queue followed by the children of every visited candidate, in the order the candidates were visited |
| Search.Drain | src/gamestate.rs:70-91 | the queue loop terminates and visits exactly the first-in first-out order of its queue (the queue, then each visited candidate's children in visit order). Every visited candidate is a seed or an extension of an earlier accepted one, every extension of an accepted candidate is visited, and the best is the fold over the accepted ones |
| Search.SeedsVisited | src/gamestate.rs:64-68 | after a start square is drained, the single-tile seeds of that square and of all earlier ones are visited |
| Search.GenerateBestMove | src/gamestate.rs:46-98 | the visit order is fixed: start square by start square, the seeds in hand order followed by the first-in first-out visit of their extensions. It visits every seed, every extension of an accepted candidate, and nothing else. The answer is the first accepted candidate of maximal positive score, else a swap if the shared bag has tiles, else nothing |
| Search.FirstTileWinsTie | src/gamestate.rs:84-87 | with two tiles in hand that the board scores equally, the answer places the first tile: ties go to the earlier-visited candidate |
| Search.PrefixesAccepted | src/gamestate.rs:74-81 | every strict prefix of a visited candidate was visited earlier from the same start and direction and accepted by the board |
| Components.UApply | src/components.rs:36-44 | an unsigned step is the signed step taken modulo 2^64; it is exact downwards and leftwards away from 0 and wraps to 2^64 - 1 at 0 |
| Components.UApplyAll | src/components.rs:46-54 | len squares starting at the start, each one unsigned step after the one before |
| Components.UApplyAllWraps | src/components.rs:46-54 | the unsigned line is the signed line reduced modulo 2^64 |
| Components.NewBoard | src/components.rs:63-66 | every cell of a new board is 0 |
| Components.CloneBoard | src/components.rs:127-131 | the copy equals the original in every cell |
| Components.GetStartSquares | src/components.rs:68-73 | exactly one start: the origin, in the initial direction |
| Components.StartSquaresOnBoard | src/components.rs:68-78 | the offered start square can always be read |
| Components.Get | src/components.rs:75-78 | a read succeeds exactly when both coordinates read as signed lie in -25..24, and returns the cell at signed coordinate + 25 |
| Components.GetSmallSquare | src/components.rs:75-78 | coordinates below 25 are read at coordinate + 25 |
| Components.ScanBlank | src/components.rs:85-89 | true exactly when every square is on the board and blank; false names an occupied square; an abort names an off-board square |
| Components.GetNewlyFormedLines | src/components.rs:110-115 | this revision returns a single line: the placed tiles themselves |
| Components.LinesOk | src/components.rs:92-103 | true exactly when every line has no repeated tile and is one colour or one shape |
| Components.AllowsMove | src/components.rs:80-108 | a swap is always allowed. A placement is allowed exactly when all its squares are on the board and blank, its tiles are distinct, and they share a colour or a shape. An abort means one of its squares is off the board |
| Components.NewBoardAllowsLine | src/components.rs:63-108 | on a fresh board a placement that stays on the board is judged by its tiles alone |
| StubGame.NewPlayer | src/main.rs:15-17 | an empty hand and score 0 |
| StubGame.NewGame | src/main.rs:32-39 | n fresh players (none for n below 1), board 0, bag 30, turn 0 |
| StubGame.GenerateMoves | src/main.rs:42-44 | the moves 0, 1, ..., bag - 1 in order, none when the bag is 0 or less |
| StubGame.ApplyMove | src/main.rs:46-53 | the bag drops by one; board and players are kept; the turn advances by one round the table; with no players the remainder by zero aborts |
| StubGame.Play | src/main.rs:62-71 | when the loop ends no move is offered, players and board are as they were, and one turn was played per tile in the bag |
| StubGame.PlayOutcome | src/main.rs:60-71 | with players, the loop plays one turn per tile in the bag, empties it, keeps players and board, and advances the turn by the number of turns modulo the player count; with no players it aborts exactly when a tile is left |
| StubGame.StubGameRunsThirtyTurns | src/main.rs:58-75 | the two-player game runs exactly 30 turns and ends with the bag empty and the first player to move |

## Left out

- Console output (`println!`) in the driver loop and in the benchmark: I/O only.
- The benchmark driver (src/bench.rs): it only times the real game.
- src/board.rs: the constructor and copy of the same 50 x 50 array that `Components.NewBoard` and `Components.CloneBoard` model.
- `GameState::new` of the game-state revision: it draws hands through `make_bag` and `resupply_player_mutate`, which shuffle randomly and are not part of this model.
- `make_bag` and `resupply_player_mutate` themselves: randomness. `Game.ApplyMove` takes `resupply` as a function, so the hand after a refill is unconstrained.
- `Board::allows`, `Board::put`, `Board::get_start_squares` and `Partial::try_extend` as called from gamestate.rs are not part of this model. The search takes them as an `Oracle` parameter, and `Game.ApplyMove` takes `put`.
  - The search assumes of them only that the board's check keeps a candidate's placement and that an extension appends exactly the offered tile and stays within six tiles.
  - `Partial::new`, `total_score` and `save_as_move` are not in the modelled files either. They are assumed to mean the single-tile candidate, the sum of the mainline and perpendicular scores, and the placement with that score.
- `Piece::index`, `compatible_with` and `compatible3` are not in the modelled files. They are assumed to mean what the rules say: index = colour * 6 + shape; two tiles are compatible when they share a colour or a shape; three are compatible when all share the colour or all share the shape.
- `is_blank`, `all_unique`, `all_same_colour` and `all_same_shape` of the older revision are not in the modelled files. They are taken as parameters (`Components.PieceOps`).
- The internals of `RingBuf`: the queue is a sequence, popped at the front and pushed at the back.
- The three-field `Move` of src/mv.rs and src/moves.rs belongs to another revision. The four-field form that gamestate.rs matches on is the one modelled.
- Partials.Extend: it leaves its receiver unchanged by construction, since values are immutable. That is why no separate lemma states it; the same goes for extending a `LineValidation.Clone` copy.
- Game.ApplyMove: requires the turn to name a player. qwirkler indexes `players[turn]` and takes the remainder by the player count, and aborts when either is out of range.
- Search.GenerateBestMove: the shared bag is represented only by its contents (`supply`), and the hand is passed in explicitly instead of read from `players[turn]`.
- Components.UApply: models 64-bit wrap-around of `uint`. A build with overflow checks would abort instead at 0 - 1 and at 2^64 - 1 + 1.
- Integer widths other than the older revision's coordinates are not modelled. The model uses unbounded integers for the signed squares of src/direction.rs, the `uint` scores of src/partial.rs and src/gamestate.rs, the validator's `uint` length, and the stub's bag and turn. None of these values comes near a 64-bit limit in play:
  - A line holds at most six tiles (`LineValidation.FullLineRejects`), so a candidate lies at most six steps from its start square.
  - A score is a sum of per-line points over a finite supply of tiles.
  - The stub's bag counts down from 30 to 0 (`StubGame.PlayOutcome`), and its turn stays below the player count.
- Directions.Apply: states its facts for every integer square. qwirkler's 64-bit signed squares would overflow only at the ends of the range, which no start square is near.
- Partials.Extend: adds the perpendicular score without 64-bit wrap-around, for the reason above.
- Game.TotalScore: sums without 64-bit wrap-around, for the reason above.
- Components.Get: the cell type is an unsigned word; the tile encoding behind it is not part of this model.
