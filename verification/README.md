# Models and proofs for the hexz games and five small tools

This project models the parts of the repository whose correctness depends on invariants over whole runs, and
proves those invariants.

**Flagz.** `hex_board`, `cells` and `board` hold the hex board for any number of rows and any width, its neighbour
relation, and the mutable board object. `flagz_rules` states the rules on values, with the recursive update of
neighbour cells as the function `Spread`; `flagz_spread` and `flagz_caches` prove what that update keeps and
establishes; `flagz_setup` covers the start of a game; `flagz_game` proves the results about games: caches always equal
their recomputation, finishing early never changes the winner, a running game always has a legal move, games end.
`flagz_engine` is the mutable engine, proved to compute exactly those functions.

**Monte-Carlo tree search.** `mcts_tree` and `mcts_steps` define the search tree with the state of the game at each
node and prove that each of the four kinds of update keeps the tree invariant, for any game; `mcts_bounds` bounds the
runs by the nodes and the nodes by the game. `mcts_moves` and `mcts_search` are the mutable search over the Flagz
engine: no panic or fatal exit is reachable, and a search that is given the time explores its tree completely.

**CPU hand-off.** `cpu_handoff` is the protocol of game master and CPU player as a step relation: mutual exclusion on
the shared engine without a lock and freedom from deadlock, exactly as long as no reset comes while the CPU is at
work, and the reachable runs that deadlock or panic when one does.

**Classic.** `classic_flood` and `classic_regions` prove that the labelled flood fill computes connected regions and
that the right one is chosen; `classic_rules` holds the effects of pieces and the invariant of the game;
`classic_lifetimes` says how long pieces stay, over any number of reveals;
`classic_results` holds the results about regions, scores, pests and flags; `classic_filling` is a whole game that ends
with a wrong score; `classic_engine` is the mutable engine.

**Smaller tools.** `topic_match` (most specific topic pattern), `bin_packing` (first-fit packing and its bound) with
`packing_program` (the program over mutable nodes), `base32` (reversible identifiers), `sieve` (primes), `counters`
(concurrent counters under every interleaving). `sets` and `options` hold shared helpers.

In the models of mutable code, objects are classes whose methods are tied to functions or relations on values; the
lemmas are about those. Random numbers are arbitrary values in their range, so a proved property holds for every
source of randomness. Interleavings are arbitrary sequences of enabled steps.

Where code and comments disagree, the code is modelled. The comment at hexz/classic.go:70 says that a Classic game
is not finished until all cells are owned and not hidden, or dead; the code only asks that no cell is free, and
reveals hidden cells after it has counted the score. `ClassicResults.FinalScoreIff` says exactly when the final score
is still the number of owned cells, and `ClassicFilling.FinalScoreCanBeLow` gives a whole game for which it is not, on
every board whose number of cells is not a multiple of four; the program's board has 105.

A flag being placed in Classic is meant to count in all directions (hexz/classic.go:127), but is counted twice for each
region around it (hexz/classic.go:128-132 and 149-150). `ClassicResults.DoubleCountMattersIff` says exactly when that
changes the owner of a region, and `ClassicResults.DoubleCountNeverMatters` that it never happens: each player has one
flag, and the placed one borders every region around it.

A reset in a single-player game (hexz/server.go:512-521) does not wait for the CPU player. `CpuHandoff.ResetIsSafeIff`
says that a reset makes a deadlock reachable exactly if it comes while the CPU is at work, and
`CpuHandoff.ResetCanDeadlock` gives the run. The results about the hand-off hold for all runs in which resets only come
while the CPU is idle. Every iteration of the search clones the shared engine and replays moves stored by earlier
iterations. After a reset during a search, `CpuHandoff.StoredMovesFailAfterReset` says that until the next accepted move
the next iteration panics exactly if a move had been stored; `CpuHandoff.ResetCanPanicIff` that a panic is reachable
exactly if the reset came during a search, and `CpuHandoff.ResetCanPanic` gives the run. The deadlock is reached when
the search returns before its next iteration, or when its move was already being sent.

## Model

| member | source | states |
|---|---|---|
| HexBoard.RowStartFormula | hexz/engine.go:160-171 | the start of row r is the closed form from which the program takes the number of cells |
| HexBoard.StandardSize | hexz/engine.go:8-11 | the program's board of 11 rows has 105 cells, so the size conditions of other results hold for it |
| HexBoard.FlatInjective | hexz/engine.go:164-169 | two cells never share a place in the flat array |
| HexBoard.Cell | hexz/engine.go:164-169 | every place of the flat array is the place of a cell on the board, so the rows partition the array |
| HexBoard.NeighborsSpec | hexz/engine.go:208-238 | neighbour lists are on the board, at most six, without duplicates, without the cell itself, and the relation is symmetric |
| HexBoard.NeighborsAreAdjacent | hexz/engine.go:208-238 | the neighbours of a cell are exactly the cells of the board that share an edge with it: centres one cell apart in the row, or half a cell apart in adjacent rows |
| HexBoard.NeighborsAreOrdered | hexz/engine.go:211-236 | neighbours are listed in the order right, above right, above left, left, below left, below right |
| HexBoard.GraphIsAdjacency | hexz/engine.go:204-238 | two places of the flat array are neighbours exactly if their cells share an edge |
| HexBoard.GraphIsRegular | hexz/engine.go:208-238 | for any number of rows and any width the board is a symmetric graph without loops and without double edges |
| HexBoard.GraphMatches | hexz/engine.go:204-238 | the flat neighbour graph lists the places of the neighbours, in the same order |
| HexBoard.FillNeighbors | hexz/engine.go:210-238 | the caller's six-element buffer is never overrun and holds exactly the cells of the board that share an edge with the cell, in the order of the six steps |
| Winners.ScoreBasedSingleWinner | hexz/engine.go:240-257 | returns the player with the strictly largest score, and 0 exactly if there is none with a score above -1 |
| Boards.MakeFields | hexz/engine.go:159-171 | the row slices are consecutive, have the right lengths and use up a fresh array of empty cells |
| Boards.Board.constructor | hexz/engine.go:189-198 | a new board is empty, player 1 is to move and no move has been made |
| Boards.Board.IsValidIdx | hexz/engine.go:204-206 | an index is accepted exactly if it is on the board |
| Boards.Board.NeighborsOf | hexz/engine.go:208-238 | the cells that share an edge with a cell, in the order of the six steps, tied to the flat graph |
| Boards.Board.CopyFields | hexz/engine.go:173-187 | the copy has a fresh array with the same cells and the same row slices |
| Boards.Board.Copy | hexz/engine.go:100-116 | the copy is equal in every field and shares no mutable part |
| FlagzRules.Spread | hexz/flagz.go:119-155 | the recursive update ends because each recursive call follows a drop of the set of grass cells; it never changes an occupied cell that is not grass |
| FlagzSpread.SpreadStaysOk | hexz/flagz.go:119-155 | the update only tightens caches of free cells and turns grass into cells of the spreading player; values stay in 0 to 5 and caches well-formed |
| FlagzSpread.SpreadSettlesNew | hexz/flagz.go:130-154 | when the update returns, every cell captured on the way, at any depth, has informed all its neighbours |
| FlagzSpread.SpreadKeepsSettled | hexz/flagz.go:122-155 | if all owned cells but the new one had informed their neighbours before, all have afterwards |
| FlagzCaches.SpreadExplains | hexz/flagz.go:133-146 | every remembered next value has a reason: a neighbour owned by that player with the matching value |
| FlagzCaches.SpreadCounts | hexz/flagz.go:136-150 | the move counters stay the numbers of free cells open to each player and the scores stay the sums of owned values |
| FlagzCaches.GrownSets | hexz/flagz.go:122-155 | the spreading of one player neither frees nor occupies free cells and leaves the opponent's available cells as they are |
| FlagzCaches.SpreadCapturesDownhill | hexz/flagz.go:147-153 | the grass captured is exactly the grass that a walk of non-increasing values over grass reaches from the placed cell |
| FlagzGame.CachesEqualRecomputation | hexz/flagz.go:119-155 | the incremental invariant holds if and only if every cached next value and blocked flag equals its recomputation from the neighbours and no grass cell borders an owned cell of equal or greater value |
| FlagzGame.MovedWorldOk | hexz/flagz.go:157-214 | after an accepted move caches equal recomputation, counters equal cardinalities, scores equal sums of owned values and no grass is left to capture |
| FlagzGame.MovedOpponent | hexz/flagz.go:157-214 | a move never changes the opponent's score or flags, never gives the opponent a move and never lowers the mover's score |
| FlagzGame.StuckStaysStuck | hexz/flagz.go:90-99 | a player who cannot move still cannot move after the other's move |
| FlagzGame.MakeMoveKeepsInv | hexz/flagz.go:157-219 | every accepted move keeps the whole-game invariant, also after the game is finished |
| FlagzGame.MoveEffect | hexz/flagz.go:119-219 | the new value of every field of each single cell after an accepted move, stated without the update procedure; free cells remember the recomputed next value and blocked flag |
| FlagzGame.NextValueAfterMove | hexz/flagz.go:133-146 | after an accepted move every cell that stays free remembers for each player exactly the recomputed next value and blocked flag |
| FlagzGame.MoveCounts | hexz/flagz.go:157-219 | an accepted move raises the move number by one, uses up one free cell, spends a flag only for a flag, leaves all other pieces alone, and keeps each score equal to the values owned |
| FlagzGame.LegalIff | hexz/flagz.go:157-214 | exactly which moves are accepted, in terms of cells and flags only: a flag on a free cell, or a normal piece next to an own cell and to no own cell of value 5 |
| FlagzGame.EarlyFinishIsSound | hexz/flagz.go:100-108 | once the game is finished, no sequence of further submitted moves changes who has more points, although moves are still accepted: the leader stays ahead and a draw stays a draw |
| FlagzGame.WinnerHasMorePoints | hexz/flagz.go:231-240 | nobody wins before the game is finished; then the player with strictly more points, and nobody for equal points |
| FlagzGame.NeverRegainsMoves | hexz/flagz.go:92-99 | over any run a player who cannot move never regains a move and keeps the score |
| FlagzGame.RunsAreBounded | hexz/flagz.go:157-219 | any run accepts exactly as many moves as free cells disappear, hence at most the free cells at its start; the move number counts them |
| FlagzGame.CanMoveIff | hexz/flagz.go:92-93 | the counters and flags say that a player can move exactly if some move would be legal on that player's turn |
| FlagzGame.AfterMove | hexz/flagz.go:90-109 | after a move in a running game, in terms of the legal moves left: the game is over exactly if nobody has one or the only player who has one is ahead; else the other player is next, unless only the mover has one |
| FlagzGame.FlagsAreConserved | hexz/flagz.go:194-201 | over any run the flags a player has left and those on the board add up to the same number |
| FlagzGame.RunningHasLegalMove | hexz/flagz.go:90-109 | in every reachable running state the player to move has a legal move |
| FlagzSetup.InitialInv | hexz/flagz.go:82-88 | a populated board with a free cell satisfies the invariant |
| FlagzSetup.SomeStart | hexz/flagz.go:35-88 | on every board of at least four cells a start that Reset can produce exists: the invariants of a new game can be met |
| FlagzSetup.FlagHandsOver | hexz/flagz.go:194-217 | in a new game with two free cells a flag is a legal first move and hands the turn to player 2 |
| FlagzEngine.Engine.constructor | hexz/flagz.go:27-33 | a new engine is at the start of a new game: invariant, running, player 1 to move, no score, three flags for each player |
| FlagzEngine.Engine.PlaceRocks | hexz/flagz.go:35-47 | exactly the free cells among the positions drawn become rocks; drawing ends with 15 rocks or after as many draws as there are cells |
| FlagzEngine.Engine.PlaceGrass | hexz/flagz.go:48-59 | exactly the free cells among the positions drawn become grass; drawing ends with 5 grass cells or after as many draws as there are cells |
| FlagzEngine.Engine.PopulateInitialCells | hexz/flagz.go:35-68 | at most 15 rocks, at least one on an empty board, and at most 5 grass cells are put on free cells, the grass values are 1 to their number with each used once, all other cells are kept, and the free-cell counter is exact |
| FlagzEngine.Engine.InitializeResources | hexz/flagz.go:70-78 | both players get three flags, unlimited normal pieces and nothing else |
| FlagzEngine.Engine.Reset | hexz/flagz.go:82-88 | after a reset the engine has a fresh board at the start of a new game, with at most 20 cells used up |
| FlagzEngine.Engine.Clone | hexz/flagz.go:222-229 | the clone has the same state and shares no mutable part with the original |
| FlagzEngine.Engine.UpdateNeighborCells | hexz/flagz.go:122-155 | the in-place recursion, which captures while it still iterates over neighbours, computes the specified update of cells, scores and counters |
| FlagzEngine.Engine.UpdateNeighbor | hexz/flagz.go:131-154 | one loop round is one step of the specified update, including the recursive call |
| FlagzEngine.Engine.Recompute | hexz/flagz.go:90-109 | turn and game state are recomputed from counters, flags and scores |
| FlagzEngine.Engine.MakeMove | hexz/flagz.go:157-219 | a move is accepted exactly if it is legal; then the state is the specified successor, else nothing changes; the invariant holds afterwards |
| FlagzEngine.Engine.Winner | hexz/flagz.go:231-240 | 0 unless the game is finished, then the player with strictly more points, 0 for a draw; stated on the scores |
| FlagzEngine.Engine.FindNth | hexz/flagz.go:257-296 | the nested search loops return the nth wanted cell: exactly n wanted cells come before it |
| FlagzEngine.Engine.RandomMove | hexz/flagz.go:244-298 | an error exactly if the game is not running; else the legal move that the random numbers determine: kind by the first number, cell by the second; neither the final panic nor a draw from an empty range is reachable |
| FlagzEngine.EveryLegalMoveIsDrawn | hexz/flagz.go:244-298 | every legal move of a running game is the one drawn for some random numbers |
| FlagzEngine.DrawnIsUnique | hexz/flagz.go:257-296 | the random numbers determine the move |
| MctsTree.LiveSpec | hexz/mcts.go:202-207 | the number of live children is zero exactly if all children are done |
| MctsSteps.CreditKeepsInv | hexz/mcts.go:149-158 | crediting a path to a fresh end keeps the tree invariant and adds one run at the root |
| MctsSteps.TallyEarlier | hexz/mcts.go:192-208 | updating the counters of live children after the credit does not change who was credited |
| MctsSteps.MarkKeepsInv | hexz/mcts.go:192-194 | marking a finished child leaves its parent's counter behind by exactly one |
| MctsSteps.SettleKeepsInv | hexz/mcts.go:202-208 | counting down repairs the parent and hands a possible lag on to the node above |
| MctsSteps.ExpandKeepsInv | hexz/mcts.go:163-171 | giving a leaf legal unplayed children keeps the tree invariant |
| MctsSteps.ReplayReaches | hexz/mcts.go:185-190 | along any stored path every move is legal for the player whose turn it is, and the replay ends in the state kept for the node |
| MctsSteps.DoneLeavesAreFinished | hexz/mcts.go:192-208 | below a done node all explored leaves are finished games |
| MctsSteps.Accounting | hexz/mcts.go:149-158 | root count and wins are the sums over its children, every inner node's count is its children's sum or one more, wins lie between zero and count, and the live-children counter is exact |
| MctsMoves.Sample | hexz/mcts.go:123-133 | one step of the reservoir keeps the sampled flag moves distinct and inside the array |
| MctsMoves.CollectMoves | hexz/mcts.go:103-138 | the scan proposes every available cell once, and as many distinct free cells for flags as the limit allows |
| MctsMoves.MovesCoverAll | hexz/mcts.go:118-122 | as many distinct proposals as eligible cells means that every eligible cell is proposed |
| MctsSearch.Mcts.U | hexz/mcts.go:35-41 | an UCT value is infinite or non-negative, so the start value -1 of the selection is below all of them |
| MctsSearch.Mcts.UctValue | hexz/mcts.go:35-41 | the UCT value less the exploration term, times the count, is the number of wins; exactly unplayed nodes have an infinite value |
| MctsSearch.Mcts.GetNextByUct | hexz/mcts.go:87-101 | a child of largest UCT value among those not done, none exactly if all are done |
| MctsSearch.Mcts.Backpropagate | hexz/mcts.go:149-158 | exactly the nodes of the path are credited |
| MctsSearch.Mcts.NextMoves | hexz/mcts.go:103-147 | in a running game at least one child is proposed, all proposals are legal, no normal move is missing unless flags are forced, a player with a flag gets a flag proposal, and forced flags are the only proposals |
| MctsSearch.Mcts.PlayRandomGame | hexz/mcts.go:63-85 | none of the fatal exits is reachable: the play-out makes fewer random moves than there were free cells and ends finished, with its winner returned |
| MctsSearch.Mcts.PlayOut | hexz/mcts.go:172-174 | the winner of a play-out is the winner of a finished game that is reached from the child |
| MctsSearch.Mcts.Select | hexz/mcts.go:179-190 | an open inner node has a child to descend to, its stored move is legal, and a finished child has no children |
| MctsSearch.Mcts.PlayStored | hexz/mcts.go:185-192 | replaying a stored move on the clone is never refused and reaches the state kept at the child |
| MctsSearch.Mcts.SettleUp | hexz/mcts.go:202-208 | the counter of the parent is brought up to date |
| MctsSearch.Mcts.Run | hexz/mcts.go:160-210 | every run ends without panic, adds one to the root count, keeps the tree invariant, and is no deeper than the free cells allow; exactly the nodes of one path are credited, with the winner of a finished game reached from its end |
| MctsSearch.Mcts.Search | hexz/mcts.go:273-293 | the root count equals the completed runs; the loop ends when the tree is explored or at the first clock reading after the deadline; there are at most two runs for each node but the root and at most a number given by the game, so that a search that is given the time explores its tree completely |
| MctsSearch.AverageOrder | hexz/mcts.go:28-33 | comparing averages is comparing wins times counts crosswise, an unplayed node counting as zero |
| MctsSearch.Mcts.BestChild | hexz/mcts.go:305-309 | the chosen child has the largest average, stated on wins and counts, and is the first such child |
| MctsBounds.RunsAtMostTwice | hexz/mcts.go:160-210 | a leaf is credited at most twice and an inner node once more than its children: at most two runs for each node but the root |
| MctsBounds.NodesBounded | hexz/mcts.go:103-147 | if some rank falls along every edge, the tree has no more nodes than a full tree of the largest number of children and of the depth of the root's rank |
| MctsSearch.FreeCellsFall | hexz/mcts.go:185-190 | every edge of the tree uses up a free cell, so the free cells are such a rank |
| MctsSearch.Mcts.SuggestMove | hexz/mcts.go:273-327 | the suggested move is legal and that of the first child of largest average, stated on wins and counts; there is no child to choose exactly if the time is up before the first run |
| MctsSearch.Mcts.TreeSize | hexz/mcts.go:43-54 | the explicit stack visits every node of the tree exactly once |
| CpuHandoff.RefusedMoveChangesNothing | hexz/server.go:477-488 | a move of a stranger, in a game that is not running, or one that the engine refuses changes nothing at all |
| CpuHandoff.AcceptedMoveEffect | hexz/server.go:488-508 | an accepted move changes the game only, and the game master sends a token exactly if the game runs on and the CPU is next |
| CpuHandoff.RegisterEffect | hexz/server.go:421-436 | the first human becomes player 1 against the computer; later ones are not seated and nobody is replaced |
| CpuHandoff.StepFrame | hexz/server.go:415-530 | which events can change the game, the players, the CPU player and the game master, which leaves exactly when a player is removed or the search panics |
| CpuHandoff.StepKeepsInv | hexz/server.go:419-522 | a step of either goroutine keeps the hand-off invariant, a reset exactly if the CPU is not at work; a reset that finds it at work changes the board under its search |
| CpuHandoff.HumansWaitForCpu | hexz/server.go:477-508 | while the CPU is to move, anything a human submits is refused and changes nothing |
| CpuHandoff.RunKeepsInv | hexz/server.go:305-343 | the hand-off invariant holds in every state of every interleaving in which resets only come while the CPU is idle |
| CpuHandoff.AtMostOneToken | hexz/server.go:503-506 | at most one token is outstanding, when one is being sent the CPU is waiting for it, and the search cannot panic: it finds a first move, and no clone refuses a stored move |
| CpuHandoff.BoardIsStableWhileBusy | hexz/server.go:311-332 | from the receipt of a token until the CPU's move is received the game does not change, so all clones that the search takes are of one state, in which every stored move is legal |
| CpuHandoff.DeliveredMoveIsAccepted | hexz/server.go:477-508 | the move that the CPU sends is accepted, in the state in which it got its token |
| CpuHandoff.HandoffStepEnabled | hexz/server.go:305-343 | no deadlock: as long as the game master lives and the CPU is to move, a hand-off step is possible and brings the move nearer |
| CpuHandoff.CpuTurnCompletes | hexz/server.go:305-343 | from every such state at most four hand-off steps make the CPU's move |
| CpuHandoff.StoredMovesAreLegal | hexz/mcts.go:185-190 | every move stored at a child of the root of a search tree is legal in the state of the root |
| CpuHandoff.StoredMovesRefused | hexz/mcts.go:185-190 | if the search began on the turn of player 2, a new game refuses every one of them |
| CpuHandoff.Think | hexz/server.go:311-332 | SuggestMove on the engine stores moves that the protocol lets the search store, and returns the request for one of them |
| CpuHandoff.ResetIsSafeIff | hexz/server.go:512-521 | a reset makes a deadlock reachable exactly if the CPU is at work when it comes |
| CpuHandoff.BusyResetDeadlocks | hexz/server.go:503-506 | after a reset while the CPU is at work, a flag by the human is enough to block both goroutines on each other |
| CpuHandoff.ResetCanDeadlock | hexz/server.go:512-521 | on every board of at least four cells a run from the start reaches that deadlock: join, flag, search, reset, flag, decision; no step is possible after it |
| CpuHandoff.StoredMovesFailAfterReset | hexz/mcts.go:185-190 | from a reset that finds the CPU thinking until the next accepted move, the next iteration panics exactly if moves had been stored: the new game refuses each of them |
| CpuHandoff.ResetCanPanicIff | hexz/server.go:512-521 | after a reset a panic of the search is reachable exactly if the reset finds the search at work; a move that is already being sent does no such harm |
| CpuHandoff.ResetCanPanic | hexz/server.go:512-521 | on every board of at least four cells a run from the start reaches that panic: join, flag, first iteration, reset; the next iteration panics whichever move it replays |
| ClassicFlood.FloodFindsRegion | hexz/classic.go:83-93 | a flood with a new label labels exactly the connected free region of its start and the border of that region, and counts its cells, flags and dead cells |
| ClassicFlood.Flood | hexz/classic.go:83-93 | the recursion ends because the set of cells without the label shrinks |
| ClassicRegions.RegionOfMember | hexz/classic.go:136-140 | connected regions are equivalence classes: a member has the same region |
| ClassicRegions.FloodStep | hexz/classic.go:136-163 | flooding from a neighbour that is not labelled yet adds exactly its region to the labelling |
| ClassicRegions.SkipStep | hexz/classic.go:136-140 | a labelled neighbour shares the region of an earlier one, so skipping it loses nothing |
| ClassicRegions.CountIsCandidates | hexz/classic.go:166-177 | the counter of areas is the number of distinct regions without dead cells on their border |
| ClassicRegions.FirstMinIsSmallest | hexz/classic.go:166-177 | the selected label belongs to a smallest such region, the first one in neighbour order |
| ClassicRules.StepKeepsInv | hexz/classic.go:245-328 | every accepted move keeps dead cells ownerless, special pieces owned by player 1 or 2, lifetimes in their ranges, piece counts non-negative, at most one flag for each player on the board and in hand, and at most three moves since the last reveal |
| ClassicRules.LegalCases | hexz/classic.go:245-290 | a piece that is left is accepted on a free cell and on a hidden move of the other player; on any other cell only the death piece is |
| ClassicRules.SpecialPiecesOnce | hexz/classic.go:13-29 | over any game a player plays each special piece at most once: played and left add up to one |
| ClassicRules.StepKeepsFlags | hexz/classic.go:245-328 | no accepted move increases the number of flags that a player has on the board and in hand |
| ClassicRules.NewGameInv | hexz/classic.go:13-48 | the first state satisfies the invariant |
| ClassicLifetimes.PieceExpires | hexz/classic.go:95-103 | how long the piece of a move stays, whatever happens to other cells: a dead cell of a conflict, a fire and a death piece are there after the reveal of their move and gone after the next; a pest stays for three reveals and is gone after the fourth; a flag stays for good |
| ClassicLifetimes.BurntCellExpires | hexz/classic.go:198-209 | cells burnt by a fire are dead after the reveal of its move and free after the next one |
| ClassicLifetimes.NormalPieceStays | hexz/classic.go:308-322 | an owned normal cell stays its owner's through any number of reveals until a pest takes it; the pest then stays for three reveals, counting that one, and is gone after the fourth |
| ClassicLifetimes.PestTakes | hexz/classic.go:211-231 | a pest takes the other player's normal cells around it in each of the three reveals after that of its own move |
| ClassicLifetimes.OnlyPestsSpread | hexz/classic.go:211-231 | a normal cell without an adjacent pest of the other player that has been through a reveal keeps its owner |
| ClassicLifetimes.FireBurns | hexz/classic.go:198-209 | a fire turns exactly the cells around it into dead cells without owner |
| ClassicResults.OccupationEffect | hexz/classic.go:105-196 | cell by cell: the piece is hidden on its cell; any other cell that changes was free, becomes a normal cell of one player, and does not border a dead cell; the result is the number of cells that change |
| ClassicResults.RegionSplits | hexz/classic.go:164-165 | a piece on a free cell splits the region of that cell: the regions around it are disjoint and make up the old region without the cell, and the regions that may be taken are among them |
| ClassicResults.TakesAtMostHalf | hexz/classic.go:164-195 | a move takes at most half of the free region it is placed in, the placed cell counting for both halves |
| ClassicResults.TakingDoesNotFinish | hexz/classic.go:164-195 | a move that takes a region never ends the game, because another region stays free |
| ClassicResults.ScoreIsCompleteIff | hexz/classic.go:59-81 | the score counts all cells of a player exactly if none of them is still hidden when it is counted |
| ClassicResults.FinalScoreIff | hexz/classic.go:59-81 | when a move ends the game the mover's score is the number of cells owned exactly if that move reveals the board, the opponent's exactly if it does or the opponent had nothing hidden |
| ClassicFilling.OneCandidate | hexz/classic.go:166-177 | if exactly the first cells of the flat array are free, no move has two regions to choose from |
| ClassicFilling.FinalScoreCanBeLow | hexz/classic.go:59-81 | on every board whose number of cells is not a multiple of four there is a game from the first state, one legal move after the other, that ends with the score of its last mover differing from the number of cells owned |
| ClassicResults.DoubleCountMattersIff | hexz/classic.go:127-132 | counting a placed flag twice changes who gets a region exactly if the opponent has one flag more on its border |
| ClassicResults.DoubleCountNeverMatters | hexz/classic.go:127-150 | in every state that keeps the invariant, the double count of a placed flag never changes who gets a region around it |
| ClassicEngine.Engine.constructor | hexz/classic.go:13-29 | a new engine is in the first state: empty board, player 1 to move, one of each special piece for both players |
| ClassicEngine.Engine.FloodFill | hexz/classic.go:83-93 | the recursive flood with its callback computes the specified labelling and counters of one area and leaves the other areas alone |
| ClassicEngine.Engine.MeasureAreas | hexz/classic.go:133-163 | after the loop labels name regions and every area is measured once |
| ClassicEngine.ChosenArea | hexz/classic.go:178-195 | the chosen area is a smallest candidate region, its label marks exactly that region, and its flag counters decide the same owner as the flags on its border |
| ClassicEngine.Engine.OccupyFields | hexz/classic.go:105-196 | the piece is placed; exactly one smallest region without dead cells on its border is filled, only if there are at least two; the result is 1 plus the cells filled |
| ClassicEngine.Engine.ApplyFireEffect | hexz/classic.go:198-209 | exactly the neighbours of the fire become dead, in the sense of ClassicLifetimes.FireBurns |
| ClassicEngine.Engine.ApplyPestEffect | hexz/classic.go:211-231 | the row-by-row pass in place equals the simultaneous step decided on the old board |
| ClassicEngine.Engine.RevealHiddenMoves | hexz/classic.go:237-243 | no cell stays hidden and nothing else changes |
| ClassicEngine.Engine.AgeCells | hexz/classic.go:308-322 | expired special cells become free, the others age by one |
| ClassicEngine.Engine.RecomputeScoreAndState | hexz/classic.go:59-81 | owner-based indexing stays in range; the score counts visible owned cells; the game is finished exactly when no cell is free |
| ClassicEngine.Engine.MakeMove | hexz/classic.go:245-328 | a move is accepted exactly if it is legal; then the new state is one of the specified successors, else nothing changes; the invariant holds afterwards |
| TopicMatch.SplitJoin | solaz/internal/solace/topic_match.go:58 | splitting a joined list of slash-free levels gives the list back, so every such list is a topic |
| TopicMatch.MatchesByLevels | solaz/internal/solace/topic_match.go:11-33 | matching level by level: a literal or prefix level matches one level, a final open-ended level one or more, and an open-ended level before the end nothing |
| TopicMatch.MatchTopicLevels | solaz/internal/solace/topic_match.go:11-33 | the loop with its early returns decides level-by-level matching with a final open-ended level |
| TopicMatch.ComputeSpecificity | solaz/internal/solace/topic_match.go:58-69 | the loop counts each literal level twice and each prefix level once |
| TopicMatch.NewTopicTypeIndex | solaz/internal/solace/topic_match.go:52-87 | no index for no mappings, else one entry for every mapping, sorted by rank, whatever order the map is visited in |
| TopicMatch.Scan | solaz/internal/solace/topic_match.go:97-111 | the scan stops at the first match, at a second match of the same rank, or at the end of the rank of the match |
| TopicMatch.Lookup | solaz/internal/solace/topic_match.go:92-116 | the result is the declarative one for every map and topic: the empty type if nothing matches, an error if two patterns share the highest matching rank, else the type of the unique best pattern |
| TopicMatch.MostSpecificIsUnique | solaz/internal/solace/topic_match.go:92-116 | the declarative result is unique, so it cannot depend on map order or on an unstable sort |
| TopicMatch.SpecificityRespectsMeaning | solaz/internal/solace/topic_match.go:57-85 | if P matches a topic and Q matches every topic that P matches, Q never ranks above P |
| TopicMatch.CoveringPatternIsNotChosen | solaz/internal/solace/topic_match.go:92-116 | the lookup never settles on a pattern that covers another matching pattern |
| BinPacking.PackIsCorrect | binz/binz.py:132-152 | with non-negative sizes first fit fails exactly if some pod does not fit an empty node, and otherwise no pod of a later node would fit on an earlier one |
| BinPacking.PackIsSound | binz/binz.py:132-152 | for sizes of any sign first fit succeeds if every pod fits an empty node, places every pod exactly once, exceeds no capacity and puts no process on a node twice |
| BinPacking.PackIsExact | binz/binz.py:132-152 | first fit fails exactly if some pod does not fit an empty node, provided every such pod lacks a resource of which no earlier pod has a negative size |
| BinPacking.ErrorNamesPod | binz/binz.py:132-152 | the error names one of the pods, which asks for more of a resource than an empty node has |
| BinPacking.NegativeSizeMakesRoom | binz/binz.py:132-152 | an example with a negative size in which packing succeeds although one pod does not fit an empty node |
| BinPacking.PackKeepsLoad | binz/binz.py:51-59 | the loads of all nodes together are the loads of all pods |
| BinPacking.PackKeepsHosts | binz/binz.py:45-47 | a process is on no more nodes than it has instances |
| BinPacking.PairIsHeavy | binz/binz.py:37-49 | a node and an earlier one that does not host the process of its first pod together carry at least one node's worth of combined load |
| BinPacking.PairsAreHeavy | binz/binz.py:37-49 | with at most m nodes for each process, the nodes beyond m - 1 can be paired up so that each pair carries at least one node's worth |
| BinPacking.FirstFitBound | binz/binz.py:132-152 | if no process has more than m instances, K nodes satisfy floor((K - m + 1)/2) * Cmem * Ccpu <= Ccpu * total memory + Cmem * total CPU; for m = 1 the factor is floor(K/2) |
| BinPacking.PackReordered | binz/binz.py:126-152 | the same guarantees, for sizes of any sign and for non-negative ones, on any reordering of the pods |
| PackingProgram.Node.CanFit | binz/binz.py:37-49 | a node accepts a pod exactly if load and pod together exceed neither capacity and no instance of the process is there |
| PackingProgram.Node.AddPod | binz/binz.py:51-59 | the error occurs exactly if the pod does not fit; else the pod is appended and the remaining capacities stay capacity minus load |
| PackingProgram.ExpandProcesses | binz/binz.py:113-124 | one pod per instance, in order; a negative instance count gives none |
| PackingProgram.ExpandAt | binz/binz.py:113-124 | the pods of a process are numbered from 1 to its instances and come right after those of the processes before it; there are no others |
| PackingProgram.SortByMemory | binz/binz.py:127 | the pods in descending order of memory, each exactly once, those of equal memory in their old order |
| PackingProgram.PackNodes | binz/binz.py:132-152 | the nested loops over mutable nodes compute first fit |
| PackingProgram.CalculateNodeRequirements | binz/binz.py:101-152 | an error names an instance that does not fit an empty node; no error if every instance fits an empty node, and with non-negative sizes only then; the nodes hold the first-fit-decreasing packing of the stably sorted instances with all its guarantees |
| Base32.ScrambleRoundTrip | streamlit/base32.py:10-19 | scrambling and unscrambling undo each other on all 40-bit numbers, and modulo 2^40 on every number |
| Base32.Alphabet | streamlit/base32.py:8 | the digits are 0 to 9 and the capital letters but I, L, O and U, with ascending values |
| Base32.EncodingIsUnique | streamlit/base32.py:31-51 | a number has only one text form of a given minimum length |
| Base32.EightDigits | streamlit/base32.py:31-51 | with minimum length 8 the form has exactly 8 characters if and only if the number is below 2^40 |
| Base32.Base32 | streamlit/base32.py:31-51 | an error exactly for negative numbers; else digits of the alphabet that read back as the number, padded to the minimum length and no further |
| Base32.TextRoundTrip | streamlit/base32.py:31-51 | every string of eight digits is the form of its own value |
| Base32.CapacityId | streamlit/base32.py:54-85 | an error exactly for a negative OTN, another time zone or a year outside 1900 to 2999; else eight digits from which the hours, the OTN modulo 100000 and the network number are read back, so the identifier is injective in them; its value is the packed number times the key 179424691 modulo 2^40 |
| PrimeSieve.SmallDivisor | primez/primez.py:9-17 | a number up to n is prime exactly if it has no proper divisor up to the square root of n |
| PrimeSieve.SiftOdd | primez/primez.py:13-17 | skipping an unmarked odd number and all even numbers loses nothing |
| PrimeSieve.Sieve | primez/primez.py:5-18 | an index error exactly for n below 1; else the table marks exactly the primes |
| PrimeSieve.ExactPiCounts | primez/primez.py:20-23 | on any prime table that reaches n the sum is the number of primes up to n |
| PrimeSieve.CountPrimes | primez/primez.py:20-23 | without a table the sieve is computed and its primes are counted |
| Counters.TestStepKeepsInv | rpz/cmd/counter/main.go:87-111 | steps of the benchmark keep the barrier invariant and do no iteration |
| Counters.ShardedStepKeepsInv | rpz/cmd/counter/main.go:51-73 | every step of workers and of a concurrent Value call keeps the invariant |
| Counters.ShardedTotals | rpz/cmd/counter/main.go:51-73 | in every interleaving nothing is counted before all goroutines are ready, the final total is goroutines times iterations, a concurrent Value call returns a sum between the totals at its start and at its end, steps are bounded in number, the benchmark cannot get stuck, and every goroutine with an iteration to do finds its shard |
| Counters.ChannelNotStuck | rpz/cmd/counter/main.go:144-161 | until the value is returned some goroutine can step |
| Counters.ChannelResult | rpz/cmd/counter/main.go:82-111 | in every interleaving the channel is closed only after all sends, the value is goroutines times iterations, no goroutine ever sends on the closed channel, runs have a bounded length, and a run that cannot go on has returned the value |

## Left out

- HTTP handlers, cookies, server-sent events, the user database, logging and statistics of hexz/server.go and hexz/stats.go: input and output.
- Event-listener broadcasts, the 5-second ping and the delayed removal of players in the game master: a broadcast changes nothing in the model, and a removal may happen at any time; whether listeners keep up is not modelled.
- CpuHandoff.CpuTurnCompletes: while the game master lives; when a player is removed during the search, the game master ends and the CPU player is left blocked on its send.
- CpuHandoff.Think: assumes some time to think; without any, SuggestMove fails on a nil pointer.
- CpuHandoff.ResetCanPanicIff: the moves replayed below the children of the root are not part of the hand-off state; without a busy reset none of them fails (`MctsSteps.ReplayReaches`), after one only the first replayed move is tested, so an iteration may panic in more cases once the new game has gone on. Cloning the engine is one step.
- hexz/freeform.go, the views of a board for one player (hexz/engine.go:66-98) and the winner of a Classic game (the same code as for Flagz): only easy members.
- FlagzEngine.Engine.Reset: needs a board of more than 20 cells, so that rocks and grass leave a free cell; the program's board has 105.
- MctsSearch.Mcts.U: the exploration term is any function that is non-negative for positive counts, and wins are real numbers; rounding is not modelled.
- MctsMoves.Sample: says which samples are possible, not with what probability.
- MctsSearch.Mcts.Search: time is an iteration number from which on a reading of the clock says that the time is up.
- MctsTree.LiveSpec: tree nodes are entries of a growing sequence and pointers are positions in it, so aliasing of node objects is not modelled; nodes are only ever added, and reached from their parent.
- MctsSearch.Mcts.SuggestMove: returns the move only, not the statistics; the nil pointer that results from no time at all is the missing result.
- TopicMatch.NewTopicTypeIndex: sort.Slice is modelled by insertion into a sorted list; the contract only uses that the result is sorted.
- PackingProgram.CalculateNodeRequirements: sizes and capacities are real numbers; reading the CSV file and renaming duplicate process names are not modelled.
- Base32.CapacityId: takes the hours since the start of the year as a number; their computation from a date is not modelled, nor is the codec of section 6 of RFC 4648 used by `id`.
- PrimeSieve.Sieve: takes the truncated square root as a parameter with its defining inequality; floating-point square roots of numbers beyond 2^52 are not modelled.
- Counters.ShardedTotals: counters are unbounded, so overflow of 64-bit integers is not modelled; the mutex and the plain atomic counter behave like one shard.
- Integer overflow elsewhere: scores, counts and move numbers stay far below the width of the machine integers and are unbounded here.
