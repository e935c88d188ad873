# Match-three board engine, modelled in Dafny

This project models the board engine of a Unity match-three game:

- the gem grid with its matching, falling, refilling and shuffling (`GemsManager`);
- the swipe-and-swap controller (`GemsController` and its `GemPair`);
- a gem's board bookkeeping (`Gem`);
- the integer score counters of `GameManager`;
- the object pool (`Pool`).

The board is a sequence of columns of optional gem ids. Row 0 is the bottom row. Gem records are kept in a map from id to record. A record holds:

- the gem's kind, its `Column`/`Row` and `LastColumn`/`LastRow`;
- its match flag, whether it is active, and its two movement flags.

The board invariant the engine relies on is "I2": every gem on the board has that cell as its coordinates (`Board.Consistent`).

Modules follow the program's structure:

- `Board`: grid, cells, triples.
- `GemOps`: Gem.cs.
- `Matching`: the match scans.
- `Deadlock`: switch and deadlock test.
- `Gravity`: the fall.
- `Destroy`: destruction and score calls.
- `Spawn`: the initial fill and the refill.
- `Shuffle`.
- `Controller`: swipes, pairs and the frame update.
- `Cascade`: the refill/shuffle state machine.
- `Score`: the GameManager counters.
- `Pool`.
- `Reset`: ResetGemsBoard.
- `Game`: StartGame and ResetGame.

The engine calls Unity for randomness, pool hand-outs and animation convergence. Each of these is a parameter of the model:

- a random pick, or a stream of rolls;
- a supply of pooled gem ids;
- per axis, whether a gem is still "far" from its target.

## Model

| member | source | states |
|---|---|---|
| GemOps.RandomizeType | Assets/Scripts/GemsSystem/Gem.cs:97-100 | the new kind lies within the palette and nothing but the kind changes |
| GemOps.OnSpawn | Assets/Scripts/GemsSystem/Gem.cs:111-117 | a handed-out gem has a palette kind, its match and movement flags cleared, and keeps its coordinates |
| GemOps.UpdateGemBoard | Assets/Scripts/GemsSystem/Gem.cs:66-69 | the gem ends in the cell its coordinates name; no other cell and no record changes |
| GemOps.ReturnToLastPosition | Assets/Scripts/GemsSystem/Gem.cs:71-77 | the gem's coordinates become its Last* coordinates and it is written into that cell; every other record and cell stays |
| GemOps.PrepareToFall | Assets/Scripts/GemsSystem/Gem.cs:79-88 | the gem's row drops by the fall, its Last* coordinates become the new cell, it is written there, and nothing else changes |
| GemOps.ProcessMovement | Assets/Scripts/GemsSystem/Gem.cs:37-64 | the tick reports "moving" exactly when an axis is still far; a gem that arrives on a moving axis is written into its cell, otherwise the board is untouched |
| Matching.ChainLength | Assets/Scripts/GemsSystem/GemsManager.cs:190-210 | the recursive check grows a maximal chain of equal, non-empty entries of at least one cell |
| Matching.ChainLengthTriple | Assets/Scripts/GemsSystem/GemsManager.cs:190-210 | the chain check accepts (three or more cells) exactly when three equal kinds start there |
| Matching.FirstRun | Assets/Scripts/GemsSystem/GemsManager.cs:154-182 | the line scan accepts the first triple before the first empty entry, as a maximal run, and finds nothing exactly when no triple lies before that empty entry |
| Matching.MatchedSpec | Assets/Scripts/GemsSystem/GemsManager.cs:148-188 | every gem FindMatches accepts lies on the query gem's row or column, and something is accepted exactly when one of those lines has a triple before its first hole |
| Matching.FindMatches | Assets/Scripts/GemsSystem/GemsManager.cs:148-188 | FindMatches only ever raises match flags, and answers true exactly when the query gem's row or column scan accepts a run |
| Matching.FindMatchesSpec | Assets/Scripts/GemsSystem/GemsManager.cs:148-188 | a null query changes nothing; otherwise the flags raised are exactly those of the accepted gems, all on the query gem's lines |
| Matching.FindMatchesIdempotent | Assets/Scripts/GemsSystem/GemsManager.cs:148-188 | a second FindMatches with the same gem answers the same and flags nothing new |
| Matching.HasMatches | Assets/Scripts/GemsSystem/GemsManager.cs:119-122 | the pair check succeeds exactly when the selected or the neighbour gem's scan does, and a failure changes nothing |
| Matching.HasMatchesSpec | Assets/Scripts/GemsSystem/GemsManager.cs:119-122 | the OR short-circuits: when the selected gem's scan succeeds exactly its accepted gems gain a flag and the neighbour's runs stay unflagged; otherwise exactly the neighbour's accepted gems gain one |
| Matching.HasMatchesIdempotent | Assets/Scripts/GemsSystem/GemsController.cs:226-228 | the second HasMatches call answers as the first and changes nothing, so calling it twice acts as one call |
| Matching.HasMatchesOnBoard | Assets/Scripts/GemsSystem/GemsManager.cs:134-146 | the board scan only raises match flags, and a false answer leaves the state as it was |
| Matching.ScanBoardSpec | Assets/Scripts/GemsSystem/GemsManager.cs:136-143 | the scan from a cell succeeds exactly when some later cell's FindMatches does, and its effect is FindMatches on the first such cell |
| Matching.HasMatchesOnBoardSpec | Assets/Scripts/GemsSystem/GemsManager.cs:134-146 | the board scan succeeds exactly when some cell's FindMatches succeeds, and flags only the runs of the first such cell |
| Matching.HasMatchesOnBoardFull | Assets/Scripts/GemsSystem/GemsManager.cs:134-146 | on a full consistent board the scan succeeds exactly when three equal kinds stand in a row or column anywhere |
| Matching.FirstRunIgnoresQueryPosition | Assets/Scripts/GemsSystem/GemsManager.cs:154-166 | in A A A B B B the scan for a B gem's row accepts the A run, not the B run |
| Matching.FirstRunStopsAtEmpty | Assets/Scripts/GemsSystem/GemsManager.cs:157 | in _ A A A the scan stops at the empty first cell and finds nothing |
| Deadlock.SwitchGem | Assets/Scripts/GemsSystem/GemsManager.cs:306-311 | the two cells exchange contents, no record changes, and every other cell stays |
| Deadlock.SwitchGemTwice | Assets/Scripts/GemsSystem/GemsManager.cs:306-311 | switching twice restores the state exactly |
| Deadlock.SwitchGemMirror | Assets/Scripts/GemsSystem/GemsManager.cs:306-311 | exchanging with the left (lower) neighbour equals that neighbour exchanging to the right (up) |
| Deadlock.FutureScan | Assets/Scripts/GemsSystem/GemsManager.cs:315-330 | the scan from a cell is true exactly when a triple going right or up starts at or after that cell |
| Deadlock.WillHaveFutureMatches | Assets/Scripts/GemsSystem/GemsManager.cs:313-331 | true exactly when three equal kinds stand in a row or column anywhere |
| Deadlock.CheckForFutureMatches | Assets/Scripts/GemsSystem/GemsManager.cs:293-304 | the board comes back unchanged, and the answer is whether the switched board shows a triple |
| Deadlock.NoMovesScan | Assets/Scripts/GemsSystem/GemsManager.cs:281-290 | the scan from a cell is true exactly when no probe at or after that cell succeeds |
| Deadlock.HasNoMovementsLeft | Assets/Scripts/GemsSystem/GemsManager.cs:279-291 | true exactly when no cell's probe, with the source's operator precedence, succeeds |
| Deadlock.ProbeNamesSwap | Assets/Scripts/GemsSystem/GemsManager.cs:285 | a successful probe names a rightward or upward switch that makes a triple |
| Deadlock.SwapSeenByProbe | Assets/Scripts/GemsSystem/GemsManager.cs:285 | on a full board every triple-making switch, in any direction, is seen by its lower-left cell's probe |
| Deadlock.HasNoMovementsLeftFull | Assets/Scripts/GemsSystem/GemsManager.cs:279-291 | on a full board the deadlock test holds exactly when no switch of neighbours in any direction makes a triple |
| Deadlock.EmptyCellUpProbeCounts | Assets/Scripts/GemsSystem/GemsManager.cs:285 | by precedence an empty cell's upward probe counts: on the column A A _ A the test answers "moves left" |
| Gravity.ProcessGemsToFall | Assets/Scripts/GemsSystem/GemsManager.cs:457-479 | the loop computes the reference fall Fallen: each column compacted downwards, each moved record lowered |
| Gravity.FallenColumns | Assets/Scripts/GemsSystem/GemsManager.cs:463-479 | per column the fall keeps the gems and their bottom-to-top order and packs them from row 0 |
| Gravity.FallenGem | Assets/Scripts/GemsSystem/GemsManager.cs:467-476 | a gem drops by the number of empty cells below it and sits at that cell; with none below, its record is unchanged |
| Gravity.FallenOffBoard | Assets/Scripts/GemsSystem/GemsManager.cs:463-479 | gems not on the board keep their records |
| Gravity.FallenConsistent | Assets/Scripts/GemsSystem/GemsManager.cs:457-479 | the fall keeps I2 |
| Destroy.DestroyGem | Assets/Scripts/GemsSystem/GemsManager.cs:104-110 | a gem standing where its coordinates say is removed and despawned; otherwise nothing changes |
| Destroy.DestroyAllMatchedGems | Assets/Scripts/GemsSystem/GemsManager.cs:81-102 | only cells of matched gems change, and only to empty; only matched gems are deactivated |
| Destroy.DestroyAllMatchedGemsSpec | Assets/Scripts/GemsSystem/GemsManager.cs:81-102 | on a consistent board exactly the matched cells are emptied and their gems deactivated, I2 holds, and AddScore runs (matched cells)/3 times |
| Destroy.MisplacedMatchedGemSurvives | Assets/Scripts/GemsSystem/GemsManager.cs:88-92 | a matched gem whose coordinates name another cell is counted but stays on the board |
| Spawn.SpawnGem | Assets/Scripts/GemsSystem/GemsManager.cs:216-229 | the pooled gem gets the cell as its current and last coordinates and a palette kind, and is written there; nothing else changes |
| Spawn.GemWillMatch | Assets/Scripts/GemsSystem/GemsManager.cs:231-252 | true exactly when the two cells to the left, or the two below, hold the gem's kind (each pair only where it fits) |
| Spawn.SpawnInitialGems | Assets/Scripts/GemsSystem/GemsManager.cs:45-65 | a filled board is full, consistent and has no triple, and each cell holds its assigned gem; the fill fails only after drawing every roll |
| Spawn.Reroll | Assets/Scripts/GemsSystem/GemsManager.cs:55-56 | the re-roll loop consumes at least one roll and leaves the gem in its cell with a palette kind; on success GemWillMatch is false for it, and it fails only after drawing every roll |
| Spawn.NoMatchExtendsFilled | Assets/Scripts/GemsSystem/GemsManager.cs:54-56 | a gem kept because GemWillMatch is false closes no row or column triple at its cell, so the triple-free prefix grows by one cell |
| Spawn.FilledIsSettled | Assets/Scripts/GemsSystem/GemsManager.cs:50-64 | a board filled cell by cell with GemWillMatch false at each cell is full, consistent and has no triple |
| Spawn.RefillScanSpec | Assets/Scripts/GemsSystem/GemsManager.cs:401-419 | the k-th empty cell in scan order gets the k-th pooled gem with its kind; every other record stays |
| Spawn.SpawnNewGemsToRefil | Assets/Scripts/GemsSystem/GemsManager.cs:394-429 | the board ends full, occupied cells keep their gems, and the new-gem list is empty exactly when the board was already full |
| Spawn.RefillConsistent | Assets/Scripts/GemsSystem/GemsManager.cs:394-419 | refilling a consistent board gives a full consistent board |
| Shuffle.ShuffleBoard | Assets/Scripts/GemsSystem/GemsManager.cs:333-367 | the shuffled board is full, of the same size, and is the board the two orders select |
| Shuffle.ShuffleBoardCells | Assets/Scripts/GemsSystem/GemsManager.cs:348-366 | the shuffled board holds every old gem, each exactly once |
| Shuffle.ShuffleBoardRecords | Assets/Scripts/GemsSystem/GemsManager.cs:357-359 | each gem takes its new cell as Column and Row; LastColumn, LastRow and every other field stay |
| Shuffle.ShuffleBoardKeeps | Assets/Scripts/GemsSystem/GemsManager.cs:348-366 | a gem not on the board keeps its record |
| Shuffle.ShuffleBoardConsistent | Assets/Scripts/GemsSystem/GemsManager.cs:333-367 | the shuffle keeps I2 |
| Controller.Sector | Assets/Scripts/GemsSystem/GemsController.cs:146-165 | right, up, left and down are chosen exactly on their angle sectors, and only -45 degrees falls in no sector |
| Controller.Neighbour | Assets/Scripts/GemsSystem/GemsController.cs:167-201 | as written: the neighbour is the target cell's gem; on a hit both gems step along the swipe axis and only that axis's Last* is recorded |
| Controller.NeighbourExchanges | Assets/Scripts/GemsSystem/GemsController.cs:167-201 | on a consistent board the two gems exchange coordinates |
| Controller.RejectedSwipe | Assets/Scripts/GemsSystem/GemsController.cs:220-232 | a swipe without a match, as written (lookup, both arrivals, both returns), keeps the board's shape |
| Controller.RejectedSwipeMisplaces | Assets/Scripts/GemsSystem/GemsController.cs:185-201 | as written, a rejected horizontal swipe of a gem whose LastRow is not its row sends it to (its column, LastRow), a cell it did not hold, and the board does not come back as it was |
| Controller.StaleBoardAfterShuffle | Assets/Scripts/GemsSystem/GemsManager.cs:355-359 | a shuffle of a board at rest yields the stale-LastRow board of the counterexample |
| Controller.NeighbourFixed | Assets/Scripts/GemsSystem/GemsController.cs:167-201 | the corrected lookup finds the same neighbour and records both Last* coordinates |
| Controller.NeighbourFixedExchanges | Assets/Scripts/GemsSystem/GemsController.cs:167-201 | with the corrected lookup both gems remember their old cells and take each other's |
| Controller.RejectedSwipeFixedRestores | Assets/Scripts/GemsSystem/GemsController.cs:228-232 | with the corrected lookup a rejected swipe restores the board exactly |
| Controller.RejectedSwipeFixedRecords | Assets/Scripts/GemsSystem/GemsController.cs:228-232 | with the corrected lookup a rejected swipe returns every gem to its old cell and changes only Last* |
| Controller.RejectedSwipeFixedConsistent | Assets/Scripts/GemsSystem/GemsController.cs:228-232 | with the corrected lookup a rejected swipe keeps I2 |
| Controller.SwipeGem | Assets/Scripts/GemsSystem/GemsController.cs:134-144 | a zero angle or a lookup miss changes nothing; otherwise the found pair is queued |
| Controller.SwipeIgnoresAllowSwipe | Assets/Scripts/GemsSystem/GemsController.cs:134-144 | a swipe has the same effect whatever AllowSwipe says |
| Controller.SwipeQueuesOnePair | Assets/Scripts/GemsSystem/GemsController.cs:139-143 | a swipe appends at most one pair and touches no flag |
| Controller.UpdateMovements | Assets/Scripts/GemsSystem/GemsController.cs:220-250 | the pair is done exactly when both gems have stopped; an unfinished pair is unchanged and scores nothing |
| Controller.UpdateMovementsShortCircuits | Assets/Scripts/GemsSystem/GemsController.cs:224 | while the selected gem moves, the neighbour is not ticked |
| Controller.UpdateMovementsMatch | Assets/Scripts/GemsSystem/GemsController.cs:224-244 | once both gems stop, the pair matches exactly when either gem's FindMatches succeeds on the arrived board |
| Controller.Settle | Assets/Scripts/GemsSystem/GemsController.cs:226-246 | the settled pair always reports done and keeps every record naming a cell |
| Controller.SettleRejects | Assets/Scripts/GemsSystem/GemsController.cs:228-232 | without a match both gems return to their Last* cells and nothing is destroyed |
| Controller.SettleMatches | Assets/Scripts/GemsSystem/GemsController.cs:233-244 | with a match the pair is marked matched and each surviving swapped gem stands in its cell; when both gems stand in their cells, the board keeps I2 and no matched gem is left on it |
| Controller.ProcessPairs | Assets/Scripts/GemsSystem/GemsController.cs:45-54 | the sweep keeps exactly the pairs whose UpdateMovements did not return true, in their order; needFallGems is raised exactly when a finished pair has HasMatch; the score calls are all the pairs' calls |
| Controller.PairTraceSteps | Assets/Scripts/GemsSystem/GemsController.cs:45-47 | the sweep runs from the last pair down, each pair's UpdateMovements seeing the state the later pairs left |
| Controller.Update | Assets/Scripts/GemsSystem/GemsController.cs:33-58 | nothing happens while new gems settle; the cascade starts exactly when gems must fall and no pair is pending; without AllowSwipe no pair is processed; otherwise exactly the unfinished pairs stay, needFallGems is set exactly when it was pending while pairs were queued, or a finished pair matched, and AllowSwipe is then off; the gate is kept |
| Controller.CascadeKeepsGate | Assets/Scripts/GemsSystem/GemsController.cs:33-58 | after Update starts a cascade, any run of frames, swipes and spawn announcements keeps needFallGems clear and swipes off, so the callback allows swipes with the gate kept |
| Controller.CascadeFinished | Assets/Scripts/GemsSystem/GemsController.cs:40 | the callback allows swipes again and changes nothing else |
| Controller.ResetController | Assets/Scripts/GemsSystem/GemsController.cs:60-66 | no pair pending, no flag raised, swipes allowed |
| Controller.UpdatedNewSpawnedGems | Assets/Scripts/GemsSystem/GemsController.cs:68-81 | hasNewGems is raised exactly when there are new gems; nothing else changes |
| Controller.TickGems | Assets/Scripts/GemsSystem/GemsController.cs:83-92 | a frame keeps exactly the gems whose tick reports them still moving, in their order, and every record keeps naming a board cell |
| Controller.TickGemsSettles | Assets/Scripts/GemsSystem/GemsController.cs:83-95 | a frame in which every gem stops empties the list, and one in which every gem still moves keeps it whole |
| Controller.SettleNewGems | Assets/Scripts/GemsSystem/GemsController.cs:79-100 | the coroutine finishes exactly when the list is empty, then clears hasNewGems |
| Cascade.Resolve | Assets/Scripts/GemsSystem/GemsManager.cs:377-391 | a full board is resolved into a falling, deadlocked or stable phase whose guarantee holds; only the falling round changes the board |
| Cascade.ResolveOutcome | Assets/Scripts/GemsSystem/GemsManager.cs:377-391 | falling exactly when there is a triple; deadlocked exactly when there is neither a triple nor a playable swap; stable exactly when there is no triple but a playable swap |
| Cascade.ResolveScore | Assets/Scripts/GemsSystem/GemsManager.cs:377-380 | a destroying round calls AddScore once per three matched cells |
| Cascade.RefilGemsBoard | Assets/Scripts/GemsSystem/GemsManager.cs:373-392 | the refill spawns one pooled gem per hole, in scan order, and ends in a phase whose guarantee holds |
| Cascade.RefilOutcome | Assets/Scripts/GemsSystem/GemsManager.cs:373-392 | the phase after a refill is decided by the refilled board: falling iff it has a triple, deadlocked iff neither a triple nor a playable swap |
| Cascade.ShuffleIteration | Assets/Scripts/GemsSystem/GemsManager.cs:433-449 | one shuffle pass keeps I2 and ends in a phase whose guarantee holds |
| Cascade.RunCascade | Assets/Scripts/GemsSystem/GemsManager.cs:373-451 | every board of the cascade keeps I2; it stops only when stable or out of fitting inputs; a stable board is left alone |
| Score.TruncateToInt | Assets/Scripts/GameManager.cs:87 | the int cast truncates toward zero |
| Score.TargetIncrease | Assets/Scripts/GameManager.cs:87 | with valid settings the target grows by between one and two initial targets |
| Score.Award | Assets/Scripts/GameManager.cs:74-75 | the award is the match value, multiplied by a positive combo score; it is never negative under valid settings |
| Score.StartGame | Assets/Scripts/GameManager.cs:54-61 | stage 1, no score, the initial target |
| Score.UpdateScoreTarget | Assets/Scripts/GameManager.cs:81-93 | reaching the target advances the stage, zeroes the stage score and raises the target; otherwise nothing changes |
| Score.AddScore | Assets/Scripts/GameManager.cs:72-79 | the total grows by the whole new stage score; the stage advances exactly when that reaches the target; valid settings keep the counters sane and monotone |
| Score.AddScores | Assets/Scripts/GemsSystem/GemsManager.cs:97-101 | the AddScore calls of one destruction keep the counters sane and never lower the total or the stage |
| Score.AddScoresWithinStage | Assets/Scripts/GameManager.cs:74-76 | within one stage n awards add n times the old stage score plus value times 1 + 2 + ... + n to the total |
| Pool.Preload | Assets/Scripts/Helpers/Pool.cs:22-34 | n new owned items are pushed above the old stack, with consecutive fresh ids |
| Pool.GetPoolItem | Assets/Scripts/Helpers/Pool.cs:36-61 | the handed-out item is owned and active, only it changes, and the stack only shrinks from the top |
| Pool.GetPoolItemSpec | Assets/Scripts/Helpers/Pool.cs:36-61 | the topmost live item is handed out, dropping destroyed entries; with none left a fresh item is made; either way it was not in use |
| Pool.RemovePoolItem | Assets/Scripts/Helpers/Pool.cs:63-71 | a destroyed item is ignored; otherwise the item is deactivated and pushed |
| Pool.Despawn | Assets/Scripts/Helpers/Pool.cs:78-82 | an item without a pool is left alone; otherwise it is deactivated and returned |
| Pool.DespawnThenGet | Assets/Scripts/Helpers/Pool.cs:36-82 | despawning an item and asking again gives that item back with the stack as before |
| Pool.RestingKept | Assets/Scripts/Helpers/Pool.cs:36-71 | hand-outs, and returns of items not already stacked, keep every stacked item inactive and unrepeated |
| Pool.DoubleDespawnHandsOutTwice | Assets/Scripts/Helpers/Pool.cs:63-82 | an item despawned twice is handed out by two successive requests |
| Reset.ResetGemsBoard | Assets/Scripts/GemsSystem/GemsManager.cs:67-79 | as written, the reset keeps the board's shape and gem ids |
| Reset.ResetScanSpec | Assets/Scripts/GemsSystem/GemsManager.cs:71-78 | the loop from a cell gets through exactly when no later cell is empty, and otherwise stops at the first empty one |
| Reset.ResetGemsBoardCrashes | Assets/Scripts/GemsSystem/GemsManager.cs:67-79 | as written the reset gets through exactly the full boards, and fails at the first hole of any other |
| Reset.ResetOfEmptyCellCrashes | Assets/Scripts/GemsSystem/GemsManager.cs:75 | on a one-cell board whose cell is empty the reset fails at once |
| Reset.ResetGemsBoardFixed | Assets/Scripts/GemsSystem/GemsManager.cs:67-79 | the corrected reset empties every cell |
| Reset.ResetGemsBoardFixedGems | Assets/Scripts/GemsSystem/GemsManager.cs:71-78 | the corrected reset deactivates exactly the gems on the board and no other record changes |
| Reset.ResetFixedAgreesWhenFull | Assets/Scripts/GemsSystem/GemsManager.cs:67-79 | on every board the written reset gets through, the corrected one does the same |
| Game.StartGame | Assets/Scripts/GameManager.cs:54-70 | a started game runs on a full consistent board without a triple, with cleared counters and an idle controller; the start fails only after drawing every roll |
| Game.ResetGame | Assets/Scripts/GameManager.cs:43-47 | a reset from any board, holes included, starts a game as StartGame promises, and fails only after drawing every roll |

## Left out

- Positions, the lerp animation, timings and `WaitForSeconds`: gem movement is a per-axis "still far" report supplied as input.
- Coroutine interleaving beyond the flag machine of `Update` and the settling coroutine: the cascade is a sequential phase machine (`Cascade.RunCascade`).
- Audio, particles (`PariclePoolItem`, the particle hand-out in DestroyAllMatchedGems), labels, the score slider, the stage timer and game over.
- Randomness (`Random.Range`, `System.Random`): picks, roll streams and shuffle orders are parameters.
- Pool transforms, parents and `Instantiate`: the pool is ids and flags. `OnSpawn` is modelled on the gem (`GemOps.OnSpawn`); the pool only activates the item.
- A gem's kind is a palette index; the source compares sprites.
- UpdatedAllGems / ProcessAllNewGemsMovements: the shuffle's settling pass moves gems on screen only, since ShuffleBoard has already set every coordinate.
- Spawn.SpawnInitialGems: the re-roll loop runs on a finite roll stream and returns None when the rolls run out; the source loops until a roll succeeds.
- Gravity.ProcessGemsToFall: the fall is modelled only on I2 boards. PrepareToFall writes through the gem's own Row, so on a board outside I2 the source writes to another cell or indexes out of range. The as-written neighbour lookup can leave such a board (`Controller.RejectedSwipeMisplaces`); the model's swipe uses the corrected lookup, which keeps I2.
- Cascade.RunCascade: requires I2 at entry, like the fall it runs; on a board the as-written neighbour lookup left outside I2, the cascade is not modelled.
- Shuffle.ShuffleBoard: requires a full board, because the source dereferences every cell it moves; it is only called on full boards.
- Cascade.RunCascade: stops when the inputs run out or stop fitting the phase; termination of the source's loop depends on randomness and is not claimed.
- Score.AddScore: does not model 32-bit overflow of the counters, because integers are unbounded here.
- Score.TargetIncrease: the float product is exact real arithmetic; float rounding before the cast is not modelled.
- Controller.SwipeGem: uses the corrected neighbour lookup (see Findings); the lookup as written is `Controller.Neighbour`.
- Game.ResetGame: uses the corrected ResetGemsBoard. `StopAllCoroutines` is not modelled, because the model keeps no running coroutine to stop.

## Findings

| source | as written | input that shows it | evidently intended | confidence | as-written member | corrected member |
|---|---|---|---|---|---|---|
| Assets/Scripts/GemsSystem/GemsController.cs:167-201 | the neighbour lookup records only the swipe axis's Last* coordinate, and ReturnToLastPosition restores both axes | a 2 x 2 board after a shuffle that swapped gem 0 from row 0 to row 1 without touching its LastRow; swipe gem 0 right with no match: it is written into (0, 0) over gem 2, and the board does not come back as it was | a rejected swipe puts both gems back on their own cells | not executed; high | Controller.RejectedSwipeMisplaces | Controller.RejectedSwipeFixedRestores |
| Assets/Scripts/GemsSystem/GemsManager.cs:67-79 | ResetGemsBoard calls Despawn on every cell without a null check | a restart while the cascade has holes on the board, e.g. a 1 x 1 board whose cell is empty: the loop dereferences null | empty cells are skipped and every gem on the board is despawned | not executed; medium | Reset.ResetGemsBoardCrashes | Reset.ResetGemsBoardFixed |

The first finding has a second route to the same stale coordinate. An accepted horizontal swap leaves the surviving gem with its old LastColumn, and a later rejected vertical swipe then returns it to that column. The proved counterexample uses the shuffle route, which `Controller.StaleBoardAfterShuffle` shows reachable.
