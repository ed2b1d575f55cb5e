# A verified model of an agar.io-style game server core

The server keeps one shared `World`. It holds a map from player id to player,
the food pellets, the viruses, the ejected mass blobs and the next player id.
Thirty times a second (TICK_RATE), `World::tick` runs twelve phases in this order:

- players move; ejected blobs move;
- food is eaten; blobs that have come to rest are eaten;
- players eat each other; cells of at least 130 mass burst on viruses;
- merge timers count down; ready cells merge; heavy cells decay;
- food and viruses are topped up; cells that cannot merge yet are pushed apart.

After the phases, every player's score is raised to its floored total mass.
Each websocket connection does three things:

- It joins a player through a first `Join` message, under a display name of at most 20 characters.
- It applies `Move`, `Split` and `Eject` commands.
- Once per tick it sends a projected `State` snapshot. It sends one `Dead` message when the player has died.

When the connection ends, the player leaves the world.

This project models that core in Dafny.

- `World` is a class with the struct's fields (`GameWorld.World`).
- Each phase and action is a function on the value `WorldState`.
  - Each phase's loops are methods. Their `ensures` ties the result to that function.
  - Lemmas prove what the phases promise: the world invariant, conservation of mass, exact removal of what was eaten, and independence from the `HashMap` iteration order.
- `WorldStates.Inv` is the world invariant:
  - every player is stored under its own id;
  - ids are at least 1 and below the counter;
  - a player is alive exactly while it has cells;
  - a player has at most 16 cells, none below mass 10;
  - food and viruses never exceed their targets and lie in their spawn ranges;
  - every blob has mass 14.

Modelling choices that run through the whole project:

- `f64` arithmetic is exact `real` arithmetic.
- `sqrt` is a function parameter constrained by `RealMath.IsSqrt` (non-negative, squares back). `cos` and `sin` are unconstrained parameters.
- Every random draw is an input: spawn points, colours, new food and new viruses. A join's spawn point must lie in the margin `gen_range` draws from, and its colour must be one of the 15 of `Players.PLAYER_COLORS`. New food and viruses come from pools whose entries satisfy the ranges and palette of their generators.
- `HashMap` iteration is a key-order parameter `ids` satisfying `WorldStates.IsKeyOrder`. The whole tick is proved to give the same world for every order (`Ticks.TickOrderIndependent`), and so is player eating (`CombatOrder.PlayerEatingOrderIndependent`). For the leaderboard, the board's scores and the multiset of sorted entries are proved order-independent (`Leaderboard.LeaderboardOrderIndependent`). Two things are not: which of several tied players take the last board places, and the order of `State.players` in a snapshot. Both follow the map's iteration order, as in the source.

## Model

| member | source | states |
|---|---|---|
| Config.MassFloorConstants | src/config.rs:2-44 | The constants as declared; the tick is 33 ms by integer division; a new player starts at the mass floor; a split half (18), an ejecting cell left at the threshold (18) and a fragment of a minimal virus burst (above 14) all stay at or above MIN_MASS |
| Config.SpeedForMass | src/config.rs:53-55 | Speed is positive for positive mass |
| Config.RadiusSquared | src/config.rs:48-50 | The radius is non-negative and its square is 16 times the mass |
| Config.MassToRadiusStrictlyIncreasing | src/config.rs:48-50 | A heavier cell has a strictly larger radius, and conversely |
| Config.SpeedStrictlyDecreasing | src/config.rs:53-55 | A heavier cell is strictly slower |
| Config.RadiusOfMass100 | src/config.rs:48-50 | Mass 100 has radius 40 |
| Physics.SqDist | src/game/physics.rs:3-5 | The squared distance is non-negative |
| Physics.DistanceIsMetric | src/game/physics.rs:3-5 | Distance is non-negative, symmetric and zero from a point to itself |
| Physics.DistanceLessIff | src/game/physics.rs:3-5 | Distance is below a bound exactly when the squared distance is below the bound squared |
| Physics.CirclesOverlapSymmetric | src/game/physics.rs:7-9 | Overlap does not depend on the order of the two circles |
| Physics.CannotEatBelowRatio | src/game/physics.rs:12-24 | Mass 100 never eats mass 81 (below the 1.25 ratio), wherever the cells are |
| Physics.CanEatAtExactRatio | src/game/physics.rs:12-24 | At exactly the 1.25 ratio the outcome is decided by the overlap test alone |
| Physics.CanEatAsymmetric | src/game/physics.rs:12-24 | Two cells never eat each other, equal masses never eat, and an eater is heavier and holds the victim's centre |
| Physics.CanEatFoodIff | src/game/physics.rs:27-31 | A cell reaches a pellet exactly when its reach `4*sqrt(m) - 2.5` is positive and exceeds the distance |
| Physics.CanEatFoodMonotone | src/game/physics.rs:27-31 | A heavier cell at the same spot reaches every pellet a lighter one reaches |
| Physics.ClampToWorldProperties | src/game/physics.rs:34-38 | The clamp lands inside the radius-inset world when that range is non-empty, is idempotent, and leaves in-range points unchanged |
| Physics.NormalizeProperties | src/game/physics.rs:41-48 | Short vectors give (0, 0); others give a unit vector pointing the same way as the input |
| RealMath.U64 | src/game/player.rs:82 | The `as u64` cast: the floor for values in range, 0 below 1, never above u64::MAX |
| RealMath.Max | src/game/player.rs:78 | `f64::max`: at least both arguments and equal to one of them |
| RealMath.Min | src/game/physics.rs:35-36 | `f64::min`: at most both arguments and equal to one of them |
| SeqOps.SwapRemove | src/game/world.rs:138 | `Vec::swap_remove`: one element shorter, the prefix before the index kept, and exactly the removed element gone as a multiset |
| SeqOps.RemoveAt | src/game/world.rs:220 | `Vec::remove`: one element shorter, the prefix kept, and the suffix shifted down by one |
| SeqOps.SwapRemoveAll | src/game/world.rs:136-139 | Swap-removing strictly descending valid indices shortens the list by their number and keeps everything below the lowest index |
| SeqOps.SwapRemoveAllRemovesExactly | src/game/world.rs:136-139 | Swap-removing strictly descending valid indices removes exactly the items at those indices, as a multiset |
| SeqOps.SwapRemoveEach | src/game/world.rs:137-139 | The `for` loop of `swap_remove` calls removes as specified |
| SeqOps.DescendingMembers | src/game/world.rs:136 | The members of a set below a bound, listed strictly from high to low |
| SeqOps.InsertDesc | src/game/world.rs:215 | Inserting into a descending list keeps it descending and adds exactly the element |
| SeqOps.SortDesc | src/game/world.rs:215 | `sort_unstable_by(b.cmp(a))`: a descending permutation of the input |
| SeqOps.Dedup | src/game/world.rs:216 | `Vec::dedup`: the same members, strictly descending when the input was descending, with the same first element |
| SeqOps.Without | src/game/world.rs:218-222 | Dropping a set of positions never lengthens the list and keeps only its own items |
| SeqOps.RemoveAllDescendingIsWithout | src/game/world.rs:218-222 | Removing strictly descending valid positions one by one with `remove` drops exactly those positions and keeps the rest in order |
| SeqOps.RemoveEach | src/game/world.rs:218-222 | The `for` loop of guarded `remove` calls removes as specified |
| SeqOps.SortedIndicesAreDescendingMembers | src/game/world.rs:129-136 | Sorting a duplicate-free index list gives the members of its set in descending order |
| Players.NewCell | src/game/player.rs:14-23 | A new cell sits at the given point with the given mass, at rest, with no merge timer |
| Players.NewPlayer | src/game/player.rs:44-57 | A new player is alive, scores 0, aims at its spawn point, has one STARTING_MASS cell there, and is well formed |
| Players.TotalMassUpdate | src/game/player.rs:59-61 | Replacing one cell changes the total by exactly the difference of the two masses |
| Players.TotalMassAtLeastFloor | src/game/player.rs:59-61 | A player whose cells are all at the floor or above weighs at least `#cells * MIN_MASS` |
| Players.CenterWithinCells | src/game/player.rs:63-74 | The mass-weighted centre lies within any box that contains every cell |
| Players.ViewportScaleProperties | src/game/player.rs:76-79 | The scale is at least 1, and exactly 1 iff the total mass is at most STARTING_MASS |
| Players.UpdateScoreIsHighWaterMark | src/game/player.rs:81-86 | The score never decreases, becomes max(old score, floored total mass), and nothing else changes |
| Players.SkinUrlProperties | src/game/player.rs:88-90 | A skin URL exists exactly for logged-in players; it is `/api/skin/` then the id in decimal, which reads back to the id |
| Players.NatToStringRoundTrip | src/game/player.rs:89 | The decimal notation of a number is non-empty, all digits, and parses back to the number |
| Movement.SteeredCell | src/game/world.rs:77-97 | Stepping a cell keeps its mass and merge timer |
| Movement.SteeredCellVelocity | src/game/world.rs:79-96 | A coasting cell's velocity shrinks; any other cell stops; a cell within 5 of its target does not move |
| Movement.SteersTowardsTarget | src/game/world.rs:84-96 | A cell that is not coasting and is more than 5 units from its target loses its velocity. For a positive `dt` its step heads straight at the target: it is exactly `speed_for_mass(mass) * dt` long, parallel to the line to the target, with a positive dot product towards it |
| Movement.SteerHeadsStraightAt | src/game/world.rs:88-96 | For a positive `dt`, the step of such a cell is exactly `speed_for_mass(mass) * dt` long and lies on the line to the target, pointing towards it |
| Movement.StepTowards | src/game/world.rs:92-95 | A positive speed times a unit vector pointing at the target gives a step that long, heading straight at the target |
| Movement.MovedCellVelocity | src/game/world.rs:79-86 | A coasting cell's velocity is multiplied by SPLIT_DECEL; any other cell's is zeroed. Either way neither velocity component grows in absolute value, clamp included |
| Movement.MovedCells | src/game/world.rs:77-102 | Every cell is moved and clamped in place; there are as many cells as before |
| Movement.MovedPlayer | src/game/world.rs:73-102 | Movement changes only a player's cells |
| Movement.PlayersMoved | src/game/world.rs:72-104 | Player movement changes only the players |
| Movement.MovedCell | src/game/world.rs:77-101 | After the clamp the cell sits at a fixed point of the clamp, with mass and timer unchanged |
| Movement.MoveCells | src/game/world.rs:77-102 | The cell loop produces each cell's moved-and-clamped step, in order |
| Movement.MoveAll | src/game/world.rs:73-103 | Every player's cells are moved; the key set is unchanged |
| Movement.PlayersMovedKeepsInv | src/game/world.rs:72-104 | Moving keeps the invariant, the players, every cell count and every mass; every living cell ends clamped inside the world |
| Movement.MovedBlob | src/game/world.rs:107-116 | A blob keeps its mass and colour, its velocity is multiplied by EJECT_DECEL, and it ends clamped |
| Movement.MoveBlobs | src/game/world.rs:106-117 | The blob loop moves each blob in place, in order |
| Movement.BlobsMoved | src/game/world.rs:106-117 | Blob movement changes only the blobs, moving each one in place |
| Movement.BlobsMovedKeepsInv | src/game/world.rs:106-117 | Moving blobs keeps the invariant; velocities only shrink, and a blob at rest stays at rest |
| Feeding.FedOnFoodGain | src/game/world.rs:126-133 | A cell gains exactly FOOD_MASS per pellet it reaches |
| Feeding.FedOnFood | src/game/world.rs:126-133 | Scanning the pellets changes only the cell's mass, which never falls |
| Feeding.FoodReachedBy | src/game/world.rs:126-127 | The pellets a cell reaches are indices into the scanned prefix |
| Feeding.FedCells | src/game/world.rs:125-134 | Every cell is fed on the whole pellet list, in place |
| Feeding.FedPlayer | src/game/world.rs:121-134 | Feeding changes only a player's cells |
| Feeding.FoodEatingDone | src/game/world.rs:119-140 | Food eating changes only the players and the food |
| Feeding.FeedCellOnFood | src/game/world.rs:126-133 | The pellet loop grows the cell as specified and adds to the eaten list exactly the reached pellets, with no duplicates |
| Feeding.FeedCellsOnFood | src/game/world.rs:125-134 | The per-cell loop feeds every cell and collects exactly the pellets some cell reaches |
| Feeding.FeedAllOnFood | src/game/world.rs:121-135 | The per-player loop feeds every player and lists each pellet some living player reaches, exactly once |
| Feeding.EatFood | src/game/world.rs:119-140 | The whole phase, including the descending-order `swap_remove`, yields the specified players and food |
| Feeding.FoodEatingDoneProperties | src/game/world.rs:119-140 | Eating food keeps the invariant and the players; it removes exactly the eaten pellets, as a multiset, and keeps all the others |
| Feeding.FedPlayerGain | src/game/world.rs:121-134 | Each cell of a living player gains FOOD_MASS per pellet it reaches |
| Feeding.FedOnBlobsGain | src/game/world.rs:148-158 | A cell gains exactly EJECT_MASS per blob it reaches |
| Feeding.FedOnBlobs | src/game/world.rs:149-158 | Scanning the blobs changes only the cell's mass |
| Feeding.FedOnBlobsGrows | src/game/world.rs:152 | Eating blobs never makes a cell lighter |
| Feeding.BlobsReachedBy | src/game/world.rs:149-151 | The blobs a cell reaches are indices into the scanned prefix |
| Feeding.FedCellsOnBlobs | src/game/world.rs:148-159 | Every cell is fed on the whole blob list, in place |
| Feeding.BlobFedPlayer | src/game/world.rs:144-159 | Blob eating changes only a player's cells |
| Feeding.BlobEatingDone | src/game/world.rs:142-165 | Blob eating changes only the players and the blobs |
| Feeding.MovingBlobNotReached | src/game/world.rs:150 | A blob still moving at 5 or faster on either axis is never eaten |
| Feeding.FeedCellOnBlobs | src/game/world.rs:149-158 | The blob loop grows the cell as specified and collects exactly the reached blobs, once each |
| Feeding.FeedCellsOnBlobs | src/game/world.rs:148-159 | The per-cell loop feeds every cell and collects exactly the blobs some cell reaches |
| Feeding.FeedAllOnBlobs | src/game/world.rs:144-160 | The per-player loop feeds every player and lists each blob some living player reaches, once |
| Feeding.EatBlobs | src/game/world.rs:142-165 | The whole phase yields the specified players and blobs |
| Feeding.BlobEatingDoneProperties | src/game/world.rs:142-165 | Eating blobs keeps the invariant and the players, and removes exactly the eaten blobs as a multiset |
| Combat.CellKillsSound | src/game/world.rs:186-190 | Every kill recorded for one eater cell names a victim cell it can eat, with that cell's mass |
| Combat.PairKillsSound | src/game/world.rs:185-191 | Every kill recorded for a pair of players has an eater cell that eats the victim cell |
| Combat.CheckedPairKillsSound | src/game/world.rs:173-191 | The pair scan records only valid kills, all of `id1` eating `id2` |
| Combat.RowKillsSound | src/game/world.rs:172-192 | One eater's row records only valid kills by that eater |
| Combat.AllKillsSound | src/game/world.rs:171-193 | Every recorded kill is between two different living players, names an existing victim cell with its mass, and that cell is eaten |
| Combat.CellKillsComplete | src/game/world.rs:186-190 | Every victim cell the eater cell can eat is recorded |
| Combat.PairKillsComplete | src/game/world.rs:185-191 | Every victim cell eaten by some eater cell is recorded for the pair |
| Combat.RowKillsComplete | src/game/world.rs:172-192 | Every eatable cell of every other living player is recorded in the eater's row |
| Combat.AllKillsComplete | src/game/world.rs:171-193 | Every victim cell that some cell of another living player can eat is recorded |
| Combat.RecordedIffEaten | src/game/world.rs:171-193 | For any key order, a victim cell is recorded exactly when another living player can eat it |
| Combat.ScanPair | src/game/world.rs:185-191 | The two nested cell loops produce the specified pair kills |
| Combat.ScanRow | src/game/world.rs:172-192 | The inner player loop produces the specified row |
| Combat.ScanKills | src/game/world.rs:171-193 | The outer player loop produces the specified kill list |
| Combat.DeadCellsContents | src/game/world.rs:199-200 | The dead-cell table has an entry exactly for the victims of some kill, listing exactly their recorded cell indices |
| Combat.MassGainsContents | src/game/world.rs:199-202 | The gain table has an entry exactly for the eaters of some kill, holding the sum of their kills' masses |
| Combat.TallyKills | src/game/world.rs:196-202 | The tally loop builds both tables as specified |
| Combat.LargestCellIndex | src/game/world.rs:207 | `max_by` finds a cell of maximal mass, the last one among equals |
| Combat.ApplyGainProperties | src/game/world.rs:205-211 | The gain goes to the heaviest cell, the last among equals; every other cell is unchanged |
| Combat.ApplyGain | src/game/world.rs:206-210 | Crediting a gain changes only the cells and keeps their number |
| Combat.CreditGains | src/game/world.rs:205-211 | The credit loop applies each eater's gain and leaves the players without gains alone |
| Combat.SortDedupIsDescendingMembers | src/game/world.rs:215-216 | Sorting in descending order and then deduplicating gives the distinct indices from high to low |
| Combat.ApplyDeathsProperties | src/game/world.rs:214-226 | The removals delete exactly the listed cells, keeping the rest in order; the player stays alive iff cells remain |
| Combat.ApplyDeaths | src/game/world.rs:217-226 | Removing dead cells changes only the cells and the alive flag |
| Combat.RemoveDead | src/game/world.rs:214-227 | The removal loop applies each victim's dead list and leaves other players alone |
| Combat.EatPlayers | src/game/world.rs:167-228 | The whole phase yields the specified players |
| Combat.PlayerEatingDone | src/game/world.rs:167-228 | Player eating changes only the players |
| Combat.TallyOfSoundKills | src/game/world.rs:196-202 | A tally of valid kills lists only in-range cells of existing victims and non-negative gains |
| Combat.GainOfConcat | src/game/world.rs:199-201 | A gain over two kill lists is the sum of the gains over each |
| Combat.SettledWellFormed | src/game/world.rs:204-227 | A non-negative gain followed by in-range removals keeps a player well formed |
| Combat.PlayerEatingDoneKeepsInv | src/game/world.rs:167-228 | Player eating keeps the invariant and the set of players |
| Combat.PlayerEatingDoneVictims | src/game/world.rs:167-228 | Each victim loses exactly the cells other living players can eat, and dies exactly when none remain |
| Combat.DeadListIsEatenCells | src/game/world.rs:196-200 | A victim's dead list holds exactly its eatable cells; a player with none has no entry |
| CombatOrder.RowGainIsPairGainSum | src/game/world.rs:172-192 | One eater's gain from its row is the sum of its gains over each victim |
| CombatOrder.AllGainIsRowGain | src/game/world.rs:171-202 | An eater's gain over the whole kill list comes only from its own row |
| CombatOrder.GainForKeyOrder | src/game/world.rs:171-202 | An eater's gain is the sum of its per-victim gains over the key order |
| CombatOrder.SumOfPermutation | src/game/world.rs:171-172 | A sum over distinct victims does not depend on their order |
| CombatOrder.HasKillForKeyOrders | src/game/world.rs:168-202 | Whether an eater gains anything does not depend on the key order |
| CombatOrder.DeadEntryForKeyOrder | src/game/world.rs:196-200 | A player has a dead-cell entry exactly when it has an eatable cell, whatever the order |
| CombatOrder.GainValueSame | src/game/world.rs:171-202 | An eater's total gain is the same for every key order |
| CombatOrder.ApplyDeathsSameMembers | src/game/world.rs:214-226 | Two dead lists with the same members remove the same cells, whatever their order or repetitions |
| CombatOrder.SettledSame | src/game/world.rs:204-227 | Every player ends the phase the same for every key order |
| CombatOrder.PlayerEatingOrderIndependent | src/game/world.rs:167-228 | Player eating gives the same world for every `HashMap` iteration order |
| VirusPop.FirstPopper | src/game/world.rs:237-262 | The cell scan with its `break` finds the first cell that bursts on the virus, or none |
| VirusPop.PopCount | src/game/world.rs:246 | There are at most 8 fragments, never more than the free slots, and none exactly when the player already has 16 cells |
| VirusPop.LaunchAngle | src/game/world.rs:253 | Fragment angles lie in [0, TAU) |
| VirusPop.Fragment | src/game/world.rs:254-257 | A fragment starts at the burst cell's centre with its share of the mass and a full merge timer |
| VirusPop.Fragments | src/game/world.rs:252-259 | The fragment loop makes `count` fragments in order |
| VirusPop.FragmentsMass | src/game/world.rs:252-259 | The fragments weigh `count` times the share |
| VirusPop.PoppedCells | src/game/world.rs:246-260 | A burst adds exactly `split_count` cells and never goes past 16 |
| VirusPop.PoppedCellsShape | src/game/world.rs:246-260 | The burst cell keeps 1/(count+1) of its mass; the fragments are appended in order; other cells are unchanged |
| VirusPop.PoppedCellsMass | src/game/world.rs:246-260 | A burst conserves the player's total mass |
| VirusPop.PoppedCellsFloor | src/game/world.rs:246-260 | A burst of a cell of at least 130 leaves no cell below MIN_MASS |
| VirusPop.PopScanProperties | src/game/world.rs:236-264 | Bursting on each virus in turn keeps mass, the floor and the existing cells' identity; masses only fall |
| VirusPop.PopScan | src/game/world.rs:236-264 | Scanning the viruses never removes cells and never goes past 16 |
| VirusPop.PopStep | src/game/world.rs:237-263 | One virus never removes cells and never goes past 16 |
| VirusPop.PopStepProperties | src/game/world.rs:237-263 | One virus keeps mass, the floor and the existing cells except for their mass; masses only fall |
| VirusPop.PoppedPlayer | src/game/world.rs:232-264 | Bursting changes only a player's cells |
| VirusPop.VirusEatingDone | src/game/world.rs:230-270 | Virus eating changes only the players and the viruses |
| VirusPop.FullPlayerUnchanged | src/game/world.rs:246-247 | A player with 16 cells is left unchanged by every virus |
| VirusPop.FullPlayerStillConsumes | src/game/world.rs:239-245 | A player with 16 cells still consumes every virus it reaches with a heavy enough cell |
| VirusPop.PopCell | src/game/world.rs:246-260 | The burst loop produces the specified cells |
| VirusPop.TryVirus | src/game/world.rs:237-263 | One virus's cell scan bursts as specified and reports whether the virus was consumed |
| VirusPop.PopCellsOnViruses | src/game/world.rs:236-264 | The virus loop bursts as specified and collects exactly the consumed viruses, once each |
| VirusPop.PopVirus | src/game/world.rs:237-263 | One iteration of the virus loop extends the scan by that virus and records it when it was consumed |
| VirusPop.PopAll | src/game/world.rs:232-265 | Every living player is burst as specified; each consumed virus is listed once |
| VirusPop.PopViruses | src/game/world.rs:230-270 | The whole phase, including the `swap_remove` of consumed viruses, yields the specified players and viruses |
| VirusPop.VirusEatingDoneProperties | src/game/world.rs:230-270 | Bursting keeps the invariant, every player's total mass and liveness, and removes exactly the consumed viruses as a multiset |
| Merging.TickedTimer | src/game/world.rs:275-277 | A running timer drops by dt; an expired one is left alone |
| Merging.TimerRunsOut | src/game/world.rs:272-280 | With a positive dt, a timer of t seconds has run out after k ticks once t <= k*dt |
| Merging.TimerCountsDown | src/game/world.rs:272-280 | A timer still running after k ticks has lost exactly k*dt |
| Merging.TickedCells | src/game/world.rs:274-278 | Every cell's timer is ticked and nothing else changes |
| Merging.TimersTicked | src/game/world.rs:272-280 | Ticking timers changes only the players |
| Merging.TickTimers | src/game/world.rs:274-278 | The timer loop ticks every cell's timer and nothing else |
| Merging.TickAllTimers | src/game/world.rs:273-279 | Every player's timers are ticked; the key set is unchanged |
| Merging.TimersTickedKeepsInv | src/game/world.rs:272-280 | Ticking keeps the invariant, the cell counts and the masses |
| Merging.AbsorbedMass | src/game/world.rs:300-301 | Absorbing cell j into cell i conserves mass and the floor |
| Merging.Absorbed | src/game/world.rs:300-301 | Absorbing a cell leaves one cell fewer |
| Merging.Waiting | src/game/world.rs:291 | The waiting cells are exactly those whose timer is still running |
| Merging.WaitingAbsorbed | src/game/world.rs:291-302 | Merging two ready cells leaves the waiting cells alone |
| Merging.MergingDone | src/game/world.rs:282-310 | Merging changes only the players |
| Merging.MergeFromProperties | src/game/world.rs:287-308 | The double loop conserves mass and the floor, never grows the list, never empties it, and leaves the cells still on their timer as they were, in order |
| Merging.MergeCells | src/game/world.rs:284-308 | The `while` loops with `remove` and `continue` produce the specified merge |
| Merging.MergeAll | src/game/world.rs:283-309 | Every player's cells are merged; the key set is unchanged |
| Merging.MergingDoneProperties | src/game/world.rs:282-310 | Merging keeps the invariant and each player's total mass, never adds cells, and keeps the waiting cells |
| Upkeep.DecayedMassProperties | src/game/world.rs:315-320 | Light cells keep their mass; decay never goes below MIN_MASS, never adds mass, and otherwise takes exactly `DECAY_RATE * dt` of it |
| Upkeep.DecayedCells | src/game/world.rs:314-321 | Every cell's mass is decayed and nothing else changes |
| Upkeep.DecayDone | src/game/world.rs:312-323 | Decay changes only the players |
| Upkeep.DecayCells | src/game/world.rs:314-321 | The decay loop decays each cell |
| Upkeep.DecayAll | src/game/world.rs:313-322 | Every player's cells decay; the key set is unchanged |
| Upkeep.DecayDoneProperties | src/game/world.rs:312-323 | Decay keeps the invariant and the cell counts, and never raises a total mass |
| Upkeep.RefilledProperties | src/game/world.rs:360-370 | Topping up reaches the target once (or keeps a longer list), keeps the existing items, and appends the pool's items in order |
| Upkeep.Refill | src/game/world.rs:361-363 | The `while` loop pushes from the pool until the target is met |
| Upkeep.FoodReplenished | src/game/world.rs:360-364 | Topping up food changes only the food |
| Upkeep.VirusesReplenished | src/game/world.rs:366-370 | Topping up viruses changes only the viruses |
| Upkeep.ReplenishedProperties | src/game/world.rs:360-370 | After both top-ups there are exactly 500 pellets and 15 viruses, the old ones first, and the invariant holds |
| Upkeep.ShiftedProperties | src/game/world.rs:349-352 | Moving two cells by opposite offsets keeps the coordinate sums and touches only those two positions |
| Upkeep.Shifted | src/game/world.rs:349-352 | Shifting a pair keeps the number of cells |
| Upkeep.PushedPair | src/game/world.rs:334-353 | A pair push keeps the number of cells |
| Upkeep.PushFrom | src/game/world.rs:331-356 | The pair loops keep the number of cells |
| Upkeep.PushedApart | src/game/world.rs:327-356 | Pushing apart keeps the number of cells |
| Upkeep.PushApartDone | src/game/world.rs:325-358 | Pushing apart changes only the players |
| Upkeep.PushedPairProperties | src/game/world.rs:334-353 | One pair push keeps the coordinate sums and masses, and changes nothing when the pair does not repel |
| Upkeep.PushFromProperties | src/game/world.rs:331-356 | The pair loops keep the coordinate sums and change only positions |
| Upkeep.AllReadyNotPushed | src/game/world.rs:334 | Cells that may all merge are never pushed |
| Upkeep.PushPair | src/game/world.rs:334-353 | The pair body produces the specified push |
| Upkeep.PushApart | src/game/world.rs:327-356 | The pair loops produce the specified pushes |
| Upkeep.PushAll | src/game/world.rs:326-357 | Every player's cells are pushed apart; the key set is unchanged |
| Upkeep.PushApartDoneKeepsInv | src/game/world.rs:325-358 | Pushing apart keeps the invariant and every total mass |
| Upkeep.UpdateAllScores | src/game/world.rs:67-69 | The score loop updates every player's score |
| Upkeep.ScoresUpdated | src/game/world.rs:67-69 | Scoring changes only the players |
| Upkeep.ScoresUpdatedProperties | src/game/world.rs:67-69 | Scoring keeps the invariant and changes only scores, which never decrease and reach the floored total mass |
| Actions.Sibling | src/game/world.rs:391-395 | A split's new cell starts at its parent's centre with half its mass and a full merge timer |
| Actions.Halved | src/game/world.rs:387-389 | The splitting cell keeps half its mass and gets a full merge timer |
| Actions.SplitScan | src/game/world.rs:385-398 | The scan of the first n cells yields n kept cells |
| Actions.Siblings | src/game/world.rs:391-396 | One new cell per parent, in order, each with half its parent's mass |
| Actions.SplitScanBelow | src/game/world.rs:385-386 | Every recorded parent lies in the scanned prefix |
| Actions.SplitScanParents | src/game/world.rs:385-398 | The scan halves exactly the cells it records as parents, in increasing order; every parent had at least SPLIT_MIN_MASS |
| Actions.SplitScanRoom | src/game/world.rs:386 | Splitting never goes past 16 cells, and a heavy cell is skipped only when the room has run out |
| Actions.SplitScanMass | src/game/world.rs:385-398 | The halves and the new cells together weigh what the scanned cells weighed |
| Actions.CanSplitSplits | src/game/world.rs:377-398 | A player that can split splits at least one cell |
| Actions.SplitCellsProperties | src/game/world.rs:381-399 | A split keeps the player well formed and its total mass, and adds at least one cell |
| Actions.SplitCellsFloor | src/game/world.rs:385-399 | A split of cells at the floor or above leaves none below the floor |
| Actions.SplitDone | src/game/world.rs:372-400 | Splitting changes only the players |
| Actions.SplitPlayerCells | src/game/world.rs:381-399 | The in-place loop with its `new_cells` buffer and the final `extend` produce the specified cells |
| Actions.SplitDoneProperties | src/game/world.rs:372-400 | Splitting keeps the invariant and every other player; the splitting player keeps its total mass and gains cells when it can split; for a missing or dead player, or one that cannot split, the world is unchanged |
| Actions.FirstEjector | src/game/world.rs:414-428 | The loop with its `break` picks the first cell of at least EJECT_MIN_MASS, or none |
| Actions.Blob | src/game/world.rs:417-426 | The blob has mass EJECT_MASS and the player's colour |
| Actions.EjectFromCells | src/game/world.rs:411-429 | The loop lightens the first heavy enough cell by EJECT_MASS and throws exactly one blob, or does nothing |
| Actions.EjectFromPlayer | src/game/world.rs:402-430 | The whole action yields the specified players and blobs |
| Actions.EjectDone | src/game/world.rs:402-430 | Ejecting changes only the players and the blobs |
| Actions.EjectEffect | src/game/world.rs:411-429 | When the player can eject, exactly the first heavy enough cell loses EJECT_MASS and one blob is appended |
| Actions.EjectKeepsInv | src/game/world.rs:414-428 | Lightening a cell of at least EJECT_MIN_MASS by EJECT_MASS and appending its blob keeps the invariant |
| Actions.EjectDoneProperties | src/game/world.rs:402-430 | Ejecting keeps the invariant and every other player; when the player can eject, one blob of its colour is appended and it loses exactly EJECT_MASS; otherwise nothing changes |
| Leaderboard.InsertByScore | src/game/world.rs:439 | An insertion step adds exactly its element |
| Leaderboard.SortByScore | src/game/world.rs:439 | The sort is a permutation |
| Leaderboard.SortByScoreSorted | src/game/world.rs:439 | The sort puts out scores from high to low and is a permutation |
| Leaderboard.InsertByScoreSorted | src/game/world.rs:439 | Inserting into a list sorted from high to low keeps it sorted |
| Leaderboard.Take | src/game/world.rs:440 | `truncate(n)` keeps the first min(len, n) entries |
| Leaderboard.EntriesMembers | src/game/world.rs:433-438 | Every entry belongs to a living player, and every living player has its entry |
| Leaderboard.SortedEntryIsLiving | src/game/world.rs:433-439 | Everything the sort puts out belongs to a living player |
| Leaderboard.LeaderboardEntries | src/game/world.rs:432-442 | At most ten entries, sorted from high to low, each a living player's name and floored total mass |
| Leaderboard.LeaderboardIsTop | src/game/world.rs:432-442 | Every living player is on the board, or the board is full of entries at least as high |
| Leaderboard.LivingOnBoardOrBelow | src/game/world.rs:432-442 | A given living player is on the board, or the board is full of entries at least as high |
| Leaderboard.LeaderboardOrderIndependent | src/game/world.rs:432-442 | The sorted entries and the board's scores do not depend on the key order |
| Engine.ViewOf | src/game/engine.rs:31-38 | The view is a square centred on the player's centre, with half-size at least 800, exactly 800 iff total mass is at most STARTING_MASS |
| Engine.AnyCellInViewIff | src/game/engine.rs:46-51 | `any` finds a cell exactly when some cell's padded box overlaps the view |
| Engine.CellStates | src/game/engine.rs:57-65 | Each cell is sent as its position and radius, in order |
| Engine.VisiblePlayers | src/game/engine.rs:41-67 | The players filter never yields more players than there are keys |
| Engine.VisibleFood | src/game/engine.rs:70-79 | The food filter never yields more than the food list |
| Engine.VisibleViruses | src/game/engine.rs:82-96 | The virus filter never yields more than the virus list |
| Engine.VisiblePlayersContents | src/game/engine.rs:41-67 | The players list holds exactly the states of living players with a cell in view |
| Engine.VisibleFoodSelection | src/game/engine.rs:70-79 | The food list holds exactly the pellets strictly inside the view, in list order, once each |
| Engine.VisibleVirusesSelection | src/game/engine.rs:82-96 | The virus list holds exactly the viruses whose padded box overlaps the view, in order, with radius VIRUS_RADIUS |
| Engine.BoardEntries | src/game/engine.rs:98-102 | Leaderboard pairs become wire entries, in order |
| Engine.BuildState | src/game/engine.rs:25-110 | No snapshot for a missing or dead viewer. Otherwise a `State` whose players, food and viruses are the ones visible from the viewer's viewport, and whose leaderboard is the unfiltered board |
| Engine.BuildStatePlayers | src/game/engine.rs:41-67 | A player is shown iff it is alive with a cell in view; each shown player carries its name, skin URL and every cell |
| Engine.OneCellViewerSeesItself | src/game/engine.rs:31-67 | A living viewer with a single cell always sees itself |
| GameWorld.Initial | src/game/world.rs:17-33 | A new world has no players, no blobs, id counter 1, exactly 500 pellets and 15 viruses from the pools, and satisfies the invariant |
| GameWorld.JoinedProperties | src/game/world.rs:35-47 | Joining keeps the invariant; the new id is fresh and above every existing id; the newcomer is alive, under the given account and a palette colour, with one cell inside the spawn margin; nobody else changes |
| GameWorld.JoinAllIds | src/game/world.rs:35-37 | Ids are handed out consecutively from the counter |
| GameWorld.LeftProperties | src/game/world.rs:49-51 | Leaving keeps the invariant, drops exactly that player and keeps the counter; an absent id is a no-op |
| GameWorld.KillerName | src/game/world.rs:445-447 | The killer's name is always empty |
| GameWorld.World.constructor | src/game/world.rs:17-33 | The constructor's loops build the initial world |
| GameWorld.World.AddPlayer | src/game/world.rs:35-47 | Returns the old counter as the id, which was absent and is now present; the world becomes `Joined` |
| GameWorld.World.RemovePlayer | src/game/world.rs:49-51 | The world becomes `Left` |
| GameWorld.World.MovePlayers | src/game/world.rs:72-104 | The phase's state is `PlayersMoved` of the old state |
| GameWorld.World.MoveEjected | src/game/world.rs:106-117 | The phase's state is `BlobsMoved` of the old state |
| GameWorld.World.CheckFoodEating | src/game/world.rs:119-140 | The phase's state is `FoodEatingDone` of the old state |
| GameWorld.World.CheckEjectedEating | src/game/world.rs:142-165 | The phase's state is `BlobEatingDone` of the old state |
| GameWorld.World.CheckPlayerEating | src/game/world.rs:167-228 | The phase's state is `PlayerEatingDone` for the key order the map handed out |
| GameWorld.World.CheckVirusEating | src/game/world.rs:230-270 | The phase's state is `VirusEatingDone` of the old state |
| GameWorld.World.UpdateMergeTimers | src/game/world.rs:272-280 | The phase's state is `TimersTicked` of the old state |
| GameWorld.World.MergeCells | src/game/world.rs:282-310 | The phase's state is `MergingDone` of the old state |
| GameWorld.World.DecayMass | src/game/world.rs:312-323 | The phase's state is `DecayDone` of the old state |
| GameWorld.World.ReplenishFood | src/game/world.rs:360-364 | Food is topped up from the pool to exactly 500 |
| GameWorld.World.ReplenishViruses | src/game/world.rs:366-370 | Viruses are topped up from the pool to exactly 15 |
| GameWorld.World.PushApartOwnCells | src/game/world.rs:325-358 | The phase's state is `PushApartDone` of the old state |
| GameWorld.World.UpdateScores | src/game/world.rs:67-69 | The state becomes `ScoresUpdated` of the old state |
| GameWorld.World.Tick | src/game/world.rs:53-70 | The twelve phases and the score update, in order, give `Ticks.Tick` of the old state |
| GameWorld.World.SplitPlayer | src/game/world.rs:372-400 | The state becomes `SplitDone` |
| GameWorld.World.EjectMass | src/game/world.rs:402-430 | The state becomes `EjectDone` |
| GameWorld.World.GetLeaderboard | src/game/world.rs:432-442 | Returns the board for the map's order: at most ten living entries, sorted from high to low |
| WorldStates.KeyList | src/game/world.rs:168 | `keys().cloned().collect()` lists every key of the map exactly once |
| Ticks.TickProperties | src/game/world.rs:53-70 | A tick keeps the invariant and the players, leaves exactly 500 pellets and 15 viruses, and leaves every score at least the floored total mass |
| Ticks.TickOrderIndependent | src/game/world.rs:53-70 | A tick gives the same world for every `HashMap` iteration order |
| Ticks.KeyOrderSameKeys | src/game/world.rs:168 | Whether a list is a key order of the map depends only on the key set |
| Connection.TrimEmptyIff | src/server/ws.rs:68 | A name trims to nothing exactly when every character is whitespace |
| Connection.TrimStartEmptyIff | src/server/ws.rs:68 | `trim_start` yields nothing exactly for all-whitespace strings, and otherwise starts with a non-whitespace character |
| Connection.TrimEndEmptyIff | src/server/ws.rs:68 | `trim_end` yields nothing exactly for all-whitespace strings |
| Connection.DisplayNameProperties | src/server/ws.rs:68-72 | A blank name becomes "Unnamed"; any other name is kept untrimmed and cut to its first 20 characters; the result is 1 to 20 characters long |
| Connection.JoinOf | src/server/ws.rs:36-44 | A first frame yields a join exactly when it is a text frame that parses as `Join` |
| Connection.Open | src/server/ws.rs:36-90 | Without a `Join` first, one `Error` is sent and nothing changes; otherwise the player joins under its display name and is told its id and the world size. The account is the one its token resolved to, and none when the frame has no token |
| Connection.AppliedProperties | src/server/ws.rs:139-166 | A `Move` sets exactly that player's target; every other frame changes nothing or splits or ejects; all keep the invariant and the players |
| Connection.Apply | src/server/ws.rs:139-166 | The receive loop's body applies the frame and goes on except after a close frame or a read error |
| Connection.SendDecision | src/server/ws.rs:103-123 | An absent player ends the stream silently; a dead one gets one `Dead` with its score and an empty killer; a living one gets its snapshot |
| Connection.Close | src/server/ws.rs:176-182 | The cleanup removes the player |

## Left out

- Floating point: `f64` rounding, NaN and infinities are not modelled; arithmetic is exact over the reals. The one place where NaN decides a result is `viewport_scale` for a negative total mass (`NaN.max(1.0)` is 1), and `Players.ViewportScale` gives 1 there. The `partial_cmp(..).unwrap()` in the gain credit can only panic on NaN, so that panic is not modelled.
- `sqrt`, `cos` and `sin` are parameters. `sqrt` is constrained to be the exact square root; `cos` and `sin` are not constrained, so fragment launch velocities are arbitrary.
- Randomness: `rand::thread_rng` is not modelled. The spawn point and colour of `add_player`, and the pellets and viruses of `World::new` and the top-ups, are inputs. The spawn point must lie in the `gen_range` margin and the colour in `Players.PLAYER_COLORS`. Food and virus pools are restricted to the ranges and palettes their generators can produce.
- The player id is an unbounded `nat`, so the `u64` counter never overflows in the model.
- The virus burst's `MAX_CELLS_PER_PLAYER - len` is a `usize` subtraction. It is modelled under the invariant (at most 16 cells), where it is proved never to underflow.
- VirusPop.PoppedCellsShape: fragment velocities are stated only through the unconstrained `cos` and `sin`, not as directions.
- Movement.SteersTowardsTarget: the step is stated before the clamp; the clamped position is stated only as a fixed point of the clamp. Its length and direction are stated for a positive `dt` only, which is what the game loop passes (`1 / TICK_RATE`, src/game/engine.rs:16).
- Upkeep.PushFromProperties: the push geometry is stated as conservation of coordinate sums and masses, not as the exact offsets. The source does not clamp after pushing, and neither does the model.
- Leaderboard.SortByScoreSorted: the sort is modelled as a stable insertion sort from high to low, but its stability is not proved.
- Engine.OneCellViewerSeesItself: stated for single-cell viewers only. A viewer with several cells far apart may have no cell near its mass-weighted centre.
- Ticks.TickProperties: states that every score reaches the floored total mass after the tick, not that a score never falls across a whole tick; only the score phase changes scores, and `Upkeep.ScoresUpdatedProperties` states that it never lowers one.
- Connection: the account lookup of the session token (`validate_session`) arrives as its result, the `userId` input.
- Transport is not part of this model: the JSON encoding, the channel between the send and forward tasks, `tokio::select!` and the failure of a send.
- `game_loop`, `create_world`, `main.rs`, the HTTP API, the database and skins modules, and the static client are not part of this model.
