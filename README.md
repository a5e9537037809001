# Frog and grape grid rules, in Dafny

This project models the rules engine of a Unity tile-matching puzzle. A board of `gridWidth × gridHeight`
cells holds stacks of coloured grapes over coloured tiles, and directional arrows in the later version.
One frog per column stands on the top row (`z = gridHeight - 1`). A clicked frog walks across the board
collecting grapes of its own colour and, in the later version, follows the arrows it meets. In the later
version, a frog that can go no further is replaced by a new frog spawned on one of the cells it visited;
in the first version it simply stops.

The repository contains two generations of this logic, and both are modelled:

- **SimpleGrid / FrogMovement** (`Assets/GridManager.cs`, `Assets/FrogMovement.cs`):
  - the board is dealt from a shuffled list of cells;
  - the cell below frog *i* gets a 3-high stack of colour *i + 1*;
  - every other cell below gets a 3-high stack whose colour id cycles 1, 2, 3, 4, 5, 1, …;
  - a frog probes its four neighbours in a fixed order and walks to the first one whose top grape matches.
- **GridManager / FrogController / Arrow** (`Assets/Scripts/GridManager.cs`, `Assets/Scripts/FrogController.cs`,
  `Assets/Scripts/ArrowDirection.cs`):
  - each shuffled cell gets either one arrow or three random grapes;
  - a frog probes the cell it faces, and an arrow anywhere in that cell is always accepted and turns the frog;
  - when that probe fails, the frog retries along each arrow on its own cell;
  - on arrival it pops the top item and records the cell in its route;
  - once stuck, it respawns a frog of its colour on a route cell, and the board logs `OnGrapeCollected` / `OnFrogSpawned` notifications.

Modules:

- `Vectors`: Unity's `Vector2Int` and the four unit directions.
- `Wrappers`: `Option`.
- `Lists`:
  - the in-place `ShuffleList`, proved to yield a permutation;
  - `List.Remove`.
- `Grids`: a `List<GameObject>[,]` modelled as a value `seq<seq<seq<T>>>` indexed `[x][z]`, with `Put` for a one-cell update and the nested position loops.
- `SimpleGridModel`, `FrogMovementModel`, `GridManagerModel`, `FrogControllerModel` and `ArrowDirectionModel`: one per modelled C# file.

The classes with mutable fields become Dafny classes whose methods reassign those fields:

- `SimpleGrid`;
- `FrogMovement`;
- `GridManager`;
- `FrogController`;
- `Arrow`.

Each method is specified against a pure function of the old state, and the promised properties are proved as lemmas about those functions:

- `Placed` and `StartLayout` for the first board, `AppendAll` and `StartLayout` for the second;
- `Collect` and `CollectedItems` for collection;
- `NextCell` and `TryMove` for the frog moves;
- `YawDirection` for the arrow table.

Randomness is a parameter:

- `picks` are the `Random.Range(i, Count)` draws of the shuffle;
- `choices` are the per-cell arrow/grape draws with their direction index or colour ids;
- `pick` is the route index chosen when a frog is finalised.

Each set of draws carries a precondition that keeps it in the range the Unity call can produce.

The model follows the code as written, including where its comments suggest otherwise:

- `FrogController` probes the cell ahead before looking at arrows on its own cell. It accepts an arrow cell ahead whatever the frog's colour.
- `OnGrapeCollected` fires only when the cell becomes empty. It does not fire on every collection.
- Collecting from an empty cell is a no-op, not an error.
- A click does not add the start cell to the route. Only an arrival does.
- A new frog faces down, `(0, -1)`, even though a comment at `Assets/Scripts/FrogController.cs:33` calls that "upward".

## Model

| member | source | states |
|---|---|---|
| Lists.ShuffleList | Assets/GridManager.cs:222-232 | the in-place swap loop (identical to Assets/Scripts/GridManager.cs:171-181) computes `Shuffled(list, picks)`, which has the same length and the same multiset as `list` |
| Lists.Shuffled | Assets/GridManager.cs:222-232 | the swap pass from index i on, each step swapping `list[i]` with the picked `list[randomIndex]`, keeps the list's length |
| Lists.ShuffledPermutation | Assets/GridManager.cs:224-230 | each swap pass keeps the multiset, so the shuffle is a permutation |
| Lists.Swap | Assets/GridManager.cs:226-229 | one pass exchanges elements i and j and leaves every other index unchanged |
| Lists.RemoveFirst | Assets/GridManager.cs:111 | `List.Remove(v)` drops one element exactly when v is in the list, and none otherwise |
| Lists.RemoveFirstCount | Assets/GridManager.cs:111 | `List.Remove` takes out exactly one copy of the value, and leaves the list unchanged when the value is absent |
| Lists.RemoveEachCount | Assets/GridManager.cs:101-113 | the `Remove` calls of the frog loop together take out one copy of each frog-neighbour cell |
| Lists.RemoveEachDistinct | Assets/GridManager.cs:101-113 | removing distinct cells from a list of distinct cells leaves exactly the cells that were not removed, still distinct |
| Grids.Put | Assets/GridManager.cs:135 | the one-cell update each `.Add` to `tileArray[x, y]` or `gridArray[x, y]` becomes: exactly that cell changes and the board keeps its shape |
| Grids.AppendAll | Assets/Scripts/GridManager.cs:60-70 | appending to cell after cell keeps the board shape |
| Grids.AppendAllAt | Assets/Scripts/GridManager.cs:60-70 | for distinct cells, a cell not in the list is unchanged, and the k-th listed cell ends with what it held plus addition k |
| Grids.EmptyLists | Assets/GridManager.cs:54-64 | the nested loops build a `w × h` board whose every cell is an empty list |
| Grids.CollectPositions | Assets/Scripts/GridManager.cs:75-82 | the nested position loop yields `RowMajor(w, rows)`: x outer, z inner |
| Grids.RowMajorCells | Assets/GridManager.cs:89-95 | the position loop enumerates each cell of `[0, w) × [0, rows)` exactly once and nothing else |
| Grids.ColumnCells | Assets/GridManager.cs:91-94 | the inner loop enumerates `(x, 0) … (x, rows - 1)` exactly once each |
| Grids.RowCells | Assets/GridManager.cs:101-113 | the frog loop's cells `(i, h - 2)` are all distinct, and cell i is `(i, h - 2)` |
| Grids.ShuffledCells | Assets/Scripts/GridManager.cs:73-84 | GetAvailablePositions as a value: the shuffled row-major cells |
| Grids.ShuffledCellsExact | Assets/Scripts/GridManager.cs:73-84 | the shuffled position list is a permutation of every cell with `z < rows`, with no duplicates |
| SimpleGridModel.Layers | Assets/GridManager.cs:127-148 | n layers, all of colour id, and only the last one active |
| SimpleGridModel.CycleId | Assets/GridManager.cs:116-121 | the colour id of the k-th remaining cell is always in 1..5 |
| SimpleGridModel.CycleIdNext | Assets/GridManager.cs:120-121 | `id++` followed by `if (id > 5) id = 1` wraps from 5 back to 1 |
| SimpleGridModel.FrogNeighbourCellsExact | Assets/GridManager.cs:101-113 | the cells below the frogs are distinct, and they are exactly row `h - 2` (none when `h < 2`) |
| SimpleGridModel.RemainingCellsExact | Assets/GridManager.cs:98-117 | after the Remove calls, the pool holds each cell with `z < h - 2` exactly once |
| SimpleGridModel.PoolMinus | Assets/GridManager.cs:101-113 | removing the frog row's neighbours from the shuffled pool leaves exactly the cells with `z < h - 2` |
| SimpleGridModel.StackAllAt | Assets/GridManager.cs:115-122 | stacking over distinct cells: the k-th cell gets a stack of id k on top, and unlisted cells are unchanged |
| SimpleGridModel.FrogNeighboursAt | Assets/GridManager.cs:101-113 | after the frog loop, cell `(x, h - 2)` holds its old content plus a 3-high stack of colour `x + 1`, and no other cell changed |
| SimpleGridModel.Placed | Assets/GridManager.cs:84-123 | the board PlaceTilesAndGrapes deals: frog-neighbour stacks, then the remaining shuffled cells; it keeps the board's shape |
| SimpleGridModel.PlacedAt | Assets/GridManager.cs:84-123 | cell by cell: frog neighbours get `x + 1`, the k-th remaining cell gets `CycleId(k)`, and the frog row is untouched |
| SimpleGridModel.PlacedOnEmpty | Assets/GridManager.cs:22-27 | starting from an empty board, every frog neighbour holds exactly the frog's colour stack, every lower cell exactly one 3-high stack of an id in 1..5, and the frog row is empty |
| SimpleGridModel.Collect | Assets/GridManager.cs:152-173 | with both lists non-empty, exactly the top grape and tile go, the rest stay, and the new tops become active; otherwise nothing changes |
| SimpleGridModel.ShowOnlyTop | Assets/GridManager.cs:213-220 | colours are kept, and exactly the last grape is active |
| SimpleGridModel.SimpleGrid.constructor | Assets/GridManager.cs:10-20 | a board of the configured size with no arrays and no frogs yet |
| SimpleGridModel.SimpleGrid.Start | Assets/GridManager.cs:22-27 | after CreateGrid, SpawnFrogs and PlaceTilesAndGrapes the frogs are at their start cells and the board has the `StartLayout` |
| SimpleGridModel.SimpleGrid.CreateGrid | Assets/GridManager.cs:52-65 | every cell of `[0, w) × [0, h)` has an empty grape list and an empty tile list |
| SimpleGridModel.SimpleGrid.SpawnFrogs | Assets/GridManager.cs:67-82 | frog i is at `(i, h - 1)` with colour id `i + 1`, and the board is unchanged |
| SimpleGridModel.SimpleGrid.PlaceTilesAndGrapes | Assets/GridManager.cs:84-123 | the grape and tile arrays become `Placed(old, …)` |
| SimpleGridModel.SimpleGrid.StackBelowFrogs | Assets/GridManager.cs:100-113 | the frog loop stacks `i + 1` below frog i and returns the pool minus those cells |
| SimpleGridModel.SimpleGrid.StackBelowFrog | Assets/GridManager.cs:107-112 | one turn of the frog loop: the cell below frog i gets a stack of id `i + 1` and leaves the pool, extending the frog-neighbour prefix by one cell |
| SimpleGridModel.SimpleGrid.StackRemaining | Assets/GridManager.cs:115-122 | the cycling loop stacks `CycleId(k)` on the k-th remaining cell |
| SimpleGridModel.SimpleGrid.StackTilesAndGrapes | Assets/GridManager.cs:125-150 | exactly `stackSize` tiles and grapes of colour id are appended to (x, y), only the top layer is active, and no other cell changes |
| SimpleGridModel.SimpleGrid.CollectGrapeAt | Assets/GridManager.cs:152-173 | the cell becomes `Collect(old grapes, old tiles)`, and no other cell or frog changes |
| SimpleGridModel.SimpleGrid.SpawnGrapeAt | Assets/GridManager.cs:175-211 | no change if the tile list is empty or a frog stands on the cell; otherwise one grape of the frog's colour is pushed and only it is visible |
| SimpleGridModel.SimpleGrid.HideAllButTopGrape | Assets/GridManager.cs:213-220 | the cell becomes `ShowOnlyTop` of itself, and the tiles are unchanged |
| FrogMovementModel.ProbeOrder | Assets/FrogMovement.cs:72-75 | the four probed cells are distinct orthogonal neighbours |
| FrogMovementModel.Matches | Assets/FrogMovement.cs:86-98 | CheckAndMoveToGrape accepts only a cell of the board, non-empty, whose top piece has the frog's colour id |
| FrogMovementModel.FirstMatch | Assets/FrogMovement.cs:72-75 | the first candidate that matches wins, no earlier candidate matches, and there is none exactly when no candidate matches |
| FrogMovementModel.NextCell | Assets/FrogMovement.cs:69-81 | a committed cell is always an adjacent cell with a matching top grape, and there is none exactly when none of the four matches |
| FrogMovementModel.FrogMovement.constructor | Assets/FrogMovement.cs:18-32 | a new frog stands still with its own cell as target |
| FrogMovementModel.FrogMovement.CheckAndMoveToSameColoredGrape | Assets/FrogMovement.cs:83-102 | accepts exactly an in-bounds, non-empty cell whose top grape has the frog's colour; it then targets that cell, and otherwise changes nothing |
| FrogMovementModel.FrogMovement.MoveToMatchingGrape | Assets/FrogMovement.cs:69-81 | targets `NextCell` when there is one, and otherwise stops with the target unchanged |
| FrogMovementModel.FrogMovement.OnFrogClicked | Assets/FrogMovement.cs:59-67 | ignored while moving; otherwise it is MoveToMatchingGrape from the frog's cell |
| FrogMovementModel.FrogMovement.Arrive | Assets/FrogMovement.cs:43-55 | the frog stands on its target, the cell is collected once, and the next move is `NextCell` on the board as collection left it |
| GridManagerModel.DirectionsAreUnit | Assets/Scripts/GridManager.cs:113 | the direction table holds exactly the four unit steps |
| GridManagerModel.GrapeLayers | Assets/Scripts/GridManager.cs:88-104 | grape i has colour id `ids[i]`, and only the top one is active |
| GridManagerModel.TileLayers | Assets/Scripts/GridManager.cs:88-104 | tile i has colour id `ids[i]`, and only the top one is active |
| GridManagerModel.ChoiceFillsCell | Assets/Scripts/GridManager.cs:57-71 | a draw fills an empty cell with one active unit arrow and no tile exactly when it is an arrow draw, and with three grapes over matching tiles exactly when it is a grape draw |
| GridManagerModel.ItemsOfAll | Assets/Scripts/GridManager.cs:60-70 | draw k's items, for every k |
| GridManagerModel.TilesOfAll | Assets/Scripts/GridManager.cs:60-70 | draw k's tiles, for every k |
| GridManagerModel.AfterCollect | Assets/Scripts/GridManager.cs:126-139 | one item fewer, the items below unchanged, and the new top active |
| GridManagerModel.CollectAfterPush | Assets/Scripts/GridManager.cs:121-139 | collecting right after a push undoes it, when the old top was active |
| GridManagerModel.CollectedItems | Assets/Scripts/GridManager.cs:126-139 | CollectGrapeAt on a non-empty cell removes one item from that cell and no other; on an empty cell the board is unchanged |
| GridManagerModel.CollectedEvents | Assets/Scripts/GridManager.cs:134-143 | exactly one `OnGrapeCollected(x, y, colour of the removed item)` when the cell held one item, and none otherwise |
| GridManagerModel.PutKeepsUnitArrows | Assets/Scripts/GridManager.cs:113-121 | writing a cell whose arrows are unit keeps every arrow on the board unit |
| GridManagerModel.CollectKeepsUnitArrows | Assets/Scripts/GridManager.cs:124-145 | collection keeps every arrow on the board unit |
| GridManagerModel.DealtAt | Assets/Scripts/GridManager.cs:57-71 | cell by cell: a cell below the frog row gets the draw of its position in the shuffled list on top, and the frog row is untouched |
| GridManagerModel.DealtOnEmpty | Assets/Scripts/GridManager.cs:26-31 | from an empty board, every cell below the frog row holds exactly one arrow or exactly three grapes (never both), and the frog row is empty |
| GridManagerModel.InitialFrogs | Assets/Scripts/GridManager.cs:48-55 | frog i spawns at `(i, h - 1)` with colour id `i + 1` |
| GridManagerModel.GridManager.constructor | Assets/Scripts/GridManager.cs:11-24 | a board of the configured size with no arrays, frogs or notifications yet |
| GridManagerModel.GridManager.Start | Assets/Scripts/GridManager.cs:26-31 | the frogs are spawned and the board has the `StartLayout`, with no notification raised |
| GridManagerModel.GridManager.InitializeGrid | Assets/Scripts/GridManager.cs:33-46 | every cell's item and tile lists are empty |
| GridManagerModel.GridManager.SpawnInitialFrogs | Assets/Scripts/GridManager.cs:48-55 | appends `InitialFrogs(w, h)` to the spawned frogs, and the board is unchanged |
| GridManagerModel.GridManager.SpawnFrog | Assets/Scripts/GridManager.cs:155-160 | appends one frog of the given colour at the cell |
| GridManagerModel.GridManager.GetAvailablePositions | Assets/Scripts/GridManager.cs:73-84 | a duplicate-free permutation of every cell with `z < h - 1`, so never a frog-row cell |
| GridManagerModel.GridManager.PlaceTilesAndGrapes | Assets/Scripts/GridManager.cs:57-71 | the k-th shuffled cell gets draw k's items and tiles appended |
| GridManagerModel.GridManager.DealCells | Assets/Scripts/GridManager.cs:60-70 | the foreach loop appends draw k to position k |
| GridManagerModel.GridManager.DealCell | Assets/Scripts/GridManager.cs:62-69 | one draw: an arrow, or a grape stack with its tiles, is appended to the cell |
| GridManagerModel.GridManager.StackTilesAndGrapes | Assets/Scripts/GridManager.cs:86-105 | appends three grapes with colours drawn from `1..tileMaterials.Length` over tiles of the same colours, only the top layer active, and no other cell changes |
| GridManagerModel.GridManager.PlaceArrow | Assets/Scripts/GridManager.cs:107-122 | pushes one active arrow pointing up, down, left or right, with no tile |
| GridManagerModel.GridManager.CollectGrapeAt | Assets/Scripts/GridManager.cs:124-145 | removes exactly the top item (grape or arrow) and activates the new top; the tiles and the other cells are unchanged; it notifies only when the cell empties; an empty cell is a no-op |
| GridManagerModel.GridManager.SpawnFrogAt | Assets/Scripts/GridManager.cs:147-153 | the cell's items are cleared and its tiles kept, a frog of the colour is spawned, and `OnFrogSpawned(x, y, colour)` fires |
| GridManagerModel.GridManager.RemoveAllGrapesAt | Assets/Scripts/GridManager.cs:162-169 | the cell's item list becomes empty, and nothing else changes |
| FrogControllerModel.FirstArrow | Assets/Scripts/FrogController.cs:121-133 | the found index holds an arrow |
| FrogControllerModel.FirstArrowMeaning | Assets/Scripts/FrogController.cs:121-133 | the foreach stops at the first arrow, and there is none exactly when the cell holds no arrow |
| FrogControllerModel.ProbeAt | Assets/Scripts/FrogController.cs:116-149 | CheckAndMoveToGrape rejects every cell off the board, and accepts a grape move only onto a top grape of the frog's colour |
| FrogControllerModel.ProbeAtMeaning | Assets/Scripts/FrogController.cs:116-149 | only in-bounds cells are accepted; an arrow verdict carries the direction of an arrow in the cell; a grape verdict means no arrow and a top of the frog's colour |
| FrogControllerModel.ProbeAtArrowAccepted | Assets/Scripts/FrogController.cs:120-133 | an arrow anywhere in a board cell makes the probe accept whatever the frog's colour, turning the frog along the cell's first arrow |
| FrogControllerModel.ProbeAtGrapeAccepted | Assets/Scripts/FrogController.cs:135-146 | a board cell with no arrow whose top grape has the frog's colour is accepted as a grape move |
| FrogControllerModel.ArrowDirs | Assets/Scripts/FrogController.cs:96-110 | the retry loop tries at most one direction per item of the current cell |
| FrogControllerModel.ArrowDirsFromArrows | Assets/Scripts/FrogController.cs:96-110 | every direction the retry loop tries is that of an arrow on the current cell |
| FrogControllerModel.FirstAccepting | Assets/Scripts/FrogController.cs:96-110 | the accepted try, when there is one, is one of the directions tried |
| FrogControllerModel.FirstAcceptingMeaning | Assets/Scripts/FrogController.cs:85-113 | the first accepted direction wins, and all earlier ones were rejected; there is none exactly when all are rejected |
| FrogControllerModel.TryMove | Assets/Scripts/FrogController.cs:85-113 | an accepted target is one step along the facing or along an arrow of the current cell; on failure the facing is the old one or an arrow's direction |
| FrogControllerModel.TryMoveAheadFirst | Assets/Scripts/FrogController.cs:87-93 | when the cell ahead accepts, the frog moves there before any arrow on its own cell is considered |
| FrogControllerModel.TriedDirsUnit | Assets/Scripts/FrogController.cs:85-113 | every direction tried is a unit step |
| FrogControllerModel.ProbeArrowUnit | Assets/Scripts/FrogController.cs:127 | an adopted arrow direction is a unit step |
| FrogControllerModel.TryMoveAccepted | Assets/Scripts/FrogController.cs:85-113 | the frog's facing stays a unit step, and an accepted target is an adjacent cell whose probe accepts |
| FrogControllerModel.TryMoveFails | Assets/Scripts/FrogController.cs:96-112 | failure happens exactly when the cell ahead and every arrow direction of the own cell are rejected, and then facing is the last arrow's direction, or unchanged when there are no arrows |
| FrogControllerModel.TryMoveViaArrow | Assets/Scripts/FrogController.cs:96-110 | the first arrow whose direction is accepted determines the move |
| FrogControllerModel.TryMoveAllRejected | Assets/Scripts/FrogController.cs:96-112 | when no tried direction is accepted, the move fails with facing equal to the last direction tried |
| FrogControllerModel.FrogController.constructor | Assets/Scripts/FrogController.cs:24-33 | a new frog faces down `(0, -1)`, has an empty route and is not moving |
| FrogControllerModel.FrogController.CheckAndMoveToGrape | Assets/Scripts/FrogController.cs:116-149 | returns true exactly when `ProbeAt` accepts. An arrow cell sets facing to the first arrow's direction; a grape cell leaves facing unchanged. On rejection (out of bounds included) no field changes |
| FrogControllerModel.FrogController.TryMoveToMatchingGrape | Assets/Scripts/FrogController.cs:85-113 | the outcome is `TryMove`: target, isMoving and facing as it computes. On failure, target and isMoving are unchanged |
| FrogControllerModel.FrogController.TurnAlongArrows | Assets/Scripts/FrogController.cs:96-112 | the arrow loop over the current cell completes `TryMove` once the cell ahead has been rejected |
| FrogControllerModel.FrogController.TurnAt | Assets/Scripts/FrogController.cs:98-109 | one pass of the arrow loop: either it completes the move `TryMove` predicts, or all directions tried so far are rejected and facing is the last of them |
| FrogControllerModel.FrogController.OnFrogClicked | Assets/Scripts/FrogController.cs:75-83 | ignored while moving. Otherwise it performs `TryMove` from the frog's cell. The route is never extended and the frog is never finalised |
| FrogControllerModel.FrogController.FinalizeMovement | Assets/Scripts/FrogController.cs:152-162 | spawns a same-coloured frog at route cell `pick` only if the route is non-empty, then destroys this frog |
| FrogControllerModel.FrogController.Arrive | Assets/Scripts/FrogController.cs:51-73 | the frog stops on its target and collects there exactly once, then appends the cell to the route; it moves on as `TryMove` on the collected board says, and finalises only when that fails |
| ArrowDirectionModel.YawDirection | Assets/Scripts/ArrowDirection.cs:16-31 | a direction exists exactly for yaw 0, 90, 180 or 270, and it is always a unit step |
| ArrowDirectionModel.YawFor | Assets/Scripts/ArrowDirection.cs:16-31 | every unit direction has a yaw in `[0, 360)` |
| ArrowDirectionModel.YawRoundTrip | Assets/Scripts/ArrowDirection.cs:16-31 | the table maps the yaw of each unit direction back to it, and no other yaw gives that direction |
| ArrowDirectionModel.UnitHasOneComponent | Assets/Scripts/ArrowDirection.cs:18-30 | a unit step has exactly one non-zero component, equal to +1 or -1 |
| ArrowDirectionModel.QuarterTurn | Assets/Scripts/ArrowDirection.cs:16-31 | turning a unit direction a quarter gives another unit direction |
| ArrowDirectionModel.YawTurnsQuarter | Assets/Scripts/ArrowDirection.cs:16-31 | 0 → left, 90 → up, 180 → right, 270 → down: each step of 90 degrees turns the direction a quarter clockwise |
| ArrowDirectionModel.Arrow.constructor | Assets/Scripts/ArrowDirection.cs:5 | the serialised `direction` field starts at `(0, 0)` |
| ArrowDirectionModel.Arrow.SetDirectionBasedOnRotation | Assets/Scripts/ArrowDirection.cs:12-32 | yaw 0 gives left, 90 up, 180 right and 270 down; any other yaw leaves `direction` unchanged |
| ArrowDirectionModel.Arrow.Start | Assets/Scripts/ArrowDirection.cs:7-10 | Start sets the table's unit direction for a quarter-turn yaw and changes nothing otherwise |

## Left out

- Unity objects:
  - rendering, materials and renderers;
  - `Instantiate`, and `FindObjectOfType`;
  - `Destroy`: a destroyed frog is only a `destroyed` flag, and grapes and tiles are list entries with a colour id and an `active` flag.
- The tile-material copy in `CollectGrapeAt` (Assets/Scripts/GridManager.cs:137-138): it changes only a renderer.
- Float world positions, heights and `squareSize`; `Vector3.MoveTowards`, `Time.deltaTime` and `Mathf.RoundToInt`:
  - positions are integer cells;
  - arrival is an explicit `Arrive` call, made once the frog has reached its target.
- `UnityEngine.Random` and `arrowSpawnChance`: the draws are parameters with range preconditions (`picks`, `choices`, `pick`), and no probabilities are modelled.
- `Quaternion.LookRotation` in `PlaceArrow`, and the later overwrite of the direction by `Arrow.Start` reading the float `eulerAngles`:
  - the board keeps the direction `PlaceArrow` chose;
  - `Arrow` takes the yaw as an exact `real` parameter.
- `SimpleGrid.Update` and the input handler: mouse raycasting. A click is a call to `OnFrogClicked`.
- The frog manager class: it only instantiates prefabs, and its `SpawnFrogAt` is empty.
- Several frogs moving in interleaved frames: each model follows one frog's run.
- `FrogController.OnGrapeCollected` and its subscription: the handler body is empty. Notifications are an appended log, `GridManager.events`.
- SimpleGridModel.SimpleGrid.SpawnGrapeAt: the frogs' current cells are a parameter. Frog transforms move independently of the board and are not part of it.
- GridManagerModel.ColorOf: the arrow prefab is assumed to carry a `ColorID`, taken to be 0. Without one, collecting an arrow throws at Assets/Scripts/GridManager.cs:129, before the item is removed at :131, and the frog's arrival (Assets/Scripts/FrogController.cs:59-63) stops after `isMoving = false`, with no route append and no finalise. The model does not capture that path.
- Out-of-range cell indices, which throw an exception in C#, are excluded by `requires In(...)` on these methods:
  - `CollectGrapeAt`, `SpawnGrapeAt`, `StackTilesAndGrapes` and `HideAllButTopGrape` (the last also requires a non-empty cell) of `SimpleGrid`;
  - `StackTilesAndGrapes`, `PlaceArrow`, `CollectGrapeAt`, `SpawnFrogAt` and `RemoveAllGrapesAt` of `GridManager`;
  - every caller passes a board cell: a shuffled position, a frog's arrived cell, a route cell, or a cell just given a grape.
- Material array bounds: the model does not check them. This includes `frogMaterials[i]` and `tileMaterials[colorID - 1]` for colour ids larger than the arrays.
- FrogControllerModel.FrogController.Arrive: the respawned frog is not given a controller of its own. Its spawn is recorded on `GridManager.frogs`.
