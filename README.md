# Wave-function-collapse tile map generator, modelled in Dafny

The system fills a `dim × dim` grid with square tiles. Each tile has four
sides, and each side carries a list of connectors (`R`, `G`, `B`, or
`INVALID`). Two tiles may touch when the sides facing each other share a
real connector.

A `MapManager` works as follows:
- It starts from seed tiles, or from one arbitrary prefab at (0, 0).
- It keeps a first-in-first-out *open list* of empty cells next to seeds or to cells already visited, and a *closed list* of cells already tried. A visit opens the empty neighbours of its cell whether or not a tile was placed there.
- For each open cell it collects the filled neighbours. It then tries every prefab in every orientation its symmetry class calls for (1, 2 or 4 quarter turns).
- It places one arbitrary candidate that connects to all of them, or leaves the cell empty when none does.
- Finally it closes the cell and opens the cell's empty neighbours.

A `Tile` turns its four connector lists a quarter at a time.

The model has four modules:

- `Tiles` (`tiles.dfy`): the connector and symmetry enums, a tile's four side lists as a value, `Rotated` as repeated quarter turns, and the class `Tile` whose `Rotate` reassigns its four list fields in place.
- `Grid` (`grid.dfy`): integer grid coordinates, the row-major index `x + y·dim` and its inverse `Index_To_MapCoord`, the latter as a loop.
- `Matching` (`matching.dfy`): `HasConnection`, the direction dispatch of `CheckIfFit`, and the rotation-count switch.
- `Generator` (`generator.dfy`): frontier records and the class `MapManager`.
  - The map is an `array` of optional placed tiles.
  - The neighbour scans append to sequences.
  - The candidate search is written as nested loops.
  - `GenerateMap` is a `while` loop over the open list.
  - Its contract says:
    - seed tiles are never replaced;
    - each cell is visited at most once, so the loop ends within `dim²` turns;
    - every placed tile is a catalog prefab in a tried orientation;
    - a visited cell is left empty only when no prefab in any orientation tried fits its filled neighbours;
    - every touching pair involving a placed tile connects;
    - every in-grid neighbour of a seed or of a visited cell ends up visited or already filled.

`arith.dfy` holds the division facts the grid and rotation proofs use.

## Model

| member | source | states |
|---|---|---|
| Tiles.RotateOnce | WaveFunctionCollapse/Assets/Scripts/Tile.cs:85-91 | one quarter turn of the four lists: left to top, top to right, right to bottom, bottom to left |
| Tiles.Rotated | WaveFunctionCollapse/Assets/Scripts/Tile.cs:82-92 | `n` quarter turns, one `RotateOnce` per turn, none for `n <= 0`; the reference function that `Tile.Rotate` is proved equal to |
| Tiles.Tile.Rotate | WaveFunctionCollapse/Assets/Scripts/Tile.cs:80-93 | after `Rotate(n)` the four lists are the old ones turned `n` quarter turns (nothing for `n <= 0`); the connector description is unchanged |
| Tiles.RotatedOne | WaveFunctionCollapse/Assets/Scripts/Tile.cs:85-91 | one turn: new top = old left, right = old top, bottom = old right, left = old bottom |
| Tiles.RotatedTwo | WaveFunctionCollapse/Assets/Scripts/Tile.cs:82-92 | two turns swap top with bottom and left with right |
| Tiles.RotatedFour | WaveFunctionCollapse/Assets/Scripts/Tile.cs:80-93 | four turns restore all four lists |
| Tiles.RotatedAdd | WaveFunctionCollapse/Assets/Scripts/Tile.cs:80-93 | turning `a` then `b` times is turning `a + b` times, non-positive counts adding nothing |
| Tiles.RotatedMod4 | WaveFunctionCollapse/Assets/Scripts/Tile.cs:80-93 | only the count modulo 4 matters, and the four orientations are given in closed form |
| Tiles.RotatedKeepsLists | WaveFunctionCollapse/Assets/Scripts/Tile.cs:80-93 | turning keeps the multiset of the four side lists |
| Grid.MapCoordToIndex | WaveFunctionCollapse/Assets/Scripts/MapManager.cs:412-415 | an in-grid coordinate maps to an index in `0 .. dim²-1` |
| Grid.IndexToMapCoord | WaveFunctionCollapse/Assets/Scripts/MapManager.cs:417-428 | the subtraction loop yields `(index % dim, index / dim)` for a non-negative index, and `(index, 0)` when `index < dim` |
| Grid.CoordRoundTrip | WaveFunctionCollapse/Assets/Scripts/MapManager.cs:412-428 | index then coordinate gives back every in-grid coordinate |
| Grid.IndexRoundTrip | WaveFunctionCollapse/Assets/Scripts/MapManager.cs:412-428 | coordinate then index gives back every index below `dim²`, through an in-grid coordinate |
| Grid.IndexInjective | WaveFunctionCollapse/Assets/Scripts/MapManager.cs:412-415 | two in-grid coordinates share an index exactly when they are equal |
| Matching.HasConnection | WaveFunctionCollapse/Assets/Scripts/MapManager.cs:234-249 | true when `R`, `G` or `B` occurs in both lists, tested in that order, else false |
| Matching.HasConnectionShares | WaveFunctionCollapse/Assets/Scripts/MapManager.cs:234-249 | two lists connect exactly when some connector other than `INVALID` occurs in both |
| Matching.HasConnectionSymmetric | WaveFunctionCollapse/Assets/Scripts/MapManager.cs:238-248 | connecting does not depend on the order of the two lists |
| Matching.HasConnectionEmpty | WaveFunctionCollapse/Assets/Scripts/MapManager.cs:238-248 | an empty list connects with nothing |
| Matching.CheckIfFit | WaveFunctionCollapse/Assets/Scripts/MapManager.cs:219-231 | the four-way dispatch on the direction (up, right, down, left) to one `HasConnection` of the facing sides, false for any other direction |
| Matching.CheckIfFitFacing | WaveFunctionCollapse/Assets/Scripts/MapManager.cs:220-231 | a fit compares the side facing `dir` with the other tile's side facing back; a non-unit direction never fits |
| Matching.CheckIfFitMutual | WaveFunctionCollapse/Assets/Scripts/MapManager.cs:220-231 | `t0` fits `t1` in direction `d` exactly when `t1` fits `t0` in direction `-d` |
| Matching.MaxRotations | WaveFunctionCollapse/Assets/Scripts/MapManager.cs:136-149 | the number of orientations tried is between 1 and 4 and divides 4 |
| Matching.PruningLosesNothing | WaveFunctionCollapse/Assets/Scripts/MapManager.cs:136-149 | for a tile its description fits, every turn count shows the same sides as one of the counts tried |
| Matching.RotationLoopRestores | WaveFunctionCollapse/Assets/Scripts/MapManager.cs:152-181 | the working copy turned once per try is back in its authored orientation after the loop exactly when the description is accurate |
| Matching.SecondCheckTurnsAgain | WaveFunctionCollapse/Assets/Scripts/MapManager.cs:215-232 | as written, a neighbour with one turn is seen correctly at its first check and wrongly at its second, so the same fit query changes its answer |
| Generator.Instantiate | WaveFunctionCollapse/Assets/Scripts/MapManager.cs:195-200 | a placed tile is its prefab turned by the record's turn count, and remembers both |
| Generator.InList | WaveFunctionCollapse/Assets/Scripts/MapManager.cs:402-409 | the scan answers true exactly when some entry has the searched index |
| Generator.FitsAllEvery | WaveFunctionCollapse/Assets/Scripts/MapManager.cs:155-162 | fitting the neighbour list means fitting each of its entries |
| Generator.RotationCandidatesMembership | WaveFunctionCollapse/Assets/Scripts/MapManager.cs:152-181 | a pair is among one prefab's candidates exactly when it is that prefab, its turn count is below the limit, and the turned sides fit every neighbour |
| Generator.CandidateListMembership | WaveFunctionCollapse/Assets/Scripts/MapManager.cs:124-182 | a pair is a candidate exactly when its prefab is in the catalog, its turn count is below its `MaxRotations`, and the turned sides fit every neighbour |
| Generator.UnconstrainedCellAcceptsAll | WaveFunctionCollapse/Assets/Scripts/MapManager.cs:152-177 | with no filled neighbour, every prefab in every orientation tried is a candidate |
| Generator.FitsSeesPlacedOrientation | WaveFunctionCollapse/Assets/Scripts/MapManager.cs:215-231 | every fit check against a placed tile gives the answer of the source's first check against it |
| Generator.CheckIfFitIsMutual | WaveFunctionCollapse/Assets/Scripts/MapManager.cs:220-231 | up/down and right/left fit checks agree with their reversed checks for all sides |
| Generator.PlacementKeepsConsistent | WaveFunctionCollapse/Assets/Scripts/MapManager.cs:192-197 | writing a tile that fits every filled neighbour keeps every touching pair involving a new tile connected |
| Generator.PlaceSeeds | WaveFunctionCollapse/Assets/Scripts/MapManager.cs:63-76 | after the seeds are written every seed cell is filled, and every changed cell holds one of the seeds placed at it |
| Generator.NeighborsFit | WaveFunctionCollapse/Assets/Scripts/MapManager.cs:119-165 | a tile fits every entry of a full closed scan exactly when it connects to every filled in-grid neighbour |
| Generator.NoCandidateIffEmpty | WaveFunctionCollapse/Assets/Scripts/MapManager.cs:119-188 | the candidate list over a full closed scan is empty exactly when no catalog prefab in any orientation tried connects to every filled neighbour |
| Generator.NoCandidateStays | WaveFunctionCollapse/Assets/Scripts/MapManager.cs:185-197 | filling more cells, without moving placed tiles, keeps a cell that no prefab fits unfittable |
| Generator.EmptyOnlyWhenStuckGrows | WaveFunctionCollapse/Assets/Scripts/MapManager.cs:113-210 | after a visit that changes at most the visited empty cell, every visited cell still empty is one no prefab fits |
| Generator.FrontierExtend | WaveFunctionCollapse/Assets/Scripts/MapManager.cs:253-327 | appending open-scan entries keeps the open list distinct, in range, empty and disjoint from the closed list |
| Generator.FrontierPop | WaveFunctionCollapse/Assets/Scripts/MapManager.cs:205-207 | moving the head to the closed list keeps that invariant even after the head's cell is filled |
| Generator.CloseFirst | WaveFunctionCollapse/Assets/Scripts/MapManager.cs:205-207 | after closing the head, the visited set still matches the closed list and nothing open is lost |
| Generator.OpenedFromGrow | WaveFunctionCollapse/Assets/Scripts/MapManager.cs:98-105 | the open scan of one more seed keeps every entry an empty in-grid neighbour of some seed |
| Generator.ReachedGrow | WaveFunctionCollapse/Assets/Scripts/MapManager.cs:205-210 | after the open scan of a visited cell, every neighbour of that cell is visited, open or already filled |
| Generator.MapManager.constructor | WaveFunctionCollapse/Assets/Scripts/MapManager.cs:48-76 | an empty `dim²` map with the seeds written in, or, without seeds, one catalog prefab unturned, showing its authored sides, at index 0; `Start`'s call to `GenerateMap` (MapManager.cs:81) is left to the caller |
| Generator.MapManager.OpenNeighbor | WaveFunctionCollapse/Assets/Scripts/MapManager.cs:260-275 | a neighbour is appended, once, exactly when it is in the grid, not open, not closed and empty |
| Generator.MapManager.GetOpenNeighbors | WaveFunctionCollapse/Assets/Scripts/MapManager.cs:253-327 | only in-grid, empty, unlisted, unclosed unit neighbours are appended, at most four, each once; every such neighbour ends up listed |
| Generator.MapManager.ClosedNeighbor | WaveFunctionCollapse/Assets/Scripts/MapManager.cs:337-351 | a neighbour is appended with its tile exactly when it is in the grid, unlisted and filled |
| Generator.MapManager.GetClosedNeighbors | WaveFunctionCollapse/Assets/Scripts/MapManager.cs:330-400 | only filled in-grid neighbours at a unit offset are appended, with their tile, at most four, each once; every filled neighbour ends up listed |
| Generator.MapManager.CheckNeighbors | WaveFunctionCollapse/Assets/Scripts/MapManager.cs:155-162 | the early-exit loop returns whether the sides fit every neighbour, or the previous flag when there are none |
| Generator.MapManager.TurnCandidates | WaveFunctionCollapse/Assets/Scripts/MapManager.cs:152-181 | the rotation loop collects exactly one prefab's fitting orientations in turn order and leaves its working copy turned `MaxRotations` times |
| Generator.MapManager.Candidates | WaveFunctionCollapse/Assets/Scripts/MapManager.cs:124-182 | the available list is the catalog-order, turn-order list of fitting candidates |
| Generator.MapManager.FillCell | WaveFunctionCollapse/Assets/Scripts/MapManager.cs:114-203 | only the current cell may change; it is left as it was exactly when no catalog prefab in any orientation tried fits its filled neighbours, and otherwise receives a catalog tile in a tried orientation that connects to all of them; all pairs with new tiles still connect |
| Generator.MapManager.OpenSeedNeighbors | WaveFunctionCollapse/Assets/Scripts/MapManager.cs:97-105 | after the seed loop the open list is a valid frontier that holds every empty in-grid neighbour of every seed and nothing else: each entry is an empty in-grid unit neighbour of some seed |
| Generator.MapManager.VisitFirst | WaveFunctionCollapse/Assets/Scripts/MapManager.cs:113-210 | one turn moves exactly the head record to the closed list, keeps the rest of the open list in front, and adds one unvisited cell; the entries after the rest of the open list are exactly an open scan of the visited cell (distinct, empty, unclosed, in-grid unit neighbours); the map changes at most at that cell, which was empty and stays empty exactly when no prefab fits it, otherwise getting a tile that fits every filled neighbour; the generator's invariant is kept |
| Generator.MapManager.GenerateMap | WaveFunctionCollapse/Assets/Scripts/MapManager.cs:92-212 | seeds kept, at most `dim²` visits of cells empty at the start, new tiles from the catalog at visited cells, every pair with a new tile connects, every neighbour of a seed or visited cell was visited or filled, and every visited cell left empty is one that no prefab in any orientation tried fits in the final map |

## Left out

- Unity scene plumbing. Seed tiles under the tile holder become a list of (coordinate, placed tile) pairs, and `holder` is their coordinates. World positions, `tileDim`, `worldToCoordCoeff`, `Instantiate`, `transform.position` and `transform.Rotate` are not modelled. A placed tile records its prefab, its turn count and the sides it shows.
- Coordinates are `Vector2` floats in the source and unbounded integers here. In `MapCoord_To_Index` (MapManager.cs:414) the sum `xCoord + yPos * dim` is float arithmetic, exact only while it stays below 2^24, that is for every cell when `dim <= 4096`. For `dim = 4097` the cell (1, 4096) rounds to the index of (0, 4096). `dim * dim` at MapManager.cs:54 also overflows a 32-bit `int` from `dim = 46341`. The model has neither limit, so `Grid.CoordRoundTrip`, `Grid.IndexRoundTrip` and `Grid.IndexInjective` hold for every `dim`, while the source's conversion is exact only up to `dim = 4096`.
- The re-rotation at the start of `CheckIfFit` reads transform angles and turns both tiles again on every call. It is modelled only in the "## Findings" pair. The rest of the model checks against each tile's placed orientation.
- The candidate loop turns the shared prefab itself with `Rotate(1)`. The model turns a working copy (`TurnCandidates` returns it) and keeps the catalog unchanged. `RotationLoopRestores` shows the prefab returns to its authored orientation exactly when its description is accurate. When it is not, the prefab is left turned, and this is not modelled. The same search then places `Instantiate(available[t].tilePrefab)` (MapManager.cs:195), which copies the already-turned lists, so the placed tile differs from `Generator.Instantiate` in the first search already. Later searches also start from the turned prefab.
- `Random.Range` is an arbitrary in-range choice (`:|`), not a distribution.
- `Debug.Log`/`LogWarning`, the empty `Update()`, the unused `Side` struct and the commented-out code in `Tile.cs` are left out.
- `Record.origin` is always null in the source and is dropped.
- A closed-scan record with no tile would make the source dereference null. `Fits` treats it as not fitting, and the closed scan never builds one.
- The constructor requires `dim > 0`, a non-empty catalog and in-grid seeds. The source behaves as follows outside these bounds, and the model does not cover it:
  - An empty catalog makes `tiles[0]` at MapManager.cs:50 throw.
  - With `dim = 0` the map is empty, so `map[0]` (MapManager.cs:61) or the first seed's `map[index]` (MapManager.cs:73) throws.
  - With `dim < 0` and no seeds, `dim * dim` is positive, and all four bound tests of the open scan (MapManager.cs:263, 280, 297, 314) fail. The open list stays empty and the run ends with the one starting tile.
  - A seed outside the grid whose index still falls in `0 .. dim²-1` lands silently in another cell (a seed at (dim, 0) fills cell (0, 1)), and its open scan starts from the outside coordinate. A seed whose index falls outside that range makes `map[index]` throw.
- The source does not say what ISOSCEL promises. `Describes` reads it as equal opposite sides, the symmetry under which two orientations suffice.
- Enum values outside the declared ones are `Unnamed(code)`, with `code` outside -1..2, and take the default branch of the switch.
- `Connector` has only its four named values. A C# `Connector` field may hold other integers. `HasConnection` tests only for `R`, `G` and `B`, so such values never connect and no result changes. `HasConnectionShares`' "a connector other than `INVALID`" means "one of `R`, `G`, `B`" only because the model has no other values.
- GetOpenNeighbors: the body checks up, down, right, left as the source does, but the contract states which entries are appended, not their order, so the first-in-first-out visiting order among one cell's new neighbours is not stated. GetClosedNeighbors is the same; there the order does not matter, because `FitsAll` is proved equal to fitting every entry.

## Findings

| source | as written | input that shows it | evidently intended | confidence | as-written member | corrected member |
|---|---|---|---|---|---|---|
| WaveFunctionCollapse/Assets/Scripts/MapManager.cs:217-218 | every `CheckIfFit` call turns the placed neighbour's connector lists again by its rotation count, so the turns pile up from one check to the next | a neighbour placed above with one quarter turn and authored sides top `R`, right `G`, bottom `B`, left `INVALID`; a candidate with top `G` fits it at the first check (bottom `G`) and not at the second (bottom `R`) | each check sees the neighbour once turned, in the orientation it was placed in | medium; not executed (holds when prefab transforms carry no rotation) | Matching.SecondCheckTurnsAgain | Generator.FitsSeesPlacedOrientation |
