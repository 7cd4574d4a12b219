/** Generator: the open/closed frontier over the map and the placement loop
    of `MapManager` that fills a `dim × dim` grid so that every tile it
    places connects to each filled neighbour it touches. */
module Generator {
  import opened Arith
  import opened Tiles
  import opened Grid
  import opened Matching

  datatype Option<T> = None | Some(value: T)

  /** A tile chosen for a cell: its prefab and how many quarter turns it gets. */
  datatype TileSpawnRecord = TileSpawnRecord(tilePrefab: TileType, rotations: int)

  /** A tile instance in the map: the prefab it was made from, the quarter
      turns it was given, and the connector lists it shows. */
  datatype PlacedTile = PlacedTile(tilePrefab: TileType, rotations: int, sides: Sides)

  /** The instance made from a spawn record: the prefab turned `rotations` times. */
  function Instantiate(s: TileSpawnRecord): PlacedTile {
    PlacedTile(s.tilePrefab, s.rotations, Rotated(s.tilePrefab.sides, s.rotations))
  }

  /** A frontier entry: the index of the target cell, the tile found there (if
      any), the coordinate it was reached from and its own coordinate. */
  datatype Record = Record(index: int, to: Option<PlacedTile>, orCoord: Coord, toCoord: Coord)

  predicate Listed(list: seq<Record>, index: int) {
    exists k :: 0 <= k < |list| && list[k].index == index
  }

  /** `InList`: a linear scan for an entry with the given index. */
  method InList(list: seq<Record>, searchIndex: int) returns (found: bool)
    ensures found <==> Listed(list, searchIndex)
  {
    for i := 0 to |list|
      invariant forall k :: 0 <= k < i ==> list[k].index != searchIndex
    {
      if list[i].index == searchIndex {
        return true;
      }
    }
    return false;
  }

  /** Candidate sides `cand` fit the filled neighbour recorded in `rec`. */
  predicate Fits(cand: Sides, rec: Record) {
    match rec.to
    case None => false
    case Some(p) => CheckIfFit(cand, p.sides, Sub(rec.toCoord, rec.orCoord))
  }

  /** A placed tile's sides are fixed when it is placed, so every fit check
      against it answers what the source's first check against it answers,
      however many checks came before. */
  lemma FitsSeesPlacedOrientation(cand: Sides, rec: Record, t: TileSpawnRecord)
    requires rec.to == Some(Instantiate(t))
    ensures Fits(cand, rec) <==>
      CheckIfFit(cand, ShownAtCheckAsWritten(t.tilePrefab.sides, t.rotations, 1), Sub(rec.toCoord, rec.orCoord))
  {
  }

  /** Candidate sides `cand` fit every neighbour of the list, checked in order. */
  predicate FitsAll(cand: Sides, neighbors: seq<Record>) {
    neighbors == [] ||
    (FitsAll(cand, neighbors[..|neighbors| - 1]) && Fits(cand, neighbors[|neighbors| - 1]))
  }

  lemma {:induction false} FitsAllEvery(cand: Sides, neighbors: seq<Record>)
    ensures FitsAll(cand, neighbors) <==> forall k :: 0 <= k < |neighbors| ==> Fits(cand, neighbors[k])
  {
    if neighbors != [] {
      var init := neighbors[..|neighbors| - 1];
      FitsAllEvery(cand, init);
      assert forall k :: 0 <= k < |init| ==> init[k] == neighbors[k];
    }
  }

  /** The orientations `0..n-1` of tile `t` that fit every neighbour, in order. */
  function RotationCandidates(t: TileType, neighbors: seq<Record>, n: nat): seq<TileSpawnRecord> {
    if n == 0 then []
    else
      RotationCandidates(t, neighbors, n - 1) +
      (if FitsAll(Rotated(t.sides, n - 1), neighbors) then [TileSpawnRecord(t, n - 1)] else [])
  }

  /** The candidate list the search builds: tile by tile, and for each tile
      the orientations below its `MaxRotations` that fit every neighbour. */
  function CandidateList(ts: seq<TileType>, neighbors: seq<Record>): seq<TileSpawnRecord> {
    if ts == [] then []
    else
      var t := ts[|ts| - 1];
      CandidateList(ts[..|ts| - 1], neighbors) +
      RotationCandidates(t, neighbors, MaxRotations(t.connectorDescription))
  }

  lemma {:induction false} RotationCandidatesMembership(t: TileType, neighbors: seq<Record>, n: nat, s: TileSpawnRecord)
    ensures s in RotationCandidates(t, neighbors, n) <==>
      s.tilePrefab == t && 0 <= s.rotations < n && FitsAll(Rotated(t.sides, s.rotations), neighbors)
  {
    if n > 0 {
      RotationCandidatesMembership(t, neighbors, n - 1, s);
      var last := TileSpawnRecord(t, n - 1);
      var tail := if FitsAll(Rotated(t.sides, n - 1), neighbors) then [last] else [];
      assert RotationCandidates(t, neighbors, n) == RotationCandidates(t, neighbors, n - 1) + tail;
      assert s in tail <==> s == last && FitsAll(Rotated(t.sides, n - 1), neighbors);
    }
  }

  /** A pair is a candidate exactly when its tile is in the catalog, its
      turn count is below the tile's `MaxRotations`, and the turned tile
      fits every neighbour. */
  lemma {:induction false} CandidateListMembership(ts: seq<TileType>, neighbors: seq<Record>, s: TileSpawnRecord)
    ensures s in CandidateList(ts, neighbors) <==>
      s.tilePrefab in ts && 0 <= s.rotations < MaxRotations(s.tilePrefab.connectorDescription) &&
      FitsAll(Rotated(s.tilePrefab.sides, s.rotations), neighbors)
  {
    if ts != [] {
      var t := ts[|ts| - 1];
      CandidateListMembership(ts[..|ts| - 1], neighbors, s);
      RotationCandidatesMembership(t, neighbors, MaxRotations(t.connectorDescription), s);
      assert ts == ts[..|ts| - 1] + [t];
    }
  }

  /** The candidate list of a catalog with one more tile at the end. */
  lemma CandidateListSnoc(ts: seq<TileType>, t: TileType, neighbors: seq<Record>)
    ensures CandidateList(ts + [t], neighbors) ==
      CandidateList(ts, neighbors) + RotationCandidates(t, neighbors, MaxRotations(t.connectorDescription))
  {
    assert (ts + [t])[..|ts|] == ts;
  }

  /** A cell with no filled neighbour accepts every orientation tried. */
  lemma UnconstrainedCellAcceptsAll(ts: seq<TileType>, t: TileType, i: int)
    requires t in ts && 0 <= i < MaxRotations(t.connectorDescription)
    ensures TileSpawnRecord(t, i) in CandidateList(ts, [])
  {
    CandidateListMembership(ts, [], TileSpawnRecord(t, i));
  }

  /** No two entries of the list share an index. */
  ghost predicate Distinct(list: seq<Record>) {
    forall i, j :: 0 <= i < j < |list| ==> list[i].index != list[j].index
  }

  /** The open list's invariant: its entries are distinct cells of the grid,
      empty in `cells`, and none of them is closed. */
  ghost predicate Frontier(dim: int, cells: seq<Option<PlacedTile>>, open: seq<Record>, closed: seq<Record>) {
    |cells| == CellCount(dim) && Distinct(open) &&
    (forall k :: 0 <= k < |open| ==> 0 <= open[k].index < CellCount(dim) && cells[open[k].index].None?) &&
    (forall k :: 0 <= k < |open| ==> !Listed(closed, open[k].index))
  }

  /** A set of indices below `n` has at most `n` members. */
  lemma {:induction false} SubsetBound(a: set<int>, n: nat)
    requires forall i :: i in a ==> 0 <= i < n
    ensures |a| <= n
    decreases n
  {
    if n > 0 {
      var b := a - {n - 1};
      SubsetBound(b, n - 1);
    } else {
      assert forall i :: i !in a;
      assert a == {};
    }
  }

  /** A relation saying whether sides `t0` fit sides `t1` lying in direction `dir`. */
  type FitRelation = (Sides, Sides, Coord) -> bool

  /** A fit relation that holds between `t0` and `t1` lying in a unit
      direction exactly when it holds between `t1` and `t0` lying in the
      opposite direction. */
  ghost predicate Mutual(fit: FitRelation) {
    forall t0, t1 :: fit(t0, t1, Up) == fit(t1, t0, Down) && fit(t0, t1, Right) == fit(t1, t0, Left)
  }

  lemma MutualUnit(fit: FitRelation, t0: Sides, t1: Sides, d: Coord)
    requires Mutual(fit) && IsUnit(d)
    ensures fit(t0, t1, d) == fit(t1, t0, Neg(d))
  {
  }

  /** `CheckIfFit` is such a relation. */
  lemma CheckIfFitIsMutual()
    ensures Mutual(CheckIfFit)
  {
    forall t0, t1 ensures CheckIfFit(t0, t1, Up) == CheckIfFit(t1, t0, Down) &&
                          CheckIfFit(t0, t1, Right) == CheckIfFit(t1, t0, Left) {
      CheckIfFitMutual(t0, t1, Up);
      CheckIfFitMutual(t0, t1, Right);
    }
  }

  /** The touching pair made of cell `p` and its neighbour in direction `d`
      fits under `fit`, if both are filled and at least one of them was
      empty in `orig`. */
  ghost predicate PairFitsUnder(fit: FitRelation, dim: int, cells: seq<Option<PlacedTile>>, orig: seq<Option<PlacedTile>>,
                                p: Coord, d: Coord) {
    var q := Add(p, d);
    IsUnit(d) && InGrid(dim, p) && InGrid(dim, q) && |cells| == CellCount(dim) && |orig| == CellCount(dim) ==>
      var i, j := MapCoordToIndex(dim, p), MapCoordToIndex(dim, q);
      cells[i].Some? && cells[j].Some? && (orig[i].None? || orig[j].None?) ==>
        fit(cells[i].value.sides, cells[j].value.sides, d)
  }

  ghost predicate ConsistentUnder(fit: FitRelation, dim: int, cells: seq<Option<PlacedTile>>, orig: seq<Option<PlacedTile>>) {
    forall p, d :: PairFitsUnder(fit, dim, cells, orig, p, d)
  }

  /** Every touching pair of filled cells that was not already filled in
      `orig` on both sides connects. */
  ghost predicate Consistent(dim: int, cells: seq<Option<PlacedTile>>, orig: seq<Option<PlacedTile>>) {
    ConsistentUnder(CheckIfFit, dim, cells, orig)
  }

  /** A pair starting at the placed cell fits because `s` fits its neighbour. */
  lemma PairFromPlaced(fit: FitRelation, dim: int, cells: seq<Option<PlacedTile>>, orig: seq<Option<PlacedTile>>,
                       c: Coord, s: PlacedTile, d: Coord)
    requires dim > 0 && |cells| == CellCount(dim) && |orig| == CellCount(dim) && InGrid(dim, c)
    requires IsUnit(d) && InGrid(dim, Add(c, d)) && cells[MapCoordToIndex(dim, Add(c, d))].Some? ==>
      fit(s.sides, cells[MapCoordToIndex(dim, Add(c, d))].value.sides, d)
    ensures PairFitsUnder(fit, dim, cells[MapCoordToIndex(dim, c) := Some(s)], orig, c, d)
  {
    if IsUnit(d) && InGrid(dim, Add(c, d)) {
      UnitStepLeaves(c, d);
      IndexInjective(dim, Add(c, d), c);
    }
  }

  /** A pair ending at the placed cell fits because `s` fits its neighbour
      in the opposite direction and `fit` is mutual. */
  lemma PairIntoPlaced(fit: FitRelation, dim: int, cells: seq<Option<PlacedTile>>, orig: seq<Option<PlacedTile>>,
                       c: Coord, s: PlacedTile, p: Coord, d: Coord)
    requires dim > 0 && |cells| == CellCount(dim) && |orig| == CellCount(dim) && InGrid(dim, c) && Mutual(fit)
    requires Add(p, d) == c
    requires IsUnit(Neg(d)) && InGrid(dim, Add(c, Neg(d))) && cells[MapCoordToIndex(dim, Add(c, Neg(d)))].Some? ==>
      fit(s.sides, cells[MapCoordToIndex(dim, Add(c, Neg(d)))].value.sides, Neg(d))
    ensures PairFitsUnder(fit, dim, cells[MapCoordToIndex(dim, c) := Some(s)], orig, p, d)
  {
    if IsUnit(d) && InGrid(dim, p) {
      UnitStepLeaves(p, d);
      StepBack(p, d, c);
      IndexInjective(dim, p, c);
      var i, ci := MapCoordToIndex(dim, p), MapCoordToIndex(dim, c);
      var cells' := cells[ci := Some(s)];
      assert cells'[i] == cells[i] && cells'[ci] == Some(s);
      if cells[i].Some? {
        MutualUnit(fit, cells[i].value.sides, s.sides, d);
        assert fit(cells'[i].value.sides, cells'[ci].value.sides, d);
      }
    }
  }

  /** A pair that does not touch the placed cell is as before. */
  lemma PairAwayFromPlaced(fit: FitRelation, dim: int, cells: seq<Option<PlacedTile>>, orig: seq<Option<PlacedTile>>,
                           c: Coord, s: PlacedTile, p: Coord, d: Coord)
    requires dim > 0 && |cells| == CellCount(dim) && |orig| == CellCount(dim) && InGrid(dim, c)
    requires p != c && Add(p, d) != c
    requires PairFitsUnder(fit, dim, cells, orig, p, d)
    ensures PairFitsUnder(fit, dim, cells[MapCoordToIndex(dim, c) := Some(s)], orig, p, d)
  {
    if IsUnit(d) && InGrid(dim, p) && InGrid(dim, Add(p, d)) {
      IndexInjective(dim, p, c);
      IndexInjective(dim, Add(p, d), c);
    }
  }

  /** Placing a tile that fits every filled neighbour of its cell keeps every
      touching pair consistent, for any mutual fit relation. */
  lemma PlacementKeepsConsistentUnder(fit: FitRelation, dim: int, cells: seq<Option<PlacedTile>>, orig: seq<Option<PlacedTile>>,
                                      c: Coord, s: PlacedTile)
    requires dim > 0 && |cells| == CellCount(dim) && |orig| == CellCount(dim) && InGrid(dim, c) && Mutual(fit)
    requires ConsistentUnder(fit, dim, cells, orig)
    requires forall d :: IsUnit(d) && InGrid(dim, Add(c, d)) && cells[MapCoordToIndex(dim, Add(c, d))].Some? ==>
      fit(s.sides, cells[MapCoordToIndex(dim, Add(c, d))].value.sides, d)
    ensures ConsistentUnder(fit, dim, cells[MapCoordToIndex(dim, c) := Some(s)], orig)
  {
    var cells' := cells[MapCoordToIndex(dim, c) := Some(s)];
    forall p, d ensures PairFitsUnder(fit, dim, cells', orig, p, d) {
      if p == c {
        PairFromPlaced(fit, dim, cells, orig, c, s, d);
      } else if Add(p, d) == c {
        PairIntoPlaced(fit, dim, cells, orig, c, s, p, d);
      } else {
        PairAwayFromPlaced(fit, dim, cells, orig, c, s, p, d);
      }
    }
  }

  /** Placing a tile that fits, by `CheckIfFit`, every filled neighbour of
      its cell keeps every touching pair connected. */
  lemma PlacementKeepsConsistent(dim: int, cells: seq<Option<PlacedTile>>, orig: seq<Option<PlacedTile>>, c: Coord, s: PlacedTile)
    requires dim > 0 && |cells| == CellCount(dim) && |orig| == CellCount(dim) && InGrid(dim, c)
    requires Consistent(dim, cells, orig)
    requires forall d :: IsUnit(d) && InGrid(dim, Add(c, d)) && cells[MapCoordToIndex(dim, Add(c, d))].Some? ==>
      CheckIfFit(s.sides, cells[MapCoordToIndex(dim, Add(c, d))].value.sides, d)
    ensures Consistent(dim, cells[MapCoordToIndex(dim, c) := Some(s)], orig)
  {
    CheckIfFitIsMutual();
    PlacementKeepsConsistentUnder(CheckIfFit, dim, cells, orig, c, s);
  }

  /** The map after the seeds are written in order; a later seed on the
      same cell replaces an earlier one. */
  function PlaceSeeds(dim: int, cells: seq<Option<PlacedTile>>, seeds: seq<(Coord, PlacedTile)>): (r: seq<Option<PlacedTile>>)
    requires dim > 0 && |cells| == CellCount(dim)
    requires forall k :: 0 <= k < |seeds| ==> InGrid(dim, seeds[k].0)
    ensures |r| == |cells|
    ensures forall k :: 0 <= k < |seeds| ==> r[MapCoordToIndex(dim, seeds[k].0)].Some?
    ensures forall i :: 0 <= i < |r| && r[i] != cells[i] ==>
      exists k :: 0 <= k < |seeds| && MapCoordToIndex(dim, seeds[k].0) == i && r[i] == Some(seeds[k].1)
    decreases |seeds|
  {
    if seeds == [] then cells
    else
      var last := seeds[|seeds| - 1];
      PlaceSeeds(dim, cells, seeds[..|seeds| - 1])[MapCoordToIndex(dim, last.0) := Some(last.1)]
  }

  function EmptyMap(n: nat): seq<Option<PlacedTile>> {
    seq(n, _ => None)
  }

  /** Appending an entry lists exactly its index besides those listed before. */
  lemma ListedAppend(list: seq<Record>, r: Record, i: int)
    ensures Listed(list + [r], i) <==> Listed(list, i) || r.index == i
  {
    if Listed(list, i) {
      var k :| 0 <= k < |list| && list[k].index == i;
      assert (list + [r])[k] == list[k];
    }
    if r.index == i {
      assert (list + [r])[|list|] == r;
    }
    if Listed(list + [r], i) {
      var k :| 0 <= k < |list| + 1 && (list + [r])[k].index == i;
      if k < |list| {
        assert (list + [r])[k] == list[k];
      }
    }
  }

  /** An entry a neighbour scan of `origin` may append: a grid cell one step
      from `origin`, with its own index. The open scan (`open`) takes only
      empty cells that are not closed and records no tile; the closed scan
      takes only filled cells and records the tile found there. */
  ghost predicate ScanEntry(dim: int, cells: seq<Option<PlacedTile>>, closed: seq<Record>, origin: Coord, open: bool, r: Record) {
    IsUnit(Sub(r.toCoord, origin)) && r.orCoord == origin &&
    InGrid(dim, r.toCoord) && r.index == MapCoordToIndex(dim, r.toCoord) && 0 <= r.index < |cells| &&
    if open then r.to == None && cells[r.index].None? && !Listed(closed, r.index)
    else r.to == cells[r.index] && r.to.Some?
  }

  /** `r` is an entry the open scan of one of the `sources` may append. */
  ghost predicate OpenedFrom(dim: int, cells: seq<Option<PlacedTile>>, sources: seq<Coord>, r: Record) {
    exists h :: 0 <= h < |sources| && ScanEntry(dim, cells, [], sources[h], true, r)
  }

  /** The open scan of the last source keeps every entry opened from one of
      the sources. */
  lemma OpenedFromGrow(dim: int, cells: seq<Option<PlacedTile>>, sources: seq<Coord>, open: seq<Record>, open': seq<Record>)
    requires |sources| > 0
    requires forall k :: 0 <= k < |open| ==> OpenedFrom(dim, cells, sources[..|sources| - 1], open[k])
    requires ScanExtends(dim, cells, [], sources[|sources| - 1], true, open, open')
    ensures forall k :: 0 <= k < |open'| ==> OpenedFrom(dim, cells, sources, open'[k])
  {
    var n := |sources| - 1;
    forall k | 0 <= k < |open'| ensures OpenedFrom(dim, cells, sources, open'[k]) {
      if k < |open| {
        assert open'[k] == open'[..|open|][k];
        var h :| 0 <= h < n && ScanEntry(dim, cells, [], sources[..n][h], true, open[k]);
        assert sources[h] == sources[..n][h];
      }
    }
  }

  /** `list'` is `list` followed by scan entries, none of which repeats an
      index already in the list before it. */
  ghost predicate ScanExtends(dim: int, cells: seq<Option<PlacedTile>>, closed: seq<Record>, origin: Coord, open: bool,
                              list: seq<Record>, list': seq<Record>) {
    |list| <= |list'| && list'[..|list|] == list &&
    forall k :: |list| <= k < |list'| ==>
      ScanEntry(dim, cells, closed, origin, open, list'[k]) && !Listed(list'[..k], list'[k].index)
  }

  /** Appending one scan entry with a new index extends the list. */
  lemma ScanStep(dim: int, cells: seq<Option<PlacedTile>>, closed: seq<Record>, origin: Coord, open: bool,
                 list: seq<Record>, r: Record)
    requires ScanEntry(dim, cells, closed, origin, open, r) && !Listed(list, r.index)
    ensures ScanExtends(dim, cells, closed, origin, open, list, list + [r])
  {
    assert (list + [r])[..|list|] == list;
  }

  /** Extending an extension of `a` extends `a`. */
  lemma ScanTrans(dim: int, cells: seq<Option<PlacedTile>>, closed: seq<Record>, origin: Coord, open: bool,
                  a: seq<Record>, b: seq<Record>, c: seq<Record>)
    requires ScanExtends(dim, cells, closed, origin, open, a, b)
    requires ScanExtends(dim, cells, closed, origin, open, b, c)
    ensures ScanExtends(dim, cells, closed, origin, open, a, c)
  {
    assert c[..|a|] == c[..|b|][..|a|];
    forall k | |a| <= k < |c|
      ensures ScanEntry(dim, cells, closed, origin, open, c[k]) && !Listed(c[..k], c[k].index)
    {
      if k < |b| {
        assert c[k] == b[k];
        assert c[..k] == b[..k];
      }
    }
  }

  /** An index listed in a list is listed in every extension of it. */
  lemma ListedPrefix(a: seq<Record>, b: seq<Record>, i: int)
    requires |a| <= |b| && b[..|a|] == a && Listed(a, i)
    ensures Listed(b, i)
  {
    var k :| 0 <= k < |a| && a[k].index == i;
    assert b[k] == a[k];
  }

  /** Appending scan entries of the open scan keeps the open list's invariant. */
  lemma FrontierExtend(dim: int, cells: seq<Option<PlacedTile>>, open: seq<Record>, open': seq<Record>, closed: seq<Record>, c: Coord)
    requires Frontier(dim, cells, open, closed)
    requires ScanExtends(dim, cells, closed, c, true, open, open')
    ensures Frontier(dim, cells, open', closed)
  {
    forall k | 0 <= k < |open| ensures open'[k] == open[k] {
      assert open'[..|open|][k] == open[k];
    }
    forall i, j | 0 <= i < j < |open'| ensures open'[i].index != open'[j].index {
      if j >= |open| {
        assert open'[..j][i] == open'[i];
      }
    }
  }

  /** Moving the head of the open list to the closed list keeps the
      invariant, also when the head's own cell has just been filled. */
  lemma FrontierPop(dim: int, cells: seq<Option<PlacedTile>>, cells': seq<Option<PlacedTile>>, open: seq<Record>, closed: seq<Record>)
    requires Frontier(dim, cells, open, closed) && |open| > 0
    requires |cells'| == |cells| && forall i :: 0 <= i < |cells| && i != open[0].index ==> cells'[i] == cells[i]
    ensures Frontier(dim, cells', open[1..], closed + [open[0]])
  {
    var closed' := closed + [open[0]];
    forall k | 0 <= k < |open| - 1 ensures !Listed(closed', open[1..][k].index) {
      assert open[1..][k] == open[k + 1];
    }
  }

  /** The cells of a list of coordinates. */
  function CellsOf(dim: int, cs: seq<Coord>): set<int> {
    set k | 0 <= k < |cs| :: MapCoordToIndex(dim, cs[k])
  }

  /** Closing the head of the open list: the visited set keeps matching the
      closed list, and every index the open list held is now visited or
      still open. */
  lemma CloseFirst(open: seq<Record>, closed: seq<Record>, visited: set<int>)
    requires |open| > 0
    requires forall i :: i in visited <==> Listed(closed, i)
    ensures forall i :: i in visited + {open[0].index} <==> Listed(closed + [open[0]], i)
    ensures forall j :: Listed(open, j) ==> j in visited + {open[0].index} || Listed(open[1..], j)
  {
    forall i ensures i in visited + {open[0].index} <==> Listed(closed + [open[0]], i) {
      ListedAppend(closed, open[0], i);
    }
    forall j | Listed(open, j) ensures j in visited + {open[0].index} || Listed(open[1..], j) {
      var k :| 0 <= k < |open| && open[k].index == j;
      if k > 0 {
        assert open[1..][k - 1] == open[k];
      }
    }
  }

  /** Every in-grid neighbour of a cell in `sources` is visited, waiting in
      the open list, or was filled in `orig`. */
  ghost predicate Reached(dim: int, orig: seq<Option<PlacedTile>>, sources: set<int>, visited: set<int>, open: seq<Record>) {
    |orig| == CellCount(dim) &&
    forall c, d :: InGrid(dim, c) && MapCoordToIndex(dim, c) in sources && IsUnit(d) && InGrid(dim, Add(c, d)) ==>
      var j := MapCoordToIndex(dim, Add(c, d));
      j in visited || Listed(open, j) || orig[j].Some?
  }

  /** After an open scan of `c` has found every empty, unclosed neighbour of
      `c`, the cell of `c` joins the sources. `rest` is what was kept of
      `open` before the scan; what was dropped from it is visited. */
  lemma ReachedGrow(dim: int, orig: seq<Option<PlacedTile>>, cells: seq<Option<PlacedTile>>, sources: set<int>,
                    visited0: set<int>, visited: set<int>, open: seq<Record>, rest: seq<Record>, open': seq<Record>,
                    closed: seq<Record>, c: Coord)
    requires dim > 0 && |cells| == CellCount(dim) && InGrid(dim, c)
    requires Reached(dim, orig, sources, visited0, open) && visited0 <= visited
    requires forall j :: Listed(open, j) ==> j in visited || Listed(rest, j)
    requires |rest| <= |open'| && open'[..|rest|] == rest
    requires forall i :: Listed(closed, i) ==> i in visited
    requires forall i :: 0 <= i < |cells| && cells[i].Some? ==> orig[i].Some? || i in visited
    requires forall d :: IsUnit(d) && InGrid(dim, Add(c, d)) ==>
      var i := MapCoordToIndex(dim, Add(c, d));
      !Listed(closed, i) && cells[i].None? ==> Listed(open', i)
    ensures Reached(dim, orig, sources + {MapCoordToIndex(dim, c)}, visited, open')
  {
    forall c', d | InGrid(dim, c') && MapCoordToIndex(dim, c') in sources + {MapCoordToIndex(dim, c)} &&
                   IsUnit(d) && InGrid(dim, Add(c', d))
      ensures var j := MapCoordToIndex(dim, Add(c', d)); j in visited || Listed(open', j) || orig[j].Some?
    {
      var j := MapCoordToIndex(dim, Add(c', d));
      if MapCoordToIndex(dim, c') in sources {
        if Listed(rest, j) {
          ListedPrefix(rest, open', j);
        }
      } else {
        IndexInjective(dim, c', c);
      }
    }
  }

  /** Sides `cand` placed at cell `c` connect to every filled in-grid
      neighbour of `c` in `cells`. */
  ghost predicate FitsCell(dim: int, cells: seq<Option<PlacedTile>>, c: Coord, cand: Sides)
    requires |cells| == CellCount(dim)
  {
    forall d :: IsUnit(d) && InGrid(dim, Add(c, d)) && cells[MapCoordToIndex(dim, Add(c, d))].Some? ==>
      CheckIfFit(cand, cells[MapCoordToIndex(dim, Add(c, d))].value.sides, d)
  }

  /** No catalog prefab, in any orientation below its `MaxRotations`, fits
      the filled neighbours of cell `c`. */
  ghost predicate NoCandidate(tiles: seq<TileType>, dim: int, cells: seq<Option<PlacedTile>>, c: Coord)
    requires |cells| == CellCount(dim)
  {
    forall t, r :: t in tiles && 0 <= r < MaxRotations(t.connectorDescription) ==>
      !FitsCell(dim, cells, c, Rotated(t.sides, r))
  }

  /** Checking the entries of a complete closed scan of `c` is checking the
      filled in-grid neighbours of `c`: a tile fits every entry exactly
      when it connects to every such neighbour. */
  lemma NeighborsFit(dim: int, cells: seq<Option<PlacedTile>>, c: Coord, neighbors: seq<Record>, cand: Sides)
    requires dim > 0 && |cells| == CellCount(dim) && InGrid(dim, c)
    requires ScanExtends(dim, cells, [], c, false, [], neighbors)
    requires forall d :: IsUnit(d) && InGrid(dim, Add(c, d)) ==>
      cells[MapCoordToIndex(dim, Add(c, d))].Some? ==> Listed(neighbors, MapCoordToIndex(dim, Add(c, d)))
    ensures FitsAll(cand, neighbors) <==> FitsCell(dim, cells, c, cand)
  {
    FitsAllEvery(cand, neighbors);
    if FitsAll(cand, neighbors) {
      forall d | IsUnit(d) && InGrid(dim, Add(c, d)) && cells[MapCoordToIndex(dim, Add(c, d))].Some?
        ensures CheckIfFit(cand, cells[MapCoordToIndex(dim, Add(c, d))].value.sides, d)
      {
        var k :| 0 <= k < |neighbors| && neighbors[k].index == MapCoordToIndex(dim, Add(c, d));
        NeighborFits(dim, cells, c, d, neighbors[k], cand);
      }
    }
    if FitsCell(dim, cells, c, cand) {
      forall k | 0 <= k < |neighbors| ensures Fits(cand, neighbors[k]) {
        SubOfAdd(c, Sub(neighbors[k].toCoord, c));
        assert Add(c, Sub(neighbors[k].toCoord, c)) == neighbors[k].toCoord;
      }
    }
  }

  /** The candidate search over a complete closed scan of `c` comes back
      empty exactly when no catalog prefab, in any orientation it tries,
      fits the filled neighbours of `c`. */
  lemma NoCandidateIffEmpty(tiles: seq<TileType>, dim: int, cells: seq<Option<PlacedTile>>, c: Coord, neighbors: seq<Record>)
    requires dim > 0 && |cells| == CellCount(dim) && InGrid(dim, c)
    requires ScanExtends(dim, cells, [], c, false, [], neighbors)
    requires forall d :: IsUnit(d) && InGrid(dim, Add(c, d)) ==>
      cells[MapCoordToIndex(dim, Add(c, d))].Some? ==> Listed(neighbors, MapCoordToIndex(dim, Add(c, d)))
    ensures CandidateList(tiles, neighbors) == [] <==> NoCandidate(tiles, dim, cells, c)
  {
    if CandidateList(tiles, neighbors) == [] {
      forall t, r | t in tiles && 0 <= r < MaxRotations(t.connectorDescription)
        ensures !FitsCell(dim, cells, c, Rotated(t.sides, r))
      {
        NeighborsFit(dim, cells, c, neighbors, Rotated(t.sides, r));
        CandidateListMembership(tiles, neighbors, TileSpawnRecord(t, r));
      }
    } else {
      var rec := CandidateList(tiles, neighbors)[0];
      CandidateListMembership(tiles, neighbors, rec);
      NeighborsFit(dim, cells, c, neighbors, Rotated(rec.tilePrefab.sides, rec.rotations));
    }
  }

  /** Filling more cells only adds constraints: a cell that no prefab fits
      stays so while the tiles already placed stay where they are. */
  lemma NoCandidateStays(tiles: seq<TileType>, dim: int, cells: seq<Option<PlacedTile>>, cells': seq<Option<PlacedTile>>, c: Coord)
    requires |cells| == CellCount(dim) && |cells'| == |cells|
    requires forall i :: 0 <= i < |cells| && cells[i].Some? ==> cells'[i] == cells[i]
    requires NoCandidate(tiles, dim, cells, c)
    ensures NoCandidate(tiles, dim, cells', c)
  {
    forall t, r | t in tiles && 0 <= r < MaxRotations(t.connectorDescription)
      ensures !FitsCell(dim, cells', c, Rotated(t.sides, r))
    {
      if FitsCell(dim, cells', c, Rotated(t.sides, r)) {
        assert FitsCell(dim, cells, c, Rotated(t.sides, r));
      }
    }
  }

  /** Every visited cell that is still empty in `cells` is one no prefab fits. */
  ghost predicate EmptyOnlyWhenStuck(tiles: seq<TileType>, dim: int, cells: seq<Option<PlacedTile>>, visited: set<int>)
    requires dim > 0 && |cells| == CellCount(dim)
  {
    forall k :: 0 <= k < |cells| && k in visited && cells[k].None? ==> NoCandidate(tiles, dim, cells, CoordOf(dim, k))
  }

  /** One visit at the empty cell `i` keeps `EmptyOnlyWhenStuck`: the map
      changes at most at `i`, and `i` stays empty only when no prefab fits it. */
  lemma EmptyOnlyWhenStuckGrows(tiles: seq<TileType>, dim: int, cells: seq<Option<PlacedTile>>, cells': seq<Option<PlacedTile>>,
                                visited: set<int>, i: int)
    requires dim > 0 && |cells| == CellCount(dim) && |cells'| == |cells| && 0 <= i < |cells| && cells[i].None?
    requires forall k :: 0 <= k < |cells| && k != i ==> cells'[k] == cells[k]
    requires EmptyOnlyWhenStuck(tiles, dim, cells, visited)
    requires cells'[i].None? ==> NoCandidate(tiles, dim, cells, CoordOf(dim, i))
    ensures EmptyOnlyWhenStuck(tiles, dim, cells', visited + {i})
  {
    forall k | 0 <= k < |cells'| && k in visited + {i} && cells'[k].None?
      ensures NoCandidate(tiles, dim, cells', CoordOf(dim, k))
    {
      NoCandidateStays(tiles, dim, cells, cells', CoordOf(dim, k));
    }
  }

  /** The entry of a closed scan of `c` for the neighbour in direction `d`
      carries that neighbour's tile, so fitting the entry is fitting the
      neighbour. */
  lemma NeighborFits(dim: int, cells: seq<Option<PlacedTile>>, c: Coord, d: Coord, r: Record, cand: Sides)
    requires dim > 0 && |cells| == CellCount(dim) && InGrid(dim, c) && InGrid(dim, Add(c, d))
    requires ScanEntry(dim, cells, [], c, false, r) && r.index == MapCoordToIndex(dim, Add(c, d))
    requires Fits(cand, r)
    ensures cells[MapCoordToIndex(dim, Add(c, d))].Some?
    ensures CheckIfFit(cand, cells[MapCoordToIndex(dim, Add(c, d))].value.sides, d)
  {
    IndexInjective(dim, r.toCoord, Add(c, d));
    SubOfAdd(c, d);
  }

  /** A tile the generator may place: a catalog prefab, turned by one of
      the counts the candidate search tries, showing the turned sides. */
  ghost predicate FromCatalog(tiles: seq<TileType>, p: PlacedTile) {
    p.tilePrefab in tiles && 0 <= p.rotations < MaxRotations(p.tilePrefab.connectorDescription) &&
    p.sides == Rotated(p.tilePrefab.sides, p.rotations)
  }

  /** The generator's state: the grid dimension, the prefab catalog, the map
      of placed tiles, and the coordinates of the seed tiles under the tile
      holder. */
  class MapManager {
    const dim: int
    const tiles: seq<TileType>
    var tileMap: array<Option<PlacedTile>>
    var holder: seq<Coord>

    ghost predicate Valid()
      reads this
    {
      dim > 0 && tileMap.Length == CellCount(dim) &&
      forall k :: 0 <= k < |holder| ==> InGrid(dim, holder[k])
    }

    /** `Start`: an empty map, then either the given seed tiles written at
        their cells, or, without seeds, one arbitrary prefab unturned at (0, 0). */
    constructor (dim: int, tiles: seq<TileType>, seeds: seq<(Coord, PlacedTile)>)
      requires dim > 0 && |tiles| > 0
      requires forall k :: 0 <= k < |seeds| ==> InGrid(dim, seeds[k].0)
      ensures Valid() && fresh(tileMap) && this.dim == dim && this.tiles == tiles
      ensures seeds != [] ==>
        tileMap[..] == PlaceSeeds(dim, EmptyMap(CellCount(dim)), seeds) &&
        holder == seq(|seeds|, k requires 0 <= k < |seeds| => seeds[k].0)
      ensures seeds == [] ==>
        holder == [Coord(0, 0)] &&
        tileMap[0].Some? && FromCatalog(tiles, tileMap[0].value) && tileMap[0].value.rotations == 0 &&
        forall k :: 0 < k < tileMap.Length ==> tileMap[k].None?
    {
      this.dim := dim;
      this.tiles := tiles;
      RowsIsProduct(dim, dim);
      var m := new Option<PlacedTile>[dim * dim](_ => None);
      assert m[..] == EmptyMap(CellCount(dim));
      if seeds == [] {
        var first :| 0 <= first < |tiles|;
        m[0] := Some(Instantiate(TileSpawnRecord(tiles[first], 0)));
        holder := [Coord(0, 0)];
      } else {
        var i := 0;
        while i < |seeds|
          invariant 0 <= i <= |seeds|
          invariant m[..] == PlaceSeeds(dim, EmptyMap(CellCount(dim)), seeds[..i])
        {
          assert seeds[..i + 1][..i] == seeds[..i];
          m[MapCoordToIndex(dim, seeds[i].0)] := Some(seeds[i].1);
          i := i + 1;
        }
        assert seeds[..i] == seeds;
        holder := seq(|seeds|, k requires 0 <= k < |seeds| => seeds[k].0);
      }
      tileMap := m;
    }

    /** One neighbour check of `GetOpenNeighbors`: the cell in direction `d`
        is appended when it is in the grid, not yet open, not closed, and
        holds no tile. (The source tests only the coordinate that moves,
        which is the same test since `origin` is in the grid.) */
    method OpenNeighbor(list: seq<Record>, closed: seq<Record>, origin: Coord, d: Coord) returns (list': seq<Record>)
      requires Valid() && InGrid(dim, origin) && IsUnit(d)
      ensures var q := Add(origin, d); var i := MapCoordToIndex(dim, q);
        list' == if InGrid(dim, q) && !Listed(list, i) && !Listed(closed, i) && tileMap[i].None?
                 then list + [Record(i, None, origin, q)] else list
      ensures ScanExtends(dim, tileMap[..], closed, origin, true, list, list') && |list'| <= |list| + 1
    {
      var testCoord := Add(origin, d);
      var tempIndex := MapCoordToIndex(dim, testCoord);
      list' := list;
      assert list[..|list|] == list;
      if InGrid(dim, testCoord) {
        var inOpen := InList(list, tempIndex);
        var inClosed := InList(closed, tempIndex);
        if !inOpen && !inClosed && tileMap[tempIndex].None? {
          assert Sub(testCoord, origin) == d;
          ScanStep(dim, tileMap[..], closed, origin, true, list, Record(tempIndex, None, origin, testCoord));
          list' := list + [Record(tempIndex, None, origin, testCoord)];
        }
      }
    }

    /** `GetOpenNeighbors`: checks the neighbours of `origin` up, down, right
        and left, and appends every one that is in the grid, neither open nor
        closed, and empty in the map, each once; it appends nothing else. The
        contract says which entries are appended, not in which order. */
    method GetOpenNeighbors(list: seq<Record>, closed: seq<Record>, origin: Coord) returns (list': seq<Record>)
      requires Valid() && InGrid(dim, origin)
      ensures ScanExtends(dim, tileMap[..], closed, origin, true, list, list') && |list'| <= |list| + 4
      ensures forall d :: IsUnit(d) && InGrid(dim, Add(origin, d)) ==>
        var i := MapCoordToIndex(dim, Add(origin, d));
        !Listed(closed, i) && tileMap[i].None? ==> Listed(list', i)
    {
      var l1 := OpenNeighbor(list, closed, origin, Up);
      var l2 := OpenNeighbor(l1, closed, origin, Down);
      var l3 := OpenNeighbor(l2, closed, origin, Right);
      list' := OpenNeighbor(l3, closed, origin, Left);
      ghost var cells := tileMap[..];
      ScanTrans(dim, cells, closed, origin, true, list, l1, l2);
      ScanTrans(dim, cells, closed, origin, true, list, l2, l3);
      ScanTrans(dim, cells, closed, origin, true, list, l3, list');
      forall d | IsUnit(d) && InGrid(dim, Add(origin, d))
        ensures var i := MapCoordToIndex(dim, Add(origin, d));
          !Listed(closed, i) && tileMap[i].None? ==> Listed(list', i)
      {
        var i := MapCoordToIndex(dim, Add(origin, d));
        if !Listed(closed, i) && tileMap[i].None? {
          if d == Up {
            ListedPrefix(l1, l2, i);
            ListedPrefix(l2, l3, i);
            ListedPrefix(l3, list', i);
          } else if d == Down {
            ListedPrefix(l2, l3, i);
            ListedPrefix(l3, list', i);
          } else if d == Right {
            ListedPrefix(l3, list', i);
          }
        }
      }
    }

    /** One neighbour check of `GetClosedNeighbors`: the cell in direction
        `d` is appended, with its tile, when it is in the grid, not yet in
        the list, and holds a tile. */
    method ClosedNeighbor(list: seq<Record>, origin: Coord, d: Coord) returns (list': seq<Record>)
      requires Valid() && InGrid(dim, origin) && IsUnit(d)
      ensures var q := Add(origin, d); var i := MapCoordToIndex(dim, q);
        list' == if InGrid(dim, q) && !Listed(list, i) && tileMap[i].Some?
                 then list + [Record(i, tileMap[i], origin, q)] else list
      ensures ScanExtends(dim, tileMap[..], [], origin, false, list, list') && |list'| <= |list| + 1
    {
      var testCoord := Add(origin, d);
      var tempIndex := MapCoordToIndex(dim, testCoord);
      list' := list;
      assert list[..|list|] == list;
      if InGrid(dim, testCoord) {
        var listed := InList(list, tempIndex);
        if !listed && tileMap[tempIndex].Some? {
          assert Sub(testCoord, origin) == d;
          ScanStep(dim, tileMap[..], [], origin, false, list, Record(tempIndex, tileMap[tempIndex], origin, testCoord));
          list' := list + [Record(tempIndex, tileMap[tempIndex], origin, testCoord)];
        }
      }
    }

    /** `GetClosedNeighbors`: checks the neighbours of `origin` up, down,
        right and left, and appends every one that is in the grid, not yet
        listed and holds a tile, recording that tile and both coordinates.
        The contract says which entries are appended, not in which order. */
    method GetClosedNeighbors(list: seq<Record>, origin: Coord) returns (list': seq<Record>)
      requires Valid() && InGrid(dim, origin)
      ensures ScanExtends(dim, tileMap[..], [], origin, false, list, list') && |list'| <= |list| + 4
      ensures forall d :: IsUnit(d) && InGrid(dim, Add(origin, d)) ==>
        var i := MapCoordToIndex(dim, Add(origin, d));
        tileMap[i].Some? ==> Listed(list', i)
    {
      var l1 := ClosedNeighbor(list, origin, Up);
      var l2 := ClosedNeighbor(l1, origin, Down);
      var l3 := ClosedNeighbor(l2, origin, Right);
      list' := ClosedNeighbor(l3, origin, Left);
      ghost var cells := tileMap[..];
      ScanTrans(dim, cells, [], origin, false, list, l1, l2);
      ScanTrans(dim, cells, [], origin, false, list, l2, l3);
      ScanTrans(dim, cells, [], origin, false, list, l3, list');
      forall d | IsUnit(d) && InGrid(dim, Add(origin, d))
        ensures var i := MapCoordToIndex(dim, Add(origin, d));
          tileMap[i].Some? ==> Listed(list', i)
      {
        var i := MapCoordToIndex(dim, Add(origin, d));
        if tileMap[i].Some? {
          if d == Up {
            ListedPrefix(l1, l2, i);
            ListedPrefix(l2, l3, i);
            ListedPrefix(l3, list', i);
          } else if d == Down {
            ListedPrefix(l2, l3, i);
            ListedPrefix(l3, list', i);
          } else if d == Right {
            ListedPrefix(l3, list', i);
          }
        }
      }
    }

    /** The inner `foreach` of the candidate search: checks the neighbours in
        order and stops at the first that does not fit. With no neighbours
        the flag keeps the value it had. */
    static method CheckNeighbors(cand: Sides, neighbors: seq<Record>, fitsBefore: bool) returns (fits: bool)
      ensures fits == if neighbors == [] then fitsBefore else FitsAll(cand, neighbors)
    {
      fits := fitsBefore;
      var k := 0;
      while k < |neighbors|
        invariant 0 <= k <= |neighbors|
        invariant k == 0 ==> fits == fitsBefore
        invariant 0 < k ==> fits
        invariant FitsAll(cand, neighbors[..k])
      {
        fits := Fits(cand, neighbors[k]);
        if !fits {
          FitsAllEvery(cand, neighbors);
          return;
        }
        assert neighbors[..k + 1][..k] == neighbors[..k];
        k := k + 1;
      }
      assert neighbors[..k] == neighbors;
    }

    /** The rotation loop of the candidate search for one prefab: every
        orientation below its `MaxRotations` that fits every neighbour, in
        turn order. As in the source, one working copy of the prefab's sides
        is turned a quarter after each try; `turned` is that copy at the
        end, `MaxRotations` turns from the authored sides. */
    static method TurnCandidates(tile: TileType, neighbors: seq<Record>)
      returns (found: seq<TileSpawnRecord>, turned: Sides)
      ensures found == RotationCandidates(tile, neighbors, MaxRotations(tile.connectorDescription))
      ensures turned == Rotated(tile.sides, MaxRotations(tile.connectorDescription))
    {
      found := [];
      turned := tile.sides;
      var fits := true;
      var maxRotations := MaxRotations(tile.connectorDescription);
      for i := 0 to maxRotations
        invariant neighbors == [] ==> fits
        invariant turned == Rotated(tile.sides, i)
        invariant found == RotationCandidates(tile, neighbors, i)
      {
        fits := CheckNeighbors(turned, neighbors, fits);
        if fits {
          found := found + [TileSpawnRecord(tile, i)];
        }
        turned := RotateOnce(turned);
      }
    }

    /** The candidate search for one cell: for every prefab, every
        orientation below its `MaxRotations` that fits every neighbour is
        added, in catalog order and then turn order. */
    method Candidates(neighbors: seq<Record>) returns (available: seq<TileSpawnRecord>)
      ensures available == CandidateList(tiles, neighbors)
    {
      available := [];
      for j := 0 to |tiles|
        invariant available == CandidateList(tiles[..j], neighbors)
      {
        var found, _ := TurnCandidates(tiles[j], neighbors);
        available := available + found;
        assert tiles[..j + 1] == tiles[..j] + [tiles[j]];
        CandidateListSnoc(tiles[..j], tiles[j], neighbors);
      }
      assert tiles[..|tiles|] == tiles;
    }

    /** The body of the open-list loop for one cell: gathers the filled
        neighbours of `c`, builds the candidate list, and places an arbitrary
        candidate at `c`, or leaves the map as it is when none fits. Only the
        cell of `c` may change; it is left as it was exactly when no catalog
        prefab in any orientation tried fits the filled neighbours, and
        otherwise gets a catalog tile that connects to all of them. */
    method FillCell(c: Coord, ghost orig: seq<Option<PlacedTile>>)
      requires Valid() && InGrid(dim, c) && |orig| == tileMap.Length
      requires Consistent(dim, tileMap[..], orig)
      modifies tileMap
      ensures Valid() && Consistent(dim, tileMap[..], orig)
      ensures forall k :: 0 <= k < tileMap.Length && k != MapCoordToIndex(dim, c) ==> tileMap[k] == old(tileMap[k])
      ensures var i := MapCoordToIndex(dim, c);
        if NoCandidate(tiles, dim, old(tileMap[..]), c) then tileMap[i] == old(tileMap[i])
        else (tileMap[i].Some? && FromCatalog(tiles, tileMap[i].value) &&
              FitsCell(dim, old(tileMap[..]), c, tileMap[i].value.sides))
    {
      var neighbors := GetClosedNeighbors([], c);
      var available := Candidates(neighbors);
      NoCandidateIffEmpty(tiles, dim, tileMap[..], c, neighbors);
      if |available| == 0 {
        // The source only logs a warning; the cell stays empty.
      } else {
        var t :| 0 <= t < |available|;
        var rec := available[t];
        ghost var before := tileMap[..];
        CandidateListMembership(tiles, neighbors, rec);
        NeighborsFit(dim, before, c, neighbors, Instantiate(rec).sides);
        assert FitsCell(dim, before, c, Instantiate(rec).sides);
        PlacementKeepsConsistent(dim, before, orig, c, Instantiate(rec));
        tileMap[MapCoordToIndex(dim, c)] := Some(Instantiate(rec));
        assert tileMap[..] == before[MapCoordToIndex(dim, c) := Some(Instantiate(rec))];
      }
    }

    /** The first loop of `GenerateMap`: opens the empty neighbours of
        every seed cell, with an empty closed list. Afterwards every in-grid
        neighbour of a seed is open or filled, and every open entry is an
        empty in-grid neighbour of some seed. */
    method OpenSeedNeighbors() returns (open: seq<Record>)
      requires Valid()
      ensures Frontier(dim, tileMap[..], open, [])
      ensures Reached(dim, tileMap[..], CellsOf(dim, holder), {}, open)
      ensures forall k :: 0 <= k < |open| ==> OpenedFrom(dim, tileMap[..], holder, open[k])
    {
      ghost var orig := tileMap[..];
      open := [];
      var closed: seq<Record> := [];
      for i := 0 to |holder|
        invariant Frontier(dim, orig, open, [])
        invariant Reached(dim, orig, CellsOf(dim, holder[..i]), {}, open)
        invariant forall k :: 0 <= k < |open| ==> OpenedFrom(dim, orig, holder[..i], open[k])
      {
        var open' := GetOpenNeighbors(open, closed, holder[i]);
        OpenedFromGrow(dim, orig, holder[..i + 1], open, open');
        FrontierExtend(dim, orig, open, open', closed, holder[i]);
        ReachedGrow(dim, orig, orig, CellsOf(dim, holder[..i]), {}, {}, open, open, open', [], holder[i]);
        assert holder[..i + 1] == holder[..i] + [holder[i]];
        assert CellsOf(dim, holder[..i + 1]) == CellsOf(dim, holder[..i]) + {MapCoordToIndex(dim, holder[i])};
        open := open';
      }
      assert holder[..|holder|] == holder;
    }

    /** The state `GenerateMap` keeps between two visits, against the map
        `orig` it started from: the open list is a frontier of empty,
        unclosed cells; `visited` holds exactly the closed cells, all empty
        in `orig`; seed tiles are untouched; every new tile comes from the
        catalog at a visited cell; every touching pair with a new tile
        connects; and every neighbour of a seed or a visited cell is
        visited, open or was filled in `orig`; and a visited cell is still
        empty only when no prefab fits it. */
    ghost predicate Generating(orig: seq<Option<PlacedTile>>, open: seq<Record>, closed: seq<Record>, visited: set<int>)
      reads this, tileMap
    {
      Valid() && tileMap.Length == |orig| &&
      Frontier(dim, tileMap[..], open, closed) &&
      (forall i :: i in visited <==> Listed(closed, i)) &&
      (forall i :: i in visited ==> 0 <= i < CellCount(dim) && orig[i].None?) &&
      |visited| <= CellCount(dim) &&
      (forall k :: 0 <= k < |orig| && orig[k].Some? ==> tileMap[k] == orig[k]) &&
      (forall k :: 0 <= k < |orig| && orig[k].None? && tileMap[k].Some? ==>
        k in visited && FromCatalog(tiles, tileMap[k].value)) &&
      Consistent(dim, tileMap[..], orig) &&
      Reached(dim, orig, CellsOf(dim, holder) + visited, visited, open) &&
      EmptyOnlyWhenStuck(tiles, dim, tileMap[..], visited)
    }

    /** One turn of the open-list loop: takes the first open cell, fills it
        (or leaves it empty), closes it and opens its empty neighbours. That
        one record moves from the open list to the end of the closed list,
        the rest of the open list stays in front of the new entries, and the
        visited set grows by exactly that cell, which was not visited yet.
        The map changes at most at that cell, which was empty: it stays
        empty exactly when no prefab fits it, and otherwise gets a tile that
        connects to every filled neighbour. */
    method VisitFirst(ghost orig: seq<Option<PlacedTile>>, open: seq<Record>, closed: seq<Record>,
                      ghost visited: set<int>)
      returns (open': seq<Record>, closed': seq<Record>, ghost visited': set<int>)
      requires |open| > 0 && Generating(orig, open, closed, visited)
      modifies tileMap
      ensures Generating(orig, open', closed', visited')
      ensures closed' == closed + [open[0]]
      ensures |open| - 1 <= |open'| && open'[..|open| - 1] == open[1..]
      ensures ScanExtends(dim, tileMap[..], closed', CoordOf(dim, open[0].index), true, open[1..], open')
      ensures open[0].index !in visited && visited' == visited + {open[0].index}
      ensures old(tileMap[open[0].index]).None?
      ensures forall k :: 0 <= k < tileMap.Length && k != open[0].index ==> tileMap[k] == old(tileMap[k])
      ensures var c := CoordOf(dim, open[0].index);
        if NoCandidate(tiles, dim, old(tileMap[..]), c) then tileMap[open[0].index].None?
        else tileMap[open[0].index].Some? && FitsCell(dim, old(tileMap[..]), c, tileMap[open[0].index].value.sides)
    {
      var cur := open[0];
      var mapCoord := IndexToMapCoord(dim, cur.index);
      IndexRoundTrip(dim, cur.index);
      ghost var before := tileMap[..];
      FillCell(mapCoord, orig);
      EmptyOnlyWhenStuckGrows(tiles, dim, before, tileMap[..], visited, cur.index);
      FrontierPop(dim, before, tileMap[..], open, closed);
      SubsetBound(visited + {cur.index}, CellCount(dim));
      CloseFirst(open, closed, visited);
      closed' := closed + [cur];
      visited' := visited + {cur.index};
      open' := GetOpenNeighbors(open[1..], closed', mapCoord);
      FrontierExtend(dim, tileMap[..], open[1..], open', closed', mapCoord);
      ReachedGrow(dim, orig, tileMap[..], CellsOf(dim, holder) + visited, visited, visited', open, open[1..], open',
                  closed', mapCoord);
      assert CellsOf(dim, holder) + visited + {cur.index} == CellsOf(dim, holder) + visited';
    }

    /** `GenerateMap`: opens the empty neighbours of the seed cells, then
        repeatedly takes the first open cell, places an arbitrary candidate
        that fits all its filled neighbours (or leaves the cell empty when
        there is none), closes the cell and opens its empty neighbours.
        Seed tiles are never replaced; every tile placed comes from the
        catalog and connects to every filled neighbour; every cell is
        visited at most once; and when the open list runs dry, every
        in-grid neighbour of a seed or of a visited cell was visited or is a
        seed, so the whole empty region reachable from the seeds was tried;
        a visited cell is left empty only when no prefab in any orientation
        tried fits its filled neighbours in the final map. */
    method GenerateMap() returns (ghost visited: set<int>)
      requires Valid()
      modifies tileMap
      ensures Valid()
      ensures forall k :: 0 <= k < tileMap.Length && old(tileMap[k]).Some? ==> tileMap[k] == old(tileMap[k])
      ensures forall k :: 0 <= k < tileMap.Length && old(tileMap[k]).None? && tileMap[k].Some? ==>
        k in visited && FromCatalog(tiles, tileMap[k].value)
      ensures Consistent(dim, tileMap[..], old(tileMap[..]))
      ensures forall i :: i in visited ==> 0 <= i < CellCount(dim) && old(tileMap[i]).None?
      ensures |visited| <= CellCount(dim)
      ensures Reached(dim, old(tileMap[..]), CellsOf(dim, holder) + visited, visited, [])
      ensures forall k :: 0 <= k < tileMap.Length && k in visited && tileMap[k].None? ==>
        NoCandidate(tiles, dim, tileMap[..], CoordOf(dim, k))
    {
      ghost var orig := tileMap[..];
      var open := OpenSeedNeighbors();
      var closed: seq<Record> := [];
      visited := {};
      assert Consistent(dim, orig, orig);
      while |open| > 0
        invariant Generating(orig, open, closed, visited)
        decreases CellCount(dim) - |visited|
      {
        open, closed, visited := VisitFirst(orig, open, closed, visited);
      }
    }

  }
}
