/** Matching: when two touching sides connect (`HasConnection`), which sides
    face each other for a given direction (`CheckIfFit`), and how many
    orientations of a tile the candidate search tries (the switch on the
    tile's connector description in `GenerateMap`). */
module Matching {
  import opened Arith
  import opened Tiles
  import opened Grid

  /** Two sides connect when R, G or B occurs on both; `Invalid` never connects. */
  function HasConnection(tileSide: seq<Connector>, other: seq<Connector>): bool {
    if R in tileSide && R in other then true
    else if G in tileSide && G in other then true
    else if B in tileSide && B in other then true
    else false
  }

  /** Connecting means sharing a connector other than `Invalid`: the lists
      overlap, which is neither equality nor containment. */
  lemma HasConnectionShares(tileSide: seq<Connector>, other: seq<Connector>)
    ensures HasConnection(tileSide, other) <==> exists c :: c != Invalid && c in tileSide && c in other
  {
    assert forall c :: c in tileSide && c != Invalid ==> c == R || c == G || c == B;
  }

  lemma HasConnectionSymmetric(a: seq<Connector>, b: seq<Connector>)
    ensures HasConnection(a, b) == HasConnection(b, a)
  {
  }

  lemma HasConnectionEmpty(a: seq<Connector>)
    ensures !HasConnection([], a) && !HasConnection(a, [])
  {
  }

  /** The side of a tile that looks in direction `dir`. */
  function Facing(s: Sides, dir: Coord): seq<Connector> {
    if dir == Up then s.top
    else if dir == Right then s.right
    else if dir == Down then s.bottom
    else if dir == Left then s.left
    else []
  }

  /** Whether a tile with sides `t0` can sit next to a tile with sides `t1`
      that lies in direction `dir` from it: the side of `t0` that looks
      towards `t1` must connect with the side of `t1` that looks back.
      `Down` and `Left` are the negated up and right vectors. A direction
      other than the four unit vectors never fits. */
  function CheckIfFit(t0: Sides, t1: Sides, dir: Coord): bool {
    if dir == Up then HasConnection(t0.top, t1.bottom)
    else if dir == Right then HasConnection(t0.right, t1.left)
    else if dir == Down then HasConnection(t0.bottom, t1.top)
    else if dir == Left then HasConnection(t0.left, t1.right)
    else false
  }

  /** The four cases of `CheckIfFit` are one rule: compare the side of `t0`
      facing `dir` with the side of `t1` facing back. */
  lemma CheckIfFitFacing(t0: Sides, t1: Sides, dir: Coord)
    ensures CheckIfFit(t0, t1, dir) <==> IsUnit(dir) && HasConnection(Facing(t0, dir), Facing(t1, Neg(dir)))
  {
  }

  /** Fitting is mutual: `t0` fits `t1` lying in `dir` exactly when `t1`
      fits `t0` lying in the opposite direction. */
  lemma CheckIfFitMutual(t0: Sides, t1: Sides, dir: Coord)
    ensures CheckIfFit(t0, t1, dir) == CheckIfFit(t1, t0, Neg(dir))
  {
    CheckIfFitFacing(t0, t1, dir);
    CheckIfFitFacing(t1, t0, Neg(dir));
    if IsUnit(dir) {
      assert Neg(Neg(dir)) == dir;
      HasConnectionSymmetric(Facing(t0, dir), Facing(t1, Neg(dir)));
    }
  }

  /** How many orientations of a tile the candidate search tries: one for
      EQUILAT, two for ISOSCEL, four for SCALENE, INVALID and any other value.
      The count always divides the rotation period 4. */
  function MaxRotations(d: TileConnectorType): (r: nat)
    ensures 1 <= r <= 4 && 4 % r == 0
  {
    match d
    case Equilat => 1
    case Isoscel => 2
    case _ => 4
  }

  /** What a connector description promises about a tile's sides: EQUILAT
      has four equal sides, ISOSCEL equal opposite sides; the other
      descriptions promise nothing. */
  predicate Describes(d: TileConnectorType, s: Sides) {
    match d
    case Equilat => s.top == s.right == s.bottom == s.left
    case Isoscel => s.top == s.bottom && s.right == s.left
    case _ => true
  }

  /** Trying only `MaxRotations` orientations loses nothing: for a tile whose
      description is accurate, every turn count gives the same sides as one
      of the counts below `MaxRotations`. */
  lemma PruningLosesNothing(d: TileConnectorType, s: Sides, n: int)
    requires Describes(d, s)
    ensures Max0(n) % MaxRotations(d) < MaxRotations(d)
    ensures Rotated(s, n) == Rotated(s, Max0(n) % MaxRotations(d))
  {
    RotatedMod4(s, n);
    match d
    case Equilat =>
      assert RotateOnce(s) == s;
    case Isoscel =>
      assert RotateOnce(RotateOnce(s)) == s;
      var m := Max0(n);
      DivModUnique(m, 2, 2 * (m / 4) + (m % 4) / 2, (m % 4) % 2);
    case _ =>
  }

  /** The candidate search turns its working copy of a prefab once per
      orientation tried, `MaxRotations` times in all. The copy ends in its
      authored orientation exactly when the description is accurate. */
  lemma RotationLoopRestores(d: TileConnectorType, s: Sides)
    ensures Rotated(s, MaxRotations(d)) == s <==> Describes(d, s)
  {
    RotatedFour(s);
  }

  /** The sides a tile shows at its `k`-th fit check as `CheckIfFit` is
      written: each check first turns the tile's own connector lists by the
      tile's rotation count `r` (its transform's angle divided by 90), so
      the turns pile up from one check to the next. Check 0 is the state
      before any check. */
  function ShownAtCheckAsWritten(authored: Sides, r: int, k: nat): Sides {
    if k == 0 then authored else Rotated(ShownAtCheckAsWritten(authored, r, k - 1), r)
  }

  /** A neighbour placed with one quarter turn is seen correctly by the
      first check and turned a second time by the next one, so the same
      candidate in the same direction first fits and then does not. */
  lemma SecondCheckTurnsAgain()
    ensures var s := Sides([R], [G], [B], [Invalid]);
      ShownAtCheckAsWritten(s, 1, 1) == Rotated(s, 1) &&
      ShownAtCheckAsWritten(s, 1, 2) != Rotated(s, 1) &&
      CheckIfFit(Sides([G], [], [], []), ShownAtCheckAsWritten(s, 1, 1), Up) &&
      !CheckIfFit(Sides([G], [], [], []), ShownAtCheckAsWritten(s, 1, 2), Up)
  {
    var s := Sides([R], [G], [B], [Invalid]);
    assert ShownAtCheckAsWritten(s, 1, 1) == Sides([Invalid], [R], [G], [B]);
    assert ShownAtCheckAsWritten(s, 1, 2) == Sides([B], [Invalid], [R], [G]);
    assert G in [G] && R !in [G] && B !in [G];
  }
}
