/** Tiles: the connector alphabet, the symmetry classes of a tile, and the
    in-place quarter-turn rotation of a tile's four connector lists. */
module Tiles {
  import opened Arith

  /** A connector symbol on one side of a tile; `Invalid` is the enum's -1 value. */
  datatype Connector = Invalid | R | G | B

  /** A value of the connector-type enum field that none of its names has. */
  type UnnamedCode = code: int | code < -1 || 2 < code witness 3

  /** How a tile's connectors are arranged: INVALID (-1), EQUILAT (0),
      ISOSCEL (1), SCALENE (2), or any other value the enum field may hold. */
  datatype TileConnectorType = InvalidType | Equilat | Isoscel | Scalene | Unnamed(code: UnnamedCode)

  /** The four connector lists of one orientation of a tile. */
  datatype Sides = Sides(top: seq<Connector>, right: seq<Connector>, bottom: seq<Connector>, left: seq<Connector>)

  /** A tile prefab of the catalog: its symmetry class and its sides as authored. */
  datatype TileType = TileType(connectorDescription: TileConnectorType, sides: Sides)

  function Max0(n: int): nat { if n < 0 then 0 else n }

  /** The four side lists taken together, regardless of position. */
  function SideMultiset(s: Sides): multiset<seq<Connector>> {
    multiset{s.top, s.right, s.bottom, s.left}
  }

  /** One quarter turn: the left list moves to the top, top to right,
      right to bottom, bottom to left. */
  function RotateOnce(s: Sides): Sides {
    Sides(s.left, s.top, s.right, s.bottom)
  }

  /** The sides after `n` quarter turns, one `RotateOnce` per turn; a
      non-positive `n` turns nothing. */
  function Rotated(s: Sides, n: int): Sides
    decreases Max0(n)
  {
    if n <= 0 then s else RotateOnce(Rotated(s, n - 1))
  }

  lemma CyclicMultiset<T>(a: T, b: T, c: T, d: T)
    ensures multiset{a, b, c, d} == multiset{d, a, b, c}
  {
  }

  /** One quarter turn only moves the four lists between positions. */
  lemma RotateOnceKeepsLists(s: Sides)
    ensures SideMultiset(RotateOnce(s)) == SideMultiset(s)
  {
    CyclicMultiset(s.top, s.right, s.bottom, s.left);
  }

  /** Rotation only moves the four lists between positions. */
  lemma {:induction false} RotatedKeepsLists(s: Sides, n: int)
    ensures SideMultiset(Rotated(s, n)) == SideMultiset(s)
    decreases Max0(n)
  {
    if n > 0 {
      RotatedKeepsLists(s, n - 1);
      RotateOnceKeepsLists(Rotated(s, n - 1));
    }
  }

  lemma RotatedOne(s: Sides)
    ensures Rotated(s, 1) == Sides(s.left, s.top, s.right, s.bottom)
  {
  }

  /** Two quarter turns exchange top with bottom and left with right. */
  lemma RotatedTwo(s: Sides)
    ensures Rotated(s, 2) == Sides(s.bottom, s.left, s.top, s.right)
  {
  }

  /** Four quarter turns restore every side. */
  lemma RotatedFour(s: Sides)
    ensures Rotated(s, 4) == s
  {
  }

  /** Turning `a` times and then `b` times is turning `a + b` times, where a
      non-positive count contributes no turn. */
  lemma {:induction false} RotatedAdd(s: Sides, a: int, b: int)
    ensures Rotated(Rotated(s, a), b) == Rotated(s, Max0(a) + Max0(b))
    decreases Max0(b)
  {
    if b <= 0 {
      assert Rotated(s, Max0(a)) == Rotated(s, a);
    } else {
      RotatedAdd(s, a, b - 1);
      assert Max0(a) + Max0(b) - 1 == Max0(a) + Max0(b - 1);
    }
  }

  /** Only the turn count modulo 4 matters: `n` turns give the sides of one
      of the four orientations, picked by `n % 4`. */
  lemma {:induction false} RotatedMod4(s: Sides, n: int)
    ensures Rotated(s, n) == Rotated(s, Max0(n) % 4)
    ensures var k := Max0(n) % 4;
      Rotated(s, n) == if k == 0 then s
                       else if k == 1 then RotateOnce(s)
                       else if k == 2 then RotateOnce(RotateOnce(s))
                       else RotateOnce(RotateOnce(RotateOnce(s)))
    decreases Max0(n)
  {
    if n >= 4 {
      RotatedMod4(s, n - 4);
      RotatedAdd(s, 4, n - 4);
      RotatedFour(s);
      ModShift(n, 4);
    } else if n > 0 {
      DivModUnique(n, 4, 0, n);
    }
  }

  /** A tile component whose connector lists are reassigned in place by `Rotate`. */
  class Tile {
    var connectorDescription: TileConnectorType
    var topConnectors: seq<Connector>
    var rightConnectors: seq<Connector>
    var bottomConnectors: seq<Connector>
    var leftConnectors: seq<Connector>

    function CurrentSides(): Sides
      reads this
    {
      Sides(topConnectors, rightConnectors, bottomConnectors, leftConnectors)
    }

    constructor (t: TileType)
      ensures connectorDescription == t.connectorDescription && CurrentSides() == t.sides
    {
      connectorDescription := t.connectorDescription;
      topConnectors, rightConnectors := t.sides.top, t.sides.right;
      bottomConnectors, leftConnectors := t.sides.bottom, t.sides.left;
    }

    /** Turns the tile `n` quarter turns, one at a time through a holder list. */
    method Rotate(n: int)
      modifies this
      ensures CurrentSides() == Rotated(old(CurrentSides()), n)
      ensures n <= 0 ==> CurrentSides() == old(CurrentSides())
      ensures connectorDescription == old(connectorDescription)
    {
      var i := 0;
      while i < n
        invariant 0 <= i <= Max0(n)
        invariant CurrentSides() == Rotated(old(CurrentSides()), i)
        invariant connectorDescription == old(connectorDescription)
      {
        var holder := topConnectors;
        topConnectors := leftConnectors;
        leftConnectors := bottomConnectors;
        bottomConnectors := rightConnectors;
        rightConnectors := holder;
        i := i + 1;
      }
    }
  }
}
