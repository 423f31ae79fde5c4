/**
 * Offset-coordinate hex grid of width x height tiles, addressed by Pos(x, y).
 * The real neighbour enumeration (HexMap.GetNeighboursWithDirection) is not part
 * of this model; the generator takes any neighbour function that stays on the grid.
 */
module Grid {

  datatype Pos = Pos(x: int, y: int)

  predicate InGrid(width: int, height: int, p: Pos) {
    0 <= p.x < width && 0 <= p.y < height
  }

  /** No position occurs twice. */
  ghost predicate Distinct(s: seq<Pos>) {
    forall i, j :: 0 <= i < j < |s| ==> s[i] != s[j]
  }

  /** Distinct, stated one element at a time from the end. */
  ghost predicate NoRepeats(s: seq<Pos>) {
    s == [] || (s[|s| - 1] !in s[..|s| - 1] && NoRepeats(s[..|s| - 1]))
  }

  lemma {:induction false} NoRepeatsDistinct(s: seq<Pos>)
    requires NoRepeats(s)
    ensures Distinct(s)
  {
    if s != [] {
      var s' := s[..|s| - 1];
      NoRepeatsDistinct(s');
      forall i, j | 0 <= i < j < |s| ensures s[i] != s[j] {
        if j < |s| - 1 {
          assert s[i] == s'[i] && s[j] == s'[j];
        } else {
          assert s[i] in s';
        }
      }
    }
  }

  /** Every position of the grid. */
  function AllPositions(width: nat, height: nat): (all: set<Pos>)
    ensures forall p :: p in all <==> InGrid(width, height, p)
  {
    set x, y | 0 <= x < width && 0 <= y < height :: Pos(x, y)
  }

  /** A neighbour function never leaves the grid (the source has no null neighbours). */
  ghost predicate NeighboursInGrid(width: int, height: int, neighbours: Pos -> seq<Pos>) {
    forall p, n :: InGrid(width, height, p) && n in neighbours(p) ==> InGrid(width, height, n)
  }

  /** The six offset-coordinate candidates of p; odd rows are shifted half a tile to the right. */
  function HexCandidates(p: Pos): (c: seq<Pos>)
    ensures |c| == 6
  {
    if p.y % 2 == 1 then
      [Pos(p.x - 1, p.y), Pos(p.x + 1, p.y),
       Pos(p.x, p.y - 1), Pos(p.x + 1, p.y - 1),
       Pos(p.x, p.y + 1), Pos(p.x + 1, p.y + 1)]
    else
      [Pos(p.x - 1, p.y), Pos(p.x + 1, p.y),
       Pos(p.x - 1, p.y - 1), Pos(p.x, p.y - 1),
       Pos(p.x - 1, p.y + 1), Pos(p.x, p.y + 1)]
  }

  function KeepInGrid(width: int, height: int, c: seq<Pos>): (r: seq<Pos>)
    ensures forall n :: n in r <==> n in c && InGrid(width, height, n)
    ensures |r| <= |c|
  {
    if c == [] then []
    else (if InGrid(width, height, c[0]) then [c[0]] else []) + KeepInGrid(width, height, c[1..])
  }

  /** A concrete neighbour function: the in-grid hex neighbours of p, odd rows shifted right. */
  function OddRowNeighbours(width: int, height: int, p: Pos): (r: seq<Pos>)
    ensures |r| <= 6
    ensures forall n :: n in r ==> InGrid(width, height, n)
    ensures forall n :: n in r <==> n in HexCandidates(p) && InGrid(width, height, n)
  {
    KeepInGrid(width, height, HexCandidates(p))
  }

  function OddRowNeighbourFunction(width: int, height: int): Pos -> seq<Pos> {
    p => OddRowNeighbours(width, height, p)
  }

  lemma OddRowNeighboursStayInGrid(width: int, height: int)
    ensures NeighboursInGrid(width, height, OddRowNeighbourFunction(width, height))
  {
  }
}
