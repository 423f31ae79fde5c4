/**
 * The quota pass of SetContinents: provinces touching no outer-ring tile are
 * turned to Plain in order until MajorCountries quotas of
 * ProvincesMajorCountries provinces each are used up.
 */
module Continents {
  import opened Wrappers
  import opened Grid
  import opened Ordering
  import opened Provinces

  /** Tile terrain; the source's other terrain kinds are not part of this model. */
  datatype Terrain = Water | Plain

  datatype ContinentsError =
    | DuplicateKey     // ToDictionary met two inland provinces with one first tile
    | DivideByZero     // ProvincesMajorCountries == 0 in `++count % ProvincesMajorCountries`

  /** A grid tile is on the outer ring exactly when it is off the grid shrunk by one tile on every side. */
  function OnOuterRing(width: int, height: int, t: Pos): (b: bool)
    ensures InGrid(width, height, t) ==> (b <==> !InGrid(width - 2, height - 2, Pos(t.x - 1, t.y - 1)))
  {
    t.x == 0 || t.y == 0 || t.x == width - 1 || t.y == height - 1
  }

  predicate TouchesEdge(width: int, height: int, p: Province) {
    exists t :: t in p.tiles && OnOuterRing(width, height, t)
  }

  /** The provinces with no outer-ring tile, in their order. */
  function Inland(width: int, height: int, ps: seq<Province>): (r: seq<Province>)
    ensures |r| <= |ps|
    ensures forall p :: p in r <==> p in ps && !TouchesEdge(width, height, p)
  {
    if ps == [] then []
    else (if TouchesEdge(width, height, ps[0]) then [] else [ps[0]]) + Inland(width, height, ps[1..])
  }

  /** Two provinces of ps share their first tile. */
  predicate HasDuplicateStart(ps: seq<Province>) {
    exists i, j :: 0 <= i < j < |ps| && ps[i].tiles[0] == ps[j].tiles[0]
  }

  /**
   * `ToDictionary(p => first tile, p => p)`: adds the provinces in order and
   * fails on the first key already present; it fails exactly when two
   * provinces share a first tile, and otherwise maps each first tile to its
   * province.
   */
  function StartDictionary(ps: seq<Province>): (r: Option<map<Pos, Province>>)
    ensures r.None? <==> HasDuplicateStart(ps)
    ensures r.Some? ==> r.value.Keys == set p | p in ps :: p.tiles[0]
    ensures r.Some? ==> forall p :: p in ps ==> r.value[p.tiles[0]] == p
  {
    if ps == [] then Some(map[])
    else
      var init, p := ps[..|ps| - 1], ps[|ps| - 1];
      assert ps == init + [p];
      DuplicateSnoc(init, p);
      match StartDictionary(init)
      case None => None
      case Some(d) =>
        if p.tiles[0] in d then None else Some(d[p.tiles[0] := p])
  }

  /** Appending p adds a duplicate exactly when p's first tile is one of init's. */
  lemma DuplicateSnoc(init: seq<Province>, p: Province)
    ensures HasDuplicateStart(init + [p]) <==>
              HasDuplicateStart(init) || exists q :: q in init && q.tiles[0] == p.tiles[0]
  {
    var ps := init + [p];
    if HasDuplicateStart(init) {
      var i, j :| 0 <= i < j < |init| && init[i].tiles[0] == init[j].tiles[0];
      assert ps[i] == init[i] && ps[j] == init[j];
    }
    if q :| q in init && q.tiles[0] == p.tiles[0] {
      var i :| 0 <= i < |init| && init[i] == q;
      assert ps[i] == q && ps[|init|] == p;
    }
    if HasDuplicateStart(ps) {
      var i, j :| 0 <= i < j < |ps| && ps[i].tiles[0] == ps[j].tiles[0];
      if j < |init| {
        assert ps[i] == init[i] && ps[j] == init[j];
      } else {
        assert ps[i] in init;
      }
    }
  }

  function Abs(q: int): nat {
    if q < 0 then -q else q
  }

  /** How many inland provinces the loop converts when it does not fail. */
  function QuotaCount(n: nat, m: int, q: int): (c: nat)
    requires q != 0
    ensures c <= n
    ensures m >= 0 ==> c <= m * Abs(q)
    ensures c == n || (m >= 0 && c == m * Abs(q))
  {
    if m < 0 then n else if n <= m * Abs(q) then n else m * Abs(q)
  }

  /** The provinces set to Plain, in order, and the exception the pass ends with. */
  datatype ContinentsRun = ContinentsRun(converted: seq<Province>, error: Option<ContinentsError>)

  /**
   * What SetContinents does to `regions`. The converted provinces are an initial
   * run of the inland provinces; without an error they stop only when the inland
   * provinces or the quota `m * |q|` run out.
   */
  function ContinentsPlan(width: int, height: int, regions: seq<Province>, m: int, q: int): (run: ContinentsRun)
    ensures forall p :: p in run.converted ==> p in regions && !TouchesEdge(width, height, p)
    ensures |run.converted| <= |Inland(width, height, regions)|
    ensures run.converted == Inland(width, height, regions)[..|run.converted|]
    ensures run.error == Some(DuplicateKey) <==> HasDuplicateStart(Inland(width, height, regions))
    ensures run.error == Some(DivideByZero) <==>
              !HasDuplicateStart(Inland(width, height, regions)) && q == 0 && m != 0
              && Inland(width, height, regions) != []
    ensures run.error == Some(DivideByZero) ==> |run.converted| == 1
    ensures run.error.Some? && run.error.value.DuplicateKey? ==> run.converted == []
    ensures run.error.None? && m >= 0 ==> |run.converted| <= m * Abs(q)
    ensures run.error.None? && m != 0 ==>
              |run.converted| == |Inland(width, height, regions)| || |run.converted| == m * Abs(q)
    ensures m == 0 ==> run.converted == []
  {
    var inland := Inland(width, height, regions);
    if HasDuplicateStart(inland) then ContinentsRun([], Some(DuplicateKey))
    else if m == 0 || inland == [] then ContinentsRun([], None)
    else if q == 0 then ContinentsRun(inland[..1], Some(DivideByZero))
    else ContinentsRun(inland[..QuotaCount(|inland|, m, q)], None)
  }

  /** Position q lies in some province of ps. */
  ghost predicate Covered(ps: seq<Province>, q: Pos) {
    exists i :: 0 <= i < |ps| && q in ps[i].tiles
  }

  lemma CoveredSnoc(ps: seq<Province>, p: Province, q: Pos)
    ensures Covered(ps + [p], q) <==> Covered(ps, q) || q in p.tiles
  {
    if Covered(ps, q) {
      var i :| 0 <= i < |ps| && q in ps[i].tiles;
      assert (ps + [p])[i] == ps[i];
    }
    if q in p.tiles {
      assert (ps + [p])[|ps|] == p;
    }
    if Covered(ps + [p], q) {
      var i :| 0 <= i < |ps| + 1 && q in (ps + [p])[i].tiles;
      if i < |ps| {
        assert (ps + [p])[i] == ps[i];
      }
    }
  }

  /** For counts, Dafny's `%` by q is zero exactly when `%` by |q| is. */
  lemma ModAbs(a: nat, q: int)
    requires q != 0
    ensures a % q == a % Abs(q)
  {
    var d := Abs(q);
    var r := a % q;
    assert a == q * (a / q) + r && 0 <= r < d;
    if q < 0 {
      assert a == d * (-(a / q)) + r;
    }
    DivModUnique(a, d, if q < 0 then -(a / q) else a / q, r);
  }

  /** One more conversion raises the used-up quotas `count / |q|` exactly when `count % q` becomes 0. */
  lemma QuotaStep(i: nat, q: int)
    requires q != 0
    ensures (i + 1) / Abs(q) == i / Abs(q) + (if (i + 1) % q == 0 then 1 else 0)
  {
    var d := Abs(q);
    ModAbs(i + 1, q);
    var k, r := i / d, i % d;
    assert i == d * k + r && 0 <= r < d;
    if r + 1 == d {
      DivModUnique(i + 1, d, k + 1, 0);
    } else {
      DivModUnique(i + 1, d, k, r + 1);
    }
  }

  /** While quotas are left, the count stays below m * |q|. */
  lemma QuotaKeep(i: nat, m: int, q: int)
    requires q != 0 && m > 0 && i <= m * Abs(q) && m - i / Abs(q) != 0
    ensures i + 1 <= m * Abs(q)
  {
    if i == m * Abs(q) {
      DivModUnique(i, Abs(q), m, 0);
    }
  }

  /** When the loop stops, by running out of provinces or of quotas, it has converted QuotaCount of them. */
  lemma QuotaExit(n: nat, i: nat, m: int, q: int)
    requires q != 0 && i <= n
    requires m > 0 ==> i <= m * Abs(q)
    requires i == n || m - i / Abs(q) == 0
    requires m == 0 ==> i == 0
    ensures i == QuotaCount(n, m, q)
  {
    var d := Abs(q);
    if i != n && m != 0 {
      assert m == i / d && m > 0;
      assert i >= d * (i / d);
    }
  }

  /** The provinces before i + 1 cover what those before i do and the tiles of ps[i]. */
  lemma CoveredPrefix(ps: seq<Province>, i: nat)
    requires i < |ps|
    ensures forall q :: Covered(ps[..i + 1], q) <==> Covered(ps[..i], q) || q in ps[i].tiles
  {
    assert ps[..i + 1] == ps[..i] + [ps[i]];
    forall q ensures Covered(ps[..i + 1], q) <==> Covered(ps[..i], q) || q in ps[i].tiles {
      CoveredSnoc(ps[..i], ps[i], q);
    }
  }
}
