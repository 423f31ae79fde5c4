/**
 * The province pipeline of VoronoiGenerator: the tile ownership and terrain it
 * mutates, the flood fill, the seed loop of DetectRegions and the quota pass.
 */
module Generator {
  import opened Wrappers
  import opened Grid
  import opened Ordering
  import opened StableSort
  import opened Naming
  import opened Provinces
  import opened Continents

  class VoronoiGenerator {
    const width: nat
    const height: nat
    const majorCountries: int
    const provincesMajorCountries: int
    /** HexMap.GetNeighboursWithDirection, reduced to the neighbouring positions. */
    const neighbours: Pos -> seq<Pos>
    /** `_lines`: the rasterised Voronoi border positions. */
    const lines: set<Pos>
    /** Each tile's Province reference as a province id; -1 is null. */
    const owner: array2<int>
    /** Each tile's TileTerrainType. */
    const terrain: array2<Terrain>
    /** Provinces instantiated so far; ids below it are taken. */
    var created: nat
    /** `_regions`. */
    var regions: seq<Province>

    ghost predicate Valid()
      reads this, owner
    {
      Shape() && OwnersInRange()
    }

    /** The arrays cover the grid, neighbours stay on it, and so do the provinces' tiles. */
    ghost predicate Shape()
      reads this
    {
      && owner.Length0 == width && owner.Length1 == height
      && terrain.Length0 == width && terrain.Length1 == height
      && NeighboursInGrid(width, height, neighbours)
      && TilesInGrid(width, height, regions)
    }

    /** Every tile is unowned or owned by a province created so far. */
    ghost predicate OwnersInRange()
      reads this, owner
      requires Shape()
    {
      forall x, y :: 0 <= x < width && 0 <= y < height ==> -1 <= owner[x, y] < created
    }

    /** A fresh map: every tile Water and without a province. */
    constructor (width: nat, height: nat, neighbours: Pos -> seq<Pos>, lines: set<Pos>,
                 majorCountries: int, provincesMajorCountries: int)
      requires NeighboursInGrid(width, height, neighbours)
      ensures Valid() && fresh(owner) && fresh(terrain)
      ensures this.width == width && this.height == height && this.neighbours == neighbours
      ensures this.lines == lines && this.majorCountries == majorCountries
      ensures this.provincesMajorCountries == provincesMajorCountries
      ensures created == 0 && regions == []
      ensures forall x, y :: 0 <= x < width && 0 <= y < height ==> owner[x, y] == -1 && terrain[x, y] == Water
    {
      this.width, this.height := width, height;
      this.neighbours, this.lines := neighbours, lines;
      this.majorCountries, this.provincesMajorCountries := majorCountries, provincesMajorCountries;
      owner := new int[width, height]((x, y) => -1);
      terrain := new Terrain[width, height]((x, y) => Water);
      created, regions := 0, [];
    }

    /** The province id of the tile at q; off the grid there is no tile and so none. */
    ghost function OwnerAt(q: Pos): int
      reads owner
    {
      if 0 <= q.x < owner.Length0 && 0 <= q.y < owner.Length1 then owner[q.x, q.y] else -1
    }

    /** The owners of all grid positions, as a value. */
    ghost function OwnerMap(): (m: map<Pos, int>)
      reads owner
      ensures m.Keys == AllPositions(width, height)
      ensures forall q :: q in m ==> m[q] == OwnerAt(q)
    {
      map q | q in AllPositions(width, height) :: OwnerAt(q)
    }

    /** t is a neighbour of some non-border tile of done. */
    ghost predicate FedBy(done: seq<Pos>, t: Pos) {
      exists j :: 0 <= j < |done| && done[j] !in lines && t in neighbours(done[j])
    }

    lemma FedByGrow(done: seq<Pos>, extra: Pos, t: Pos)
      requires FedBy(done, t)
      ensures FedBy(done + [extra], t)
    {
      var j :| 0 <= j < |done| && done[j] !in lines && t in neighbours(done[j]);
      assert (done + [extra])[j] == done[j];
    }

    /**
     * The loop invariant of FillRegion over the owners o0 before the fill: the
     * province so far has no repeats and starts at start; every later tile and
     * every stacked position was unowned in o0 and neighbours an earlier non-border
     * tile; each neighbour of a non-border tile is in the province, on the stack or
     * was owned in o0.
     */
    ghost predicate FillState(o0: map<Pos, int>, start: Pos, stack: seq<Pos>, tiles: seq<Pos>) {
      && o0.Keys == AllPositions(width, height)
      && NeighboursInGrid(width, height, neighbours)
      && InGrid(width, height, start)
      && (forall s :: s in stack ==> InGrid(width, height, s))
      && (forall t :: t in tiles ==> InGrid(width, height, t))
      && NoRepeats(tiles)
      && (tiles == [] ==> stack == [start])
      && (tiles != [] ==> tiles[0] == start)
      && (tiles != [] ==> forall s :: s in stack ==> o0[s] == -1 && FedBy(tiles, s))
      && (forall k :: 0 < k < |tiles| ==> o0[tiles[k]] == -1)
      && (forall k {:trigger tiles[..k]} :: 0 < k < |tiles| ==> FedBy(tiles[..k], tiles[k]))
      && (forall t, n :: t in tiles && t !in lines && n in neighbours(t) ==>
            n in tiles || n in stack || o0[n] != -1)
    }

    /** A popped tile already in the province is skipped. */
    lemma FillSkip(o0: map<Pos, int>, start: Pos, stack: seq<Pos>, tiles: seq<Pos>, tile: Pos)
      requires FillState(o0, start, stack + [tile], tiles) && tile in tiles
      ensures FillState(o0, start, stack, tiles)
    {
      forall t, n | t in tiles && t !in lines && n in neighbours(t)
        ensures n in tiles || n in stack || o0[n] != -1
      {
        assert n in stack + [tile] ==> n == tile || n in stack;
      }
    }

    /** A popped tile not yet in the province is added; the scan pushes `pushed`. */
    lemma FillAdd(o0: map<Pos, int>, start: Pos, stack: seq<Pos>, tiles: seq<Pos>, tile: Pos,
                  pushed: seq<Pos>)
      requires FillState(o0, start, stack + [tile], tiles) && tile !in tiles
      requires tile in lines ==> pushed == []
      requires tile !in lines ==> forall n :: n in pushed <==>
                 n in neighbours(tile) && n !in tiles + [tile] && o0[n] == -1
      ensures FillState(o0, start, stack + pushed, tiles + [tile])
    {
      var tiles' := tiles + [tile];
      var stack' := stack + pushed;
      assert tile in stack + [tile];
      assert tiles'[..|tiles'| - 1] == tiles;
      assert tiles'[|tiles'| - 1] == tile;
      forall s | s in stack' ensures InGrid(width, height, s) {
        if s in pushed {
          assert s in neighbours(tile);
        } else {
          assert s in stack + [tile];
        }
      }
      assert tiles != [] ==> o0[tile] == -1 && FedBy(tiles, tile);
      forall k | 0 < k < |tiles'| ensures o0[tiles'[k]] == -1 && FedBy(tiles'[..k], tiles'[k]) {
        if k < |tiles| {
          assert tiles'[..k] == tiles[..k];
        } else {
          assert tiles'[..k] == tiles;
        }
      }
      forall s | s in stack' ensures o0[s] == -1 && FedBy(tiles', s) {
        if s in pushed {
          assert tiles'[|tiles|] == tile;
        } else {
          assert s in stack + [tile];
          if tiles == [] {
            assert false;
          }
          FedByGrow(tiles, tile, s);
        }
      }
      forall t, n | t in tiles' && t !in lines && n in neighbours(t)
        ensures n in tiles' || n in stack' || o0[n] != -1
      {
        if t == tile {
          assert InGrid(width, height, n);
        } else {
          assert t in tiles;
          assert n in stack + [tile] ==> n == tile || n in stack;
        }
      }
    }

    /**
     * tiles is what a flood fill from start makes over the owners o0 it starts
     * with: start first, no repeats, all on the grid; every later tile was
     * unowned and neighbours an earlier non-border tile; every neighbour of a
     * non-border tile is in the province or was owned already.
     */
    ghost predicate IsFill(o0: map<Pos, int>, start: Pos, tiles: seq<Pos>) {
      && o0.Keys == AllPositions(width, height)
      && NeighboursInGrid(width, height, neighbours)
      && |tiles| > 0 && tiles[0] == start
      && Distinct(tiles)
      && (forall t :: t in tiles ==> InGrid(width, height, t))
      && (forall k :: 0 < k < |tiles| ==> o0[tiles[k]] == -1)
      && (forall k {:trigger tiles[..k]} :: 0 < k < |tiles| ==> FedBy(tiles[..k], tiles[k]))
      && (forall t, n :: t in tiles && t !in lines && n in neighbours(t) ==> n in tiles || o0[n] != -1)
    }

    /** With the stack empty, the loop invariant is the fill's specification. */
    lemma FillDone(o0: map<Pos, int>, start: Pos, tiles: seq<Pos>)
      requires FillState(o0, start, [], tiles)
      ensures IsFill(o0, start, tiles)
    {
      NoRepeatsDistinct(tiles);
    }

    /** The owners are those of o0 with every tile of tiles given to province id. */
    ghost predicate OwnersAfterFill(o0: map<Pos, int>, id: nat, tiles: seq<Pos>)
      reads owner
    {
      forall q :: q in o0 ==> OwnerAt(q) == if q in tiles then id else o0[q]
    }

    /** The positions of ns in o0 that are unowned there and not yet taken, in order. */
    ghost function FreshNeighbours(o0: map<Pos, int>, taken: seq<Pos>, ns: seq<Pos>): (r: seq<Pos>)
      ensures forall n :: n in r <==> n in ns && n in o0 && n !in taken && o0[n] == -1
    {
      if ns == [] then []
      else (if ns[0] in o0 && ns[0] !in taken && o0[ns[0]] == -1 then [ns[0]] else [])
           + FreshNeighbours(o0, taken, ns[1..])
    }

    /**
     * Reference depth-first fill over the owners o0 it starts with: pop the last
     * position; skip it when already taken; otherwise take it and, unless it is
     * on a border line, push its neighbours that are neither owned in o0 nor
     * taken, in neighbour order. The result is the tiles in the order taken.
     */
    ghost function Flood(o0: map<Pos, int>, stack: seq<Pos>, tiles: seq<Pos>): seq<Pos>
      requires forall s :: s in stack ==> s in o0
      decreases o0.Keys - (set t | t in tiles), |stack|
    {
      if stack == [] then tiles
      else
        var tile, rest := stack[|stack| - 1], stack[..|stack| - 1];
        if tile in tiles then Flood(o0, rest, tiles)
        else
          assert (set t | t in tiles + [tile]) == (set t | t in tiles) + {tile};
          Flood(o0, rest + Pushes(o0, tiles, tile), tiles + [tile])
    }

    /** What taking tile pushes: nothing on a border line, else its fresh neighbours. */
    ghost function Pushes(o0: map<Pos, int>, tiles: seq<Pos>, tile: Pos): (r: seq<Pos>)
      ensures forall n :: n in r ==> n in o0
    {
      if tile in lines then [] else FreshNeighbours(o0, tiles + [tile], neighbours(tile))
    }

    /** tiles is the reference fill from start over o0. */
    ghost predicate FloodFrom(o0: map<Pos, int>, start: Pos, tiles: seq<Pos>) {
      start in o0 && tiles == Flood(o0, [start], [])
    }

    /** Whatever the reference fill takes from a state of the loop is a flood fill. */
    lemma {:induction false} FloodFills(o0: map<Pos, int>, start: Pos, stack: seq<Pos>, tiles: seq<Pos>)
      requires FillState(o0, start, stack, tiles)
      ensures IsFill(o0, start, Flood(o0, stack, tiles))
      decreases o0.Keys - (set t | t in tiles), |stack|
    {
      if stack == [] {
        FillDone(o0, start, tiles);
      } else {
        var tile, rest := stack[|stack| - 1], stack[..|stack| - 1];
        assert rest + [tile] == stack;
        if tile in tiles {
          FillSkip(o0, start, rest, tiles, tile);
          FloodFills(o0, start, rest, tiles);
        } else {
          assert (set t | t in tiles + [tile]) == (set t | t in tiles) + {tile};
          FloodTake(o0, start, rest, tiles, tile);
          FloodFills(o0, start, rest + Pushes(o0, tiles, tile), tiles + [tile]);
        }
      }
    }

    /** Taking a new tile and pushing what it pushes keeps the loop invariant. */
    lemma FloodTake(o0: map<Pos, int>, start: Pos, rest: seq<Pos>, tiles: seq<Pos>, tile: Pos)
      requires FillState(o0, start, rest + [tile], tiles) && tile !in tiles
      ensures FillState(o0, start, rest + Pushes(o0, tiles, tile), tiles + [tile])
    {
      var pushed := Pushes(o0, tiles, tile);
      assert tile in rest + [tile];
      forall n | tile !in lines
        ensures n in pushed <==> n in neighbours(tile) && n !in tiles + [tile] && o0[n] == -1
      {
        if n in neighbours(tile) {
          assert InGrid(width, height, n);
        }
      }
      FillAdd(o0, start, rest, tiles, tile, pushed);
    }

    /** The fill from start over o0 is a flood fill. */
    lemma FloodFromFills(o0: map<Pos, int>, start: Pos)
      requires o0.Keys == AllPositions(width, height)
      requires NeighboursInGrid(width, height, neighbours) && InGrid(width, height, start)
      ensures FloodFrom(o0, start, Flood(o0, [start], []))
      ensures IsFill(o0, start, Flood(o0, [start], []))
    {
      FloodFills(o0, start, [start], []);
    }

    /** Once the owners are o0 with tiles given to id, the unowned positions are the fresh ones. */
    lemma {:induction false} UnownedIsFresh(o0: map<Pos, int>, id: nat, tiles: seq<Pos>, ns: seq<Pos>)
      requires OwnersAfterFill(o0, id, tiles) && forall n :: n in ns ==> n in o0
      ensures Unowned(ns) == FreshNeighbours(o0, tiles, ns)
    {
      if ns != [] {
        UnownedIsFresh(o0, id, tiles, ns[1..]);
      }
    }

    /**
     * Stack-based flood fill of province `id` from `start`. Every popped tile not
     * yet in the province is added; border tiles are added but not expanded;
     * other tiles push each neighbour that has no province. Every added tile is
     * given to the province and no other tile changes owner.
     */
    method FillRegion(id: nat, start: Pos) returns (tiles: seq<Pos>)
      requires Valid() && id < created
      requires InGrid(width, height, start)
      modifies owner
      ensures Valid()
      ensures IsFill(old(OwnerMap()), start, tiles)
      ensures FloodFrom(old(OwnerMap()), start, tiles)
      ensures OwnersAfterFill(old(OwnerMap()), id, tiles)
    {
      ghost var o0 := OwnerMap();
      assert forall q :: q in o0 ==> -1 <= o0[q] < created;
      var stack := [start];
      tiles := [];
      ghost var visited: set<Pos> := {};
      while |stack| > 0
        invariant FillState(o0, start, stack, tiles) && OwnersAfterFill(o0, id, tiles)
        invariant Flood(o0, stack, tiles) == Flood(o0, [start], [])
        invariant forall t :: t in visited <==> t in tiles
        invariant visited <= AllPositions(width, height)
        decreases AllPositions(width, height) - visited, |stack|
      {
        ghost var before := tiles;
        stack, tiles := FillStep(id, o0, start, stack, tiles);
        if |tiles| > |before| {
          visited := visited + {tiles[|before|]};
        }
      }
      FillDone(o0, start, tiles);
      FilledOwnersInRange(o0, id, tiles);
    }

    /** After a fill by a created province, every owner is still unowned or a created province. */
    lemma FilledOwnersInRange(o0: map<Pos, int>, id: nat, tiles: seq<Pos>)
      requires Shape() && id < created
      requires o0.Keys == AllPositions(width, height)
      requires forall q :: q in o0 ==> -1 <= o0[q] < created
      requires OwnersAfterFill(o0, id, tiles)
      ensures OwnersInRange()
    {
      forall x, y | 0 <= x < width && 0 <= y < height ensures -1 <= owner[x, y] < created {
        assert Pos(x, y) in o0;
      }
    }

    /** One iteration of FillRegion's loop: pop a position and add or skip it. */
    method FillStep(id: nat, ghost o0: map<Pos, int>, start: Pos, stack: seq<Pos>, tiles: seq<Pos>)
      returns (stack': seq<Pos>, tiles': seq<Pos>)
      requires Shape() && |stack| > 0
      requires FillState(o0, start, stack, tiles) && OwnersAfterFill(o0, id, tiles)
      modifies owner
      ensures FillState(o0, start, stack', tiles') && OwnersAfterFill(o0, id, tiles')
      ensures var tile, rest := stack[|stack| - 1], stack[..|stack| - 1];
              if tile in tiles then tiles' == tiles && stack' == rest
              else && tiles' == tiles + [tile]
                   && stack' == rest + (if tile in lines then [] else Unowned(neighbours(tile)))
      ensures Flood(o0, stack', tiles') == Flood(o0, stack, tiles)
    {
      var tile := stack[|stack| - 1];
      stack' := stack[..|stack| - 1];
      assert stack' + [tile] == stack;
      if tile in tiles {
        FillSkip(o0, start, stack', tiles, tile);
        tiles' := tiles;
      } else {
        ghost var rest := stack';
        stack', tiles' := AddTile(id, o0, start, stack', tiles, tile);
        if tile in lines {
          assert stack' == rest + [];
        } else {
          assert tile in stack;
          UnownedIsFresh(o0, id, tiles', neighbours(tile));
        }
        assert stack' == rest + Pushes(o0, tiles, tile);
      }
    }

    /** The popped tile is new: give it to the province and, unless it is a border, push its unowned neighbours. */
    method AddTile(id: nat, ghost o0: map<Pos, int>, start: Pos, stack: seq<Pos>, tiles: seq<Pos>, tile: Pos)
      returns (stack': seq<Pos>, tiles': seq<Pos>)
      requires Shape()
      requires FillState(o0, start, stack + [tile], tiles) && OwnersAfterFill(o0, id, tiles)
      requires tile !in tiles
      modifies owner
      ensures FillState(o0, start, stack', tiles') && OwnersAfterFill(o0, id, tiles')
      ensures tiles' == tiles + [tile]
      ensures tile in lines ==> stack' == stack
      ensures tile !in lines ==> stack' == stack + Unowned(neighbours(tile))
    {
      assert tile in stack + [tile];
      assert InGrid(width, height, tile);
      tiles' := tiles + [tile];
      owner[tile.x, tile.y] := id;
      forall q | q in o0 ensures OwnerAt(q) == if q in tiles' then id else o0[q] {
        if q != tile {
          assert OwnerAt(q) == old(OwnerAt(q));
        }
      }
      if tile in lines {
        FillAdd(o0, start, stack, tiles, tile, []);
        assert stack + [] == stack;
        stack' := stack;
        return;
      }
      stack' := PushUnowned(stack, tile);
      ghost var pushed := Unowned(neighbours(tile));
      forall n ensures n in pushed <==> n in neighbours(tile) && n !in tiles' && o0[n] == -1 {
        if n in neighbours(tile) {
          assert InGrid(width, height, n);
        }
      }
      FillAdd(o0, start, stack, tiles, tile, pushed);
    }

    /**
     * `fills` are the first fills of DetectRegions over the seeds in key order:
     * the i-th is province id0 + i named "Region i", and it is a flood fill from
     * the i-th seed over the owners the earlier fills left.
     */
    ghost predicate SeedFills(o0: map<Pos, int>, id0: nat, seeds: seq<Pos>, fills: seq<Province>) {
      && |fills| <= |seeds|
      && (forall k :: 0 <= k < |fills| ==> fills[k].id == id0 + k && fills[k].name == RegionName(k))
      && (forall k {:trigger fills[..k]} :: 0 <= k < |fills| ==>
            SeedFill(OwnersAfter(o0, fills[..k]), seeds[k], fills[k].tiles))
    }

    /** tiles is the fill from seed over the owners o, and so is a flood fill. */
    ghost predicate SeedFill(o: map<Pos, int>, seed: Pos, tiles: seq<Pos>) {
      IsFill(o, seed, tiles) && FloodFrom(o, seed, tiles)
    }

    lemma SeedFillsSnoc(o0: map<Pos, int>, id0: nat, seeds: seq<Pos>, fills: seq<Province>, p: Province)
      requires SeedFills(o0, id0, seeds, fills) && |fills| < |seeds|
      requires p.id == id0 + |fills| && p.name == RegionName(|fills|)
      requires SeedFill(OwnersAfter(o0, fills), seeds[|fills|], p.tiles)
      ensures SeedFills(o0, id0, seeds, fills + [p])
    {
      var fills' := fills + [p];
      forall k | 0 <= k < |fills'|
        ensures SeedFill(OwnersAfter(o0, fills'[..k]), seeds[k], fills'[k].tiles)
      {
        if k < |fills| {
          SeedFillPrefix(o0, id0, seeds, fills, p, k);
        } else {
          assert fills'[..k] == fills;
        }
      }
    }

    /** An earlier fill keeps its description when a fill is appended. */
    lemma SeedFillPrefix(o0: map<Pos, int>, id0: nat, seeds: seq<Pos>, fills: seq<Province>, p: Province, k: nat)
      requires SeedFills(o0, id0, seeds, fills) && k < |fills|
      ensures SeedFill(OwnersAfter(o0, (fills + [p])[..k]), seeds[k], (fills + [p])[k].tiles)
    {
      assert (fills + [p])[..k] == fills[..k];
    }

    /**
     * DetectRegions: the seeds in key order are instantiated as "Region i" and
     * filled one after another; the provinces are then grouped by their
     * key-minimal tile and the single member of each group is returned in key
     * order. `fills` are the provinces the fills made, in the order they ran.
     */
    method DetectRegions(points: seq<Pos>) returns (result: Result<seq<Province>, DetectError>,
                                                    fills: seq<Province>)
      requires Valid()
      modifies this`created, owner
      ensures Valid()
      ensures SeedFills(old(OwnerMap()), old(created), SortBy(points, PosKey(height)), fills)
      ensures created == old(created) + |fills| + (if |fills| < |points| then 1 else 0)
      ensures OwnerMap() == OwnersAfter(old(OwnerMap()), fills)
      ensures |fills| < |points| ==>
                var seed := SortBy(points, PosKey(height))[|fills|];
                !InGrid(width, height, seed) && result == Err(TileMissing(seed))
      ensures |fills| == |points| ==> result == SelectSingles(height, fills)
      ensures result.Ok? ==> TilesInGrid(width, height, result.value)
    {
      var seeds := SortBy(points, PosKey(height));
      ghost var o0 := OwnerMap();
      ghost var id0 := created;
      fills := FillSeeds(seeds);
      if |fills| < |seeds| {
        result := Err(TileMissing(seeds[|fills|]));
        return;
      }
      result := SelectSingles(height, fills);
      FillsInGrid(o0, id0, seeds, fills);
      SelectSinglesInGrid(width, height, fills);
    }

    /**
     * The Select of DetectRegions: each seed in turn gets a new province named
     * by its index and is flood-filled; a seed off the grid has no tile and
     * ends the run after its province was instantiated.
     */
    method FillSeeds(seeds: seq<Pos>) returns (fills: seq<Province>)
      requires Valid()
      modifies this`created, owner
      ensures Valid()
      ensures SeedFills(old(OwnerMap()), old(created), seeds, fills)
      ensures created == old(created) + |fills| + (if |fills| < |seeds| then 1 else 0)
      ensures OwnerMap() == OwnersAfter(old(OwnerMap()), fills)
      ensures |fills| < |seeds| ==> !InGrid(width, height, seeds[|fills|])
    {
      ghost var o0 := OwnerMap();
      ghost var id0 := created;
      fills := [];
      var i := 0;
      while i < |seeds|
        invariant 0 <= i <= |seeds| && |fills| == i && created == id0 + i
        invariant Valid()
        invariant SeedFills(o0, id0, seeds, fills)
        invariant OwnerMap() == OwnersAfter(o0, fills)
      {
        var seed := seeds[i];
        var id := created;
        created := created + 1;
        if !InGrid(width, height, seed) {
          return;
        }
        var province := FillSeed(o0, id0, seeds, fills, id);
        fills := fills + [province];
        i := i + 1;
      }
    }

    /** The fill of the next seed as province id, named by its index, extends the fills so far. */
    method FillSeed(ghost o0: map<Pos, int>, ghost id0: nat, seeds: seq<Pos>, fills: seq<Province>, id: nat)
      returns (province: Province)
      requires Valid() && |fills| < |seeds| && InGrid(width, height, seeds[|fills|])
      requires id == id0 + |fills| && id < created
      requires SeedFills(o0, id0, seeds, fills) && OwnerMap() == OwnersAfter(o0, fills)
      modifies owner
      ensures Valid()
      ensures province.id == id && province.name == RegionName(|fills|)
      ensures SeedFills(o0, id0, seeds, fills + [province])
      ensures OwnerMap() == OwnersAfter(o0, fills + [province])
    {
      var tiles := FillRegion(id, seeds[|fills|]);
      province := Province(id, RegionName(|fills|), tiles);
      OwnersAfterSnoc(o0, fills, province);
      OwnerMapIs(OwnersAfter(o0, fills + [province]));
      SeedFillsSnoc(o0, id0, seeds, fills, province);
    }

    /** The owners are exactly m. */
    lemma OwnerMapIs(m: map<Pos, int>)
      requires m.Keys == AllPositions(width, height)
      requires forall q :: q in m ==> OwnerAt(q) == m[q]
      ensures OwnerMap() == m
    {
    }

    /**
     * A later fill claims no tile of an earlier one, and none that was owned
     * before DetectRegions, except at its start.
     */
    lemma LaterFillAvoidsEarlier(o0: map<Pos, int>, id0: nat, seeds: seq<Pos>, fills: seq<Province>,
                                 k: nat, l: nat, m: nat)
      requires o0.Keys == AllPositions(width, height) && SeedFills(o0, id0, seeds, fills)
      requires k < l < |fills| && 0 < m < |fills[l].tiles|
      ensures fills[l].tiles[m] !in fills[k].tiles
      ensures fills[l].tiles[m] in o0 && o0[fills[l].tiles[m]] == -1
    {
      assert SeedFill(OwnersAfter(o0, fills[..l]), seeds[l], fills[l].tiles);
      var t := fills[l].tiles[m];
      LastOwnerUnowned(fills[..l], t, o0[t]);
      assert fills[..l][k] == fills[k];
    }

    /** Fills stay on the grid. */
    lemma FillsInGrid(o0: map<Pos, int>, id0: nat, seeds: seq<Pos>, fills: seq<Province>)
      requires SeedFills(o0, id0, seeds, fills)
      ensures TilesInGrid(width, height, fills)
    {
      forall p, t | p in fills && t in p.tiles ensures InGrid(width, height, t) {
        var k :| 0 <= k < |fills| && fills[k] == p;
        assert SeedFill(OwnersAfter(o0, fills[..k]), seeds[k], fills[k].tiles);
      }
    }

    /** `_regions = DetectRegions(points)`: the provinces are kept only when detection succeeds. */
    method StoreRegions(points: seq<Pos>) returns (result: Result<seq<Province>, DetectError>,
                                                   ghost fills: seq<Province>)
      requires Valid()
      modifies this, owner
      ensures Valid()
      ensures SeedFills(old(OwnerMap()), old(created), SortBy(points, PosKey(height)), fills)
      ensures created == old(created) + |fills| + (if |fills| < |points| then 1 else 0)
      ensures OwnerMap() == OwnersAfter(old(OwnerMap()), fills)
      ensures |fills| < |points| ==>
                var seed := SortBy(points, PosKey(height))[|fills|];
                !InGrid(width, height, seed) && result == Err(TileMissing(seed))
      ensures |fills| == |points| ==> result == SelectSingles(height, fills)
      ensures result.Ok? ==> regions == result.value
      ensures result.Err? ==> regions == old(regions)
    {
      result, fills := DetectRegions(points);
      if result.Ok? {
        regions := result.value;
      }
    }

    /**
     * SetContinents: the provinces touching no outer-ring tile, keyed by their
     * first tile, are set to Plain in order; every ProvincesMajorCountries
     * conversions use up one of MajorCountries, and the pass stops when none
     * is left. The error is the exception the source throws.
     */
    method SetContinents() returns (error: Option<ContinentsError>)
      requires Valid()
      modifies terrain
      ensures error == ContinentsPlan(width, height, regions, majorCountries, provincesMajorCountries).error
      ensures forall x, y :: 0 <= x < width && 0 <= y < height ==>
                terrain[x, y] == if Covered(ContinentsPlan(width, height, regions, majorCountries,
                                                           provincesMajorCountries).converted, Pos(x, y))
                                 then Plain else old(terrain[x, y])
    {
      var inland := Inland(width, height, regions);
      ghost var run := ContinentsPlan(width, height, regions, majorCountries, provincesMajorCountries);
      var dictionary := StartDictionary(inland);
      if dictionary.None? {
        // ToDictionary throws before any tile changes.
        assert run.converted == [];
        return Some(DuplicateKey);
      }
      var count, error' := ConvertInland(inland);
      assert run.converted == inland[..count] && run.error == error';
      error := error';
    }

    /**
     * The foreach of SetContinents over the inland provinces: converts them in
     * order while quotas are left. `count` is the number converted.
     */
    method ConvertInland(inland: seq<Province>) returns (count: nat, error: Option<ContinentsError>)
      requires Shape() && forall p :: p in inland ==> p in regions
      modifies terrain
      ensures count <= |inland|
      ensures provincesMajorCountries == 0 ==>
                var fails := majorCountries != 0 && inland != [];
                && count == (if fails then 1 else 0)
                && error == (if fails then Some(DivideByZero) else None)
      ensures provincesMajorCountries != 0 ==>
                count == QuotaCount(|inland|, majorCountries, provincesMajorCountries) && error == None
      ensures forall x, y :: 0 <= x < width && 0 <= y < height ==>
                terrain[x, y] == if Covered(inland[..count], Pos(x, y)) then Plain else old(terrain[x, y])
    {
      var left := majorCountries;
      count := 0;
      while count < |inland|
        invariant 0 <= count <= |inland|
        invariant forall x, y :: 0 <= x < width && 0 <= y < height ==>
                    terrain[x, y] == if Covered(inland[..count], Pos(x, y)) then Plain else old(terrain[x, y])
        invariant provincesMajorCountries == 0 ==> count == 0 && left == majorCountries
        invariant provincesMajorCountries != 0 ==> left == majorCountries - count / Abs(provincesMajorCountries)
        invariant provincesMajorCountries != 0 && majorCountries > 0 ==>
                    count <= majorCountries * Abs(provincesMajorCountries)
        invariant majorCountries == 0 ==> count == 0
      {
        if left == 0 {
          break;
        }
        var region := inland[count];
        assert region in regions;
        ghost var mid := TerrainMap();
        SetPlain(region.tiles);
        CoveredPrefix(inland, count);
        forall x, y | 0 <= x < width && 0 <= y < height
          ensures terrain[x, y] == if Covered(inland[..count + 1], Pos(x, y)) then Plain else old(terrain[x, y])
        {
          assert Pos(x, y) in mid;
        }
        if provincesMajorCountries == 0 {
          // `++count % 0` throws DivideByZeroException after the first province.
          count := count + 1;
          return count, Some(DivideByZero);
        }
        QuotaStep(count, provincesMajorCountries);
        if majorCountries > 0 {
          QuotaKeep(count, majorCountries, provincesMajorCountries);
        }
        count := count + 1;
        if count % provincesMajorCountries == 0 {
          left := left - 1;
        }
      }
      if provincesMajorCountries != 0 {
        QuotaExit(|inland|, count, majorCountries, provincesMajorCountries);
      }
      error := None;
    }

    /** The inner foreach of SetContinents: every tile listed becomes Plain, no other tile changes. */
    method SetPlain(tiles: seq<Pos>)
      requires Shape() && forall t :: t in tiles ==> InGrid(width, height, t)
      modifies terrain
      ensures forall x, y :: 0 <= x < width && 0 <= y < height ==>
                terrain[x, y] == if Pos(x, y) in tiles then Plain else old(terrain[x, y])
    {
      var j := 0;
      while j < |tiles|
        invariant 0 <= j <= |tiles|
        invariant forall x, y :: 0 <= x < width && 0 <= y < height ==>
                    terrain[x, y] == if Pos(x, y) in tiles[..j] then Plain else old(terrain[x, y])
      {
        var t := tiles[j];
        assert t in tiles;
        terrain[t.x, t.y] := Plain;
        assert tiles[..j + 1] == tiles[..j] + [t];
        j := j + 1;
      }
      assert tiles[..j] == tiles;
    }

    /** The terrain of all grid positions, as a value. */
    ghost function TerrainMap(): (m: map<Pos, Terrain>)
      reads terrain
      requires terrain.Length0 == width && terrain.Length1 == height
      ensures m.Keys == AllPositions(width, height)
      ensures forall q :: q in m ==> m[q] == terrain[q.x, q.y]
    {
      map q | q in AllPositions(width, height) :: terrain[q.x, q.y]
    }

    /** The positions of ns whose tile has no province, in order. */
    ghost function Unowned(ns: seq<Pos>): (r: seq<Pos>)
      reads owner
      ensures forall n :: n in r <==> n in ns && OwnerAt(n) == -1
    {
      if ns == [] then []
      else (if OwnerAt(ns[0]) == -1 then [ns[0]] else []) + Unowned(ns[1..])
    }

    /** The neighbour scan of FillRegion: pushes each neighbour of tile that has no province. */
    method PushUnowned(stack: seq<Pos>, tile: Pos) returns (stack': seq<Pos>)
      requires Shape() && InGrid(width, height, tile)
      ensures stack' == stack + Unowned(neighbours(tile))
    {
      var ns := neighbours(tile);
      stack' := stack;
      var i := 0;
      while i < |ns|
        invariant 0 <= i <= |ns|
        invariant stack' + Unowned(ns[i..]) == stack + Unowned(ns)
      {
        var n := ns[i];
        assert n in neighbours(tile) && InGrid(width, height, n);
        ghost var prev := stack';
        UnownedStep(prev, ns, i);
        if owner[n.x, n.y] == -1 {
          stack' := stack' + [n];
        }
        assert stack' == prev + if OwnerAt(n) == -1 then [n] else [];
        i := i + 1;
      }
      assert ns[i..] == [];
    }

    /** Scanning ns[i] moves it onto the pushed prefix when it has no province. */
    lemma UnownedStep(prev: seq<Pos>, ns: seq<Pos>, i: nat)
      requires i < |ns|
      ensures prev + Unowned(ns[i..]) == (prev + if OwnerAt(ns[i]) == -1 then [ns[i]] else []) + Unowned(ns[i + 1..])
    {
      assert ns[i..][1..] == ns[i + 1..];
      var pushed: seq<Pos> := if OwnerAt(ns[i]) == -1 then [ns[i]] else [];
      assert Unowned(ns[i..]) == pushed + Unowned(ns[i + 1..]);
      assert prev + (pushed + Unowned(ns[i + 1..])) == (prev + pushed) + Unowned(ns[i + 1..]);
    }
  }
  /**
   * The fill order is last in, first out: on a row of three unowned tiles with
   * no border lines, the fill from the middle pushes (0, 0) and then (2, 0), so
   * it takes (2, 0) before (0, 0).
   */
  lemma FloodTakesLastPushedFirst(g: VoronoiGenerator)
    requires g.lines == {}
    requires g.neighbours(Pos(1, 0)) == [Pos(0, 0), Pos(2, 0)]
    requires g.neighbours(Pos(0, 0)) == [Pos(1, 0)] && g.neighbours(Pos(2, 0)) == [Pos(1, 0)]
    ensures g.Flood(map[Pos(0, 0) := -1, Pos(1, 0) := -1, Pos(2, 0) := -1], [Pos(1, 0)], [])
         == [Pos(1, 0), Pos(2, 0), Pos(0, 0)]
  {
    var o0 := map[Pos(0, 0) := -1, Pos(1, 0) := -1, Pos(2, 0) := -1];
    var a, b, c := Pos(0, 0), Pos(1, 0), Pos(2, 0);
    assert g.Flood(o0, [b], []) == g.Flood(o0, [a, c], [b]) by {
      assert [a, c][1..] == [c] && [c][1..] == [] && [] + [b] == [b];
      assert g.FreshNeighbours(o0, [b], [c]) == [c];
      assert g.FreshNeighbours(o0, [b], [a, c]) == [a, c];
      assert g.Pushes(o0, [], b) == [a, c];
      assert [b][..0] == [] && [] + [a, c] == [a, c];
    }
    assert g.Flood(o0, [a, c], [b]) == g.Flood(o0, [a], [b, c]) by {
      assert [b][1..] == [] && [b] + [c] == [b, c];
      assert g.FreshNeighbours(o0, [b, c], [b]) == [];
      assert g.Pushes(o0, [b], c) == [];
      assert [a, c][..1] == [a] && [a] + [] == [a];
    }
    assert g.Flood(o0, [a], [b, c]) == g.Flood(o0, [], [b, c, a]) by {
      assert [b][1..] == [] && [b, c] + [a] == [b, c, a];
      assert g.FreshNeighbours(o0, [b, c, a], [b]) == [];
      assert g.Pushes(o0, [b, c], a) == [];
      assert [a][..0] == [] && [a][..0] + [] == [];
    }
  }
}
