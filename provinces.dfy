/**
 * Provinces and the pure tail of DetectRegions: group the filled provinces by
 * their key-minimal tile, order the groups by key and take the single member of
 * each group.
 */
module Provinces {
  import opened Wrappers
  import opened Grid
  import opened Ordering
  import opened StableSort
  import opened Grouping

  /** A province's tile list is never empty: the fill always adds its start tile. */
  type Tiles = s: seq<Pos> | |s| > 0 witness [Pos(0, 0)]

  /**
   * A province: `id` stands for the object's identity (the value a tile's owner
   * field refers to), `name` its Name, `tiles` its HexTiles in insertion order.
   */
  datatype Province = Province(id: nat, name: string, tiles: Tiles)

  datatype DetectError =
    | TileMissing(seed: Pos)      // GetTile returned null for a seed point
    | AmbiguousAnchor(anchor: Pos) // Single() met a group of more than one province

  /**
   * The key-minimal tile, `HexTiles.OrderBy(key).First().Position`: a tile of
   * the province whose key is minimal, the earliest such in insertion order.
   */
  function AnchorOf(height: nat, p: Province): (a: Pos)
    ensures a in p.tiles
    ensures forall t :: t in p.tiles ==> CompositeKey(height, a) <= CompositeKey(height, t)
    ensures a == p.tiles[EarliestMinimum(p.tiles, PosKey(height))]
  {
    FirstByKey(p.tiles, PosKey(height))
  }

  function AnchorFn(height: nat): Province -> Pos {
    p => AnchorOf(height, p)
  }

  function AnchorKey(height: nat): Province -> int {
    p => CompositeKey(height, AnchorOf(height, p))
  }

  function GroupKey(height: nat): Group<Pos, Province> -> int {
    (g: Group<Pos, Province>) => CompositeKey(height, g.key)
  }

  /** `Select(g => g.Single())`: fails at the first group that is not a singleton. */
  function SingleEach(gs: seq<Group<Pos, Province>>): (r: Result<seq<Province>, DetectError>)
    ensures r.Ok? <==> forall i :: 0 <= i < |gs| ==> |gs[i].members| == 1
    ensures r.Ok? ==> |r.value| == |gs| && forall i :: 0 <= i < |gs| ==> r.value[i] == gs[i].members[0]
    ensures r.Err? ==> exists i :: 0 <= i < |gs| && |gs[i].members| != 1
                          && r.error == AmbiguousAnchor(gs[i].key)
                          && forall j :: 0 <= j < i ==> |gs[j].members| == 1
  {
    if gs == [] then Ok([])
    else if |gs[0].members| != 1 then Err(AmbiguousAnchor(gs[0].key))
    else
      var rest := SingleEach(gs[1..]);
      assert forall i :: 1 <= i < |gs| ==> gs[i] == gs[1..][i - 1];
      match rest
      case Ok(v) => Ok([gs[0].members[0]] + v)
      case Err(e) => Err(e)
  }

  /** `GroupBy(anchor).OrderBy(key)`: the anchor groups of the provinces in key order. */
  function OrderedGroups(height: nat, ps: seq<Province>): seq<Group<Pos, Province>> {
    SortBy(GroupBy(ps, AnchorFn(height)), GroupKey(height))
  }

  /**
   * `GroupBy(anchor).OrderBy(key).Select(Single)` over the provinces in fill
   * order: it succeeds exactly when no two provinces share a key-minimal tile,
   * and then returns the provinces stably sorted by the key of that tile.
   */
  function SelectSingles(height: nat, ps: seq<Province>): (r: Result<seq<Province>, DetectError>)
    ensures r.Ok? <==> AnchorsDistinct(height, ps)
    ensures r.Ok? ==> r.value == SortBy(ps, AnchorKey(height))
  {
    SelectSinglesCorrect(height, ps);
    SingleEach(OrderedGroups(height, ps))
  }

  ghost predicate AnchorsDistinct(height: nat, ps: seq<Province>) {
    KeysOfDistinct(ps, AnchorFn(height))
  }

  lemma SelectSinglesDistinct(height: nat, ps: seq<Province>)
    requires AnchorsDistinct(height, ps)
    ensures SingleEach(OrderedGroups(height, ps)) == Ok(SortBy(ps, AnchorKey(height)))
  {
    var want := SortBy(ps, AnchorKey(height));
    OrderedGroupsDistinct(height, ps);
    SingleEachSingletons(want, Singleton(AnchorFn(height)));
  }

  /** With distinct anchors the ordered groups are the singletons of the provinces stably sorted by anchor key. */
  lemma OrderedGroupsDistinct(height: nat, ps: seq<Province>)
    requires AnchorsDistinct(height, ps)
    ensures OrderedGroups(height, ps) == MapSeq(SortBy(ps, AnchorKey(height)), Singleton(AnchorFn(height)))
  {
    GroupByDistinct(ps, AnchorFn(height));
    var f := Singleton(AnchorFn(height));
    assert forall a :: AnchorKey(height)(a) == GroupKey(height)(f(a));
    SortByMap(ps, f, AnchorKey(height), GroupKey(height));
  }

  /** Single() over singleton groups returns their members. */
  lemma SingleEachSingletons(want: seq<Province>, f: Province -> Group<Pos, Province>)
    requires forall a :: f(a).members == [a]
    ensures SingleEach(MapSeq(want, f)) == Ok(want)
  {
    var sorted := MapSeq(want, f);
    assert forall i :: 0 <= i < |sorted| ==> sorted[i].members == [want[i]];
    var r := SingleEach(sorted);
    assert r.Ok?;
    assert r.value == want;
  }

  lemma SelectSinglesShared(height: nat, ps: seq<Province>, i: nat, j: nat)
    requires i < j < |ps| && AnchorOf(height, ps[i]) == AnchorOf(height, ps[j])
    ensures SingleEach(OrderedGroups(height, ps)).Err?
  {
    var groups := GroupBy(ps, AnchorFn(height));
    assert AnchorFn(height)(ps[i]) == AnchorFn(height)(ps[j]);
    SharedKeyGroup(ps, AnchorFn(height), i, j);
    var g := groups[FindGroup(groups, AnchorFn(height)(ps[i]))];
    SortByKeepsMembers(groups, GroupKey(height), g);
    SingleEachRejects(SortBy(groups, GroupKey(height)), g);
  }

  lemma SingleEachRejects(gs: seq<Group<Pos, Province>>, g: Group<Pos, Province>)
    requires g in gs && |g.members| != 1
    ensures SingleEach(gs).Err?
  {
  }

  /**
   * The grouping succeeds exactly when no two provinces share a key-minimal tile,
   * and then it is the stable sort of the provinces by the key of that tile:
   * one province per seed, ordered by anchor key, ties in fill order.
   */
  lemma SelectSinglesCorrect(height: nat, ps: seq<Province>)
    ensures SingleEach(OrderedGroups(height, ps)).Ok? <==> AnchorsDistinct(height, ps)
    ensures AnchorsDistinct(height, ps) ==> SingleEach(OrderedGroups(height, ps)) == Ok(SortBy(ps, AnchorKey(height)))
  {
    if AnchorsDistinct(height, ps) {
      SelectSinglesDistinct(height, ps);
    } else {
      var i, j :| 0 <= i < j < |ps| && AnchorFn(height)(ps[i]) == AnchorFn(height)(ps[j]);
      SelectSinglesShared(height, ps, i, j);
    }
  }

  /**
   * Owner of position q after the fills in order: the id of the last fill that
   * holds q, or `before` when none does.
   */
  function LastOwner(fills: seq<Province>, q: Pos, before: int): (o: int)
    ensures o == before || exists i :: 0 <= i < |fills| && q in fills[i].tiles && o == fills[i].id
  {
    if fills == [] then before
    else if q in fills[|fills| - 1].tiles then fills[|fills| - 1].id
    else LastOwner(fills[..|fills| - 1], q, before)
  }

  /** The owners after o0 with the fills applied in order, one LastOwner per position. */
  ghost function OwnersAfter(o0: map<Pos, int>, fills: seq<Province>): map<Pos, int> {
    map q | q in o0 :: LastOwner(fills, q, o0[q])
  }

  /** One more fill hands its tiles to its id and leaves every other owner as it was. */
  lemma OwnersAfterSnoc(o0: map<Pos, int>, fills: seq<Province>, p: Province)
    ensures OwnersAfter(o0, fills + [p]).Keys == o0.Keys
    ensures forall q :: q in o0 ==>
              OwnersAfter(o0, fills + [p])[q] == if q in p.tiles then p.id else OwnersAfter(o0, fills)[q]
  {
    assert (fills + [p])[..|fills|] == fills;
  }

  /** A position still unowned after the fills lies in none of them. */
  lemma {:induction false} LastOwnerUnowned(fills: seq<Province>, q: Pos, before: int)
    requires LastOwner(fills, q, before) == -1
    ensures before == -1
    ensures forall i :: 0 <= i < |fills| ==> q !in fills[i].tiles
  {
    if fills != [] {
      var init := fills[..|fills| - 1];
      LastOwnerUnowned(init, q, before);
      forall i | 0 <= i < |fills| ensures q !in fills[i].tiles {
        if i < |init| {
          assert fills[i] == init[i];
        }
      }
    }
  }

  /** Every tile of every province of ps is on the width-by-height grid. */
  ghost predicate TilesInGrid(width: nat, height: nat, ps: seq<Province>) {
    forall p, t :: p in ps && t in p.tiles ==> InGrid(width, height, t)
  }

  /** SelectSingles returns provinces of its input only. */
  lemma SelectSinglesInGrid(width: nat, height: nat, ps: seq<Province>)
    requires TilesInGrid(width, height, ps)
    ensures SelectSingles(height, ps).Ok? ==> TilesInGrid(width, height, SelectSingles(height, ps).value)
  {
    if SelectSingles(height, ps).Ok? {
      forall p | p in SelectSingles(height, ps).value ensures p in ps {
        SortByKeepsMembers(ps, AnchorKey(height), p);
      }
    }
  }
}
