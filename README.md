# Province pipeline of VoronoiGenerator, modelled in Dafny

This project models how the Unity map generator of ImperialDestination turns
Voronoi seed points into provinces on a hex grid and then picks the land
provinces. Three operations of `VoronoiGenerator` are modelled.

- **FillRegion** is a stack-based flood fill. It starts at a seed tile and
  gives every tile it reaches to one province. It does not expand past tiles
  on the rasterised Voronoi border lines (`_lines`). It only pushes
  neighbours that have no province yet.
- **DetectRegions** sorts the seed points by the composite key
  `x * CountDigits(Height) * 10 + y`, using LINQ's stable `OrderBy`. It then
  does three things:
  - names the provinces `"Region 0"`, `"Region 1"`, … in that order and fills
    them one after another;
  - groups the provinces by their key-minimal tile;
  - returns the single member of each group, in ascending key order.
- **SetContinents** takes the provinces that touch no outer-ring tile and
  turns their tiles to `Plain`, in order. One of `MajorCountries` quotas is
  used up every `ProvincesMajorCountries` provinces, and the pass stops when
  no quota is left.

The generator is the class `Generator.VoronoiGenerator`.
- Each tile's province reference is an `array2<int>` of province ids, where
  -1 stands for `null`.
- Each tile's terrain is an `array2<Terrain>`.
- `_regions` is a `seq<Province>` field.
- The neighbour function and the border-line set are constructor inputs.
- A province is a value that holds its id, its name and its tiles in insertion
  order.

The pure parts of the pipeline are functions with their own lemmas:
- the key (`Ordering`);
- LINQ `OrderBy`, `First`, `Select` and `GroupBy` (`StableSort`, `Grouping`);
- `Single` (`Provinces.SingleEach`);
- the province name (`Naming`);
- the quota arithmetic (`Continents`).

The methods are proved against these functions.

The source throws exceptions in four places. Each becomes an error value,
and the state changes made before the throw are kept, as in the source.
- A seed with no tile makes `GetTile` (line 137) return `null`, and the fill
  then dereferences it: `Err(TileMissing(seed))`.
- `Single()` (line 149) meets a group of two or more provinces:
  `Err(AmbiguousAnchor(anchor))`.
- In SetContinents, `ToDictionary` (line 191) meets a repeated first tile:
  `DuplicateKey`, before any tile changes.
- In SetContinents, `++count % ProvincesMajorCountries` (line 208) divides by
  zero: `DivideByZero`, after the first inland province is converted.

Two provinces with the same key-minimal tile are not merged: `.Single()` at
`VoronoiGenerator.cs:149` throws, and the model returns `AmbiguousAnchor`.

The order in which the flood fill takes tiles is pinned down. `Flood` is a
reference depth-first fill over values: it pops the last pushed position
first, as `Stack.Pop` does. `FillRegion` is proved to return exactly
`Flood`'s tiles. That order matters because `OrderBy(key).First()` on line 147
breaks key ties by insertion order, so it decides each province's anchor.

The key `x * CountDigits(Height) * 10 + y` is not injective in general:
`KeyInjectiveIff` shows it is injective exactly when
`Height <= 10 * CountDigits(Height)`. For Height 50, positions (0,20) and (1,0)
share the key 20. Ties are settled by the stable sort, which keeps input order
among equal keys, and the model states that stability explicitly. Together
with the pinned fill order, DetectRegions' contract decides every anchor, and
so decides whether `Single()` throws.

## Model

| member | source | states |
|---|---|---|
| Grid.OddRowNeighbours | Assets/Tests/Map/ProvinceFactoryTests.cs:230-231 | A concrete neighbour function for hex rows where odd rows are shifted right: at most six neighbours, all on the grid, and a candidate is kept exactly when it lies on the grid |
| Grid.OddRowNeighboursStayInGrid | Assets/Tests/Map/ProvinceFactoryTests.cs:230-231 | The odd-row neighbour function meets the generator's requirement that neighbours of grid tiles are grid tiles |
| Ordering.CountDigits | Assets/Scripts/Map/VoronoiGenerator.cs:135 | `Height.CountDigits()` is the decimal digit count d: at least 1, below 10^d, and at least 10^(d-1) when it has more than one digit |
| Ordering.CompositeKey | Assets/Scripts/Map/VoronoiGenerator.cs:135 | The key `x * CountDigits(Height) * 10 + y` used on lines 135, 147 and 148: while y is below the stride `10 * CountDigits(Height)`, the key's quotient by the stride is x and its remainder is y |
| Ordering.KeyInjectiveIff | Assets/Scripts/Map/VoronoiGenerator.cs:135 | On a grid at least two columns wide, the seed/tile key is injective exactly when `Height <= 10 * CountDigits(Height)` |
| Ordering.KeyCollidesOnHeightFifty | Assets/Scripts/Map/VoronoiGenerator.cs:135 | With Height 50 the tiles (0,20) and (1,0) both have key 20 |
| StableSort.SortBy | Assets/Scripts/Map/VoronoiGenerator.cs:135 | LINQ `OrderBy` by an integer key: same length, ascending by key, a permutation of the input, and for every key the elements with that key keep their input order |
| StableSort.SortByKeepsMembers | Assets/Scripts/Map/VoronoiGenerator.cs:148 | An element is in the sorted sequence exactly when it is in the input |
| StableSort.EarliestMinimum | Assets/Scripts/Map/VoronoiGenerator.cs:147 | Reference definition: the index of the first element whose key is minimal, so no earlier element has a key as small and no element has a smaller one |
| StableSort.SortedHeadIsEarliestMinimum | Assets/Scripts/Map/VoronoiGenerator.cs:147 | The head of the stable sort of a non-empty sequence is its earliest element of minimal key |
| StableSort.FirstByKey | Assets/Scripts/Map/VoronoiGenerator.cs:147 | `OrderBy(key).First()` is an element of the input whose key is minimal, and it is the earliest such element |
| StableSort.SortByMap | Assets/Scripts/Map/VoronoiGenerator.cs:147-149 | Sorting commutes with a `Select` that preserves the key |
| StableSort.MapSeq | Assets/Scripts/Map/VoronoiGenerator.cs:147 | LINQ `Select`: same length, element i is f applied to input element i |
| Grouping.GroupBy | Assets/Scripts/Map/VoronoiGenerator.cs:147 | LINQ `GroupBy`: group keys are distinct; each group holds exactly the input elements with its key, in input order; no group is empty; every element's key has a group |
| Grouping.GroupByDistinct | Assets/Scripts/Map/VoronoiGenerator.cs:147 | When all keys differ, the groups are the elements themselves, each alone and in input order |
| Grouping.SharedKeyGroup | Assets/Scripts/Map/VoronoiGenerator.cs:147 | Two input elements with one key end up in a group of at least two members |
| Naming.NatToString | Assets/Scripts/Map/VoronoiGenerator.cs:142 | Decimal rendering of an index: non-empty, digits only, no leading zero |
| Naming.ParseNatToString | Assets/Scripts/Map/VoronoiGenerator.cs:142 | Reading the rendered digits back gives the index |
| Naming.RegionName | Assets/Scripts/Map/VoronoiGenerator.cs:142 | `$"Region {index}"` is "Region " followed by decimal digits that read back as the index |
| Naming.RegionNameInjective | Assets/Scripts/Map/VoronoiGenerator.cs:142 | `"Region {index}"` names of different indices differ |
| Provinces.AnchorOf | Assets/Scripts/Map/VoronoiGenerator.cs:147 | A province's group key `HexTiles.OrderBy(key).First().Position` is one of its tiles, has the smallest key among them, and is the earliest tile in insertion order with that key |
| Provinces.SelectSingles | Assets/Scripts/Map/VoronoiGenerator.cs:147-149 | The tail of DetectRegions succeeds exactly when no two provinces share a key-minimal tile, and then returns the provinces stably sorted by the key of that tile |
| Provinces.OrderedGroupsDistinct | Assets/Scripts/Map/VoronoiGenerator.cs:147-148 | With distinct anchors, the groups in key order are the singleton groups of the provinces stably sorted by anchor key |
| Provinces.SingleEachSingletons | Assets/Scripts/Map/VoronoiGenerator.cs:149 | `Select(p => p.Single())` over singleton groups returns their members in order |
| Provinces.SingleEach | Assets/Scripts/Map/VoronoiGenerator.cs:149 | `Select(p => p.Single())`: succeeds exactly when every group has one member, and then returns those members in group order; otherwise it fails |
| Provinces.SingleEachRejects | Assets/Scripts/Map/VoronoiGenerator.cs:149 | One group that is not a singleton makes the whole selection fail |
| Provinces.SelectSinglesDistinct | Assets/Scripts/Map/VoronoiGenerator.cs:147-149 | When all key-minimal tiles differ, DetectRegions' tail returns the provinces stably sorted by the key of their key-minimal tile |
| Provinces.SelectSinglesShared | Assets/Scripts/Map/VoronoiGenerator.cs:147-149 | Two provinces with the same key-minimal tile make the tail fail |
| Provinces.SelectSinglesCorrect | Assets/Scripts/Map/VoronoiGenerator.cs:147-149 | The tail succeeds exactly when the key-minimal tiles are pairwise distinct, and then its result is the provinces stably sorted by the key of that tile (ascending key order, one province per seed, a permutation of the fills) |
| Provinces.SelectSinglesInGrid | Assets/Scripts/Map/VoronoiGenerator.cs:147-149 | The tail only returns provinces it was given, so their tiles stay on the grid |
| Provinces.LastOwner | Assets/Scripts/Map/VoronoiGenerator.cs:167 | After a series of fills a tile belongs to the id of some fill that holds it, or keeps its earlier owner |
| Provinces.OwnersAfterSnoc | Assets/Scripts/Map/VoronoiGenerator.cs:167 | One more fill gives its tiles to its id and leaves every other tile's owner as it was |
| Provinces.LastOwnerUnowned | Assets/Scripts/Map/VoronoiGenerator.cs:177 | A tile that still has no province after the fills was unowned before them and lies in none of them |
| Continents.OnOuterRing | Assets/Scripts/Map/VoronoiGenerator.cs:190 | A grid tile has x = 0, y = 0, x = Width-1 or y = Height-1 exactly when it lies outside the grid shrunk by one tile on every side |
| Continents.Inland | Assets/Scripts/Map/VoronoiGenerator.cs:190 | The `Where` filter: a province is kept exactly when it is in `_regions` and has no tile with x = 0, y = 0, x = Width-1 or y = Height-1 |
| Continents.StartDictionary | Assets/Scripts/Map/VoronoiGenerator.cs:191 | `ToDictionary` keyed by each province's first tile fails exactly when two inland provinces share a first tile; otherwise its keys are the first tiles and each maps to its province |
| Continents.DuplicateSnoc | Assets/Scripts/Map/VoronoiGenerator.cs:191 | Adding one more province to the dictionary fails exactly when its first tile is already a key |
| Continents.QuotaCount | Assets/Scripts/Map/VoronoiGenerator.cs:194-209 | Without an exception the loop converts at most as many provinces as there are, and at most `MajorCountries * |ProvincesMajorCountries|` when `MajorCountries >= 0`; it stops only at one of these two bounds |
| Continents.ContinentsPlan | Assets/Scripts/Map/VoronoiGenerator.cs:189-210 | What the quota pass does. It converts an initial run of the inland provinces, and only inland ones. It fails with a duplicate key exactly when two inland provinces share a first tile, and then converts none. It fails with division by zero exactly when the quota is 0 while provinces and countries remain, and then converts one. Otherwise it stops only when provinces or quota run out, and converts none when `MajorCountries` is 0 |
| Continents.CoveredPrefix | Assets/Scripts/Map/VoronoiGenerator.cs:202-204 | Converting one more province adds exactly its tiles to the converted area |
| Continents.QuotaStep | Assets/Scripts/Map/VoronoiGenerator.cs:208-209 | `++count % ProvincesMajorCountries == 0` happens exactly when `count / |ProvincesMajorCountries|` goes up by one, for either sign of the divisor |
| Generator.VoronoiGenerator.constructor | Assets/Scripts/Map/VoronoiGenerator.cs:74-81 | A fresh map: every tile is Water and has no province, there are no regions, and the dimensions, neighbours, lines and quotas are as given |
| Generator.VoronoiGenerator.FillRegion | Assets/Scripts/Map/VoronoiGenerator.cs:151-183 | The flood fill terminates and returns exactly the tiles of the reference fill `Flood`, in the order taken. The tiles start with the seed, which is added whatever its owner. They have no repeats and stay on the grid. Every later tile had no province before and neighbours an earlier tile that is not on a border line. Every neighbour of a non-border tile is in the province or was owned before. Exactly the added tiles change owner, to this province |
| Generator.VoronoiGenerator.FillStep | Assets/Scripts/Map/VoronoiGenerator.cs:156-181 | One pop takes the top of the stack. A tile already in the province is skipped, and the stack loses its top (158-160). A new tile is appended, and the stack becomes the rest plus nothing for a border tile, or plus exactly its unowned neighbours after the tile was given to the province. The step keeps the fill invariant and the reference fill's result |
| Generator.VoronoiGenerator.FreshNeighbours | Assets/Scripts/Map/VoronoiGenerator.cs:177-178 | The neighbours that are on the grid, not taken yet and unowned at the start, in neighbour order |
| Generator.VoronoiGenerator.FloodFills | Assets/Scripts/Map/VoronoiGenerator.cs:151-183 | From any state of the loop invariant, the reference fill finishes with a flood fill: start first, no repeats, each later tile unowned before and next to an earlier non-border tile, closed under neighbours of non-border tiles |
| Generator.VoronoiGenerator.FloodFromFills | Assets/Scripts/Map/VoronoiGenerator.cs:151-183 | The reference fill from a grid tile is a flood fill from it |
| Generator.VoronoiGenerator.FloodTake | Assets/Scripts/Map/VoronoiGenerator.cs:167-180 | Taking a new tile and pushing what the reference fill pushes keeps the loop invariant |
| Generator.VoronoiGenerator.UnownedIsFresh | Assets/Scripts/Map/VoronoiGenerator.cs:177 | Once the fill's tiles belong to the province, the neighbours without a province are exactly those that were unowned at the start and are not yet taken |
| Generator.FloodTakesLastPushedFirst | Assets/Scripts/Map/VoronoiGenerator.cs:153-158 | Last in, first out: in a row of three unowned tiles, the fill from the middle takes (1,0), then (2,0), then (0,0) |
| Generator.VoronoiGenerator.FillSkip | Assets/Scripts/Map/VoronoiGenerator.cs:158-160 | Popping a tile the province already holds keeps the fill invariant |
| Generator.VoronoiGenerator.AddTile | Assets/Scripts/Map/VoronoiGenerator.cs:167-180 | Adding a new tile appends it and gives it to the province. The stack is unchanged for a border tile, and otherwise gains exactly its neighbours that have no province afterwards, in neighbour order. The fill invariant is kept |
| Generator.VoronoiGenerator.FillAdd | Assets/Scripts/Map/VoronoiGenerator.cs:167-180 | The fill invariant holds after a new tile is appended and its unowned neighbours (none for a border tile) are pushed |
| Generator.VoronoiGenerator.FillDone | Assets/Scripts/Map/VoronoiGenerator.cs:156 | When the stack is empty, the loop invariant gives the fill's specification |
| Generator.VoronoiGenerator.Unowned | Assets/Scripts/Map/VoronoiGenerator.cs:177 | A position is kept exactly when it is listed and its tile has no province |
| Generator.VoronoiGenerator.PushUnowned | Assets/Scripts/Map/VoronoiGenerator.cs:172-180 | The neighbour scan appends, in neighbour order, exactly the neighbours that have no province |
| Generator.VoronoiGenerator.DetectRegions | Assets/Scripts/Map/VoronoiGenerator.cs:134-149 | The seeds are taken in stable key order. Fill i is province "Region i" with the next fresh id: the reference fill from seed i over the owners the earlier fills left, and so a flood fill. The owners end as the fills leave them. A seed off the grid stops the run with TileMissing. Otherwise the result is the group-by/sort/single tail applied to the fills, and its provinces lie on the grid |
| Generator.VoronoiGenerator.FillSeeds | Assets/Scripts/Map/VoronoiGenerator.cs:136-146 | The `Select` over the sorted seeds: instantiates and fills each in order, stopping at the first seed that has no tile |
| Generator.VoronoiGenerator.FillSeed | Assets/Scripts/Map/VoronoiGenerator.cs:140-145 | Filling the next seed as province id, named by its index, extends the description of the fills, and the owners become those the fills leave |
| Generator.VoronoiGenerator.SeedFillsSnoc | Assets/Scripts/Map/VoronoiGenerator.cs:136-146 | Appending the next seed's fill keeps the description of all fills so far |
| Generator.VoronoiGenerator.LaterFillAvoidsEarlier | Assets/Scripts/Map/VoronoiGenerator.cs:172-180 | Apart from its start, a later fill claims no tile of an earlier fill and no tile owned before DetectRegions |
| Generator.VoronoiGenerator.StoreRegions | Assets/Scripts/Map/VoronoiGenerator.cs:65 | `_regions = DetectRegions(points)`: everything DetectRegions promises about the fills, the owners, the created provinces and the result; the regions become the result on success and stay as they were when detection throws |
| Generator.VoronoiGenerator.SetContinents | Assets/Scripts/Map/VoronoiGenerator.cs:185-211 | The pass ends with the error of ContinentsPlan. Exactly the tiles of the provinces it converts become Plain, and every other tile keeps its terrain |
| Generator.VoronoiGenerator.ConvertInland | Assets/Scripts/Map/VoronoiGenerator.cs:193-210 | The foreach with its `break` converts the first QuotaCount inland provinces. With a zero quota it converts one and throws, unless no province or country is left. Exactly their tiles become Plain |
| Generator.VoronoiGenerator.SetPlain | Assets/Scripts/Map/VoronoiGenerator.cs:202-206 | Every listed tile becomes Plain and no other tile changes |

## Left out

- Unity lifecycle and presentation are not modelled: `Start` apart from the `_regions` assignment, `CreateMap`, `CreateTile`, `SkinMap`, colours and transforms. They only build GameObjects and paint them.
- Voronoi generation (`VoronoiFactory.CreateVoronoiMap`) and `HexMap.DrawLine` are not part of this model. The border-line set is a constructor input.
- Seed points are integer positions. The source sorts them by their double coordinates and looks tiles up through `XInt`/`YInt`. Floating point is not modelled.
- `province.DrawBorder` is not modelled; it only draws.
- `Province.AddHexTile`, `HexTiles.Contains`, `HexMap.GetTile`, `HexMap.GetNeighboursWithDirection`, `CountDigits` and the equality of `Position` are not part of this model. Their assumed contracts are:
  - `AddHexTile` appends the tile and sets the tile's province;
  - `GetTile` returns null exactly off the grid;
  - the neighbours of a tile are tiles of the grid (so they are never null);
  - `CountDigits` counts decimal digits;
  - `Position` compares by value, so `_lines.Contains(tile.Position)` (line 169) and the grouping by position (line 147) compare coordinates.
- Neighbour symmetry is not stated. `GetNeighbours` has no implementation to check it against. The odd-row instance `Grid.OddRowNeighbours` is one concrete choice.
- `Debug.LogError` calls are not modelled. The null dereference that follows the missing-seed log is modelled as an error result.
- SetContinents enumerates dictionary keys. Their order is taken to be insertion order, which is the filtered `_regions` order. .NET does not promise this.
- `_landRegionCount` is computed and never read, so it is not modelled.
- Ordering.CompositeKey: does not model 32-bit wrap-around of `x * CountDigits(Height) * 10 + y`, because the grid sizes in use are far below the overflow range.
- Continents.QuotaCount: does not model 32-bit wrap-around of `count` or of the `majorCountries` countdown when MajorCountries is negative, for the same reason.
- Terrain kinds other than Water and Plain are not modelled; the pipeline only writes Plain.
- Province objects are modelled by ids. A province instantiated for a seed with no tile uses up an id but is not returned.
- Full coverage of the grid by provinces is not proved. It depends on the Voronoi border lines, which are not modelled.
