# OSM transformation pipeline — a Dafny model

This project models the computational core of an OpenStreetMap extraction
pipeline written in Python on top of ArcPy:

- **Clip pipeline** (`1osm_clip_pipeline.py`):
  - the bounding box of an area of interest is cut into a row-major grid of tiles;
  - for each tile an Overpass QL query is built and posted with bounded retries and a geometric back-off;
  - the Overpass elements of the response become point, line and polygon features.
    Nodes are indexed by id. Ways are classified as lines or polygons.
    Multipolygon relations have their member ways stitched greedily into closed rings.
- **Theme splitter** (`2osm_gdb_fc.py`):
  - the `tags` text column is parsed (JSON, Python literal, or delimited `k=v` tokens);
  - every row is classified into themes by a rule table;
  - rows are copied into one feature class per theme, under a cap of 64 classes per layer;
  - class names are sanitised.
- **Tag inventory** (`osm_tag.py`): counts tag keys, or `key=value` pairs, per layer and over all layers, and writes a report section per counter.
- **GeoJSON post-processing** (`3osm_gdb_geojson.py`):
  - selects export folders named `FID<number>` within a batch range;
  - validates an exported file into a status, a feature count and the sorted geometry types;
  - flattens the `tags` text property into one `tags_<key>` property per tag.

Modules:

| file | module | models |
|---|---|---|
| base.dfy | `Base` | `Option`, `Result` |
| text.dfy | `Text` | the Python string operations the core relies on: `strip`, `lower`/`upper`, `join`, `split`, `str(int)`, `int(str)`, `sorted` on strings |
| tiler.dfy | `Tiler` | `bbox_of_geom`, `tiles_from_bbox` |
| query.dfy | `OverpassQuery` | `build_overpass_query_geom`, `TAG_QUERIES` |
| fetch.dfy | `Fetch` | `fetch_tile_light` |
| stitch.dfy | `Rings` | `coords_closed`, `stitch_rings` |
| stitch_cycle.dfy | `RingCycles` | what `stitch_rings` assembles from apart fragments and from one loop of fragments |
| elements.dfy | `OverpassElements` | `features_from_overpass`, `is_area_tag`, `tags_safestr` |
| tag_text.dfy | `TagText` | `parse_tags` (identical in `2osm_gdb_fc.py` and `osm_tag.py`) |
| themes.dfy | `Themes` | `sanitize_name`, `THEMES`, `classify_themes`, `split_layer_by_themes` |
| tag_inventory.dfy | `TagInventory` | `count_tags_in_layer`, `write_counter_section`, the counting loop of `main` |
| geojson_post.dfy | `GeoJsonPost` | `is_fid_folder`, the batch filter of `main`, `validate_geojson`, `fix_geojson_tags` |

Each loop of the source is a `method` with its own loop. It is proved equal to
a specification function written as a fold over the input. The properties the
source promises are lemmas about those functions.

`is_fid_folder` uses Python's `$`, which also matches before a final line
break, so `"FID12\n"` is a batch folder name; the model follows the code.

Inputs that come from outside the core are parameters of the model:

- The HTTP round trip is `post: nat -> Reply<D>`, the outcome of the k-th attempt.
- `time.sleep` is recorded as the sequence of requested delays.
- Python's float rendering inside the query is `num: real -> string`.
- `json.dumps` is `dumps`.
- `json.loads` and `ast.literal_eval` are decoders `string -> Option<...>`.

## Model

| member | source | states |
|---|---|---|
| Tiler.BBoxOfGeomContains | 1osm_clip_pipeline.py:141-147 | with a non-negative pad the box contains the extent and is 2*pad taller and wider; a positive pad gives a proper box even for a single point |
| Tiler.TilesFromBBox | 1osm_clip_pipeline.py:150-162 | the nested cursor loops produce exactly `TileGrid(b, step)`, latitude rows outside and longitude cells inside |
| Tiler.SpansPartition | 1osm_clip_pipeline.py:153-161 | the cursor positions of one loop: none when lo >= hi; otherwise they start at lo and end at hi, each span starts where the previous ends, full spans have width `step`, and every span is non-empty, inside [lo, hi] and at most `step` wide |
| Tiler.SpansOrdered | 1osm_clip_pipeline.py:154-161 | a later span starts at or after the end of an earlier one |
| Tiler.SpansCover | 1osm_clip_pipeline.py:154-161 | every point of [lo, hi] lies in some span |
| Tiler.SpansEmpty | 1osm_clip_pipeline.py:154 | a loop produces no span if and only if lo >= hi |
| Tiler.GridAt | 1osm_clip_pipeline.py:153-161 | tile number r*m + c is latitude span r crossed with longitude span c (row-major layout) |
| Tiler.TileIndex | 1osm_clip_pipeline.py:153-161 | every tile index splits into a row and a column of the grid |
| Tiler.TileBoundsAt | 1osm_clip_pipeline.py:155-159 | each tile satisfies s <= a < c <= n, w <= b < d <= e, and its height and width are at most `step` |
| Tiler.TilesInsideBox | 1osm_clip_pipeline.py:150-162 | a degenerate box (s >= n or w >= e) yields no tiles; every tile of any box lies inside it and is at most `step` on a side |
| Tiler.TilesShape | 1osm_clip_pipeline.py:153-161 | a proper box yields a non-empty grid of (number of latitude spans) times (number of longitude spans) tiles |
| Tiler.TilesCorners | 1osm_clip_pipeline.py:153-161 | the first tile starts at (s, w) and the last one ends at (n, e) |
| Tiler.TilesRowStep | 1osm_clip_pipeline.py:157-160 | within a row each tile starts at its western neighbour's east edge, on the same latitudes |
| Tiler.TilesRowEnd | 1osm_clip_pipeline.py:157-158 | every row ends at the east edge of the box |
| Tiler.TilesRowAbove | 1osm_clip_pipeline.py:154-161 | each row starts at the north edge of the row below it |
| Tiler.TilesCoverBox | 1osm_clip_pipeline.py:150-162 | no gaps: every point of the box lies in some tile |
| Tiler.TilesDisjoint | 1osm_clip_pipeline.py:150-162 | no overlap: of two tiles, the later one lies north of or east of the earlier one, touching at most along an edge |
| Tiler.RowMajorOrder | 1osm_clip_pipeline.py:153-161 | an earlier grid position is an earlier row, or the same row further west |
| OverpassQuery.SelectorLines | 1osm_clip_pipeline.py:171-180 | one line per selector, in order, each the selector bound to `(s,w,n,e)` |
| OverpassQuery.QueryIsLines | 1osm_clip_pipeline.py:165-203 | the stripped template is exactly its lines joined by line breaks: header, `(`, the node/way lines, the relation lines, `);`, the recursion clause if present, the output statement |
| OverpassQuery.TemplateIsLines | 1osm_clip_pipeline.py:184-201 | each triple-quoted template is its lines between two line breaks; an empty node/way union leaves an empty line |
| OverpassQuery.QueryLinesRoundTrip | 1osm_clip_pipeline.py:165-203 | when no selector and no rendered coordinate holds a line break, splitting the query on line breaks gives back exactly its lines |
| OverpassQuery.QueryFrame | 1osm_clip_pipeline.py:185-201 | the query begins with `[out:json][timeout:T];` and ends with `out body geom;` |
| OverpassQuery.LinesShape | 1osm_clip_pipeline.py:184-201 | no line holds a line break, and the recursion clause is a line if and only if there are relation lines |
| OverpassQuery.QueryRecursesIffRelations | 1osm_clip_pipeline.py:178-191 | `(._;>>;);` is a line of the query if and only if the `rel_polys` group is non-empty |
| OverpassQuery.JoinEmptyIff | 1osm_clip_pipeline.py:181-184 | a join of non-empty lines is empty if and only if there are no lines (the `if rel_union` test) |
| OverpassQuery.HeaderSingle | 1osm_clip_pipeline.py:186 | the header is one line |
| OverpassQuery.ConfiguredRelations | 1osm_clip_pipeline.py:75-82 | the configured table has six relation selectors, none with a line break |
| OverpassQuery.ConfiguredNodeWaySingle | 1osm_clip_pipeline.py:55-73 | no configured point, line or polygon selector holds a line break |
| OverpassQuery.ConfiguredQueryRecurses | 1osm_clip_pipeline.py:54-83 | with the configured selectors every tile query asks for relation members |
| Fetch.BackoffIncreasing | 1osm_clip_pipeline.py:226 | the back-off grows strictly from one failure to the next |
| Fetch.FirstSuccessSpec | 1osm_clip_pipeline.py:219-221 | the attempt found is the earliest successful one among 1..MAX_RETRIES, and none is found exactly when every attempt fails |
| Fetch.PostWithRetries | 1osm_clip_pipeline.py:217-227 | returns the first successful response unchanged after one POST per attempt up to it; sleeps once after every failure, the last one included; after MAX_RETRIES failures it returns the error carrying the last failure's text |
| Fetch.FetchTileLight | 1osm_clip_pipeline.py:215-227 | every POST sends the query built once with OVERPASS_TIMEOUT for the tile, with HTTP_TIMEOUT_SEC, and the outcome is the one of `PostWithRetries` |
| Fetch.WorstCaseWait | 1osm_clip_pipeline.py:217-227 | a tile whose five attempts all fail sleeps 2.0, 3.6, 6.48, 11.664 and 20.9952 seconds, 44.7392 in all |
| Rings.Frags | 1osm_clip_pipeline.py:269 | every fragment is one of the member ways and has at least two points; there are no more fragments than ways |
| Rings.FragsKept | 1osm_clip_pipeline.py:269 | no member way with at least two points is dropped |
| Rings.FragsAppend | 1osm_clip_pipeline.py:269 | the selection distributes over concatenation, so it is the order-preserving filter of the ways with at least two points |
| Rings.FragsAll | 1osm_clip_pipeline.py:269 | when every member way has at least two points the fragments are the ways themselves |
| Rings.Attach | 1osm_clip_pipeline.py:289-305 | a fragment attaches exactly when one of its ends meets one of the stale endpoints `cs`, `ce`, and it adds its points less the shared one |
| Rings.Sweep | 1osm_clip_pipeline.py:283-305 | one pass of the `for j` loop only marks fragments as used, sets `extended` exactly when it marked one, and grows the chain by no more than the points it consumed |
| Rings.Grow | 1osm_clip_pipeline.py:281-305 | the `while extended` loop ends, only marks fragments used, and grows the chain by no more than the points it consumed |
| Rings.StitchRings | 1osm_clip_pipeline.py:263-310 | the loop over the `used` flag array computes exactly `Stitch` |
| Rings.SweepOnce | 1osm_clip_pipeline.py:283-305 | one pass of the `for j` loop over the flag array computes exactly `Sweep`, endpoints read once before the pass |
| Rings.StitchClosed | 1osm_clip_pipeline.py:273-308 | every ring returned has at least four points and ends within Eps of where it starts |
| Rings.StitchBudget | 1osm_clip_pipeline.py:269-305 | each fragment is consumed by at most one chain, so the rings together hold no more points than the member ways |
| Rings.StitchEmpty | 1osm_clip_pipeline.py:269-310 | no member way with two points or more gives no rings |
| Rings.StitchSingle | 1osm_clip_pipeline.py:276-308 | a single way is the only ring exactly when it closes on its own |
| RingCycles.StitchApart | 1osm_clip_pipeline.py:263-310 | fragments that pairwise share no endpoint, none closed on its own, give no rings: nothing is ever joined |
| RingCycles.StitchCycle | 1osm_clip_pipeline.py:263-310 | at least three fragments forming one loop in order, each ending where the next starts and no two starting at the same point, come out as exactly one ring (`RingOf`): closed, one point fewer per join than the fragments hold together, holding every point of every fragment and no other point |
| RingCycles.AttachPoints | 1osm_clip_pipeline.py:289-301 | attaching a fragment at an endpoint that lies in the chain keeps every chain point, adds every point of the fragment, and nothing else |
| RingCycles.SweepHolds | 1osm_clip_pipeline.py:283-305 | one pass of the `for j` loop keeps every point of every used fragment in the chain and adds only points of fragments |
| RingCycles.GrowHolds | 1osm_clip_pipeline.py:281-305 | the `while extended` loop keeps every point of every used fragment in the chain and adds only points of fragments |
| Rings.StaleEndpoints | 1osm_clip_pipeline.py:284-301 | because `cs`, `ce` are not refreshed within a sweep, the fragments [a,b], [b,c], [c,a] stitch to [c,a,b,c], not [a,b,c,a] |
| OverpassElements.IndexNodes | 1osm_clip_pipeline.py:317-319 | the first loop computes `NodeIndex` |
| OverpassElements.NodeIndexSpec | 1osm_clip_pipeline.py:317-319 | an id is indexed exactly when some node with both coordinates has it, and it maps to the coordinates of the last such node |
| OverpassElements.ScanElements | 1osm_clip_pipeline.py:321-357 | the second loop computes the points, the way index (with insertion order) and the kept relations |
| OverpassElements.PointOfIff | 1osm_clip_pipeline.py:331-342 | an element adds a point exactly when it is a node with tags whose id is indexed; the point is at the indexed position with osmid `str(id)` and type "node" |
| OverpassElements.PointsShape | 1osm_clip_pipeline.py:331-342 | at most one point per element, each of type "node" at an indexed position |
| OverpassElements.GeomCoords | 1osm_clip_pipeline.py:347 | a point is kept exactly when some geometry entry carries it with both coordinates; when every entry is complete, the i-th point is the i-th entry |
| OverpassElements.NodeCoords | 1osm_clip_pipeline.py:349-350 | a point is kept exactly when some id of the list resolves to it in the node index; nothing is lost exactly when every id resolves, and then the i-th point is `nodes[ids[i]]` |
| OverpassElements.WaysValid | 1osm_clip_pipeline.py:344-352 | the insertion order lists exactly the indexed ids, each once, and every indexed way has at least two coordinates |
| OverpassElements.WaysSpec | 1osm_clip_pipeline.py:344-352 | an id is indexed exactly when some way element of that id has at least two coordinates, and it maps to the tags, coordinates and metadata of the last such element |
| OverpassElements.WayClosedIff | 1osm_clip_pipeline.py:366 | the exact-equality test adds nothing to `coords_closed` |
| OverpassElements.WayClassification | 1osm_clip_pipeline.py:360-376 | a kept way yields one feature: a polygon over its coordinates iff it is closed (at least four points) and area-tagged, otherwise a line; osmid `str(id)`, type "way" |
| OverpassElements.EmitWays | 1osm_clip_pipeline.py:360-376 | the loop over the way index computes `WayLines` and `WayPolys` |
| OverpassElements.WaysOneEach | 1osm_clip_pipeline.py:360-376 | every kept way lands in exactly one of the two lists |
| OverpassElements.RelsSpec | 1osm_clip_pipeline.py:354-357 | every kept relation is an element of the input and a multipolygon relation with area tags, and every such element is kept |
| OverpassElements.RelsAppend | 1osm_clip_pipeline.py:354-357 | the selection distributes over concatenation, so the kept relations come in input order |
| OverpassElements.AddMissingTags | 1osm_clip_pipeline.py:398-400 | the union keeps its values and gains the member's keys it lacked |
| OverpassElements.CollectUnion | 1osm_clip_pipeline.py:386-400 | the member tag union holds key k exactly when some resolved member way has it, with the value of the first such way |
| OverpassElements.MergedTagsPrecedence | 1osm_clip_pipeline.py:402-404 | the relation's own tags win; other keys come from the first member way that has them |
| OverpassElements.RingPolygons | 1osm_clip_pipeline.py:412-419 | one polygon per outer ring, each holding every inner ring as a hole, type "relation" |
| OverpassElements.RelationPolygons | 1osm_clip_pipeline.py:379-419 | a kept relation yields one polygon per stitched outer ring (none without one), each closed and holding every stitched inner ring, with osmid `str(id)` |
| OverpassElements.AssembleRelation | 1osm_clip_pipeline.py:380-419 | the body of the relation loop computes `RelFeatures` |
| OverpassElements.EmitRelations | 1osm_clip_pipeline.py:379-419 | the relation loop computes `RelPolys` |
| OverpassElements.FeaturesFromOverpass | 1osm_clip_pipeline.py:230-421 | the whole function computes `Features`: no features without elements, otherwise points, lines, and way polygons followed by relation polygons |
| TagText.FirstSep | 2osm_gdb_fc.py:168 | the first `;` or `,`, or none when there is no separator |
| TagText.SplitOnce | 2osm_gdb_fc.py:171 | `t.split(c, 1)`: the left part holds no `c`, and the parts with `c` rebuild `t` |
| TagText.ParseToken | 2osm_gdb_fc.py:169-178 | a pair is produced only with a non-empty key, and key and value are stripped |
| TagText.ReadToken | 2osm_gdb_fc.py:169-178 | the body of the fallback loop for one token computes `ParseToken` |
| TagText.ReadTokens | 2osm_gdb_fc.py:167-179 | the fallback loop computes the fold of the tokens, a later key overwriting an earlier one |
| TagText.ParseDelimited | osm_tag.py:83-100 | the delimited fallback computes `DelimitedTags` |
| TagText.ParseTagsEmpty | osm_tag.py:61-65 | a missing, blank or null-like cell ("null", "none", "nan" in any case) gives no tags |
| TagText.FromEntriesLast | osm_tag.py:68-71 | a decoded dictionary maps each key to the value of its last entry, None read as "" |
| TagText.FromEntriesKeys | 2osm_gdb_fc.py:153-156 | only keys of decoded entries appear |
| TagText.TokenRoundTrip | 2osm_gdb_fc.py:170-178 | a stripped key without `=` and a stripped value read back from `k=v` as the pair (k, v) |
| TagText.BareKey | 2osm_gdb_fc.py:174-178 | a token with neither `=` nor `:` is a key meaning "true" |
| TagText.ColonToken | 2osm_gdb_fc.py:170-178 | without `=` and `://`, a stripped key free of `:` followed by `:` and a stripped value reads back as the pair (k, v) |
| TagText.UrlToken | 2osm_gdb_fc.py:170-178 | a stripped token without `=` that holds `://` is not split at its `:` and reads as a key meaning "true" |
| TagText.TokensJoin | 2osm_gdb_fc.py:168 | the split undoes a `;` join when no piece holds a separator or starts with whitespace |
| TagText.FoldRender | 2osm_gdb_fc.py:167-179 | reading rendered `k=v` tokens gives the pairs, a repeated key taking its last value |
| TagText.DelimitedRoundTrip | 2osm_gdb_fc.py:166-179 | writing well-formed pairs as `k=v;k2=v2` and reading the text back gives the pairs, a repeated key taking its last value |
| Themes.ReplaceRuns | 2osm_gdb_fc.py:136 | after the substitution only word characters, `-` and `.` remain, and the text is no longer |
| Themes.ReplaceRunsName | 2osm_gdb_fc.py:136 | the substitution leaves a valid name unchanged |
| Themes.ReplaceRunsSplice | 2osm_gdb_fc.py:136 | a valid prefix is kept and the maximal run of characters outside the class after it becomes exactly one `_` |
| Themes.SanitizeShape | 2osm_gdb_fc.py:134-137 | the result fits `limit`, is non-empty when `limit` is positive, and holds only word characters, `-` and `.` |
| Themes.SanitizeIdempotent | 2osm_gdb_fc.py:134-137 | sanitising a sanitised name changes nothing |
| Themes.KeyValueHit | 2osm_gdb_fc.py:217-226 | the `key_values` loop hits exactly when a listed key is present with an allowed value (or "*") |
| Themes.ClassifyThemes | 2osm_gdb_fc.py:208-231 | the rule loop computes `Classification` |
| Themes.ClassificationSpec | 2osm_gdb_fc.py:211-231 | the result is never empty; it holds "Unclassified" exactly when no rule matched, and then nothing else; otherwise it holds exactly the names of the matching themes |
| Themes.ConfiguredFallback | 2osm_gdb_fc.py:32-109 | the configured table has fifteen rules, none named "Unclassified" |
| Themes.EmptyRowFallback | 2osm_gdb_fc.py:256-263 | a row without tags goes to the fallback class only |
| Themes.RowNamesNonEmpty | 2osm_gdb_fc.py:256-263 | every row goes to at least one feature class |
| Themes.RowThemesOf | 2osm_gdb_fc.py:254-256 | a row's themes are its classification, or the fallback alone when it has no tags |
| Themes.UnionUpToMono | 2osm_gdb_fc.py:250-277 | the classes needed only grow as rows are read |
| Themes.CopyRow | 2osm_gdb_fc.py:258-277 | the theme loop of one row creates each missing class while fewer than 64 exist and copies the row into each class; it fails exactly when the new classes would pass the cap |
| Themes.SplitLayerByThemes | 2osm_gdb_fc.py:233-283 | no tag field gives 0 and nothing else; otherwise it succeeds exactly when all the classes the rows need number at most 64, returning how many were created, having created exactly those and copied every row into each of its classes; otherwise it fails with the cap message, no more than 64 classes created |
| TagInventory.ItemsRemove | osm_tag.py:113-116 | the items a row adds do not depend on the order its keys are visited |
| TagInventory.ItemsSize | osm_tag.py:113-116 | a row adds one item per tag, in either mode |
| TagInventory.ItemsKeys | osm_tag.py:115-116 | in key mode a row adds each of its keys once |
| TagInventory.ItemsPairs | osm_tag.py:113-114 | in pair mode the items are exactly `k=v` for the row's tags |
| TagInventory.AddItems | osm_tag.py:114-116 | `counter.update` adds the row's items to the counter |
| TagInventory.CountTagsInLayer | osm_tag.py:102-117 | the row loop computes `LayerCount`: the sum of every row's items, a row without tags adding none, pairs when the mode is "KEY_VALUES" in any case |
| TagInventory.LayerTotal | osm_tag.py:109-122 | a layer's total occurrences is the number of tags over its rows |
| TagInventory.EmptyRowAddsNothing | osm_tag.py:110-112 | a row without tags leaves the counter as it was |
| TagInventory.CountLayers | osm_tag.py:153-169 | one counter per layer, empty for a layer without a tag field, and the overall counter is their multiset sum |
| TagInventory.SumTotals | osm_tag.py:153-169 | overall occurrences are the sum over layers, and every item of a layer is in the overall counter |
| TagInventory.WriteCounterSection | osm_tag.py:119-132 | the heading; "Unique items" the number of distinct items; "Total occurrences" the sum of counts; no item lines when unique is 0; otherwise a header line and min(top_n, unique) distinct items of the counter, each with its count, most frequent first, none left out counted more often than one listed |
| TagInventory.MostCommon | osm_tag.py:128-130 | `most_common()` cut to `want` items: exactly `want` distinct items of the counter, counts non-increasing, and no item left out counted more often than a listed one |
| TagInventory.MostFrequent | osm_tag.py:128 | a non-empty set of items has one counted at least as often as every other, so a most frequent item can always be taken next |
| Text.Strip | 2osm_gdb_fc.py:150 | the result has no leading or trailing whitespace and is no longer than the input |
| Text.StripNewlines | 1osm_clip_pipeline.py:185-201 | `.strip()` removes the template's first and last line breaks |
| Text.SplitJoin | 3osm_gdb_geojson.py:61 | splitting a join on its separator gives back the parts when no part holds it |
| Text.NatToStringRoundTrip | 1osm_clip_pipeline.py:338 | `str(n)` is a non-empty run of digits whose value is n |
| Text.IntToStringInjective | 1osm_clip_pipeline.py:338 | distinct ids give distinct osmid texts |
| Text.ParseIntRoundTrip | 3osm_gdb_geojson.py:236 | `int(str(i)) == i` |
| Text.LexLessTotal | 3osm_gdb_geojson.py:61 | the order `sorted` uses on strings is total |
| Text.LexLessTransitive | 3osm_gdb_geojson.py:61 | that order is transitive |
| Text.SortedUnique | 3osm_gdb_geojson.py:61 | two strictly sorted lists of the same strings are equal |
| Text.InsertSorted | 3osm_gdb_geojson.py:61 | inserting a new string into a strictly sorted list keeps it strictly sorted and adds exactly that string |
| Text.SortStrings | 3osm_gdb_geojson.py:61 | `sorted(list(s))` is the unique strictly sorted list of the elements of `s` |
| GeoJsonPost.FidNumber | 3osm_gdb_geojson.py:25-27 | a number is read exactly when the name is "FID" in any case, then one or more digits, then at most one final line break |
| GeoJsonPost.FolderAction | 3osm_gdb_geojson.py:233-242 | corrected batch filter: never raises; converts exactly the directories with a batch name numbered within 100..200; ignores exactly the entries that are not directories or have a non-batch name |
| GeoJsonPost.FolderActionAsWritten | 3osm_gdb_geojson.py:233-242 | the filter as written raises only on a directory whose name passed the batch-name test |
| GeoJsonPost.UpperPrefixAgrees | 3osm_gdb_geojson.py:236 | with the prefix in capitals the written and corrected readings agree |
| GeoJsonPost.LowerCaseCrash | 3osm_gdb_geojson.py:233-240 | "fid150" passes the batch-name test, the written `int(...)` raises on it as a directory, and the corrected filter converts it |
| GeoJsonPost.CollectionCheck | 3osm_gdb_geojson.py:49-50 | no early answer exactly for a feature collection; a dictionary of another type gives ("NOT_FEATURE_COLLECTION", 0, "") |
| GeoJsonPost.CollectGeomTypes | 3osm_gdb_geojson.py:55-59 | the feature loop computes `GeomTypes` |
| GeoJsonPost.GeomTypesMembers | 3osm_gdb_geojson.py:55-59 | a geometry type is collected exactly when some feature has a truthy geometry carrying it |
| GeoJsonPost.GeomTypesRaised | 3osm_gdb_geojson.py:56-59 | once a feature raises, the whole loop raises |
| GeoJsonPost.ValidateGeoJson | 3osm_gdb_geojson.py:37-66 | the function as written computes `Validate` |
| GeoJsonPost.SummaryShape | 3osm_gdb_geojson.py:40-66 | five statuses; "OK" exactly when there are features; MISSING, INVALID_JSON and NOT_FEATURE_COLLECTION report no types |
| GeoJsonPost.SummaryCount | 3osm_gdb_geojson.py:53-66 | for a feature collection that validates without raising, the count is `len(features)`, "EMPTY" exactly when the list is empty and "OK" exactly when it is not |
| GeoJsonPost.TypesRoundTrip | 3osm_gdb_geojson.py:55-61 | when no type holds a comma, splitting the reported types on commas gives the sorted distinct types |
| GeoJsonPost.Tagged | 3osm_gdb_geojson.py:113 | `tags_k` is five characters longer than k, gives back k, and is never "tags" |
| GeoJsonPost.FlattenedSpec | 3osm_gdb_geojson.py:111-116 | every tag k becomes property `tags_k`; "tags" is gone; every other property is kept with its value unless a tag overwrote it |
| GeoJsonPost.FlattenTags | 3osm_gdb_geojson.py:112-116 | the flattening loop computes `Flattened` |
| GeoJsonPost.FixFeatureInPlace | 3osm_gdb_geojson.py:100-118 | the body of the feature loop computes `FixFeature` |
| GeoJsonPost.FixFeatureKeeps | 3osm_gdb_geojson.py:103-118 | a feature without a string "tags" is unchanged |
| GeoJsonPost.FixAll | 3osm_gdb_geojson.py:99-118 | the loop succeeds exactly when every feature can be fixed, and then feature i of the result is the fixed feature i of the input |
| GeoJsonPost.FixAllRaised | 3osm_gdb_geojson.py:99-118 | once a feature raises, the whole loop raises |
| GeoJsonPost.FixGeoJsonTags | 3osm_gdb_geojson.py:86-124 | the function as written computes `FixDoc` |
| GeoJsonPost.FixDocUntouched | 3osm_gdb_geojson.py:89-97 | the file is left alone exactly when it is missing, does not decode, or is a dictionary that is not a feature collection |
| GeoJsonPost.FixDocIdempotent | 3osm_gdb_geojson.py:86-124 | fixing a file the fix has rewritten changes nothing more |

## Left out

- ArcPy plumbing is not modelled: geodatabases, feature classes and fields, cursors, Clip, Append, Project, RepairGeometry, FeaturesToJSON and the listing calls. This includes `create_fc`, `insert_rows`, `clip_append`, `clone_schema` and `detect_tag_field`. A row's insertion is recorded as a (row, class) copy. Whether a layer has a tag field is a boolean (theme splitter) or an `Option` (tag inventory).
- The `main` orchestration of each script is not modelled, apart from the FID batch filter and the overall counter of the inventory. This covers the AOI range, the MAX_TILES_PER_AOI cap, the inter-tile sleep, `MultipartToSinglepart` and the report file.
- `osm_gdb_combined.py` is not modelled: it only globs geodatabases and calls ArcPy.
- HTTP in `post_overpass` is the oracle `post`. The use of `OVERPASS_URL`, a name the configuration does not define, makes every real attempt fail; the model gives the oracle any outcome.
- Sleeping and logging are left out. Requested delays are returned as a sequence.
- Fetch.PostWithRetries: the raised `RuntimeError` is an `Err` whose text is the prefix plus the last failure's text. Python's exception-to-text rendering is the oracle's string.
- Floating point is modelled with `real`. Accumulated rounding in `lat + step` and in the back-off product is not covered. The `eps` test of `coords_closed` uses the exact tolerance 1e-9 over reals.
- Tiler.TilesFromBBox: requires `step > 0`. With `step <= 0` on a box with south < north and west < east, the source's cursor never reaches the bound and the loop does not end; the model does not describe that non-termination. The only call passes `TILE_DEG`, which is 0.25 (1osm_clip_pipeline.py:39 and 495).
- The listing of the batch directory (`os.listdir`) is left out; what `os.path.isdir` says of an entry is the parameter `isDir` of the folder filter.
- OverpassQuery.BuildQuery: the text of a coordinate is the parameter `num`, standing for Python's float formatting.
- `json.dumps`, `json.loads` and `ast.literal_eval` are parameters. A decoder returns a dictionary already rendered with `str`, or "not a dictionary", or failure. The dict comprehension over its entries is concrete.
- Python's Unicode `\w`, `\d` and `\s`, `str.lower`/`str.upper` and `re.IGNORECASE` are approximated by their ASCII behaviour.
- Rings.Stitch: that every loop is assembled is proved only for the fragments of one loop given in loop order with distinct junctions (RingCycles.StitchCycle); fragments of a loop in another order, reversed fragments and several loops at once are covered only by closedness, the point budget and StitchApart.
- The `try_close` helper of `stitch_rings` is folded into the ring test `CoordsClosed`.
- The `len(coords) < 2` check of the way loop (1osm_clip_pipeline.py:362) never fires, because only ways with two points are indexed. The model keeps the index invariant instead.
- Element ids are integers, and `str(eid)` is the decimal rendering of an integer. A node or way without an id is not modelled.
- TagInventory.WriteCounterSection: the order `most_common` gives among items of equal count (first insertion) is not modelled; the contract states that counts are non-increasing and that no item left out beats a listed one, not which of several equally frequent items come first. A negative `top_n` is not modelled.
- Themes.SanitizeName: a negative `limit` (a slice from the end) is not modelled; the limit is a `nat`.
- Themes.SplitLayerByThemes: Python iterates a row's theme set in hash order. When the cap is exceeded, which classes were created before the error depends on that order. The contract states only that they are among those needed, at most 64.
- GeoJsonPost.Validate: an exception escaping `validate_geojson` is the single outcome `Raises`, whatever its kind (unhashable geometry type, a non-string type in the join, iteration over a non-list). The same holds for `FixRaises` in the tag fixer.
- GeoJsonPost.FixGeoJsonTags: Python mutates each `props` dictionary in place. The model returns the new document instead, so aliasing between features sharing one dictionary is not captured.
- The GeoJSON write-back, the validation CSV and all other file I/O are left out.

## Findings

| source | as written | input that shows it | evidently intended | confidence | as-written member | corrected member |
|---|---|---|---|---|---|---|
| 3osm_gdb_geojson.py:236 | the batch number is read as `int(folder.replace("FID", ""))`, which removes only an upper-case prefix although `is_fid_folder` matches "FID" in any case | a folder named `fid150` | read the digits the pattern matched, so `fid150` is batch 150 and is converted | not executed | GeoJsonPost.LowerCaseCrash | GeoJsonPost.FolderAction |
