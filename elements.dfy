/**
 * `features_from_overpass` of the clip pipeline: the elements of an Overpass
 * response become point, line and polygon features. Nodes are indexed by id,
 * tagged nodes become points, ways with at least two resolved coordinates
 * become one line or one polygon each, and area-tagged multipolygon
 * relations become one polygon per stitched outer ring.
 * Each loop of the source is specified by a fold over the input, and the
 * method `FeaturesFromOverpass` runs the loops and is proved to compute
 * `Features`. ArcPy geometry objects are the datatype `Geometry`; the JSON
 * text of the tags (`json.dumps`) is the parameter `dumps`, whose `None`
 * stands for the exception that `tags_safestr` turns into "".
 */
module OverpassElements {
  import opened Base
  import opened Text
  import opened Rings

  type Tags = map<string, string>

  /** The five metadata fields copied from an element (`el.get(...)`). */
  datatype Meta = Meta(version: Option<int>, timestamp: Option<string>, changeset: Option<int>,
                       uid: Option<int>, user: Option<string>)

  /** One entry of a way's inline `geometry`; either coordinate may be absent. */
  datatype GeomPoint = GeomPoint(lon: Option<real>, lat: Option<real>)

  /** One relation member: `type`, `ref` and `role`, each possibly absent. */
  datatype Member = Member(kind: Option<string>, ref: Option<int>, role: Option<string>)

  /** One Overpass element. Absent `tags`, `geometry`, `nodes` and `members`
      (or JSON null) are the empty map or list, as `or {}` / `or []` make them. */
  datatype Element = Element(kind: Option<string>, id: int, lon: Option<real>, lat: Option<real>,
                             tags: Tags, meta: Meta, geometry: seq<GeomPoint>, nodes: seq<int>,
                             members: seq<Member>)

  datatype Geometry = PointGeom(at: Point) | Polyline(path: Path) | Polygon(outer: Path, holes: seq<Path>)

  /** One output row: geometry, osmid, tag JSON text, element type, metadata. */
  datatype Feature = Feature(geom: Geometry, osmid: string, tagsJson: string, elemType: string, meta: Meta)

  /** A way kept in the index. */
  datatype WayRec = WayRec(tags: Tags, coords: Path, meta: Meta)

  type Dumps = Tags -> Option<string>

  /** `tags_safestr`: the JSON text of the tags, or "" when serialising fails. */
  function TagsText(dumps: Dumps, t: Tags): string
  {
    match dumps(t)
    case Some(s) => s
    case None => ""
  }

  /** The keys whose presence makes a feature an area. */
  const AreaKeys: set<string> := {"building", "landuse", "amenity", "leisure", "natural", "water", "waterway", "place"}

  /** `is_area_tag`: non-empty tags whose `area` value is yes, 1 or true in any
      case, or which carry one of the area keys. */
  predicate IsAreaTag(t: Tags)
  {
    && t != map[]
    && ((if "area" in t then Lower(t["area"]) else "") in {"yes", "1", "true"}
        || exists k :: k in AreaKeys && k in t)
  }

  /** `coords[0] == coords[-1] or coords_closed(coords)` of the way classification. */
  predicate WayClosed(coords: Path)
  {
    |coords| >= 4 && (coords[0] == coords[|coords| - 1] || CoordsClosed(coords))
  }

  // ---------------------------------------------------------------- node index

  /** A node carrying both coordinates. */
  predicate PlacedNode(el: Element)
  {
    el.kind == Some("node") && el.lon.Some? && el.lat.Some?
  }

  function IndexNode(idx: map<int, Point>, el: Element): map<int, Point>
  {
    if PlacedNode(el) then idx[el.id := Point(el.lon.value, el.lat.value)]
    else idx
  }

  /** The first loop: every node with both coordinates, the last one of an id winning. */
  function NodeIndex(els: seq<Element>): map<int, Point>
  {
    if els == [] then map[] else IndexNode(NodeIndex(els[..|els| - 1]), els[|els| - 1])
  }

  // ---------------------------------------------------------------- points

  /** The point a node element yields in the second loop, if any. */
  function PointOf(el: Element, nodes: map<int, Point>, dumps: Dumps): Option<Feature>
  {
    if el.kind == Some("node") && el.tags != map[] && el.id in nodes then
      Some(Feature(PointGeom(nodes[el.id]), IntToString(el.id), TagsText(dumps, el.tags), "node", el.meta))
    else None
  }

  function OptionSeq<T>(o: Option<T>): seq<T>
  {
    match o
    case Some(v) => [v]
    case None => []
  }

  function Points(els: seq<Element>, nodes: map<int, Point>, dumps: Dumps): seq<Feature>
  {
    if els == [] then []
    else Points(els[..|els| - 1], nodes, dumps) + OptionSeq(PointOf(els[|els| - 1], nodes, dumps))
  }

  // ---------------------------------------------------------------- ways

  /** The point a geometry entry gives when it carries both coordinates. */
  function Located(q: GeomPoint): Option<Point>
  {
    if q.lon.Some? && q.lat.Some? then Some(Point(q.lon.value, q.lat.value)) else None
  }

  /** The inline geometry's points that have both coordinates, in order. */
  function GeomCoords(g: seq<GeomPoint>): (r: Path)
    ensures |r| <= |g|
    ensures (forall k :: 0 <= k < |g| ==> Located(g[k]).Some?) ==>
      |r| == |g| && forall k :: 0 <= k < |g| ==> r[k] == Located(g[k]).value
    ensures forall k :: 0 <= k < |g| && Located(g[k]).Some? ==> Located(g[k]).value in r
    ensures forall p :: p in r ==> exists k :: 0 <= k < |g| && Located(g[k]) == Some(p)
  {
    if g == [] then []
    else
      var rest := GeomCoords(g[1..]);
      assert forall k :: 0 <= k < |g| - 1 ==> g[1..][k] == g[k + 1];
      OptionSeq(Located(g[0])) + rest
  }

  /** The node ids resolved through the node index, in order; unresolved ids are dropped. */
  function NodeCoords(ids: seq<int>, nodes: map<int, Point>): (r: Path)
    ensures |r| <= |ids|
    ensures |r| == |ids| <==> forall k :: 0 <= k < |ids| ==> ids[k] in nodes
    ensures forall k :: 0 <= k < |r| ==> r[k] in nodes.Values
    ensures (forall k :: 0 <= k < |ids| ==> ids[k] in nodes) ==>
      forall k :: 0 <= k < |ids| ==> r[k] == nodes[ids[k]]
    ensures forall k :: 0 <= k < |ids| && ids[k] in nodes ==> nodes[ids[k]] in r
    ensures forall p :: p in r ==> exists k :: 0 <= k < |ids| && ids[k] in nodes && nodes[ids[k]] == p
  {
    if ids == [] then []
    else
      var tail := ids[1..];
      var rest := NodeCoords(tail, nodes);
      assert forall k :: 0 <= k < |tail| ==> tail[k] == ids[k + 1];
      if ids[0] in nodes then
        [nodes[ids[0]]] + rest
      else
        assert |rest| < |ids|;
        rest
  }

  /** A way's coordinates: the inline geometry when it is non-empty, the node list otherwise. */
  function WayCoords(el: Element, nodes: map<int, Point>): Path
  {
    if el.geometry != [] then GeomCoords(el.geometry) else NodeCoords(el.nodes, nodes)
  }

  /** The way index: a dictionary, and its keys in insertion order (a key
      written again keeps its place and takes the new value). */
  datatype WayIndex = WayIndex(ways: map<int, WayRec>, order: seq<int>)

  predicate IndexValid(w: WayIndex)
  {
    && (forall k :: 0 <= k < |w.order| ==> w.order[k] in w.ways)
    && (forall id :: id in w.ways ==> id in w.order)
    && (forall i, j :: 0 <= i < j < |w.order| ==> w.order[i] != w.order[j])
    && (forall id :: id in w.ways ==> |w.ways[id].coords| >= 2)
  }

  /** A way element the second loop keeps: one with at least two coordinates. */
  predicate KeptWay(el: Element, nodes: map<int, Point>)
  {
    el.kind == Some("way") && |WayCoords(el, nodes)| >= 2
  }

  function IndexWay(w: WayIndex, el: Element, nodes: map<int, Point>): WayIndex
  {
    if el.kind != Some("way") then w
    else
      var coords := WayCoords(el, nodes);
      if |coords| < 2 then w
      else WayIndex(w.ways[el.id := WayRec(el.tags, coords, el.meta)],
                    if el.id in w.ways then w.order else w.order + [el.id])
  }

  function Ways(els: seq<Element>, nodes: map<int, Point>): WayIndex
  {
    if els == [] then WayIndex(map[], [])
    else IndexWay(Ways(els[..|els| - 1], nodes), els[|els| - 1], nodes)
  }

  // ---------------------------------------------------------------- relations

  /** A relation is kept when its type is multipolygon and its tags mark an area. */
  predicate KeptRelation(el: Element)
  {
    el.kind == Some("relation") && "type" in el.tags && el.tags["type"] == "multipolygon" && IsAreaTag(el.tags)
  }

  function Rels(els: seq<Element>): seq<Element>
  {
    if els == [] then []
    else Rels(els[..|els| - 1]) + if KeptRelation(els[|els| - 1]) then [els[|els| - 1]] else []
  }

  /** The member loop's state: outer and inner coordinate lists, and the
      union of the member ways' tags. */
  datatype Collected = Collected(outers: seq<Path>, inners: seq<Path>, union: Tags)

  /** The member way a relation member resolves to, if any. */
  function Resolve(m: Member, ways: map<int, WayRec>): Option<WayRec>
  {
    if m.kind == Some("way") && m.ref.Some? && m.ref.value in ways then Some(ways[m.ref.value]) else None
  }

  function RoleOf(m: Member): string
  {
    Lower(if m.role.Some? then m.role.value else "")
  }

  function CollectMember(c: Collected, m: Member, ways: map<int, WayRec>): Collected
  {
    match Resolve(m, ways)
    case None => c
    case Some(w) =>
      Collected(if RoleOf(m) == "outer" then c.outers + [w.coords] else c.outers,
                if RoleOf(m) == "inner" then c.inners + [w.coords] else c.inners,
                w.tags + c.union)
  }

  function Collect(ms: seq<Member>, ways: map<int, WayRec>): Collected
  {
    if ms == [] then Collected([], [], map[])
    else CollectMember(Collect(ms[..|ms| - 1], ways), ms[|ms| - 1], ways)
  }

  /** The relation's tags: the member-way union updated with the relation's own tags. */
  function MergedTags(rel: Element, ways: map<int, WayRec>): Tags
  {
    Collect(rel.members, ways).union + rel.tags
  }

  /** One polygon per outer ring, each carrying every inner ring as a hole. */
  function RingPolygons(outers: seq<Path>, holes: seq<Path>, osmid: string, text: string, meta: Meta): (r: seq<Feature>)
    ensures |r| == |outers|
    ensures forall k :: 0 <= k < |r| ==> r[k] == Feature(Polygon(outers[k], holes), osmid, text, "relation", meta)
  {
    if outers == [] then []
    else [Feature(Polygon(outers[0], holes), osmid, text, "relation", meta)] + RingPolygons(outers[1..], holes, osmid, text, meta)
  }

  /** The polygons one kept relation yields: none without an outer ring. */
  function RelFeatures(rel: Element, ways: map<int, WayRec>, dumps: Dumps): seq<Feature>
  {
    var c := Collect(rel.members, ways);
    var outerRings := Stitch(c.outers);
    var innerRings := Stitch(c.inners);
    if outerRings == [] then []
    else RingPolygons(outerRings, innerRings, IntToString(rel.id), TagsText(dumps, MergedTags(rel, ways)), rel.meta)
  }

  function RelPolys(rels: seq<Element>, ways: map<int, WayRec>, dumps: Dumps): seq<Feature>
  {
    if rels == [] then []
    else RelPolys(rels[..|rels| - 1], ways, dumps) + RelFeatures(rels[|rels| - 1], ways, dumps)
  }

  // ---------------------------------------------------------------- standalone ways

  /** The one feature a kept way yields. */
  function WayFeature(id: int, w: WayRec, dumps: Dumps): Feature
  {
    var g := if WayClosed(w.coords) && IsAreaTag(w.tags) then Polygon(w.coords, []) else Polyline(w.coords);
    Feature(g, IntToString(id), TagsText(dumps, w.tags), "way", w.meta)
  }

  function WayLines(order: seq<int>, ways: map<int, WayRec>, dumps: Dumps): seq<Feature>
    requires forall k :: 0 <= k < |order| ==> order[k] in ways
  {
    if order == [] then []
    else
      var id := order[|order| - 1];
      var f := WayFeature(id, ways[id], dumps);
      WayLines(order[..|order| - 1], ways, dumps) + if f.geom.Polyline? && |ways[id].coords| >= 2 then [f] else []
  }

  function WayPolys(order: seq<int>, ways: map<int, WayRec>, dumps: Dumps): seq<Feature>
    requires forall k :: 0 <= k < |order| ==> order[k] in ways
  {
    if order == [] then []
    else
      var id := order[|order| - 1];
      var f := WayFeature(id, ways[id], dumps);
      WayPolys(order[..|order| - 1], ways, dumps) + if f.geom.Polygon? && |ways[id].coords| >= 2 then [f] else []
  }

  // ---------------------------------------------------------------- the whole

  /** `features_from_overpass`: points, lines and polygons (way polygons
      first, then relation polygons); nothing when the response is empty or
      has no `elements`. */
  function Features(data: Option<seq<Element>>, dumps: Dumps): (seq<Feature>, seq<Feature>, seq<Feature>)
  {
    match data
    case None => ([], [], [])
    case Some(els) =>
      var nodes := NodeIndex(els);
      var w := Ways(els, nodes);
      WaysValid(els, nodes);
      (Points(els, nodes, dumps),
       WayLines(w.order, w.ways, dumps),
       WayPolys(w.order, w.ways, dumps) + RelPolys(Rels(els), w.ways, dumps))
  }

  lemma {:induction false} WaysValid(els: seq<Element>, nodes: map<int, Point>)
    ensures IndexValid(Ways(els, nodes))
  {
    if els != [] {
      WaysValid(els[..|els| - 1], nodes);
    }
  }

  /** The way index holds exactly the ids of the kept way elements, each with
      the tags, coordinates and metadata of the last kept element of that id. */
  lemma {:induction false} WaysSpec(els: seq<Element>, nodes: map<int, Point>, id: int)
    ensures id in Ways(els, nodes).ways <==> exists k :: 0 <= k < |els| && els[k].id == id && KeptWay(els[k], nodes)
    ensures forall k ::
      (0 <= k < |els| && els[k].id == id && KeptWay(els[k], nodes)
       && (forall j :: k < j < |els| && els[j].id == id ==> !KeptWay(els[j], nodes)))
      ==> Ways(els, nodes).ways[id] == WayRec(els[k].tags, WayCoords(els[k], nodes), els[k].meta)
  {
    if els != [] {
      var init, last := els[..|els| - 1], els[|els| - 1];
      var w, w' := Ways(init, nodes), Ways(els, nodes);
      WaysSpec(init, nodes, id);
      IndexWaySpec(w, last, nodes, id);
      assert w' == IndexWay(w, last, nodes);
      forall k | 0 <= k < |init| ensures init[k] == els[k] { }
      if id in w'.ways {
        if id in w.ways {
          var k :| 0 <= k < |init| && init[k].id == id && KeptWay(init[k], nodes);
          assert els[k] == init[k];
        } else {
          assert els[|els| - 1] == last;
        }
      }
      forall k | 0 <= k < |els| && els[k].id == id && KeptWay(els[k], nodes)
                 && (forall j :: k < j < |els| && els[j].id == id ==> !KeptWay(els[j], nodes))
        ensures w'.ways[id] == WayRec(els[k].tags, WayCoords(els[k], nodes), els[k].meta)
      {
        if k < |init| {
          assert !(last.id == id && KeptWay(last, nodes));
          assert init[k] == els[k];
          assert forall j :: k < j < |init| && init[j].id == id ==> !KeptWay(init[j], nodes);
        }
      }
    }
  }

  /** One element's effect on the entry of `id` in the way index. */
  lemma IndexWaySpec(w: WayIndex, el: Element, nodes: map<int, Point>, id: int)
    ensures var w' := IndexWay(w, el, nodes);
      && (id in w'.ways <==> id in w.ways || (el.id == id && KeptWay(el, nodes)))
      && (el.id == id && KeptWay(el, nodes) ==> w'.ways[id] == WayRec(el.tags, WayCoords(el, nodes), el.meta))
      && (!(el.id == id && KeptWay(el, nodes)) && id in w.ways ==> w'.ways[id] == w.ways[id])
  {
  }

  // ---------------------------------------------------------------- properties

  /** The exact-equality test adds nothing to the tolerance test. */
  lemma WayClosedIff(coords: Path)
    ensures WayClosed(coords) <==> CoordsClosed(coords)
  {
    if |coords| >= 4 && coords[0] == coords[|coords| - 1] {
      assert coords[0].x - coords[|coords| - 1].x == 0.0;
      assert coords[0].y - coords[|coords| - 1].y == 0.0;
    }
  }

  /** A kept way yields exactly one feature: a polygon over its coordinates
      when it is closed within Eps (at least four points) and area-tagged, a
      line over its coordinates otherwise. */
  lemma WayClassification(id: int, w: WayRec, dumps: Dumps)
    ensures var f := WayFeature(id, w, dumps);
      && (f.geom.Polygon? <==> CoordsClosed(w.coords) && IsAreaTag(w.tags))
      && (f.geom.Polygon? ==> f.geom == Polygon(w.coords, []))
      && (!f.geom.Polygon? ==> f.geom == Polyline(w.coords))
      && f.osmid == IntToString(id) && f.elemType == "way" && f.meta == w.meta
  {
    WayClosedIff(w.coords);
  }

  /** Every kept way lands in exactly one of the two lists. */
  lemma {:induction false} WaysOneEach(order: seq<int>, ways: map<int, WayRec>, dumps: Dumps)
    requires forall k :: 0 <= k < |order| ==> order[k] in ways && |ways[order[k]].coords| >= 2
    ensures |WayLines(order, ways, dumps)| + |WayPolys(order, ways, dumps)| == |order|
  {
    if order != [] {
      WaysOneEach(order[..|order| - 1], ways, dumps);
    }
  }

  /** Point features are nodes, one at most per element, at an indexed position. */
  lemma {:induction false} PointsShape(els: seq<Element>, nodes: map<int, Point>, dumps: Dumps)
    ensures |Points(els, nodes, dumps)| <= |els|
    ensures forall k :: 0 <= k < |Points(els, nodes, dumps)| ==>
      var f := Points(els, nodes, dumps)[k];
      f.elemType == "node" && f.geom.PointGeom? && f.geom.at in nodes.Values
  {
    if els != [] {
      PointsShape(els[..|els| - 1], nodes, dumps);
    }
  }

  /** An element adds a point exactly when it is a node with tags whose id is
      in the node index; the point sits at the indexed position and carries
      the id as text and the element type "node". */
  lemma PointOfIff(els: seq<Element>, el: Element, nodes: map<int, Point>, dumps: Dumps)
    ensures var before, after := Points(els, nodes, dumps), Points(els + [el], nodes, dumps);
      && (|after| == |before| + 1 <==> el.kind == Some("node") && el.tags != map[] && el.id in nodes)
      && after[..|before|] == before
      && (|after| > |before| ==>
            after[|before|] == Feature(PointGeom(nodes[el.id]), IntToString(el.id), TagsText(dumps, el.tags), "node", el.meta))
  {
    assert (els + [el])[..|els|] == els;
  }

  /** The node index holds every node with both coordinates, at the
      coordinates of the last such node of its id, and nothing else. */
  lemma {:induction false} NodeIndexSpec(els: seq<Element>, id: int)
    ensures id in NodeIndex(els) <==> exists k :: 0 <= k < |els| && els[k].id == id && PlacedNode(els[k])
    ensures forall k ::
      (0 <= k < |els| && els[k].id == id && PlacedNode(els[k])
       && (forall j :: k < j < |els| && els[j].id == id ==> !PlacedNode(els[j])))
      ==> NodeIndex(els)[id] == Point(els[k].lon.value, els[k].lat.value)
  {
    if els != [] {
      var init := els[..|els| - 1];
      NodeIndexSpec(init, id);
      forall k | 0 <= k < |init| ensures init[k] == els[k] { }
    }
  }

  /** Kept relations are exactly the multipolygon relations with area tags, in order. */
  lemma {:induction false} RelsSpec(els: seq<Element>)
    ensures |Rels(els)| <= |els|
    ensures forall k :: 0 <= k < |Rels(els)| ==> KeptRelation(Rels(els)[k])
    ensures forall k :: 0 <= k < |els| && KeptRelation(els[k]) ==> els[k] in Rels(els)
    ensures forall k :: 0 <= k < |Rels(els)| ==> Rels(els)[k] in els
  {
    if els != [] {
      var init := els[..|els| - 1];
      RelsSpec(init);
      forall k | 0 <= k < |els| && KeptRelation(els[k]) ensures els[k] in Rels(els) {
        if k < |init| {
          assert init[k] == els[k];
          assert init[k] in Rels(init);
        }
      }
      forall k | 0 <= k < |Rels(els)| ensures Rels(els)[k] in els {
        if k < |Rels(init)| {
          assert Rels(els)[k] == Rels(init)[k];
          assert Rels(init)[k] in init;
        }
      }
    }
  }

  /** The selection distributes over concatenation: the kept relations keep
      their input order. */
  lemma {:induction false} RelsAppend(a: seq<Element>, b: seq<Element>)
    ensures Rels(a + b) == Rels(a) + Rels(b)
    decreases |b|
  {
    if b == [] {
      assert a + b == a;
    } else {
      var b' := b[..|b| - 1];
      assert (a + b)[..|a + b| - 1] == a + b';
      assert (a + b)[|a + b| - 1] == b[|b| - 1];
      RelsAppend(a, b');
    }
  }

  /** The value of key `k` in the first member, in member order, that
      resolves to a kept way whose tags have `k`, whatever its role. */
  function FirstTag(ms: seq<Member>, ways: map<int, WayRec>, k: string): Option<string>
  {
    if ms == [] then None
    else match FirstTag(ms[..|ms| - 1], ways, k)
      case Some(v) => Some(v)
      case None =>
        match Resolve(ms[|ms| - 1], ways)
        case Some(w) => if k in w.tags then Some(w.tags[k]) else None
        case None => None
  }

  lemma {:induction false} CollectUnion(ms: seq<Member>, ways: map<int, WayRec>, k: string)
    ensures k in Collect(ms, ways).union <==> FirstTag(ms, ways, k).Some?
    ensures k in Collect(ms, ways).union ==> Collect(ms, ways).union[k] == FirstTag(ms, ways, k).value
  {
    if ms != [] {
      CollectUnion(ms[..|ms| - 1], ways, k);
    }
  }

  /** A relation's tags: its own value for each of its own keys; for any
      other key, the value from the first member way that has it. */
  lemma MergedTagsPrecedence(rel: Element, ways: map<int, WayRec>, k: string)
    ensures k in rel.tags ==> k in MergedTags(rel, ways) && MergedTags(rel, ways)[k] == rel.tags[k]
    ensures k !in rel.tags ==>
      (k in MergedTags(rel, ways) <==> FirstTag(rel.members, ways, k).Some?)
      && (k in MergedTags(rel, ways) ==> MergedTags(rel, ways)[k] == FirstTag(rel.members, ways, k).value)
  {
    CollectUnion(rel.members, ways, k);
  }

  /** A kept relation yields nothing without an outer ring, and otherwise one
      polygon per stitched outer ring, in order, each holding every stitched
      inner ring as a hole; all rings are closed. */
  lemma RelationPolygons(rel: Element, ways: map<int, WayRec>, dumps: Dumps)
    ensures var c := Collect(rel.members, ways);
      var outer, inner, fs := Stitch(c.outers), Stitch(c.inners), RelFeatures(rel, ways, dumps);
      && |fs| == |outer|
      && (forall k :: 0 <= k < |fs| ==>
            fs[k].geom == Polygon(outer[k], inner) && CoordsClosed(outer[k])
            && fs[k].osmid == IntToString(rel.id) && fs[k].elemType == "relation")
      && (forall k :: 0 <= k < |inner| ==> CoordsClosed(inner[k]))
  {
    var c := Collect(rel.members, ways);
    StitchClosed(c.outers);
    StitchClosed(c.inners);
  }

  // ---------------------------------------------------------------- the loops

  /** The tag union step of the member loop: each key of the member way not
      yet in the union is added with its value. */
  method AddMissingTags(union: Tags, tags: Tags) returns (r: Tags)
    ensures r == tags + union
  {
    r := union;
    var rest := tags.Keys;
    while rest != {}
      invariant rest <= tags.Keys
      invariant r == (map k | k in tags.Keys - rest :: tags[k]) + union
      decreases rest
    {
      var k :| k in rest;
      if k !in r {
        r := r[k := tags[k]];
      }
      rest := rest - {k};
    }
  }

  /** The body of the relation loop for one kept relation. */
  method AssembleRelation(rel: Element, ways: map<int, WayRec>, dumps: Dumps) returns (fs: seq<Feature>)
    ensures fs == RelFeatures(rel, ways, dumps)
  {
    var outers, inners: seq<Path> := [], [];
    var union: Tags := map[];
    for i := 0 to |rel.members|
      invariant Collected(outers, inners, union) == Collect(rel.members[..i], ways)
    {
      assert rel.members[..i + 1][..i] == rel.members[..i];
      var m := rel.members[i];
      if m.kind != Some("way") {
        continue;
      }
      if m.ref.None? || m.ref.value !in ways {
        continue;
      }
      var w := ways[m.ref.value];
      var role := Lower(if m.role.Some? then m.role.value else "");
      if role == "outer" {
        outers := outers + [w.coords];
      } else if role == "inner" {
        inners := inners + [w.coords];
      }
      union := AddMissingTags(union, w.tags);
    }
    assert rel.members[..|rel.members|] == rel.members;
    var merged := union + rel.tags;
    var outerRings := StitchRings(outers);
    var innerRings := StitchRings(inners);
    fs := [];
    if outerRings == [] {
      return;
    }
    var osmid, text := IntToString(rel.id), TagsText(dumps, merged);
    for k := 0 to |outerRings|
      invariant |fs| == k
      invariant forall j :: 0 <= j < k ==> fs[j] == Feature(Polygon(outerRings[j], innerRings), osmid, text, "relation", rel.meta)
    {
      fs := fs + [Feature(Polygon(outerRings[k], innerRings), osmid, text, "relation", rel.meta)];
    }
  }

  /** The first loop of `features_from_overpass`: index every node with coordinates. */
  method IndexNodes(els: seq<Element>) returns (nodes: map<int, Point>)
    ensures nodes == NodeIndex(els)
  {
    nodes := map[];
    for i := 0 to |els|
      invariant nodes == NodeIndex(els[..i])
    {
      assert els[..i + 1][..i] == els[..i];
      var el := els[i];
      if el.kind == Some("node") && el.lon.Some? && el.lat.Some? {
        nodes := nodes[el.id := Point(el.lon.value, el.lat.value)];
      }
    }
    assert els[..|els|] == els;
  }

  /** The second loop: tagged nodes become points, ways with two resolved
      points or more enter the way dictionary, kept relations are set aside. */
  method ScanElements(els: seq<Element>, nodes: map<int, Point>, dumps: Dumps)
    returns (pts: seq<Feature>, ways: map<int, WayRec>, order: seq<int>, rels: seq<Element>)
    ensures pts == Points(els, nodes, dumps)
    ensures WayIndex(ways, order) == Ways(els, nodes)
    ensures rels == Rels(els)
  {
    pts, ways, order, rels := [], map[], [], [];
    for i := 0 to |els|
      invariant pts == Points(els[..i], nodes, dumps)
      invariant WayIndex(ways, order) == Ways(els[..i], nodes)
      invariant rels == Rels(els[..i])
    {
      assert els[..i + 1][..i] == els[..i];
      var el := els[i];
      if el.kind == Some("node") {
        if el.tags != map[] && el.id in nodes {
          pts := pts + [Feature(PointGeom(nodes[el.id]), IntToString(el.id), TagsText(dumps, el.tags), "node", el.meta)];
        }
      } else if el.kind == Some("way") {
        var coords := if el.geometry != [] then GeomCoords(el.geometry) else NodeCoords(el.nodes, nodes);
        if |coords| >= 2 {
          if el.id !in ways {
            order := order + [el.id];
          }
          ways := ways[el.id := WayRec(el.tags, coords, el.meta)];
        }
      } else if el.kind == Some("relation") {
        if "type" in el.tags && el.tags["type"] == "multipolygon" && IsAreaTag(el.tags) {
          rels := rels + [el];
        }
      }
    }
    assert els[..|els|] == els;
  }

  /** The loop over the way dictionary in insertion order: each way becomes a
      polygon or a line. */
  method EmitWays(order: seq<int>, ways: map<int, WayRec>, dumps: Dumps) returns (lns: seq<Feature>, pols: seq<Feature>)
    requires forall k :: 0 <= k < |order| ==> order[k] in ways && |ways[order[k]].coords| >= 2
    ensures lns == WayLines(order, ways, dumps)
    ensures pols == WayPolys(order, ways, dumps)
  {
    lns, pols := [], [];
    for k := 0 to |order|
      invariant lns == WayLines(order[..k], ways, dumps)
      invariant pols == WayPolys(order[..k], ways, dumps)
    {
      assert order[..k + 1][..k] == order[..k];
      var wid := order[k];
      var w := ways[wid];
      var isClosed := |w.coords| >= 4 && (w.coords[0] == w.coords[|w.coords| - 1] || CoordsClosed(w.coords));
      if isClosed && IsAreaTag(w.tags) {
        pols := pols + [Feature(Polygon(w.coords, []), IntToString(wid), TagsText(dumps, w.tags), "way", w.meta)];
      } else {
        lns := lns + [Feature(Polyline(w.coords), IntToString(wid), TagsText(dumps, w.tags), "way", w.meta)];
      }
    }
    assert order[..|order|] == order;
  }

  /** The loop over the kept relations. */
  method EmitRelations(rels: seq<Element>, ways: map<int, WayRec>, dumps: Dumps) returns (pols: seq<Feature>)
    ensures pols == RelPolys(rels, ways, dumps)
  {
    pols := [];
    for k := 0 to |rels|
      invariant pols == RelPolys(rels[..k], ways, dumps)
    {
      assert rels[..k + 1][..k] == rels[..k];
      var fs := AssembleRelation(rels[k], ways, dumps);
      pols := pols + fs;
    }
    assert rels[..|rels|] == rels;
  }

  /** Every key in the way order is in the dictionary, with two points or more. */
  lemma WaysReady(els: seq<Element>, nodes: map<int, Point>)
    ensures var w := Ways(els, nodes);
      forall k :: 0 <= k < |w.order| ==> w.order[k] in w.ways && |w.ways[w.order[k]].coords| >= 2
  {
    WaysValid(els, nodes);
  }

  /** `features_from_overpass`: the loops above in order, the relation
      polygons appended after the way polygons. */
  method FeaturesFromOverpass(data: Option<seq<Element>>, dumps: Dumps)
    returns (pts: seq<Feature>, lns: seq<Feature>, pols: seq<Feature>)
    ensures (pts, lns, pols) == Features(data, dumps)
  {
    if data.None? {
      return [], [], [];
    }
    var els := data.value;
    var nodes := IndexNodes(els);
    var ways, order, rels;
    pts, ways, order, rels := ScanElements(els, nodes, dumps);
    WaysReady(els, nodes);
    var wayPols, relPols;
    lns, wayPols := EmitWays(order, ways, dumps);
    relPols := EmitRelations(rels, ways, dumps);
    pols := wayPols + relPols;
  }
}
