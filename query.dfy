/**
 * The Overpass QL builder of the clip pipeline: every configured selector is
 * bound to the tile's bounding box and the selectors are unioned into one
 * request; a recursion clause that pulls in the members of matched relations
 * is emitted only when relation selectors exist.
 * How a coordinate is rendered as text (Python's float formatting) is a
 * parameter `num` of the model.
 */
module OverpassQuery {
  import opened Base
  import opened Text
  import opened Tiler

  /** The selector groups: "points", "lines", "polys", "rel_polys" -> selector expressions. */
  type TagQueries = map<string, seq<string>>

  /** The selectors the pipeline is configured with. */
  const ConfiguredQueries: TagQueries := map[
    "points" := [
      "node[\"amenity\"]", "node[\"shop\"]", "node[\"man_made\"]", "node[\"tourism\"]",
      "node[\"seamark:type\"]", "node[~\"^seamark:.*\"~\".*\"]"],
    "lines" := ["way[\"highway\"]", "way[\"railway\"]", "way[\"waterway\"]"],
    "polys" := ["way[\"building\"]", "way[\"landuse\"]", "way[\"natural\"]", "way[\"water\"]"],
    "rel_polys" := [
      "relation[\"type\"=\"multipolygon\"][\"building\"]",
      "relation[\"type\"=\"multipolygon\"][\"landuse\"]",
      "relation[\"type\"=\"multipolygon\"][\"natural\"]",
      "relation[\"type\"=\"multipolygon\"][\"water\"]",
      "relation[\"type\"=\"multipolygon\"][\"amenity\"]",
      "relation[\"type\"=\"multipolygon\"][\"place\"]"]
  ]

  /** `tag_queries.get(key, [])`. */
  function Group(q: TagQueries, key: string): seq<string>
  {
    if key in q then q[key] else []
  }

  /** The text of `f"{x}"` for each coordinate; `num` stands for Python's float rendering. */
  function BoxText(b: BBox, num: real -> string): string
  {
    "(" + num(b.south) + "," + num(b.west) + "," + num(b.north) + "," + num(b.east) + ");"
  }

  /** One selector line: two spaces, the expression, the bound box. */
  function SelectorLine(expr: string, b: BBox, num: real -> string): string
  {
    "  " + expr + BoxText(b, num)
  }

  function SelectorLines(exprs: seq<string>, b: BBox, num: real -> string): (r: seq<string>)
    ensures |r| == |exprs|
    ensures forall i :: 0 <= i < |exprs| ==> r[i] == SelectorLine(exprs[i], b, num)
  {
    if exprs == [] then [] else [SelectorLine(exprs[0], b, num)] + SelectorLines(exprs[1..], b, num)
  }

  /** The node and way selectors, in the order points, lines, polys. */
  function NodeWayExprs(q: TagQueries): seq<string>
  {
    Group(q, "points") + Group(q, "lines") + Group(q, "polys")
  }

  function Header(timeout: int): string
  {
    "[out:json][timeout:" + IntToString(timeout) + "];"
  }

  const RecurseClause: string := "(._;>>;);"
  const Footer: string := "out body geom;"

  /** The two triple-quoted templates of `build_overpass_query_geom`, before stripping. */
  function Template(header: string, nwUnion: string, relUnion: string): string
  {
    if relUnion != "" then
      "\n" + header + "\n(\n" + nwUnion + "\n" + relUnion + "\n);\n" + RecurseClause + "\n" + Footer + "\n"
    else
      "\n" + header + "\n(\n" + nwUnion + "\n);\n" + Footer + "\n"
  }

  /** `build_overpass_query_geom`. */
  function BuildQuery(q: TagQueries, b: BBox, timeout: int, num: real -> string): string
  {
    var nwUnion := Join(SelectorLines(NodeWayExprs(q), b, num), "\n");
    var relUnion := Join(SelectorLines(Group(q, "rel_polys"), b, num), "\n");
    Strip(Template(Header(timeout), nwUnion, relUnion))
  }

  /** The lines of a query: the header, the opening parenthesis, the node/way
      selector lines (an empty line when there are none), the relation
      selector lines, the closing parenthesis, the recursion clause exactly
      when there are relation selectors, and the output statement. */
  function Lines(header: string, nw: seq<string>, rel: seq<string>): seq<string>
  {
    [header, "("] + (if nw == [] then [""] else nw) + rel + [");"]
      + (if rel != [] then [RecurseClause] else []) + [Footer]
  }

  function QueryLines(q: TagQueries, b: BBox, timeout: int, num: real -> string): seq<string>
  {
    Lines(Header(timeout), SelectorLines(NodeWayExprs(q), b, num), SelectorLines(Group(q, "rel_polys"), b, num))
  }

  /** No selector expression and no rendered coordinate contains a line break. */
  predicate SingleLine(q: TagQueries, b: BBox, num: real -> string)
  {
    && (forall e :: e in NodeWayExprs(q) ==> '\n' !in e)
    && (forall e :: e in Group(q, "rel_polys") ==> '\n' !in e)
    && '\n' !in num(b.south) && '\n' !in num(b.west) && '\n' !in num(b.north) && '\n' !in num(b.east)
  }

  lemma SelectorLinesSingle(exprs: seq<string>, b: BBox, num: real -> string)
    requires forall e :: e in exprs ==> '\n' !in e
    requires '\n' !in num(b.south) && '\n' !in num(b.west) && '\n' !in num(b.north) && '\n' !in num(b.east)
    ensures forall l :: l in SelectorLines(exprs, b, num) ==> IsSelectorLine(l)
  {
    var ls := SelectorLines(exprs, b, num);
    forall l | l in ls
      ensures IsSelectorLine(l)
    {
      var i :| 0 <= i < |ls| && ls[i] == l;
      assert l == "  " + exprs[i] + BoxText(b, num);
      assert exprs[i] in exprs;
    }
  }

  lemma {:induction false} JoinEmptyIff(parts: seq<string>, sep: string)
    requires forall l :: l in parts ==> l != ""
    ensures (Join(parts, sep) == "") <==> parts == []
  {
    if |parts| >= 1 {
      assert parts[0] in parts;
      if |parts| > 1 {
        assert |Join(parts, sep)| >= |parts[0]|;
      }
    }
  }

  /** The template is its lines joined by line breaks, between two line breaks. */
  lemma {:induction false} TemplateIsLines(header: string, nw: seq<string>, rel: seq<string>)
    requires forall l :: l in rel ==> l != ""
    ensures Template(header, Join(nw, "\n"), Join(rel, "\n")) == "\n" + Join(Lines(header, nw, rel), "\n") + "\n"
  {
    JoinEmptyIff(rel, "\n");
    var nwUnion, relUnion := Join(nw, "\n"), Join(rel, "\n");
    var mid := (if nw == [] then [""] else nw) + rel;
    var tail := (if rel != [] then [RecurseClause] else []) + [Footer];
    var lines := [header, "("] + mid + [");"] + tail;
    assert lines == Lines(header, nw, rel);
    assert lines == [header, "("] + (mid + ([");"] + tail));
    JoinAppend([header, "("], mid + ([");"] + tail), "\n");
    JoinAppend(mid, [");"] + tail, "\n");
    var t := Join(tail, "\n");
    var m := Join(mid, "\n");
    assert Join([");"] + tail, "\n") == ");" + "\n" + t;
    assert Join([header, "("], "\n") == header + "\n" + "(";
    assert Join(lines, "\n") == header + "\n" + "(" + "\n" + (m + "\n" + (");" + "\n" + t));
    if rel != [] {
      assert tail == [RecurseClause, Footer] && tail[1..] == [Footer];
      assert Join(tail[1..], "\n") == Footer;
      assert t == RecurseClause + "\n" + Footer;
      if nw == [] {
        JoinAppend([""], rel, "\n");
        assert m == "" + "\n" + relUnion;
      } else {
        JoinAppend(nw, rel, "\n");
        assert m == nwUnion + "\n" + relUnion;
      }
      ConcatRel(header, nwUnion, relUnion, m, t);
    } else {
      assert tail == [Footer];
      assert t == Footer;
      assert mid == (if nw == [] then [""] else nw);
      assert m == nwUnion;
      ConcatNoRel(header, m, t);
    }
  }

  lemma ConcatRel(h: string, a: string, r: string, m: string, t: string)
    requires m == a + "\n" + r && t == RecurseClause + "\n" + Footer
    ensures "\n" + h + "\n(\n" + a + "\n" + r + "\n);\n" + RecurseClause + "\n" + Footer + "\n"
      == "\n" + (h + "\n" + "(" + "\n" + (m + "\n" + (");" + "\n" + t))) + "\n"
  {
  }

  lemma ConcatNoRel(h: string, m: string, t: string)
    requires t == Footer
    ensures "\n" + h + "\n(\n" + m + "\n);\n" + Footer + "\n"
      == "\n" + (h + "\n" + "(" + "\n" + (m + "\n" + (");" + "\n" + t))) + "\n"
  {
  }

  lemma LinesEnds(header: string, nw: seq<string>, rel: seq<string>)
    requires |header| > 0 && header[0] == '['
    ensures var body := Join(Lines(header, nw, rel), "\n");
      |body| > 0 && body[0] == '[' && body[|body| - 1] == ';'
  {
    var lines := Lines(header, nw, rel);
    JoinAppend([header], lines[1..], "\n");
    assert lines == [header] + lines[1..];
    JoinAppend(lines[..|lines| - 1], [Footer], "\n");
    assert lines == lines[..|lines| - 1] + [Footer];
  }

  /** A selector line starts with two spaces and has no line break. */
  predicate IsSelectorLine(l: string)
  {
    '\n' !in l && |l| >= 2 && l[..2] == "  "
  }

  lemma LinesShape(header: string, nw: seq<string>, rel: seq<string>)
    requires '\n' !in header && |header| > 0 && header[0] == '['
    requires forall l :: l in nw ==> IsSelectorLine(l)
    requires forall l :: l in rel ==> IsSelectorLine(l)
    ensures forall k :: 0 <= k < |Lines(header, nw, rel)| ==> '\n' !in Lines(header, nw, rel)[k]
    ensures RecurseClause in Lines(header, nw, rel) <==> rel != []
  {
    var lines := Lines(header, nw, rel);
    var mid := (if nw == [] then [""] else nw) + rel;
    var tail := (if rel != [] then [RecurseClause] else []) + [Footer];
    assert lines == [header, "("] + mid + [");"] + tail;
    forall k | 0 <= k < 3 + |mid| ensures '\n' !in lines[k] && lines[k] != RecurseClause {
      if 2 <= k < 2 + |mid| {
        assert lines[k] == mid[k - 2];
        if nw != [] && k - 2 < |nw| {
          assert mid[k - 2] in nw;
          assert lines[k][..2][0] == ' ';
        } else if nw == [] && k == 2 {
        } else {
          var j := if nw == [] then k - 3 else k - 2 - |nw|;
          assert mid[k - 2] == rel[j];
          assert rel[j] in rel;
          assert lines[k][..2][0] == ' ';
        }
      } else if k == 0 {
        assert lines[k][0] != RecurseClause[0];
      } else if k == 1 {
        assert lines[k] == "(";
      } else {
        assert lines[k] == ");";
      }
    }
    forall k | 3 + |mid| <= k < |lines| ensures '\n' !in lines[k] {
      assert lines[k] == tail[k - 3 - |mid|];
    }
    if rel == [] {
      assert lines[|lines| - 1] == Footer;
      assert RecurseClause !in lines by {
        forall k | 0 <= k < |lines| ensures lines[k] != RecurseClause {
        }
      }
    } else {
      assert lines[3 + |mid|] == RecurseClause;
    }
  }

  /** The query is exactly its lines joined by line breaks. */
  lemma QueryIsLines(q: TagQueries, b: BBox, timeout: int, num: real -> string)
    ensures BuildQuery(q, b, timeout, num) == Join(QueryLines(q, b, timeout, num), "\n")
  {
    var nw := SelectorLines(NodeWayExprs(q), b, num);
    var rel := SelectorLines(Group(q, "rel_polys"), b, num);
    var h := Header(timeout);
    forall l | l in rel ensures l != "" {
      var i :| 0 <= i < |rel| && rel[i] == l;
    }
    TemplateIsLines(h, nw, rel);
    LinesEnds(h, nw, rel);
    StripNewlines(Join(Lines(h, nw, rel), "\n"));
  }

  /** The header is one line. */
  lemma HeaderSingle(timeout: int)
    ensures '\n' !in Header(timeout)
  {
    NatToStringRoundTrip(if timeout < 0 then -timeout else timeout);
    var t := IntToString(timeout);
    forall i | 0 <= i < |t| ensures t[i] != '\n' {
      if timeout < 0 && i > 0 { assert t[i] == NatToString(-timeout)[i - 1]; }
    }
  }

  /** Reading the query back line by line gives exactly its lines: every
      selector once, bound to the box, in the order points, lines, polys,
      rel_polys, between the header and the output statement. */
  lemma QueryLinesRoundTrip(q: TagQueries, b: BBox, timeout: int, num: real -> string)
    requires SingleLine(q, b, num)
    ensures Split(BuildQuery(q, b, timeout, num), '\n') == QueryLines(q, b, timeout, num)
  {
    var lines := QueryLines(q, b, timeout, num);
    QueryIsLines(q, b, timeout, num);
    SelectorLinesSingle(NodeWayExprs(q), b, num);
    SelectorLinesSingle(Group(q, "rel_polys"), b, num);
    HeaderSingle(timeout);
    LinesShape(Header(timeout), SelectorLines(NodeWayExprs(q), b, num), SelectorLines(Group(q, "rel_polys"), b, num));
    SplitJoin(lines, '\n');
  }

  /** The query opens with the format and timeout directive and closes with the output statement. */
  lemma QueryFrame(q: TagQueries, b: BBox, timeout: int, num: real -> string)
    ensures Framed(BuildQuery(q, b, timeout, num), Header(timeout))
  {
    QueryIsLines(q, b, timeout, num);
    LinesFrame(Header(timeout), SelectorLines(NodeWayExprs(q), b, num), SelectorLines(Group(q, "rel_polys"), b, num));
  }

  /** `text` starts with `header` and ends with the output statement, with something between. */
  predicate Framed(text: string, header: string)
  {
    |text| > |header| + |Footer| && text[..|header|] == header && text[|text| - |Footer|..] == Footer
  }

  /** The recursion clause is one of the query's lines exactly when relation
      selectors are configured. */
  lemma QueryRecursesIffRelations(q: TagQueries, b: BBox, timeout: int, num: real -> string)
    requires SingleLine(q, b, num)
    ensures RecurseClause in Split(BuildQuery(q, b, timeout, num), '\n') <==> Group(q, "rel_polys") != []
  {
    var nw := SelectorLines(NodeWayExprs(q), b, num);
    var rel := SelectorLines(Group(q, "rel_polys"), b, num);
    QueryLinesRoundTrip(q, b, timeout, num);
    SelectorLinesSingle(NodeWayExprs(q), b, num);
    SelectorLinesSingle(Group(q, "rel_polys"), b, num);
    HeaderSingle(timeout);
    LinesShape(Header(timeout), nw, rel);
  }

  lemma LinesFrame(header: string, nw: seq<string>, rel: seq<string>)
    ensures Framed(Join(Lines(header, nw, rel), "\n"), header)
  {
    var lines := Lines(header, nw, rel);
    JoinAppend([header], lines[1..], "\n");
    assert lines == [header] + lines[1..];
    JoinAppend(lines[..|lines| - 1], [Footer], "\n");
    assert lines == lines[..|lines| - 1] + [Footer];
  }

  lemma ConfiguredNodeWaySingle()
    ensures forall e :: e in NodeWayExprs(ConfiguredQueries) ==> '\n' !in e
  {
  }

  lemma ConfiguredRelations()
    ensures forall e :: e in Group(ConfiguredQueries, "rel_polys") ==> '\n' !in e
    ensures |Group(ConfiguredQueries, "rel_polys")| == 6
  {
  }

  /** With the configured selectors every tile query asks for the members of
      matched relations. */
  lemma ConfiguredQueryRecurses(b: BBox, timeout: int, num: real -> string)
    requires '\n' !in num(b.south) && '\n' !in num(b.west) && '\n' !in num(b.north) && '\n' !in num(b.east)
    ensures RecurseClause in Split(BuildQuery(ConfiguredQueries, b, timeout, num), '\n')
  {
    ConfiguredNodeWaySingle();
    ConfiguredRelations();
    QueryRecursesIffRelations(ConfiguredQueries, b, timeout, num);
  }
}
