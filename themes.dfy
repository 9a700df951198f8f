/**
 * The theme splitter: every feature's tags are classified into themes by a
 * fixed rule table, and the feature is copied into one feature class per
 * theme, named after the theme (prefixed by the layer alias when all output
 * goes into a single geodatabase), with at most 64 feature classes per layer.
 * Creating feature classes and copying rows are recorded, not performed.
 */
module Themes {
  import opened Base
  import opened Text
  import opened TagText

  const MaxFcsPerLayer: nat := 64
  const Fallback: string := "Unclassified"
  const CapError: string := "Exceeded MAX_FCS_PER_LAYER=64. Increase the limit or reduce THEMES."

  // ---------------------------------------------------------------- names

  /** `[\w\-\.]` with `\w` restricted to ASCII letters, digits and underscore. */
  predicate IsNameChar(c: char)
  {
    ('a' <= c <= 'z') || ('A' <= c <= 'Z') || ('0' <= c <= '9') || c == '_' || c == '-' || c == '.'
  }

  predicate IsName(s: string)
  {
    forall i :: 0 <= i < |s| ==> IsNameChar(s[i])
  }

  /** Drops the leading run of characters outside the class. */
  function DropRun(s: string): (r: string)
    ensures |r| <= |s| && (r == [] || IsNameChar(r[0]))
  {
    if s != [] && !IsNameChar(s[0]) then DropRun(s[1..]) else s
  }

  /** `re.sub(r"[^\w\-\.]+", "_", s)`: each maximal run outside the class becomes one `_`. */
  function ReplaceRuns(s: string): (r: string)
    ensures IsName(r) && |r| <= |s|
    decreases |s|
  {
    if s == [] then []
    else if IsNameChar(s[0]) then [s[0]] + ReplaceRuns(s[1..])
    else "_" + ReplaceRuns(DropRun(s[1..]))
  }

  /** `sanitize_name`: strip, replace runs, "name" when empty, cut to `limit`. */
  function SanitizeName(s: string, limit: nat): string
  {
    var r := ReplaceRuns(Strip(s));
    var named := if r == [] then "name" else r;
    if |named| <= limit then named else named[..limit]
  }

  lemma {:induction false} ReplaceRunsName(s: string)
    requires IsName(s)
    ensures ReplaceRuns(s) == s
  {
    if s != [] {
      ReplaceRunsName(s[1..]);
    }
  }

  /** A valid prefix is kept, and a maximal run of characters outside the
      class after it becomes exactly one `_`. */
  lemma {:induction false} ReplaceRunsSplice(a: string, bad: string, b: string)
    requires IsName(a) && bad != [] && (forall i :: 0 <= i < |bad| ==> !IsNameChar(bad[i]))
    requires b == [] || IsNameChar(b[0])
    ensures ReplaceRuns(a + bad + b) == a + "_" + ReplaceRuns(b)
    decreases |a|
  {
    if a == [] {
      assert a + bad + b == bad + b;
      assert (bad + b)[1..] == bad[1..] + b;
      DropRunBad(bad[1..], b);
    } else {
      assert (a + bad + b)[0] == a[0];
      assert (a + bad + b)[1..] == a[1..] + bad + b;
      ReplaceRunsSplice(a[1..], bad, b);
      assert a + "_" + ReplaceRuns(b) == [a[0]] + (a[1..] + "_" + ReplaceRuns(b));
    }
  }

  /** Dropping a run removes exactly the characters outside the class. */
  lemma {:induction false} DropRunBad(bad: string, b: string)
    requires (forall i :: 0 <= i < |bad| ==> !IsNameChar(bad[i]))
    requires b == [] || IsNameChar(b[0])
    ensures DropRun(bad + b) == b
    decreases |bad|
  {
    if bad == [] {
      assert bad + b == b;
    } else {
      assert (bad + b)[0] == bad[0];
      assert (bad + b)[1..] == bad[1..] + b;
      DropRunBad(bad[1..], b);
    }
  }

  /** The result fits the limit, is non-empty when the limit is, and holds only
      letters, digits, `_`, `-` and `.`. */
  lemma SanitizeShape(s: string, limit: nat)
    ensures var r := SanitizeName(s, limit);
      |r| <= limit && (limit > 0 ==> r != []) && IsName(r)
  {
    var r := ReplaceRuns(Strip(s));
    var named := if r == [] then "name" else r;
    assert IsName(named);
    Truncate(named, limit);
  }

  lemma Truncate(named: string, limit: nat)
    requires named != [] && IsName(named)
    ensures var r := if |named| <= limit then named else named[..limit];
      |r| <= limit && (limit > 0 ==> r != []) && IsName(r)
  {
  }

  /** Sanitising a sanitised name changes nothing. */
  lemma SanitizeIdempotent(s: string, limit: nat)
    ensures SanitizeName(SanitizeName(s, limit), limit) == SanitizeName(s, limit)
  {
    var r := SanitizeName(s, limit);
    SanitizeShape(s, limit);
    if r != [] {
      assert !IsSpace(r[0]) && !IsSpace(r[|r| - 1]);
    }
    StripNoop(r);
    ReplaceRunsName(r);
  }

  // ---------------------------------------------------------------- classification

  /** The values a `key_values` entry allows: a set of strings, or "*" for any value. */
  datatype Allowed = Values(vals: set<string>) | AnyValue

  datatype Theme = Theme(name: string, keysAny: seq<string>, keyPrefixes: seq<string>,
                         keyValues: seq<(string, Allowed)>)

  predicate StartsWith(s: string, p: string)
  {
    |p| <= |s| && s[..|p|] == p
  }

  /** The three tests of a theme rule, tried in order. */
  predicate AnyKey(th: Theme, tags: Tags)
  {
    exists i :: 0 <= i < |th.keysAny| && th.keysAny[i] in tags
  }

  predicate AnyPrefix(th: Theme, tags: Tags)
  {
    th.keyPrefixes != [] && exists k, i :: k in tags && 0 <= i < |th.keyPrefixes| && StartsWith(k, th.keyPrefixes[i])
  }

  predicate AllowedValue(a: Allowed, v: string)
  {
    match a
    case Values(vals) => v in vals
    case AnyValue => true
  }

  predicate AnyKeyValue(th: Theme, tags: Tags)
  {
    exists i :: 0 <= i < |th.keyValues| && th.keyValues[i].0 in tags
      && AllowedValue(th.keyValues[i].1, tags[th.keyValues[i].0])
  }

  predicate Matches(th: Theme, tags: Tags)
  {
    AnyKey(th, tags) || AnyPrefix(th, tags) || AnyKeyValue(th, tags)
  }

  /** The names of the themes whose rule matches. */
  function Matched(themes: seq<Theme>, tags: Tags): set<string>
  {
    set i | 0 <= i < |themes| && Matches(themes[i], tags) :: themes[i].name
  }

  /** `classify_themes`: the matched themes, or the fallback theme alone. */
  function Classification(themes: seq<Theme>, tags: Tags): set<string>
  {
    var m := Matched(themes, tags);
    if m == {} then {Fallback} else m
  }

  /** The `key_values` loop of one rule, stopping at the first hit. */
  method KeyValueHit(th: Theme, tags: Tags) returns (hit: bool)
    ensures hit == AnyKeyValue(th, tags)
  {
    hit := false;
    var i := 0;
    while i < |th.keyValues|
      invariant 0 <= i <= |th.keyValues|
      invariant !hit && forall j :: 0 <= j < i ==> !(th.keyValues[j].0 in tags && AllowedValue(th.keyValues[j].1, tags[th.keyValues[j].0]))
    {
      var (k, allowed) := th.keyValues[i];
      if k in tags {
        var v := tags[k];
        if allowed.Values? {
          if v in allowed.vals {
            hit := true;
            return;
          }
        } else {
          hit := true;
          return;
        }
      }
      i := i + 1;
    }
  }

  /** `classify_themes` as written: a loop over the rules adding to `found`. */
  method ClassifyThemes(themes: seq<Theme>, tags: Tags) returns (found: set<string>)
    ensures found == Classification(themes, tags)
  {
    found := {};
    for t := 0 to |themes|
      invariant found == set i | 0 <= i < t && Matches(themes[i], tags) :: themes[i].name
    {
      var th := themes[t];
      var hit := KeyValueHit(th, tags);
      if AnyKey(th, tags) || AnyPrefix(th, tags) || hit {
        found := found + {th.name};
      }
    }
    if found == {} {
      found := {Fallback};
    }
  }

  /** The result is never empty; it holds the fallback theme exactly when no
      rule matched (given no rule is named after it), and then nothing else. */
  lemma ClassificationSpec(themes: seq<Theme>, tags: Tags)
    requires forall i :: 0 <= i < |themes| ==> themes[i].name != Fallback
    ensures var c := Classification(themes, tags);
      && c != {}
      && (Fallback in c <==> forall i :: 0 <= i < |themes| ==> !Matches(themes[i], tags))
      && (Fallback in c ==> c == {Fallback})
      && (forall i :: 0 <= i < |themes| && Matches(themes[i], tags) ==> themes[i].name in c)
      && (forall x :: x in c && x != Fallback ==>
            exists i :: 0 <= i < |themes| && Matches(themes[i], tags) && themes[i].name == x)
  {
    var m := Matched(themes, tags);
    if exists i :: 0 <= i < |themes| && Matches(themes[i], tags) {
      var i :| 0 <= i < |themes| && Matches(themes[i], tags);
      assert themes[i].name in m;
    }
  }

  // ---------------------------------------------------------------- the rule table

  function ConfiguredThemes(): seq<Theme>
  {
    [ Theme("Transportation_Roads",
        ["highway", "lanes", "sidewalk", "cycleway", "maxspeed", "oneway", "traffic_sign",
         "traffic_calming", "junction", "surface", "tracktype", "footway"], [], []),
      Theme("Transportation_Rail", ["railway", "gauge", "electrified", "voltage", "uic_ref"], ["railway:"], []),
      Theme("Transportation_Transit",
        ["public_transport", "bus", "tram", "subway", "stop", "platform", "station", "train", "psv"], ["gtfs:"], []),
      Theme("Aviation_Aerialway", ["aeroway", "aircraft", "airfield", "heliport", "aerialway"], ["aeroway:"], []),
      Theme("Water_Maritime", ["waterway", "ferry", "harbour", "mooring", "lock", "boat"], ["seamark:"], []),
      Theme("Buildings_Addresses", ["building", "entrance", "level", "addr:full"], ["addr:"], []),
      Theme("Amenities_POI",
        ["amenity", "shop", "tourism", "leisure", "office", "craft", "man_made", "historic"], [], []),
      Theme("Health", ["healthcare", "emergency", "pharmacy"], [],
        [("amenity", Values({"hospital", "clinic", "doctors", "dentist", "pharmacy", "ambulance_station",
                             "blood_donation", "nursing_home"}))]),
      Theme("Education", [], [],
        [("amenity", Values({"school", "college", "university", "kindergarten", "library", "research_institute"}))]),
      Theme("Utilities_Power_Comms", ["power", "utility", "substation"], ["communication:", "telecom:"], []),
      Theme("Waste_Recycling", ["waste", "waste_basket"], ["recycling:"],
        [("amenity", Values({"waste_basket", "recycling", "waste_disposal"}))]),
      Theme("Parks_Nature_Landuse", ["natural", "park", "pitch", "playground", "landuse"], [],
        [("leisure", Values({"park", "pitch", "playground", "garden", "nature_reserve", "golf_course",
                             "track", "dog_park"}))]),
      Theme("Barriers_Access",
        ["barrier", "bollard", "gate", "access", "hgv", "motor_vehicle", "foot", "bicycle", "fee"],
        ["kerb", "traffic_sign:", "crossing:"], []),
      Theme("Admin_Boundaries", ["boundary", "admin_level", "place"], [], []),
      Theme("Names_Metadata",
        ["name", "name:en", "old_name", "loc_name", "alt_name", "wikidata", "wikipedia", "source",
         "source:name", "note", "fixme", "ref", "start_date", "operator", "brand"], ["name:"], [])
    ]
  }

  /** The configured table has fifteen rules, none named after the fallback
      theme, so a feature lands in "Unclassified" exactly when no rule matches. */
  lemma ConfiguredFallback()
    ensures |ConfiguredThemes()| == 15
    ensures forall i :: 0 <= i < |ConfiguredThemes()| ==> ConfiguredThemes()[i].name != Fallback
  {
  }

  // ---------------------------------------------------------------- splitting a layer

  /** What the splitter needs besides the rows. */
  datatype Layer = Layer(themes: seq<Theme>, alias: string, singleGdb: bool)

  /** The output feature class for a theme: prefixed by the layer alias in
      single-geodatabase mode, then sanitised. */
  function FcName(l: Layer, theme: string): string
  {
    SanitizeName(if l.singleGdb then l.alias + "_" + theme else theme, 64)
  }

  /** The themes of one row: the fallback alone for a row without tags. */
  function RowThemes(l: Layer, td: Tags): set<string>
  {
    if td == map[] then {Fallback} else Classification(l.themes, td)
  }

  /** `FcName` for one layer, as a function of the theme. */
  function Namer(l: Layer): string -> string
  {
    t => FcName(l, t)
  }

  /** The feature classes of a set of themes. */
  function NamesOf(fc: string -> string, ts: set<string>): set<string>
  {
    set t | t in ts :: fc(t)
  }

  /** The feature classes one row is copied into. */
  function RowNames(l: Layer, td: Tags): set<string>
  {
    NamesOf(Namer(l), RowThemes(l, td))
  }

  /** The tags of every row, as `parse_tags` reads them. */
  function Parsed(rows: seq<Option<string>>, loads: Decoder, literal: Decoder): (tds: seq<Tags>)
    ensures |tds| == |rows|
    ensures forall i :: 0 <= i < |rows| ==> tds[i] == ParseTags(rows[i], loads, literal)
  {
    seq(|rows|, i requires 0 <= i < |rows| => ParseTags(rows[i], loads, literal))
  }

  /** The feature classes of every row. */
  function Targets(l: Layer, tds: seq<Tags>): (ss: seq<set<string>>)
    ensures |ss| == |tds|
    ensures forall i :: 0 <= i < |tds| ==> ss[i] == RowNames(l, tds[i])
  {
    seq(|tds|, i requires 0 <= i < |tds| => RowNames(l, tds[i]))
  }

  /** The union of the first `n` sets. */
  function UnionUpTo(ss: seq<set<string>>, n: nat): set<string>
    requires n <= |ss|
  {
    if n == 0 then {} else UnionUpTo(ss, n - 1) + ss[n - 1]
  }

  lemma {:induction false} UnionUpToMono(ss: seq<set<string>>, i: nat, j: nat)
    requires i <= j <= |ss|
    ensures UnionUpTo(ss, i) <= UnionUpTo(ss, j)
    decreases j - i
  {
    if i < j {
      UnionUpToMono(ss, i, j - 1);
    }
  }

  /** `copies` holds exactly the pairs (row j, class c) with c among the first
      `n` rows' classes, plus row `n` paired with each class in `extra`. */
  ghost predicate CopiesAre(copies: seq<(nat, string)>, ss: seq<set<string>>, n: nat, extra: set<string>)
    requires n <= |ss|
  {
    forall p :: p in copies <==> (p.0 < n && p.1 in ss[p.0]) || (p.0 == n && p.1 in extra)
  }

  lemma NamesOfAdd(fc: string -> string, done: set<string>, t: string)
    ensures NamesOf(fc, done + {t}) == NamesOf(fc, done) + {fc(t)}
  {
  }

  /** A row without tags goes to the fallback class only. */
  lemma EmptyRowFallback(l: Layer)
    ensures RowNames(l, map[]) == {FcName(l, Fallback)}
  {
    assert RowThemes(l, map[]) == {} + {Fallback};
    NamesOfAdd(Namer(l), {}, Fallback);
  }

  /** Every row goes to at least one feature class. */
  lemma RowNamesNonEmpty(l: Layer, td: Tags)
    ensures RowNames(l, td) != {}
  {
    var t :| t in RowThemes(l, td);
    assert FcName(l, t) in RowNames(l, td);
  }

  /** A subset is no larger than its superset. */
  lemma {:induction false} SubsetCard<T>(a: set<T>, b: set<T>)
    requires a <= b
    ensures |a| <= |b|
    decreases |a|
  {
    if a != {} {
      var x :| x in a;
      SubsetCard(a - {x}, b - {x});
    }
  }

  /** `split_layer_by_themes`: copies every row into the feature class of each
      of its themes, creating a class the first time it is needed and failing
      when a 65th class would be created.  On success the result is the number
      of classes created; `made` is the set of classes created (on failure, so
      far) and `copies` the (row, class) copies made, in order. */
  method SplitLayerByThemes(l: Layer, hasTagField: bool, rows: seq<Option<string>>, loads: Decoder, literal: Decoder)
    returns (r: Result<nat, string>, made: set<string>, copies: seq<(nat, string)>)
    ensures |made| <= MaxFcsPerLayer
    ensures !hasTagField ==> r == Ok(0) && made == {} && copies == []
    ensures hasTagField ==>
      var ss := Targets(l, Parsed(rows, loads, literal));
      && (r.Ok? <==> |UnionUpTo(ss, |ss|)| <= MaxFcsPerLayer)
      && (r.Ok? ==> r.value == |made| && made == UnionUpTo(ss, |ss|) && CopiesAre(copies, ss, |ss|, {}))
      && (r.Err? ==> r.error == CapError && made <= UnionUpTo(ss, |ss|))
  {
    made := {};
    copies := [];
    if !hasTagField {
      return Ok(0), made, copies;
    }
    ghost var ss := Targets(l, Parsed(rows, loads, literal));
    var created := 0;
    var i := 0;
    while i < |rows|
      invariant 0 <= i <= |rows|
      invariant made == UnionUpTo(ss, i) && created == |made| <= MaxFcsPerLayer
      invariant CopiesAre(copies, ss, i, {})
    {
      var cats := RowThemesOf(l, rows[i], loads, literal);
      assert ss[i] == NamesOf(Namer(l), cats);
      var ok, made', created', copies' := CopyRow(Namer(l), i, cats, made, created, copies);
      if !ok {
        UnionUpToMono(ss, i + 1, |ss|);
        SubsetCard(made + ss[i], UnionUpTo(ss, |ss|));
        return Err(CapError), made', copies';
      }
      CopiesStep(copies, copies', ss, i);
      made, created, copies := made', created', copies';
      i := i + 1;
    }
    return Ok(created), made, copies;
  }

  lemma CopiesStep(copies: seq<(nat, string)>, copies': seq<(nat, string)>, ss: seq<set<string>>, i: nat)
    requires i < |ss| && CopiesAre(copies, ss, i, {})
    requires forall p :: p in copies' <==> p in copies || (p.0 == i && p.1 in ss[i])
    ensures CopiesAre(copies', ss, i + 1, {})
  {
  }

  /** The loop over one row's themes: creates each missing class while fewer
      than 64 exist and records one copy of row `i` per theme.  It fails
      exactly when the row's classes would take the count past 64. */
  method CopyRow(fc: string -> string, i: nat, cats: set<string>, made0: set<string>, created0: nat, copies0: seq<(nat, string)>)
    returns (ok: bool, made: set<string>, created: nat, copies: seq<(nat, string)>)
    requires created0 == |made0| <= MaxFcsPerLayer
    ensures created == |made| <= MaxFcsPerLayer
    ensures ok <==> |made0 + NamesOf(fc, cats)| <= MaxFcsPerLayer
    ensures made0 <= made <= made0 + NamesOf(fc, cats)
    ensures ok ==> made == made0 + NamesOf(fc, cats)
    ensures ok ==> forall p :: p in copies <==> p in copies0 || (p.0 == i && p.1 in NamesOf(fc, cats))
  {
    made, created, copies := made0, created0, copies0;
    var rest := cats;
    while rest != {}
      invariant rest <= cats
      invariant made == made0 + NamesOf(fc, cats - rest) && created == |made| <= MaxFcsPerLayer
      invariant forall p :: p in copies <==> p in copies0 || (p.0 == i && p.1 in NamesOf(fc, cats - rest))
      decreases rest
    {
      var theme :| theme in rest;
      var name := fc(theme);
      NamesOfAdd(fc, cats - rest, theme);
      assert cats - (rest - {theme}) == (cats - rest) + {theme};
      if name !in made {
        if |made| >= MaxFcsPerLayer {
          assert made + {name} <= made0 + NamesOf(fc, cats) by {
            NamesOfMono(fc, (cats - rest) + {theme}, cats);
          }
          SubsetCard(made + {name}, made0 + NamesOf(fc, cats));
          return false, made, created, copies;
        }
        made := made + {name};
        created := created + 1;
      }
      copies := copies + [(i, name)];
      rest := rest - {theme};
    }
    assert cats - rest == cats;
    ok := true;
  }

  lemma NamesOfMono(fc: string -> string, a: set<string>, b: set<string>)
    requires a <= b
    ensures NamesOf(fc, a) <= NamesOf(fc, b)
  {
  }

  /** One row's themes: the classification of its tags, or the fallback for a row without tags. */
  method RowThemesOf(l: Layer, raw: Option<string>, loads: Decoder, literal: Decoder) returns (cats: set<string>)
    ensures cats == RowThemes(l, ParseTags(raw, loads, literal))
  {
    var td := ParseTags(raw, loads, literal);
    if td != map[] {
      cats := ClassifyThemes(l.themes, td);
    } else {
      cats := {Fallback};
    }
  }
}
