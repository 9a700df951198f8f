/**
 * The GeoJSON post-processing of the export script: which folders are export
 * batches (`FID<number>`), which of them fall in the configured batch range,
 * the validation summary of an exported file, and the flattening of the
 * `tags` text property into one property per tag.  JSON documents are
 * already-decoded values; a Python exception that escapes the function is the
 * outcome `Raises`.
 */
module GeoJsonPost {
  import opened Base
  import opened Text

  /** A decoded JSON value, objects as dictionaries. */
  datatype Json =
    | JNull
    | JBool(b: bool)
    | JNum(n: real)
    | JStr(s: string)
    | JArr(items: seq<Json>)
    | JObj(fields: map<string, Json>)

  /** Python truthiness of a decoded value. */
  predicate Truthy(v: Json)
  {
    match v
    case JNull => false
    case JBool(b) => b
    case JNum(n) => n != 0.0
    case JStr(s) => s != ""
    case JArr(xs) => xs != []
    case JObj(m) => m != map[]
  }

  // ---------------------------------------------------------------- batch folders

  const StartFid: int := 100
  const EndFid: int := 200

  /** `re.match(r'^FID\d+$', name, re.IGNORECASE)`: "FID" in any case, one or
      more digits, and nothing else except one final newline, which `$` allows. */
  predicate IsFidFolder(name: string)
  {
    var body := if name != [] && name[|name| - 1] == '\n' then name[..|name| - 1] else name;
    |body| > 3 && Lower(body[..3]) == "fid" && AllDigits(body[3..])
  }

  /** `s.replace("FID", "")`: every non-overlapping upper-case "FID", scanning left to right, removed. */
  function RemoveFid(s: string): (r: string)
    ensures |r| <= |s|
  {
    if |s| >= 3 && s[..3] == "FID" then RemoveFid(s[3..])
    else if s == [] then []
    else [s[0]] + RemoveFid(s[1..])
  }

  /** `int(folder.replace("FID", ""))` as written; `None` is the ValueError `int` raises. */
  function FidNumberAsWritten(folder: string): Option<int>
  {
    ParseInt(RemoveFid(folder))
  }

  /** The number of a batch folder: the digits after its three-letter prefix, whatever their case. */
  function FidNumber(folder: string): (r: Option<nat>)
    ensures r.Some? <==> IsFidFolder(folder)
  {
    if IsFidFolder(folder) then
      var body := if folder[|folder| - 1] == '\n' then folder[..|folder| - 1] else folder;
      Some(DigitsValue(body[3..]))
    else None
  }

  /** What the main loop does with a directory entry. */
  datatype Action = Convert | SkipOutOfRange | Ignore | Crash

  /** The main loop as written: an entry that is not a directory, or whose
      name is not a batch name, is ignored; a batch directory is converted
      when its number is within the range, else skipped; the number is read
      with `replace`, which leaves a lower-case prefix in place.  `isDir` is
      what `os.path.isdir` says of the entry. */
  function FolderActionAsWritten(name: string, isDir: bool): (a: Action)
    ensures a == Crash ==> isDir && IsFidFolder(name)
  {
    if !isDir || !IsFidFolder(name) then Ignore
    else match FidNumberAsWritten(name)
      case None => Crash
      case Some(n) => if StartFid <= n <= EndFid then Convert else SkipOutOfRange
  }

  /** The intended main loop: the number is read from the digits the pattern matched. */
  function FolderAction(name: string, isDir: bool): (a: Action)
    ensures a != Crash
    ensures a == Convert <==> isDir && IsFidFolder(name) && StartFid <= FidNumber(name).value <= EndFid
    ensures a == Ignore <==> !isDir || !IsFidFolder(name)
  {
    if !isDir then Ignore
    else match FidNumber(name)
    case None => Ignore
    case Some(n) => if StartFid <= n <= EndFid then Convert else SkipOutOfRange
  }

  lemma {:induction false} RemoveFidDigits(d: string)
    requires AllDigits(d)
    ensures RemoveFid(d) == d
  {
    if d != [] {
      assert IsDigit(d[0]) && !IsDigit("FID"[0]);
      assert |d| >= 3 ==> d[..3][0] == d[0];
      RemoveFidDigits(d[1..]);
    }
  }

  /** With the prefix written in capitals the two readings agree. */
  lemma UpperPrefixAgrees(name: string, isDir: bool)
    requires IsFidFolder(name) && name[..3] == "FID"
    ensures FidNumberAsWritten(name) == Some(FidNumber(name).value as int)
    ensures FolderActionAsWritten(name, isDir) == FolderAction(name, isDir)
  {
    var body := if name[|name| - 1] == '\n' then name[..|name| - 1] else name;
    var d := body[3..];
    RemoveFidDigits(d);
    if name[|name| - 1] == '\n' {
      assert name == "FID" + (d + "\n");
      assert RemoveFid(name) == RemoveFid(d + "\n");
      RemoveFidNewline(d);
    } else {
      assert name == "FID" + d;
      assert RemoveFid(name) == RemoveFid(d);
    }
    ParseDigits(d, name[|name| - 1] == '\n');
  }

  lemma {:induction false} RemoveFidNewline(d: string)
    requires AllDigits(d)
    ensures RemoveFid(d + "\n") == d + "\n"
  {
    if d == [] {
    } else {
      assert (d + "\n")[1..] == d[1..] + "\n";
      assert (d + "\n")[0] == d[0];
      RemoveFidNewline(d[1..]);
    }
  }

  /** `int` of a non-empty run of digits, optionally followed by a newline, is its value. */
  lemma ParseDigits(d: string, nl: bool)
    requires |d| > 0 && AllDigits(d)
    ensures ParseInt(if nl then d + "\n" else d) == Some(DigitsValue(d) as int)
  {
    var t := if nl then d + "\n" else d;
    assert !IsSpace(d[0]) && !IsSpace(d[|d| - 1]);
    if nl {
      assert TrimLeft(t) == t;
      assert t[..|d|] == d;
      assert TrimRight(t) == TrimRight(d);
    }
    StripNoop(d);
  }

  /** A batch folder named in lower case passes the name test, and then
      reading its number raises, although it is within the batch range. */
  lemma LowerCaseCrash()
    ensures IsFidFolder("fid150")
    ensures FidNumberAsWritten("fid150") == None
    ensures FolderActionAsWritten("fid150", true) == Crash
    ensures FolderAction("fid150", true) == Convert
  {
    LowerCaseIsFid();
    LowerCaseKept();
    LowerCaseNumber();
  }

  lemma LowerCaseIsFid()
    ensures IsFidFolder("fid150")
  {
    var s := "fid150";
    assert s[|s| - 1] != '\n';
    assert Lower(s[..3]) == "fid";
    assert AllDigits(s[3..]);
  }

  /** A name without a capital F is left as it is by the replacement. */
  lemma {:induction false} RemoveFidNoF(s: string)
    requires 'F' !in s
    ensures RemoveFid(s) == s
  {
    if s != [] {
      assert s[0] != 'F';
      assert |s| >= 3 ==> s[..3][0] == s[0];
      RemoveFidNoF(s[1..]);
    }
  }

  lemma LowerCaseKept()
    ensures ParseInt(RemoveFid("fid150")) == None
  {
    var s := "fid150";
    assert 'F' !in s;
    RemoveFidNoF(s);
    assert Stripped(s) by {
      assert !IsSpace(s[0]) && !IsSpace(s[|s| - 1]);
    }
    StripNoop(s);
    assert s[0] == 'f' && !IsDigit(s[0]);
    assert !AllDigits(s);
  }

  lemma LowerCaseNumber()
    ensures FidNumber("fid150") == Some(150)
  {
    LowerCaseIsFid();
    var d := "fid150"[3..];
    assert d == "150";
    assert d[..2] == "15" && "15"[..1] == "1" && "1"[..0] == "";
    assert DigitsValue("1") == 1;
    assert DigitsValue("15") == 15;
    assert DigitsValue(d) == 150;
  }

  // ---------------------------------------------------------------- validation

  /** The exported file: absent, not decodable as JSON, or decoded. */
  datatype Source = Absent | Undecodable | Decoded(data: Json)

  /** The validation row: status, feature count and geometry types, or an
      exception escaping `validate_geojson`. */
  datatype Summary = Summary(status: string, count: nat, types: string) | Raises

  /** The elements `for x in v` visits when the body reads each one as a
      dictionary: a list's items; nothing for an empty dictionary or string;
      `None` when iteration raises or reaches a key or character. */
  function Entries(v: Json): (r: Option<seq<Json>>)
    ensures v.JArr? ==> r == Some(v.items)
  {
    match v
    case JArr(xs) => Some(xs)
    case JObj(m) => if m == map[] then Some([]) else None
    case JStr(s) => if s == "" then Some([]) else None
    case _ => None
  }

  /** `v.get(key, dflt)` on a dictionary. */
  function Get(m: map<string, Json>, key: string, dflt: Json): Json
  {
    if key in m then m[key] else dflt
  }

  /** What one feature contributes to the geometry types. */
  datatype Step = Skip | Add(t: Json) | Fail

  /** `geom = ft.get("geometry", {})`, then `if geom and "type" in geom: add geom["type"]`. */
  function GeomStep(ft: Json): Step
  {
    match ft
    case JObj(fm) =>
      var geom := Get(fm, "geometry", JObj(map[]));
      if !Truthy(geom) then Skip
      else (match geom
        case JObj(gm) => if "type" in gm then Add(gm["type"]) else Skip
        case JArr(xs) => if JStr("type") in xs then Fail else Skip
        case JStr(s) => if HasInfix(s, "type") then Fail else Skip
        case _ => Fail)
    case _ => Fail
  }

  /** The set `geom_types` after the loop over `fs`, or `None` once a step raises. */
  function GeomTypes(fs: seq<Json>): Option<set<Json>>
  {
    if fs == [] then Some({})
    else match GeomTypes(fs[..|fs| - 1])
      case None => None
      case Some(ts) =>
        match GeomStep(fs[|fs| - 1])
        case Fail => None
        case Skip => Some(ts)
        case Add(t) => Some(ts + {t})
  }

  predicate AllStrings(ts: set<Json>)
  {
    forall t :: t in ts ==> t.JStr?
  }

  function Texts(ts: set<Json>): set<string>
  {
    set t | t in ts && t.JStr? :: t.s
  }

  /** A dictionary whose "type" is "FeatureCollection". */
  predicate IsCollection(data: Json)
  {
    data.JObj? && "type" in data.fields && data.fields["type"] == JStr("FeatureCollection")
  }

  /** The test `"type" not in data or data["type"] != "FeatureCollection"`:
      `None` when the document is a feature collection, else the summary
      (the test itself raises for a value `in` cannot search, or whose
      "type" it finds but cannot index). */
  function CollectionCheck(data: Json): (r: Option<Summary>)
    ensures r.None? <==> IsCollection(data)
    ensures r.Some? ==> r.value == Summary("NOT_FEATURE_COLLECTION", 0, "") || r.value == Raises
    ensures data.JObj? && !IsCollection(data) ==> r == Some(Summary("NOT_FEATURE_COLLECTION", 0, ""))
  {
    match data
    case JObj(m) =>
      if "type" !in m || m["type"] != JStr("FeatureCollection") then Some(Summary("NOT_FEATURE_COLLECTION", 0, ""))
      else None
    case JArr(xs) => if JStr("type") in xs then Some(Raises) else Some(Summary("NOT_FEATURE_COLLECTION", 0, ""))
    case JStr(s) => if HasInfix(s, "type") then Some(Raises) else Some(Summary("NOT_FEATURE_COLLECTION", 0, ""))
    case _ => Some(Raises)
  }

  /** The summary of the features of a collection. */
  ghost function SummarizeFeatures(fs: seq<Json>): Summary
  {
    match GeomTypes(fs)
    case None => Raises
    case Some(ts) =>
      if !AllStrings(ts) then Raises
      else
        var types := Join(SortSet(Texts(ts)), ",");
        if |fs| == 0 then Summary("EMPTY", 0, types) else Summary("OK", |fs|, types)
  }

  /** `validate_geojson` once the file has been read. */
  ghost function ValidateDoc(data: Json): Summary
  {
    match CollectionCheck(data)
    case Some(s) => s
    case None =>
      match Entries(Get(data.fields, "features", JArr([])))
      case None => Raises
      case Some(fs) => SummarizeFeatures(fs)
  }

  /** `validate_geojson`. */
  ghost function Validate(src: Source): Summary
  {
    match src
    case Absent => Summary("MISSING", 0, "")
    case Undecodable => Summary("INVALID_JSON", 0, "")
    case Decoded(data) => ValidateDoc(data)
  }

  /** Once a feature raises, the whole loop raises. */
  lemma {:induction false} GeomTypesRaised(fs: seq<Json>, n: nat)
    requires n <= |fs| && GeomTypes(fs[..n]) == None
    ensures GeomTypes(fs) == None
    decreases |fs| - n
  {
    if n == |fs| {
      assert fs[..n] == fs;
    } else {
      assert fs[..n + 1][..n] == fs[..n];
      GeomTypesRaised(fs, n + 1);
    }
  }

  /** The loop accumulating `geom_types`. */
  method CollectGeomTypes(fs: seq<Json>) returns (r: Option<set<Json>>)
    ensures r == GeomTypes(fs)
  {
    var ts: set<Json> := {};
    for i := 0 to |fs|
      invariant GeomTypes(fs[..i]) == Some(ts)
    {
      assert fs[..i + 1][..i] == fs[..i];
      var step := GeomStep(fs[i]);
      match step {
        case Fail =>
          GeomTypesRaised(fs, i + 1);
          return None;
        case Skip =>
        case Add(t) => ts := ts + {t};
      }
    }
    assert fs[..|fs|] == fs;
    return Some(ts);
  }

  /** `validate_geojson` as written, with the types sorted by `SortStrings`. */
  method ValidateGeoJson(src: Source) returns (r: Summary)
    ensures r == Validate(src)
  {
    match src {
      case Absent => return Summary("MISSING", 0, "");
      case Undecodable => return Summary("INVALID_JSON", 0, "");
      case Decoded(data) =>
        var check := CollectionCheck(data);
        if check.Some? {
          return check.value;
        }
        var entries := Entries(Get(data.fields, "features", JArr([])));
        if entries.None? {
          return Raises;
        }
        var fs := entries.value;
        var collected := CollectGeomTypes(fs);
        if collected.None? || !AllStrings(collected.value) {
          return Raises;
        }
        var sorted := SortStrings(Texts(collected.value));
        var types := Join(sorted, ",");
        if |fs| == 0 {
          return Summary("EMPTY", 0, types);
        }
        return Summary("OK", |fs|, types);
    }
  }

  /** The five statuses and their counts: only "OK" carries features, and an
      empty collection reports no geometry types. */
  lemma SummaryShape(src: Source)
    ensures var r := Validate(src);
      r.Summary? ==>
        && r.status in {"MISSING", "INVALID_JSON", "NOT_FEATURE_COLLECTION", "EMPTY", "OK"}
        && (r.status == "OK" <==> r.count > 0)
        && (r.status == "EMPTY" ==> r.types == "")
        && (r.status in {"MISSING", "INVALID_JSON", "NOT_FEATURE_COLLECTION"} ==> r.types == "")
  {
  }

  /** For a feature collection whose `features` list is `fs` and which
      validates without raising, the count is `len(features)`, and the
      status is "EMPTY" exactly when the list is empty. */
  lemma SummaryCount(data: Json, fs: seq<Json>)
    requires IsCollection(data) && Entries(Get(data.fields, "features", JArr([]))) == Some(fs)
    requires Validate(Decoded(data)).Summary?
    ensures var r := Validate(Decoded(data));
      && r.count == |fs|
      && (r.status == "EMPTY" <==> fs == [])
      && (r.status == "OK" <==> fs != [])
      && GeomTypes(fs).Some?
  {
  }

  /** A geometry type is collected exactly when some feature's geometry carries it. */
  lemma {:induction false} GeomTypesMembers(fs: seq<Json>, t: Json)
    requires GeomTypes(fs).Some?
    ensures t in GeomTypes(fs).value <==> exists i :: 0 <= i < |fs| && GeomStep(fs[i]) == Add(t)
  {
    if fs != [] {
      var init := fs[..|fs| - 1];
      GeomTypesMembers(init, t);
      if exists i :: 0 <= i < |init| && GeomStep(init[i]) == Add(t) {
        var i :| 0 <= i < |init| && GeomStep(init[i]) == Add(t);
        assert fs[i] == init[i];
      }
      if exists i :: 0 <= i < |fs| && GeomStep(fs[i]) == Add(t) {
        var i :| 0 <= i < |fs| && GeomStep(fs[i]) == Add(t);
        if i < |init| {
          assert init[i] == fs[i];
        }
      }
    }
  }

  /** When no geometry type contains a comma, splitting the reported types on
      commas gives back the distinct types in sorted order. */
  lemma TypesRoundTrip(fs: seq<Json>)
    requires GeomTypes(fs).Some? && AllStrings(GeomTypes(fs).value) && GeomTypes(fs).value != {}
    requires forall t :: t in Texts(GeomTypes(fs).value) ==> ',' !in t
    ensures SummarizeFeatures(fs).Summary?
    ensures Split(SummarizeFeatures(fs).types, ',') == SortSet(Texts(GeomTypes(fs).value))
  {
    var ts := GeomTypes(fs).value;
    var t :| t in ts;
    assert t.s in Texts(ts);
    var sorted := SortSet(Texts(ts));
    forall k | 0 <= k < |sorted|
      ensures ',' !in sorted[k]
    {
      assert sorted[k] in Elements(sorted);
    }
    SplitJoin(sorted, ',');
  }

  // ---------------------------------------------------------------- tag flattening

  /** The property name of tag `k`; the tag can be read back from it, and it is never "tags". */
  function Tagged(k: string): (r: string)
    ensures |r| == |k| + 5 && r[5..] == k && r != "tags"
  {
    "tags_" + k
  }

  /** Every decoded tag `k` as property `tags_k`. */
  function Prefixed(parsed: map<string, Json>): map<string, Json>
  {
    map k | k in parsed :: Tagged(k) := parsed[k]
  }

  /** The properties once the decoded tags are added and "tags" removed. */
  function Flattened(pm: map<string, Json>, parsed: map<string, Json>): map<string, Json>
  {
    (pm + Prefixed(parsed)) - {"tags"}
  }

  /** `tags_k` holds tag `k`, "tags" is gone, and every other property is kept. */
  lemma FlattenedSpec(pm: map<string, Json>, parsed: map<string, Json>)
    ensures var r := Flattened(pm, parsed);
      && "tags" !in r
      && (forall k :: k in parsed ==> Tagged(k) in r && r[Tagged(k)] == parsed[k])
      && (forall x :: x in pm && x != "tags" ==> x in r)
      && (forall x :: x in r ==> (x in pm && x != "tags") || exists k :: k in parsed && x == Tagged(k))
      && (forall x :: x in pm && x != "tags" && (forall k :: k in parsed ==> x != Tagged(k)) ==> r[x] == pm[x])
  {
    var r := Flattened(pm, parsed);
    forall k | k in parsed
      ensures Tagged(k) in r && r[Tagged(k)] == parsed[k]
    {
      assert Tagged(k) in Prefixed(parsed);
    }
  }

  /** The property dictionary of one feature after the fix, or `None` when the
      fix raises: a "tags" string that decodes to a dictionary is flattened, one
      that does not decode is dropped, and anything else is kept. */
  function FixProps(props: Json, loads: string -> Option<Json>): Option<Json>
  {
    match props
    case JObj(pm) =>
      if "tags" in pm && pm["tags"].JStr? then
        match loads(pm["tags"].s)
        case None => Some(JObj(pm - {"tags"}))
        case Some(JObj(parsed)) => Some(JObj(Flattened(pm, parsed)))
        case Some(_) => None
      else Some(props)
    case JArr(xs) => if JStr("tags") in xs then None else Some(props)
    case JStr(s) => if HasInfix(s, "tags") then None else Some(props)
    case _ => None
  }

  /** One feature after the fix: its properties replaced (and created when missing). */
  function FixFeature(ft: Json, loads: string -> Option<Json>): Option<Json>
  {
    match ft
    case JObj(fm) =>
      (match FixProps(Get(fm, "properties", JObj(map[])), loads)
      case None => None
      case Some(p) => Some(JObj(fm["properties" := p])))
    case _ => None
  }

  /** The features after the loop, or `None` once one raises. */
  function FixAll(fs: seq<Json>, loads: string -> Option<Json>): (r: Option<seq<Json>>)
    ensures r.Some? ==> |r.value| == |fs|
    ensures r.Some? <==> forall i :: 0 <= i < |fs| ==> FixFeature(fs[i], loads).Some?
    ensures r.Some? ==> forall i :: 0 <= i < |fs| ==> FixFeature(fs[i], loads) == Some(r.value[i])
  {
    if fs == [] then Some([])
    else match FixAll(fs[..|fs| - 1], loads)
      case None => None
      case Some(done) =>
        match FixFeature(fs[|fs| - 1], loads)
        case None => None
        case Some(f) => Some(done + [f])
  }

  /** What `fix_geojson_tags` leaves in the file. */
  datatype FixOutcome = Untouched | Rewritten(doc: Json) | FixRaises

  /** `fix_geojson_tags`: an unreadable file or a document that is not a
      feature collection is left as it is; otherwise every feature is fixed
      and the document written back. */
  function FixDoc(src: Source, loads: string -> Option<Json>): FixOutcome
  {
    match src
    case Absent => Untouched
    case Undecodable => Untouched
    case Decoded(data) =>
      if !data.JObj? then FixRaises
      else if !IsCollection(data) then Untouched
      else
        var m := data.fields;
        match Entries(Get(m, "features", JArr([])))
        case None => FixRaises
        case Some(fs) =>
          match FixAll(fs, loads)
          case None => FixRaises
          case Some(fixed) =>
            Rewritten(if "features" in m && m["features"].JArr? then JObj(m["features" := JArr(fixed)]) else data)
  }

  /** The decoded tags among `ks`, as properties. */
  function PrefixedOn(parsed: map<string, Json>, ks: set<string>): map<string, Json>
  {
    map k | k in ks && k in parsed :: Tagged(k) := parsed[k]
  }

  lemma PrefixedOnAdd(parsed: map<string, Json>, ks: set<string>, k: string)
    requires k in parsed
    ensures PrefixedOn(parsed, ks + {k}) == PrefixedOn(parsed, ks)[Tagged(k) := parsed[k]]
  {
    var a := PrefixedOn(parsed, ks + {k});
    var b := PrefixedOn(parsed, ks)[Tagged(k) := parsed[k]];
    forall x | x in a
      ensures x in b && a[x] == b[x]
    {
      var j :| j in ks + {k} && j in parsed && x == Tagged(j);
      assert j == x[5..];
    }
    forall x | x in b
      ensures x in a
    {
      if x != Tagged(k) {
        var j :| j in ks && j in parsed && x == Tagged(j);
      }
    }
  }

  /** Setting one more `tags_k` property. */
  lemma FlattenStep(pm: map<string, Json>, parsed: map<string, Json>, rest: set<string>, k: string)
    requires k in rest && rest <= parsed.Keys
    ensures pm + PrefixedOn(parsed, parsed.Keys - (rest - {k}))
         == (pm + PrefixedOn(parsed, parsed.Keys - rest))[Tagged(k) := parsed[k]]
  {
    PrefixedOnAdd(parsed, parsed.Keys - rest, k);
    assert parsed.Keys - (rest - {k}) == (parsed.Keys - rest) + {k};
  }

  lemma PrefixedOnAll(parsed: map<string, Json>)
    ensures PrefixedOn(parsed, parsed.Keys) == Prefixed(parsed)
  {
  }

  /** The loop `for k, v in parsed_tags.items(): props[f"tags_{k}"] = v`
      followed by `del props["tags"]`. */
  method FlattenTags(pm: map<string, Json>, parsed: map<string, Json>) returns (out: map<string, Json>)
    ensures out == Flattened(pm, parsed)
  {
    out := pm;
    var rest := parsed.Keys;
    while rest != {}
      invariant rest <= parsed.Keys
      invariant out == pm + PrefixedOn(parsed, parsed.Keys - rest)
      decreases rest
    {
      var k :| k in rest;
      FlattenStep(pm, parsed, rest, k);
      out := out[Tagged(k) := parsed[k]];
      rest := rest - {k};
    }
    assert parsed.Keys - rest == parsed.Keys;
    PrefixedOnAll(parsed);
    out := out - {"tags"};
  }

  /** The body of the feature loop for one feature. */
  method FixFeatureInPlace(ft: Json, loads: string -> Option<Json>) returns (r: Option<Json>)
    ensures r == FixFeature(ft, loads)
  {
    if !ft.JObj? {
      return None;
    }
    var fm := ft.fields;
    var props := Get(fm, "properties", JObj(map[]));
    match props {
      case JObj(pm) =>
        if "tags" in pm && pm["tags"].JStr? {
          match loads(pm["tags"].s) {
            case None =>
              props := JObj(pm - {"tags"});
            case Some(parsed) =>
              if !parsed.JObj? {
                return None;
              }
              var flat := FlattenTags(pm, parsed.fields);
              props := JObj(flat);
          }
        }
      case JArr(xs) =>
        if JStr("tags") in xs {
          return None;
        }
      case JStr(s) =>
        if HasInfix(s, "tags") {
          return None;
        }
      case _ =>
        return None;
    }
    return Some(JObj(fm["properties" := props]));
  }

  /** Once a feature raises, the whole loop raises. */
  lemma {:induction false} FixAllRaised(fs: seq<Json>, loads: string -> Option<Json>, n: nat)
    requires n <= |fs| && FixAll(fs[..n], loads) == None
    ensures FixAll(fs, loads) == None
    decreases |fs| - n
  {
    if n == |fs| {
      assert fs[..n] == fs;
    } else {
      assert fs[..n + 1][..n] == fs[..n];
      FixAllRaised(fs, loads, n + 1);
    }
  }

  /** `fix_geojson_tags` as written: a loop over the features fixing each one. */
  method FixGeoJsonTags(src: Source, loads: string -> Option<Json>) returns (out: FixOutcome)
    ensures out == FixDoc(src, loads)
  {
    if !src.Decoded? {
      return Untouched;
    }
    var data := src.data;
    if !data.JObj? {
      return FixRaises;
    }
    if !("type" in data.fields && data.fields["type"] == JStr("FeatureCollection")) {
      return Untouched;
    }
    var m := data.fields;
    var entries := Entries(Get(m, "features", JArr([])));
    if entries.None? {
      return FixRaises;
    }
    var fs := entries.value;
    var fixed := [];
    for i := 0 to |fs|
      invariant FixAll(fs[..i], loads) == Some(fixed)
    {
      assert fs[..i + 1][..i] == fs[..i];
      var f := FixFeatureInPlace(fs[i], loads);
      if f.None? {
        FixAllRaised(fs, loads, i + 1);
        return FixRaises;
      }
      fixed := fixed + [f.value];
    }
    assert fs[..|fs|] == fs;
    if "features" in m && m["features"].JArr? {
      return Rewritten(JObj(m["features" := JArr(fixed)]));
    }
    return Rewritten(data);
  }

  // ---------------------------------------------------------------- a second pass

  /** Fixed properties are left alone by another fix: no string "tags" remains. */
  lemma FixPropsIdempotent(props: Json, loads: string -> Option<Json>)
    requires FixProps(props, loads).Some?
    ensures FixProps(FixProps(props, loads).value, loads) == FixProps(props, loads)
  {
    if props.JObj? && "tags" in props.fields && props.fields["tags"].JStr? {
      var parsed := loads(props.fields["tags"].s);
      if parsed.Some? {
        FlattenedSpec(props.fields, parsed.value.fields);
      }
    }
  }

  lemma FixFeatureIdempotent(ft: Json, loads: string -> Option<Json>)
    requires FixFeature(ft, loads).Some?
    ensures FixFeature(FixFeature(ft, loads).value, loads) == FixFeature(ft, loads)
  {
    var fm := ft.fields;
    var p := FixProps(Get(fm, "properties", JObj(map[])), loads).value;
    FixPropsIdempotent(Get(fm, "properties", JObj(map[])), loads);
    assert fm["properties" := p]["properties" := p] == fm["properties" := p];
  }

  lemma {:induction false} FixAllIdempotent(fs: seq<Json>, loads: string -> Option<Json>)
    requires FixAll(fs, loads).Some?
    ensures FixAll(FixAll(fs, loads).value, loads) == FixAll(fs, loads)
  {
    if fs != [] {
      var init := fs[..|fs| - 1];
      FixAllIdempotent(init, loads);
      FixFeatureIdempotent(fs[|fs| - 1], loads);
      var gs := FixAll(fs, loads).value;
      assert gs[..|gs| - 1] == FixAll(init, loads).value;
    }
  }

  /** Running the fix on a file it has rewritten changes nothing more. */
  lemma FixDocIdempotent(src: Source, loads: string -> Option<Json>)
    requires FixDoc(src, loads).Rewritten?
    ensures FixDoc(Decoded(FixDoc(src, loads).doc), loads) == FixDoc(src, loads)
  {
    var m := src.data.fields;
    var fs := Entries(Get(m, "features", JArr([]))).value;
    FixAllIdempotent(fs, loads);
    if "features" in m && m["features"].JArr? {
      var fixed := FixAll(fs, loads).value;
      var m' := m["features" := JArr(fixed)];
      assert m'["type"] == m["type"];
      assert m'["features" := JArr(fixed)] == m';
    }
  }

  /** A feature whose properties hold no string "tags" is left as it is. */
  lemma FixFeatureKeeps(ft: Json, loads: string -> Option<Json>)
    requires ft.JObj? && "properties" in ft.fields && ft.fields["properties"].JObj?
    requires var pm := ft.fields["properties"].fields; !("tags" in pm && pm["tags"].JStr?)
    ensures FixFeature(ft, loads) == Some(ft)
  {
    assert ft.fields["properties" := ft.fields["properties"]] == ft.fields;
  }

  /** The file is left alone exactly when it is missing, does not decode, or
      decodes to a dictionary that is not a feature collection. */
  lemma FixDocUntouched(src: Source, loads: string -> Option<Json>)
    ensures FixDoc(src, loads) == Untouched <==> !src.Decoded? || (src.data.JObj? && !IsCollection(src.data))
  {
  }
}
