/**
 * `parse_tags`, the reader of the `tags` text column shared by the theme
 * splitter and the tag inventory (the two scripts carry the same function).
 * A cell is tried as JSON, then as a Python dict literal, and otherwise read
 * as delimited `key=value` tokens. The two decoders are parameters of the
 * model: each returns the dictionary it decoded (keys and values already
 * rendered with `str`, a JSON null as `None`), `NotDict` for any other value,
 * or `None` when it raises.
 */
module TagText {
  import opened Base
  import opened Text

  type Tags = map<string, string>

  /** What a decoder produced: a dictionary as (key, value) entries in
      iteration order, or some other value. */
  datatype Decoded = Dict(entries: seq<(string, Option<string>)>) | NotDict

  type Decoder = string -> Option<Decoded>

  /** A value rendered for the tag map: None becomes "". */
  function ValueText(v: Option<string>): string
  {
    if v.Some? then v.value else ""
  }

  /** The dict comprehension over a decoded dictionary; a later entry with the same key wins. */
  function FromEntries(es: seq<(string, Option<string>)>): Tags
  {
    if es == [] then map[]
    else FromEntries(es[..|es| - 1])[es[|es| - 1].0 := ValueText(es[|es| - 1].1)]
  }

  predicate IsSep(c: char)
  {
    c == ';' || c == ','
  }

  /** The first `;` or `,`. */
  function FirstSep(s: string): (r: Option<nat>)
    ensures r.None? ==> forall i :: 0 <= i < |s| ==> !IsSep(s[i])
    ensures r.Some? ==> r.value < |s| && IsSep(s[r.value]) && forall i :: 0 <= i < r.value ==> !IsSep(s[i])
  {
    if s == [] then None
    else if IsSep(s[0]) then Some(0)
    else match FirstSep(s[1..])
      case None => None
      case Some(k) => Some(k + 1)
  }

  /** `re.split(r"[;,]\s*", txt)`: cut at every `;` or `,`, dropping the
      separator and the whitespace right after it. */
  function Tokens(s: string): (r: seq<string>)
    ensures |r| >= 1
    decreases |s|
  {
    match FirstSep(s)
    case None => [s]
    case Some(i) => [s[..i]] + Tokens(TrimLeft(s[i + 1..]))
  }

  /** `t.split(c, 1)` when `c` occurs in `t`. */
  function SplitOnce(t: string, c: char): (r: (string, string))
    requires c in t
    ensures c !in r.0 && t == r.0 + [c] + r.1
  {
    var i := IndexOf(t, c).value;
    assert t == t[..i] + [c] + t[i + 1..];
    (t[..i], t[i + 1..])
  }

  /** One token of the delimited fallback: split at the first `=`, else at
      the first `:` unless the token holds `://`, else a bare key meaning
      "true"; both sides stripped; no pair when the key is empty. */
  function ParseToken(t: string): (r: Option<(string, string)>)
    ensures r.Some? ==> r.value.0 != "" && Stripped(r.value.0) && Stripped(r.value.1)
  {
    if t == "" then None
    else
      var kv := if '=' in t then SplitOnce(t, '=')
                else if ':' in t && !HasInfix(t, "://") then SplitOnce(t, ':')
                else (t, "true");
      var key := Strip(kv.0);
      if key == "" then None else Some((key, Strip(kv.1)))
  }

  /** The fallback loop over the tokens; a later pair with the same key wins. */
  function FoldTokens(ts: seq<string>): Tags
  {
    FoldWith(ts, ParseToken)
  }

  /** Tokens entered one after another into the dictionary, each read by `read`. */
  function FoldWith(ts: seq<string>, read: string -> Option<(string, string)>): Tags
  {
    if ts == [] then map[]
    else Feed(FoldWith(ts[..|ts| - 1], read), read(ts[|ts| - 1]))
  }

  /** One parsed token entered into the dictionary. */
  function Feed(m: Tags, kv: Option<(string, string)>): Tags
  {
    match kv
    case Some(p) => m[p.0 := p.1]
    case None => m
  }

  function DelimitedTags(txt: string): Tags
  {
    FoldTokens(Tokens(txt))
  }

  /** `parse_tags`: nothing for a missing cell, a blank one, or "null",
      "none", "nan" in any case; otherwise the first decoder that yields a
      dictionary, else the delimited fallback. */
  function ParseTags(raw: Option<string>, loads: Decoder, literal: Decoder): Tags
  {
    if raw.None? then map[]
    else
      var txt := Strip(raw.value);
      if txt == "" || Lower(txt) in {"null", "none", "nan"} then map[]
      else match loads(txt)
        case Some(Dict(es)) => FromEntries(es)
        case _ =>
          match literal(txt)
          case Some(Dict(es)) => FromEntries(es)
          case _ => DelimitedTags(txt)
  }

  /** One more token read by the fallback loop. */
  lemma FoldStep(ts: seq<string>, i: nat, read: string -> Option<(string, string)>)
    requires i < |ts|
    ensures FoldWith(ts[..i + 1], read) == Feed(FoldWith(ts[..i], read), read(ts[i]))
  {
    var s := ts[..i + 1];
    assert s[..|s| - 1] == ts[..i];
    assert s[|s| - 1] == ts[i];
  }

  /** The delimited fallback as written: a loop over the tokens filling `out`. */
  method ParseDelimited(txt: string) returns (out: Tags)
    ensures out == DelimitedTags(txt)
  {
    out := ReadTokens(Tokens(txt));
  }

  /** The fallback loop over the tokens, filling `out`. */
  method ReadTokens(tokens: seq<string>) returns (out: Tags)
    ensures out == FoldTokens(tokens)
  {
    out := map[];
    for i := 0 to |tokens|
      invariant out == FoldTokens(tokens[..i])
    {
      var kv := ReadToken(tokens[i]);
      FoldStep(tokens, i, ParseToken);
      if kv.Some? {
        out := out[kv.value.0 := kv.value.1];
      }
    }
    assert tokens[..|tokens|] == tokens;
  }

  /** The body of the fallback loop for one token. */
  method ReadToken(t: string) returns (kv: Option<(string, string)>)
    ensures kv == ParseToken(t)
  {
    if t == "" {
      return None;
    }
    var k, v;
    if '=' in t {
      var j := IndexOf(t, '=').value;
      k, v := t[..j], t[j + 1..];
      assert (k, v) == SplitOnce(t, '=');
    } else if ':' in t && !HasInfix(t, "://") {
      var j := IndexOf(t, ':').value;
      k, v := t[..j], t[j + 1..];
      assert (k, v) == SplitOnce(t, ':');
    } else {
      k, v := t, "true";
    }
    k := Strip(k);
    v := Strip(v);
    if k == "" {
      return None;
    }
    return Some((k, v));
  }

  // ---------------------------------------------------------------- properties

  /** Missing, blank and null-like cells parse to no tags, whatever the decoders do. */
  lemma ParseTagsEmpty(raw: Option<string>, loads: Decoder, literal: Decoder)
    requires raw.None? || Strip(raw.value) == "" || Lower(Strip(raw.value)) in {"null", "none", "nan"}
    ensures ParseTags(raw, loads, literal) == map[]
  {
  }

  /** A decoded dictionary keeps each key with the value of its last entry, None read as "". */
  lemma {:induction false} FromEntriesLast(es: seq<(string, Option<string>)>, i: nat)
    requires i < |es| && forall j :: i < j < |es| ==> es[j].0 != es[i].0
    ensures es[i].0 in FromEntries(es) && FromEntries(es)[es[i].0] == ValueText(es[i].1)
  {
    if i < |es| - 1 {
      FromEntriesLast(es[..|es| - 1], i);
    }
  }

  /** Only keys of entries appear in a decoded dictionary. */
  lemma {:induction false} FromEntriesKeys(es: seq<(string, Option<string>)>, k: string)
    requires k in FromEntries(es)
    ensures exists i :: 0 <= i < |es| && es[i].0 == k
  {
    if es[|es| - 1].0 != k {
      FromEntriesKeys(es[..|es| - 1], k);
      var i :| 0 <= i < |es| - 1 && es[..|es| - 1][i].0 == k;
      assert es[i].0 == k;
    }
  }

  /** A key that holds none of `= ; ,` and does not start or end with
      whitespace, followed by `=` and a value that does not start or end with
      whitespace, reads back as that pair. */
  lemma TokenRoundTrip(k: string, v: string)
    requires k != "" && Stripped(k) && '=' !in k
    requires Stripped(v)
    ensures ParseToken(k + "=" + v) == Some((k, v))
  {
    var t := k + "=" + v;
    assert t[|k|] == '=';
    var kv := SplitOnce(t, '=');
    assert IndexOf(t, '=') == Some(|k|) by {
      assert t[..|k|] == k;
    }
    assert kv == (k, v) by {
      assert t[..|k|] == k;
      assert t[|k| + 1..] == v;
    }
    StripNoop(k);
    StripNoop(v);
  }

  /** A token with neither `=` nor `:` is a bare key meaning "true". */
  lemma BareKey(k: string)
    requires k != "" && Stripped(k) && '=' !in k && ':' !in k
    ensures ParseToken(k) == Some((k, "true"))
  {
    StripNoop(k);
    assert Strip("true") == "true" by { StripNoop("true"); }
  }

  /** Without `=`, a stripped key free of `:` followed by `:` and a stripped
      value reads back as the pair (k, v), unless the token holds `://`. */
  lemma ColonToken(k: string, v: string)
    requires k != "" && Stripped(k) && ':' !in k && Stripped(v)
    requires '=' !in k + ":" + v && !HasInfix(k + ":" + v, "://")
    ensures ParseToken(k + ":" + v) == Some((k, v))
  {
    var t := k + ":" + v;
    assert t[|k|] == ':';
    var kv := SplitOnce(t, ':');
    assert IndexOf(t, ':') == Some(|k|) by {
      assert t[..|k|] == k;
    }
    assert kv == (k, v) by {
      assert t[..|k|] == k;
      assert t[|k| + 1..] == v;
    }
    StripNoop(k);
    StripNoop(v);
  }

  /** A token without `=` that holds `://` is not split at its `:`: the whole
      token is a key meaning "true". */
  lemma UrlToken(t: string)
    requires t != "" && Stripped(t) && '=' !in t && HasInfix(t, "://")
    ensures ParseToken(t) == Some((t, "true"))
  {
    StripNoop(t);
    assert Strip("true") == "true" by { StripNoop("true"); }
  }

  /** Tokens undo a `;` join when no piece holds a separator or starts with whitespace. */
  lemma {:induction false} TokensJoin(parts: seq<string>)
    requires |parts| >= 1
    requires forall i :: 0 <= i < |parts| ==> CleanPiece(parts[i])
    ensures Tokens(Join(parts, ";")) == parts
  {
    if |parts| > 1 {
      assert forall i :: 0 <= i < |parts[1..]| ==> CleanPiece(parts[1..][i]) by {
        forall i | 0 <= i < |parts[1..]| ensures CleanPiece(parts[1..][i]) {
          assert parts[1..][i] == parts[i + 1];
        }
      }
      TokensJoin(parts[1..]);
      JoinStart(parts[1..]);
      TokensCons(parts);
    }
  }

  /** The inductive step of `TokensJoin`. */
  lemma TokensCons(parts: seq<string>)
    requires |parts| > 1 && CleanPiece(parts[0])
    requires Join(parts[1..], ";") == [] || !IsSpace(Join(parts[1..], ";")[0])
    requires Tokens(Join(parts[1..], ";")) == parts[1..]
    ensures Tokens(Join(parts, ";")) == parts
  {
    var tail := parts[1..];
    var rest := Join(tail, ";");
    assert Join(parts, ";") == parts[0] + ";" + rest;
    TokensStep(parts[0], rest);
    assert [parts[0]] + tail == parts;
  }

  /** A piece that survives the split: no separator, no leading whitespace. */
  predicate CleanPiece(p: string)
  {
    (forall j :: 0 <= j < |p| ==> !IsSep(p[j])) && (p == [] || !IsSpace(p[0]))
  }

  /** One `;`-separated piece comes off the front. */
  lemma TokensStep(p: string, rest: string)
    requires forall j :: 0 <= j < |p| ==> !IsSep(p[j])
    requires rest == [] || !IsSpace(rest[0])
    ensures Tokens(p + ";" + rest) == [p] + Tokens(rest)
  {
    var s := p + ";" + rest;
    FirstSepIs(s, |p|);
    assert s[..|p|] == p;
    assert s[|p| + 1..] == rest;
  }

  /** A `;` join does not start with whitespace when no piece does. */
  lemma JoinStart(parts: seq<string>)
    requires |parts| >= 1
    requires forall i :: 0 <= i < |parts| ==> CleanPiece(parts[i])
    ensures Join(parts, ";") == [] || !IsSpace(Join(parts, ";")[0])
  {
    JoinHead(parts, ";");
  }

  lemma FirstSepIs(s: string, i: nat)
    requires i < |s| && IsSep(s[i]) && forall j :: 0 <= j < i ==> !IsSep(s[j])
    ensures FirstSep(s) == Some(i)
  {
  }

  /** A join starts with its first piece. */
  lemma {:induction false} JoinHead(parts: seq<string>, sep: string)
    requires |parts| >= 1
    ensures |Join(parts, sep)| >= |parts[0]| && Join(parts, sep)[..|parts[0]|] == parts[0]
    ensures parts[0] == [] && |parts| > 1 ==> |Join(parts, sep)| >= |sep| && Join(parts, sep)[..|sep|] == sep
  {
  }

  /** The pairs a sequence of well-formed pairs denotes, a later key winning. */
  function PairsMap(ps: seq<(string, string)>): Tags
  {
    if ps == [] then map[] else PairsMap(ps[..|ps| - 1])[ps[|ps| - 1].0 := ps[|ps| - 1].1]
  }

  function Render(ps: seq<(string, string)>): (r: seq<string>)
    ensures |r| == |ps| && forall i :: 0 <= i < |ps| ==> r[i] == ps[i].0 + "=" + ps[i].1
  {
    seq(|ps|, i requires 0 <= i < |ps| => ps[i].0 + "=" + ps[i].1)
  }

  /** A pair the delimited form can carry: a non-empty key without `= ; ,`, a
      value without `; ,`, neither starting or ending with whitespace. */
  predicate WellFormedPair(p: (string, string))
  {
    && p.0 != "" && Stripped(p.0)
    && (forall j :: 0 <= j < |p.0| ==> p.0[j] != '=' && !IsSep(p.0[j]))
    && Stripped(p.1)
    && (forall j :: 0 <= j < |p.1| ==> !IsSep(p.1[j]))
  }

  lemma {:induction false} FoldRender(ps: seq<(string, string)>)
    requires forall i :: 0 <= i < |ps| ==> WellFormedPair(ps[i])
    ensures FoldTokens(Render(ps)) == PairsMap(ps)
  {
    if ps != [] {
      var last := ps[|ps| - 1];
      assert Render(ps)[..|ps| - 1] == Render(ps[..|ps| - 1]);
      FoldRender(ps[..|ps| - 1]);
      TokenRoundTrip(last.0, last.1);
    }
  }

  /** Writing pairs as `k=v;k2=v2` and reading the text back with the
      delimited fallback gives the pairs, a repeated key taking its last value. */
  lemma DelimitedRoundTrip(ps: seq<(string, string)>)
    requires |ps| >= 1 && forall i :: 0 <= i < |ps| ==> WellFormedPair(ps[i])
    ensures DelimitedTags(Join(Render(ps), ";")) == PairsMap(ps)
  {
    var parts := Render(ps);
    forall i | 0 <= i < |parts|
      ensures CleanPiece(parts[i])
    {
      PairClean(ps[i]);
    }
    TokensJoin(parts);
    FoldRender(ps);
  }

  /** A well-formed pair renders as a piece the split keeps whole. */
  lemma PairClean(p: (string, string))
    requires WellFormedPair(p)
    ensures CleanPiece(p.0 + "=" + p.1)
  {
    var t := p.0 + "=" + p.1;
    forall j | 0 <= j < |t| ensures !IsSep(t[j]) {
      if j < |p.0| {
        assert t[j] == p.0[j];
      } else if j > |p.0| {
        assert t[j] == p.1[j - |p.0| - 1];
      }
    }
    assert t[0] == p.0[0];
  }
}
