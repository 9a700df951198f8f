/**
 * `stitch_rings` of the clip pipeline: member ways of a multipolygon are
 * chained greedily end to end, reversing a way when needed, and every chain
 * that closes becomes a ring. The greedy loop is specified by the functions
 * `Sweep`, `Grow` and `StitchFrom`, which follow the source step by step,
 * including the endpoints `cs`, `ce` that are read once per sweep and not
 * refreshed after a match within that sweep; the method `StitchRings` runs
 * the loop over a `used` flag array and is proved to compute `Stitch`.
 */
module Rings {
  import opened Base

  /** A coordinate pair (longitude, latitude); equality is exact, as Python's tuple equality. */
  datatype Point = Point(x: real, y: real)

  type Path = seq<Point>

  /** The default tolerance of `coords_closed`. */
  const Eps: real := 0.000000001

  function Abs(r: real): real
  {
    if r < 0.0 then -r else r
  }

  /** `coords_closed`: at least four points, and the first and last agree within Eps on both axes. */
  predicate CoordsClosed(cs: Path)
  {
    |cs| >= 4 && Abs(cs[0].x - cs[|cs| - 1].x) <= Eps && Abs(cs[0].y - cs[|cs| - 1].y) <= Eps
  }

  /** Every fragment has at least two points. */
  predicate Fragments(frags: seq<Path>)
  {
    forall k :: 0 <= k < |frags| ==> |frags[k]| >= 2
  }

  /** The fragments: the member ways with at least two points, in order. */
  function Frags(ways: seq<Path>): (r: seq<Path>)
    ensures Fragments(r) && |r| <= |ways|
    ensures forall k :: 0 <= k < |r| ==> r[k] in ways
    ensures (forall k :: 0 <= k < |ways| ==> |ways[k]| < 2) ==> r == []
  {
    if ways == [] then []
    else (if |ways[0]| >= 2 then [ways[0]] else []) + Frags(ways[1..])
  }

  /** No way with two points or more is dropped. */
  lemma {:induction false} FragsKept(ways: seq<Path>)
    ensures forall k :: 0 <= k < |ways| && |ways[k]| >= 2 ==> ways[k] in Frags(ways)
  {
    if ways != [] {
      var tail := ways[1..];
      FragsKept(tail);
      forall k | 0 <= k < |ways| && |ways[k]| >= 2
        ensures ways[k] in Frags(ways)
      {
        if k > 0 {
          assert ways[k] == tail[k - 1];
        }
      }
    }
  }

  /** When every way has two points or more, the fragments are the ways themselves. */
  lemma {:induction false} FragsAll(ways: seq<Path>)
    requires forall k :: 0 <= k < |ways| ==> |ways[k]| >= 2
    ensures Frags(ways) == ways
  {
    if ways != [] {
      var tail := ways[1..];
      forall k | 0 <= k < |tail| ensures |tail[k]| >= 2 {
        assert tail[k] == ways[k + 1];
      }
      FragsAll(tail);
      assert Frags(ways) == [ways[0]] + Frags(tail);
      assert ways == [ways[0]] + tail;
    }
  }

  /** Selecting the fragments distributes over concatenation: together with
      `Frags([w]) == if |w| >= 2 then [w] else []` this says that `Frags` is
      the order-preserving filter of the ways with at least two points. */
  lemma {:induction false} FragsAppend(a: seq<Path>, b: seq<Path>)
    ensures Frags(a + b) == Frags(a) + Frags(b)
  {
    if a != [] {
      assert (a + b)[1..] == a[1..] + b;
      FragsAppend(a[1..], b);
    } else {
      assert a + b == b;
    }
  }

  function Reverse(s: Path): (r: Path)
    ensures |r| == |s| && forall i :: 0 <= i < |s| ==> r[i] == s[|s| - 1 - i]
  {
    seq(|s|, i requires 0 <= i < |s| => s[|s| - 1 - i])
  }

  /** The four matching tests of one sweep step, in the order of the source,
      against the endpoints `cs`, `ce` read at the start of the sweep. */
  function Attach(chain: Path, w: Path, cs: Point, ce: Point): (r: Option<Path>)
    requires |w| >= 2
    ensures r.Some? ==> |r.value| == |chain| + |w| - 1
    ensures r.None? <==> w[0] != ce && w[|w| - 1] != ce && w[|w| - 1] != cs && w[0] != cs
  {
    if w[0] == ce then Some(chain + w[1..])
    else if w[|w| - 1] == ce then Some(chain + Reverse(w[..|w| - 1]))
    else if w[|w| - 1] == cs then Some(w[..|w| - 1] + chain)
    else if w[0] == cs then Some(Reverse(w[1..]) + chain)
    else None
  }

  /** The state of the inner `for j` loop. */
  datatype SweepState = SweepState(chain: Path, used: seq<bool>, extended: bool)

  /** Fragments are only ever marked used, never released. */
  predicate Grows(before: seq<bool>, after: seq<bool>)
  {
    |before| == |after| && forall k :: 0 <= k < |before| && before[k] ==> after[k]
  }

  /** The number of fragments not yet used. */
  function Unused(used: seq<bool>): nat
  {
    if used == [] then 0 else (if used[0] then 0 else 1) + Unused(used[1..])
  }

  /** Total points of the used fragments. */
  function Weight(frags: seq<Path>, used: seq<bool>): nat
    requires |used| == |frags|
  {
    if frags == [] then 0 else (if used[0] then |frags[0]| else 0) + Weight(frags[1..], used[1..])
  }

  /** Total points of a list of paths. */
  function TotalLen(ps: seq<Path>): nat
  {
    if ps == [] then 0 else |ps[0]| + TotalLen(ps[1..])
  }

  /** One sweep over the fragments from index `j`: each unused fragment that
      matches the stale endpoints is attached and marked used. */
  function Sweep(frags: seq<Path>, j: nat, cs: Point, ce: Point, st: SweepState): (r: SweepState)
    requires Fragments(frags) && |st.used| == |frags| && j <= |frags|
    decreases |frags| - j
    ensures Grows(st.used, r.used)
    ensures r.extended == (st.extended || r.used != st.used)
    ensures r.used == st.used ==> r.chain == st.chain
    ensures |r.chain| >= |st.chain|
    ensures |r.chain| - |st.chain| <= Weight(frags, r.used) - Weight(frags, st.used)
  {
    if j == |frags| then st
    else if st.used[j] then Sweep(frags, j + 1, cs, ce, st)
    else match Attach(st.chain, frags[j], cs, ce)
      case None => Sweep(frags, j + 1, cs, ce, st)
      case Some(c) =>
        WeightMark(frags, st.used, j);
        var r := Sweep(frags, j + 1, cs, ce, SweepState(c, st.used[j := true], true));
        assert r.used[j] && !st.used[j];
        r
  }

  /** The `while extended` loop: sweep again as long as the last sweep attached something. */
  function Grow(frags: seq<Path>, used: seq<bool>, chain: Path): (r: (Path, seq<bool>))
    requires Fragments(frags) && |used| == |frags| && |chain| >= 1
    decreases Unused(used)
    ensures Grows(used, r.1)
    ensures |r.0| >= |chain|
    ensures |r.0| - |chain| <= Weight(frags, r.1) - Weight(frags, used)
  {
    var st := Sweep(frags, 0, chain[0], chain[|chain| - 1], SweepState(chain, used, false));
    if st.extended then
      UnusedDecreases(used, st.used);
      Grow(frags, st.used, st.chain)
    else (chain, used)
  }

  /** The outer `for i` loop from index `i`, with the rings found so far. */
  function StitchFrom(frags: seq<Path>, i: nat, used: seq<bool>, rings: seq<Path>): seq<Path>
    requires Fragments(frags) && |used| == |frags| && i <= |frags|
    decreases |frags| - i
  {
    if i == |frags| then rings
    else if used[i] then StitchFrom(frags, i + 1, used, rings)
    else
      var g := Grow(frags, used[i := true], frags[i]);
      StitchFrom(frags, i + 1, g.1, rings + if CoordsClosed(g.0) then [g.0] else [])
  }

  /** `stitch_rings`. */
  function Stitch(ways: seq<Path>): seq<Path>
  {
    var frags := Frags(ways);
    StitchFrom(frags, 0, seq(|frags|, _ => false), [])
  }

  lemma {:induction false} UnusedDecreases(a: seq<bool>, b: seq<bool>)
    requires Grows(a, b) && a != b
    ensures Unused(b) < Unused(a)
  {
    if a[0] != b[0] {
      UnusedMono(a[1..], b[1..]);
    } else {
      var k :| 0 <= k < |a| && a[k] != b[k];
      assert a[1..][k - 1] != b[1..][k - 1];
      UnusedDecreases(a[1..], b[1..]);
    }
  }

  lemma {:induction false} UnusedMono(a: seq<bool>, b: seq<bool>)
    requires Grows(a, b)
    ensures Unused(b) <= Unused(a)
  {
    if a != [] {
      UnusedMono(a[1..], b[1..]);
    }
  }

  /** Marking an unused fragment adds its points to the weight. */
  lemma {:induction false} WeightMark(frags: seq<Path>, used: seq<bool>, j: nat)
    requires |used| == |frags| && j < |frags| && !used[j]
    ensures Weight(frags, used[j := true]) == Weight(frags, used) + |frags[j]|
  {
    if j > 0 {
      assert used[j := true][1..] == used[1..][j - 1 := true];
      WeightMark(frags[1..], used[1..], j - 1);
    }
  }

  lemma {:induction false} WeightBound(frags: seq<Path>, used: seq<bool>)
    requires |used| == |frags|
    ensures Weight(frags, used) <= TotalLen(frags)
  {
    if frags != [] {
      WeightBound(frags[1..], used[1..]);
    }
  }

  lemma {:induction false} WeightNone(frags: seq<Path>)
    ensures Weight(frags, seq(|frags|, _ => false)) == 0
  {
    if frags != [] {
      assert seq(|frags|, _ => false)[1..] == seq(|frags| - 1, _ => false);
      WeightNone(frags[1..]);
    }
  }

  /** Every ring returned is closed: at least four points, ends within Eps. */
  lemma {:induction false} StitchFromClosed(frags: seq<Path>, i: nat, used: seq<bool>, rings: seq<Path>)
    requires Fragments(frags) && |used| == |frags| && i <= |frags|
    requires forall k :: 0 <= k < |rings| ==> CoordsClosed(rings[k])
    ensures forall k :: 0 <= k < |StitchFrom(frags, i, used, rings)| ==> CoordsClosed(StitchFrom(frags, i, used, rings)[k])
    decreases |frags| - i
  {
    if i < |frags| {
      if used[i] {
        StitchFromClosed(frags, i + 1, used, rings);
      } else {
        var g := Grow(frags, used[i := true], frags[i]);
        StitchFromClosed(frags, i + 1, g.1, rings + if CoordsClosed(g.0) then [g.0] else []);
      }
    }
  }

  lemma StitchClosed(ways: seq<Path>)
    ensures forall k :: 0 <= k < |Stitch(ways)| ==> CoordsClosed(Stitch(ways)[k])
  {
    var frags := Frags(ways);
    StitchFromClosed(frags, 0, seq(|frags|, _ => false), []);
  }

  /** The rings hold no more points than the fragments still unused, plus the rings so far. */
  lemma {:induction false} StitchFromBudget(frags: seq<Path>, i: nat, used: seq<bool>, rings: seq<Path>)
    requires Fragments(frags) && |used| == |frags| && i <= |frags|
    ensures TotalLen(StitchFrom(frags, i, used, rings)) <= TotalLen(rings) + TotalLen(frags) - Weight(frags, used)
    decreases |frags| - i
  {
    WeightBound(frags, used);
    if i < |frags| {
      if used[i] {
        StitchFromBudget(frags, i + 1, used, rings);
      } else {
        WeightMark(frags, used, i);
        var g := Grow(frags, used[i := true], frags[i]);
        var found := if CoordsClosed(g.0) then [g.0] else [];
        TotalLenAppend(rings, found);
        assert TotalLen(found) <= |g.0| by {
          if found != [] { assert found[1..] == []; }
        }
        StitchFromBudget(frags, i + 1, g.1, rings + found);
      }
    }
  }

  lemma {:induction false} TotalLenAppend(a: seq<Path>, b: seq<Path>)
    ensures TotalLen(a + b) == TotalLen(a) + TotalLen(b)
  {
    if a != [] {
      assert (a + b)[1..] == a[1..] + b;
      TotalLenAppend(a[1..], b);
    } else {
      assert a + b == b;
    }
  }

  lemma {:induction false} FragsLen(ways: seq<Path>)
    ensures TotalLen(Frags(ways)) <= TotalLen(ways)
  {
    if ways != [] {
      FragsLen(ways[1..]);
      TotalLenAppend(if |ways[0]| >= 2 then [ways[0]] else [], Frags(ways[1..]));
      if |ways[0]| >= 2 {
        assert [ways[0]][1..] == [];
      }
    }
  }

  /** Each fragment is consumed by at most one chain, so the rings together
      hold no more points than the member ways. */
  lemma StitchBudget(ways: seq<Path>)
    ensures TotalLen(Stitch(ways)) <= TotalLen(ways)
  {
    var frags := Frags(ways);
    StitchFromBudget(frags, 0, seq(|frags|, _ => false), []);
    WeightNone(frags);
    FragsLen(ways);
  }

  /** No member ways with two points or more, no rings. */
  lemma StitchEmpty(ways: seq<Path>)
    requires forall k :: 0 <= k < |ways| ==> |ways[k]| < 2
    ensures Stitch(ways) == []
  {
  }

  /** A single way is returned as the only ring exactly when it closes on its own. */
  lemma StitchSingle(w: Path)
    requires |w| >= 2
    ensures Stitch([w]) == if CoordsClosed(w) then [w] else []
  {
    assert [w][1..] == [];
    assert Frags([w]) == [w];
    assert seq(1, _ => false) == [false];
    assert [false][0 := true] == [true];
    var st0 := SweepState(w, [true], false);
    assert Sweep([w], 1, w[0], w[|w| - 1], st0) == st0;
    assert Sweep([w], 0, w[0], w[|w| - 1], st0) == st0;
    assert Grow([w], [true], w) == (w, [true]);
    var found := if CoordsClosed(w) then [w] else [];
    assert StitchFrom([w], 1, [true], [] + found) == found;
    assert StitchFrom([w], 0, [false], []) == StitchFrom([w], 1, [true], [] + found);
  }

  /** The endpoints are not refreshed within a sweep: after [a,b] takes [b,c]
      at its end, [c,a] is compared with the stale end b, fails, and is put
      in front because its end equals the start a; the ring comes out as
      [c,a,b,c] rather than [a,b,c,a]. */
  lemma StaleEndpoints()
    ensures var a, b, c := Point(0.0, 0.0), Point(1.0, 0.0), Point(1.0, 1.0);
      Stitch([[a, b], [b, c], [c, a]]) == [[c, a, b, c]]
  {
    var a, b, c := Point(0.0, 0.0), Point(1.0, 0.0), Point(1.0, 1.0);
    var frags := [[a, b], [b, c], [c, a]];
    ExampleFrags();
    ExampleGrow();
    ExampleRest();
    var none := seq(3, _ => false);
    assert none == [false, false, false];
    assert none[0 := true] == [true, false, false];
    var r := [c, a, b, c];
    assert [] + [r] == [r];
    assert CoordsClosed(r);
  }

  lemma ExampleFrags()
    ensures var a, b, c := Point(0.0, 0.0), Point(1.0, 0.0), Point(1.0, 1.0);
      Frags([[a, b], [b, c], [c, a]]) == [[a, b], [b, c], [c, a]]
  {
    var a, b, c := Point(0.0, 0.0), Point(1.0, 0.0), Point(1.0, 1.0);
    var frags := [[a, b], [b, c], [c, a]];
    assert frags[1..][1..][1..] == [];
    assert Frags(frags[1..][1..]) == [[c, a]];
    assert Frags(frags[1..]) == [[b, c], [c, a]];
  }

  lemma ExampleRest()
    ensures var a, b, c := Point(0.0, 0.0), Point(1.0, 0.0), Point(1.0, 1.0);
      StitchFrom([[a, b], [b, c], [c, a]], 1, [true, true, true], [[c, a, b, c]]) == [[c, a, b, c]]
  {
    var a, b, c := Point(0.0, 0.0), Point(1.0, 0.0), Point(1.0, 1.0);
    var frags := [[a, b], [b, c], [c, a]];
    var u2 := [true, true, true];
    var r := [c, a, b, c];
    assert StitchFrom(frags, 3, u2, [r]) == [r];
    assert StitchFrom(frags, 2, u2, [r]) == [r];
  }

  /** The first fragment of the example grows to [c,a,b,c] in one sweep and stops on the next. */
  lemma ExampleGrow()
    ensures var a, b, c := Point(0.0, 0.0), Point(1.0, 0.0), Point(1.0, 1.0);
      Grow([[a, b], [b, c], [c, a]], [true, false, false], [a, b]) == ([c, a, b, c], [true, true, true])
  {
    var a, b, c := Point(0.0, 0.0), Point(1.0, 0.0), Point(1.0, 1.0);
    var frags := [[a, b], [b, c], [c, a]];
    ExampleSweep();
    var u2 := [true, true, true];
    var t := SweepState([c, a, b, c], u2, false);
    assert Sweep(frags, 3, c, c, t) == t;
    assert Sweep(frags, 0, c, c, t) == t;
    assert Grow(frags, u2, [c, a, b, c]) == ([c, a, b, c], u2);
  }

  lemma ExampleSweep()
    ensures var a, b, c := Point(0.0, 0.0), Point(1.0, 0.0), Point(1.0, 1.0);
      Sweep([[a, b], [b, c], [c, a]], 0, a, b, SweepState([a, b], [true, false, false], false))
        == SweepState([c, a, b, c], [true, true, true], true)
  {
    var a, b, c := Point(0.0, 0.0), Point(1.0, 0.0), Point(1.0, 1.0);
    var frags := [[a, b], [b, c], [c, a]];
    var u0 := [true, false, false];
    var u1 := [true, true, false];
    var u2 := [true, true, true];
    assert u0[1 := true] == u1;
    assert u1[2 := true] == u2;
    var s3 := SweepState([c, a, b, c], u2, true);
    assert Sweep(frags, 3, a, b, s3) == s3;
    assert [c, a][..1] + [a, b, c] == [c, a, b, c];
    assert Attach([a, b, c], [c, a], a, b) == Some([c, a, b, c]);
    assert Sweep(frags, 2, a, b, SweepState([a, b, c], u1, true)) == s3;
    assert [a, b] + [b, c][1..] == [a, b, c];
    assert Attach([a, b], [b, c], a, b) == Some([a, b, c]);
    assert Sweep(frags, 1, a, b, SweepState([a, b], u0, false)) == s3;
  }

  /** One pass of the `for j` loop: attach every unused fragment that
      matches the endpoints read before the pass, marking it used. */
  method SweepOnce(frags: seq<Path>, used: array<bool>, chain0: Path) returns (chain: Path, extended: bool)
    requires Fragments(frags) && used.Length == |frags| && |chain0| >= 1
    modifies used
    ensures SweepState(chain, used[..], extended)
         == Sweep(frags, 0, chain0[0], chain0[|chain0| - 1], SweepState(chain0, old(used[..]), false))
  {
    chain, extended := chain0, false;
    var cs, ce := chain[0], chain[|chain| - 1];
    for j := 0 to |frags|
      invariant Sweep(frags, j, cs, ce, SweepState(chain, used[..], extended))
             == Sweep(frags, 0, cs, ce, SweepState(chain0, old(used[..]), false))
    {
      if used[j] {
        continue;
      }
      var w := frags[j];
      var ws, we := w[0], w[|w| - 1];
      ghost var attached := Attach(chain, w, cs, ce);
      ghost var usedj := used[..];
      if ws == ce {
        chain := chain + w[1..];
        used[j] := true;
        extended := true;
      } else if we == ce {
        chain := chain + Reverse(w[..|w| - 1]);
        used[j] := true;
        extended := true;
      } else if we == cs {
        chain := w[..|w| - 1] + chain;
        used[j] := true;
        extended := true;
      } else if ws == cs {
        chain := Reverse(w[1..]) + chain;
        used[j] := true;
        extended := true;
      }
      if attached.Some? {
        assert used[..] == usedj[j := true];
      }
    }
  }

  /** `stitch_rings` run as written: a `used` flag per fragment, a chain
      extended in place or replaced, a `while extended` loop of sweeps. */
  method StitchRings(ways: seq<Path>) returns (rings: seq<Path>)
    ensures rings == Stitch(ways)
  {
    var frags := Frags(ways);
    var used := new bool[|frags|](_ => false);
    assert used[..] == seq(|frags|, _ => false);
    rings := [];
    for i := 0 to |frags|
      invariant used.Length == |frags|
      invariant StitchFrom(frags, i, used[..], rings) == Stitch(ways)
    {
      if used[i] {
        continue;
      }
      ghost var target := Grow(frags, used[..][i := true], frags[i]);
      var chain := frags[i];
      used[i] := true;
      var extended := true;
      while extended
        invariant |chain| >= 1
        invariant (if extended then Grow(frags, used[..], chain) else (chain, used[..])) == target
        decreases Unused(used[..]) + if extended then 1 else 0
      {
        ghost var used0 := used[..];
        chain, extended := SweepOnce(frags, used, chain);
        if extended {
          UnusedDecreases(used0, used[..]);
        }
      }
      rings := rings + if CoordsClosed(chain) then [chain] else [];
    }
  }
}
