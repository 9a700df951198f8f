/**
 * Two facts about what `stitch_rings` assembles, beyond closedness and the
 * point budget: fragments that share no endpoint are never joined, and the
 * fragments of one loop given in loop order always come out as that one
 * ring. The second is proved by following the greedy loop sweep by sweep:
 * the chain always covers a run of consecutive fragments around the loop,
 * and every sweep takes the fragment after the run (at the stale end) and,
 * when it is still free, the one before it (at the stale start).
 */
module RingCycles {
  import opened Base
  import opened Rings

  // ---------------------------------------------------------------- fragments that never meet

  /** Two paths have no endpoint in common. */
  predicate Apart(v: Path, w: Path)
    requires |v| >= 1 && |w| >= 1
  {
    v[0] != w[0] && v[0] != w[|w| - 1] && v[|v| - 1] != w[0] && v[|v| - 1] != w[|w| - 1]
  }

  /** A sweep in which no free fragment matches the endpoints changes nothing. */
  lemma {:induction false} SweepIdle(frags: seq<Path>, j: nat, cs: Point, ce: Point, st: SweepState)
    requires Fragments(frags) && |st.used| == |frags| && j <= |frags|
    requires forall k :: j <= k < |frags| && !st.used[k] ==> Attach(st.chain, frags[k], cs, ce).None?
    ensures Sweep(frags, j, cs, ce, st) == st
    decreases |frags| - j
  {
    if j < |frags| {
      SweepIdle(frags, j + 1, cs, ce, st);
    }
  }

  lemma {:induction false} StitchFromApart(frags: seq<Path>, i: nat, used: seq<bool>, rings: seq<Path>)
    requires Fragments(frags) && |used| == |frags| && i <= |frags|
    requires forall a, b :: 0 <= a < |frags| && 0 <= b < |frags| && a != b ==> Apart(frags[a], frags[b])
    requires forall a :: 0 <= a < |frags| ==> !CoordsClosed(frags[a])
    ensures StitchFrom(frags, i, used, rings) == rings
    decreases |frags| - i
  {
    if i < |frags| {
      if used[i] {
        StitchFromApart(frags, i + 1, used, rings);
      } else {
        var u, f := used[i := true], frags[i];
        forall k | 0 <= k < |frags| && !u[k]
          ensures Attach(f, frags[k], f[0], f[|f| - 1]).None?
        {
          assert Apart(f, frags[k]);
        }
        SweepIdle(frags, 0, f[0], f[|f| - 1], SweepState(f, u, false));
        assert Grow(frags, u, f) == (f, u);
        assert rings + [] == rings;
        StitchFromApart(frags, i + 1, u, rings);
      }
    }
  }

  /** When no two fragments share an endpoint and none closes on its own,
      nothing is assembled: no rings at all. */
  lemma StitchApart(ways: seq<Path>)
    requires forall a, b :: 0 <= a < |Frags(ways)| && 0 <= b < |Frags(ways)| && a != b ==>
      Apart(Frags(ways)[a], Frags(ways)[b])
    requires forall a :: 0 <= a < |Frags(ways)| ==> !CoordsClosed(Frags(ways)[a])
    ensures Stitch(ways) == []
  {
    StitchFromApart(Frags(ways), 0, seq(|Frags(ways)|, _ => false), []);
  }

  // ---------------------------------------------------------------- one loop in loop order

  /** Index arithmetic around a loop of `n` fragments. */
  function Next(i: nat, n: nat): nat
    requires i < n
  {
    if i + 1 == n then 0 else i + 1
  }

  function Prev(i: nat, n: nat): nat
    requires i < n
  {
    if i == 0 then n - 1 else i - 1
  }

  /** The index `d` steps after `a`. */
  function Shift(a: nat, d: nat, n: nat): (r: nat)
    requires a < n && d <= n
    ensures r < n
  {
    if a + d < n then a + d else a + d - n
  }

  /** How many steps after `a` the index `x` comes. */
  function Offset(x: nat, a: nat, n: nat): (r: nat)
    requires x < n && a < n
    ensures r < n
  {
    if x >= a then x - a else x - a + n
  }

  /** At least three fragments forming one loop in order: each ends where
      the next starts, the last where the first starts, and no two start at
      the same point. */
  predicate Cycle(frags: seq<Path>)
  {
    && |frags| >= 3 && Fragments(frags)
    && (forall i :: 0 <= i < |frags| ==> Joined(frags, i))
    && (forall i, j :: 0 <= i < j < |frags| ==> frags[i][0] != frags[j][0])
  }

  /** Fragment `i` ends where the next one around the loop starts. */
  predicate Joined(frags: seq<Path>, i: nat)
    requires Fragments(frags) && i < |frags|
  {
    frags[i][|frags[i]| - 1] == frags[Next(i, |frags|)][0]
  }

  lemma StartsDistinct(frags: seq<Path>, i: nat, j: nat)
    requires Cycle(frags) && i < |frags| && j < |frags| && i != j
    ensures frags[i][0] != frags[j][0]
  {
    if j < i {
      assert frags[j][0] != frags[i][0];
    }
  }

  /** Exactly the `len` fragments from `a` on around the loop are used. */
  predicate Covers(used: seq<bool>, a: nat, len: nat, n: nat)
  {
    a < n && 1 <= len <= n && |used| == n
    && forall x :: 0 <= x < n ==> (used[x] <==> Offset(x, a, n) < len)
  }

  /** The chain covers the `len` fragments from `a` on around the loop: it
      runs from the start of fragment `a` to the start of the fragment after
      them, having shared one point at each of the `len - 1` joins. */
  predicate Arc(frags: seq<Path>, used: seq<bool>, chain: Path, a: nat, len: nat)
    requires Fragments(frags)
  {
    var n := |frags|;
    && Covers(used, a, len, n) && |chain| >= 2
    && chain[0] == frags[a][0]
    && chain[|chain| - 1] == frags[Shift(a, len, n)][0]
    && |chain| + n == Weight(frags, used) + Unused(used) + 1
  }

  /** The state of a sweep over a run that is not yet the whole loop, once
      it has passed index `j`: the fragment `b` after the run is attached at
      the end when passed, the fragment `p` before it at the front when
      passed and different from `b`. */
  function Passed(frags: seq<Path>, used: seq<bool>, chain: Path, a: nat, len: nat, j: nat): SweepState
    requires Fragments(frags) && a < |frags| && len < |frags| && |used| == |frags|
  {
    var n := |frags|;
    var b, p := Shift(a, len, n), Prev(a, n);
    var takeB, takeP := b < j, p < j && p != b;
    var u := if takeB then used[b := true] else used;
    SweepState((if takeP then frags[p][..|frags[p]| - 1] else []) + chain + (if takeB then frags[b][1..] else []),
               if takeP then u[p := true] else u,
               takeB || takeP)
  }

  /** The three kinds of step of a sweep. */
  lemma SweepAtEnd(frags: seq<Path>, j: nat, cs: Point, ce: Point, st: SweepState)
    requires Fragments(frags) && |st.used| == |frags| && j < |frags|
    requires !st.used[j] && frags[j][0] == ce
    ensures Sweep(frags, j, cs, ce, st)
      == Sweep(frags, j + 1, cs, ce, SweepState(st.chain + frags[j][1..], st.used[j := true], true))
  {
  }

  lemma SweepAtFront(frags: seq<Path>, j: nat, cs: Point, ce: Point, st: SweepState)
    requires Fragments(frags) && |st.used| == |frags| && j < |frags|
    requires !st.used[j] && frags[j][0] != ce && frags[j][|frags[j]| - 1] != ce && frags[j][|frags[j]| - 1] == cs
    ensures Sweep(frags, j, cs, ce, st)
      == Sweep(frags, j + 1, cs, ce, SweepState(frags[j][..|frags[j]| - 1] + st.chain, st.used[j := true], true))
  {
  }

  lemma SweepPast(frags: seq<Path>, j: nat, cs: Point, ce: Point, st: SweepState)
    requires Fragments(frags) && |st.used| == |frags| && j < |frags|
    requires st.used[j] || Attach(st.chain, frags[j], cs, ce).None?
    ensures Sweep(frags, j, cs, ce, st) == Sweep(frags, j + 1, cs, ce, st)
  {
  }

  /** A free fragment other than the ones after and before the run matches
      neither stale endpoint. */
  lemma Unmatched(frags: seq<Path>, used: seq<bool>, a: nat, len: nat, j: nat)
    requires Cycle(frags) && Covers(used, a, len, |frags|) && len < |frags|
    requires j < |frags| && !used[j] && j != Shift(a, len, |frags|) && j != Prev(a, |frags|)
    ensures forall c :: Attach(c, frags[j], frags[a][0], frags[Shift(a, len, |frags|)][0]).None?
  {
    var n := |frags|;
    var b := Shift(a, len, n);
    assert Offset(j, a, n) >= len;
    assert Joined(frags, j);
    assert Next(j, n) != b;
    assert Next(j, n) != a;
    assert j != a;
    StartsDistinct(frags, j, b);
    StartsDistinct(frags, Next(j, n), b);
    StartsDistinct(frags, Next(j, n), a);
    StartsDistinct(frags, j, a);
  }

  /** The fragment after the run is free, and so is the one before it. */
  lemma Around(used: seq<bool>, a: nat, len: nat, n: nat)
    requires Covers(used, a, len, n) && len < n
    ensures Offset(Shift(a, len, n), a, n) == len && !used[Shift(a, len, n)]
    ensures Offset(Prev(a, n), a, n) == n - 1 && !used[Prev(a, n)]
    ensures Shift(a, len, n) != a
    ensures Prev(a, n) == Shift(a, len, n) <==> len + 1 == n
  {
  }

  /** Passing the fragment after the run attaches it at the end. */
  lemma PassedEnd(frags: seq<Path>, used: seq<bool>, chain: Path, a: nat, len: nat, j: nat)
    requires Fragments(frags) && Covers(used, a, len, |frags|) && len < |frags| && j == Shift(a, len, |frags|)
    ensures var st := Passed(frags, used, chain, a, len, j);
      && !st.used[j]
      && Passed(frags, used, chain, a, len, j + 1) == SweepState(st.chain + frags[j][1..], st.used[j := true], true)
  {
    var n := |frags|;
    var p := Prev(a, n);
    Around(used, a, len, n);
    var front := if p < j && p != j then frags[p][..|frags[p]| - 1] else [];
    var u := if p < j && p != j then used[p := true] else used;
    assert Passed(frags, used, chain, a, len, j) == SweepState(front + chain + [], u, p < j && p != j);
    assert Passed(frags, used, chain, a, len, j + 1) == SweepState(front + chain + frags[j][1..], u[j := true], true);
    assert (front + chain + []) + frags[j][1..] == front + chain + frags[j][1..];
  }

  lemma StepEnd(frags: seq<Path>, used: seq<bool>, chain: Path, a: nat, len: nat, j: nat)
    requires Cycle(frags) && Covers(used, a, len, |frags|) && len < |frags| && j == Shift(a, len, |frags|)
    ensures Sweep(frags, j, frags[a][0], frags[j][0], Passed(frags, used, chain, a, len, j))
      == Sweep(frags, j + 1, frags[a][0], frags[j][0], Passed(frags, used, chain, a, len, j + 1))
  {
    PassedEnd(frags, used, chain, a, len, j);
    SweepAtEnd(frags, j, frags[a][0], frags[j][0], Passed(frags, used, chain, a, len, j));
  }

  /** Passing the fragment before the run, when it is not the one after it,
      attaches it at the front. */
  lemma PassedFront(frags: seq<Path>, used: seq<bool>, chain: Path, a: nat, len: nat, j: nat)
    requires Fragments(frags) && Covers(used, a, len, |frags|) && len < |frags|
    requires j == Prev(a, |frags|) && j != Shift(a, len, |frags|)
    ensures var st := Passed(frags, used, chain, a, len, j);
      && !st.used[j]
      && Passed(frags, used, chain, a, len, j + 1)
           == SweepState(frags[j][..|frags[j]| - 1] + st.chain, st.used[j := true], true)
  {
    var n := |frags|;
    var b := Shift(a, len, n);
    Around(used, a, len, n);
    var fp := frags[j];
    var back := if b < j then frags[b][1..] else [];
    var u := if b < j then used[b := true] else used;
    BeforeFront(frags, used, chain, a, len, j);
    AfterFront(frags, used, chain, a, len, j);
    assert fp[..|fp| - 1] + (chain + back) == fp[..|fp| - 1] + chain + back;
  }

  /** The sweep state just before the fragment before the run. */
  lemma BeforeFront(frags: seq<Path>, used: seq<bool>, chain: Path, a: nat, len: nat, j: nat)
    requires Fragments(frags) && |used| == |frags| && a < |frags| && len < |frags|
    requires j == Prev(a, |frags|) && j != Shift(a, len, |frags|)
    ensures var b := Shift(a, len, |frags|);
      Passed(frags, used, chain, a, len, j)
        == SweepState(chain + (if b < j then frags[b][1..] else []), if b < j then used[b := true] else used, b < j)
  {
    assert [] + chain == chain;
  }

  /** The sweep state just after the fragment before the run. */
  lemma AfterFront(frags: seq<Path>, used: seq<bool>, chain: Path, a: nat, len: nat, j: nat)
    requires Fragments(frags) && |used| == |frags| && a < |frags| && len < |frags|
    requires j == Prev(a, |frags|) && j != Shift(a, len, |frags|)
    ensures var b := Shift(a, len, |frags|);
      Passed(frags, used, chain, a, len, j + 1)
        == SweepState(frags[j][..|frags[j]| - 1] + chain + (if b < j then frags[b][1..] else []),
                      (if b < j then used[b := true] else used)[j := true], true)
  {
  }

  /** The fragment before the run ends at the stale start and matches
      neither end at the stale end. */
  lemma FrontEnds(frags: seq<Path>, used: seq<bool>, a: nat, len: nat, j: nat)
    requires Cycle(frags) && Covers(used, a, len, |frags|) && len < |frags|
    requires j == Prev(a, |frags|) && j != Shift(a, len, |frags|)
    ensures var fp, ce := frags[j], frags[Shift(a, len, |frags|)][0];
      fp[0] != ce && fp[|fp| - 1] != ce && fp[|fp| - 1] == frags[a][0]
  {
    var n := |frags|;
    var b := Shift(a, len, n);
    Around(used, a, len, n);
    assert Next(j, n) == a && Joined(frags, j);
    StartsDistinct(frags, j, b);
    StartsDistinct(frags, a, b);
  }

  lemma StepFront(frags: seq<Path>, used: seq<bool>, chain: Path, a: nat, len: nat, j: nat)
    requires Cycle(frags) && Covers(used, a, len, |frags|) && len < |frags|
    requires j == Prev(a, |frags|) && j != Shift(a, len, |frags|)
    ensures var n := |frags|; var b := Shift(a, len, n);
      Sweep(frags, j, frags[a][0], frags[b][0], Passed(frags, used, chain, a, len, j))
        == Sweep(frags, j + 1, frags[a][0], frags[b][0], Passed(frags, used, chain, a, len, j + 1))
  {
    var b := Shift(a, len, |frags|);
    PassedFront(frags, used, chain, a, len, j);
    FrontEnds(frags, used, a, len, j);
    SweepAtFront(frags, j, frags[a][0], frags[b][0], Passed(frags, used, chain, a, len, j));
  }

  lemma StepOther(frags: seq<Path>, used: seq<bool>, chain: Path, a: nat, len: nat, j: nat)
    requires Cycle(frags) && Covers(used, a, len, |frags|) && len < |frags| && j < |frags|
    requires j != Prev(a, |frags|) && j != Shift(a, len, |frags|)
    ensures var n := |frags|; var b := Shift(a, len, n);
      Sweep(frags, j, frags[a][0], frags[b][0], Passed(frags, used, chain, a, len, j))
        == Sweep(frags, j + 1, frags[a][0], frags[b][0], Passed(frags, used, chain, a, len, j + 1))
  {
    var n := |frags|;
    var b := Shift(a, len, n);
    var st := Passed(frags, used, chain, a, len, j);
    assert Passed(frags, used, chain, a, len, j + 1) == st;
    assert st.used[j] == used[j];
    if !used[j] {
      Unmatched(frags, used, a, len, j);
    }
    SweepPast(frags, j, frags[a][0], frags[b][0], st);
  }

  lemma {:induction false} SweepRun(frags: seq<Path>, used: seq<bool>, chain: Path, a: nat, len: nat, j: nat)
    requires Cycle(frags) && Covers(used, a, len, |frags|) && len < |frags| && j <= |frags|
    ensures var n := |frags|;
      Sweep(frags, j, frags[a][0], frags[Shift(a, len, n)][0], Passed(frags, used, chain, a, len, j))
        == Passed(frags, used, chain, a, len, n)
    decreases |frags| - j
  {
    if j < |frags| {
      SweepStep(frags, used, chain, a, len, j);
      SweepRun(frags, used, chain, a, len, j + 1);
    }
  }

  /** One step of a sweep over the run follows `Passed`. */
  lemma SweepStep(frags: seq<Path>, used: seq<bool>, chain: Path, a: nat, len: nat, j: nat)
    requires Cycle(frags) && Covers(used, a, len, |frags|) && len < |frags| && j < |frags|
    ensures var n := |frags|; var b := Shift(a, len, n);
      Sweep(frags, j, frags[a][0], frags[b][0], Passed(frags, used, chain, a, len, j))
        == Sweep(frags, j + 1, frags[a][0], frags[b][0], Passed(frags, used, chain, a, len, j + 1))
  {
    var n := |frags|;
    if j == Shift(a, len, n) {
      StepEnd(frags, used, chain, a, len, j);
    } else if j == Prev(a, n) {
      StepFront(frags, used, chain, a, len, j);
    } else {
      StepOther(frags, used, chain, a, len, j);
    }
  }

  lemma {:induction false} UnusedMark(used: seq<bool>, j: nat)
    requires j < |used| && !used[j]
    ensures Unused(used[j := true]) == Unused(used) - 1
  {
    if j > 0 {
      assert used[j := true][1..] == used[1..][j - 1 := true];
      UnusedMark(used[1..], j - 1);
    }
  }

  /** A sweep over a run that is not the whole loop extends it by the
      fragment after it and, when free, the one before it. */
  /** The run after one more sweep: the whole loop when one fragment was
      left, otherwise two fragments longer and starting one earlier. */
  function NextStart(a: nat, len: nat, n: nat): nat
    requires a < n && len < n
  {
    if len + 1 == n then a else Prev(a, n)
  }

  function NextLen(len: nat, n: nat): nat
  {
    if len + 1 == n then n else len + 2
  }

  lemma SweepArc(frags: seq<Path>, used: seq<bool>, chain: Path, a: nat, len: nat)
    requires Cycle(frags) && Arc(frags, used, chain, a, len) && len < |frags|
    ensures var n := |frags|;
      var st := Sweep(frags, 0, chain[0], chain[|chain| - 1], SweepState(chain, used, false));
      && st.extended
      && Arc(frags, st.used, st.chain, NextStart(a, len, n), NextLen(len, n))
  {
    assert Passed(frags, used, chain, a, len, 0) == SweepState([] + chain + [], used, false);
    assert [] + chain + [] == chain;
    SweepRun(frags, used, chain, a, len, 0);
    if len + 1 == |frags| {
      ArcClosing(frags, used, chain, a, len);
    } else {
      ArcWidening(frags, used, chain, a, len);
    }
  }

  /** The sweep that takes the last free fragment completes the loop. */
  lemma ArcClosing(frags: seq<Path>, used: seq<bool>, chain: Path, a: nat, len: nat)
    requires Cycle(frags) && Arc(frags, used, chain, a, len) && len + 1 == |frags|
    ensures var st := Passed(frags, used, chain, a, len, |frags|);
      st.extended && Arc(frags, st.used, st.chain, a, |frags|)
  {
    var n := |frags|;
    var b := Shift(a, len, n);
    Around(used, a, len, n);
    var st := Passed(frags, used, chain, a, len, n);
    var fb := frags[b];
    WeightMark(frags, used, b);
    UnusedMark(used, b);
    assert st == SweepState([] + chain + fb[1..], used[b := true], true);
    assert st.chain == chain + fb[1..];
    forall x | 0 <= x < n ensures st.used[x] <==> Offset(x, a, n) < n { }
    assert Shift(a, n, n) == Next(b, n) && Joined(frags, b);
  }

  /** Any other sweep takes the fragments on both sides of the run. */
  lemma ArcWidening(frags: seq<Path>, used: seq<bool>, chain: Path, a: nat, len: nat)
    requires Cycle(frags) && Arc(frags, used, chain, a, len) && len + 1 < |frags|
    ensures var st := Passed(frags, used, chain, a, len, |frags|);
      st.extended && Arc(frags, st.used, st.chain, Prev(a, |frags|), len + 2)
  {
    var n := |frags|;
    var b, p := Shift(a, len, n), Prev(a, n);
    Around(used, a, len, n);
    var fb, fp := frags[b], frags[p];
    var w := fp[..|fp| - 1] + chain + fb[1..];
    assert Passed(frags, used, chain, a, len, n) == SweepState(w, used[b := true][p := true], true);
    CoversWiden(used, a, len, n);
    WidenLength(frags, used, chain, a, len);
    WidenEnds(frags, used, chain, a, len);
  }

  lemma WidenLength(frags: seq<Path>, used: seq<bool>, chain: Path, a: nat, len: nat)
    requires Fragments(frags) && Covers(used, a, len, |frags|) && len + 1 < |frags|
    requires |chain| + |frags| == Weight(frags, used) + Unused(used) + 1
    ensures var n := |frags|;
      var b, p := Shift(a, len, n), Prev(a, n);
      var w := frags[p][..|frags[p]| - 1] + chain + frags[b][1..];
      |w| + n == Weight(frags, used[b := true][p := true]) + Unused(used[b := true][p := true]) + 1
  {
    var n := |frags|;
    var b, p := Shift(a, len, n), Prev(a, n);
    Around(used, a, len, n);
    var u := used[b := true];
    WeightMark(frags, used, b);
    UnusedMark(used, b);
    WeightMark(frags, u, p);
    UnusedMark(u, p);
  }

  lemma WidenEnds(frags: seq<Path>, used: seq<bool>, chain: Path, a: nat, len: nat)
    requires Cycle(frags) && Covers(used, a, len, |frags|) && len + 1 < |frags| && |chain| >= 2
    ensures var n := |frags|;
      var b, p := Shift(a, len, n), Prev(a, n);
      var w := frags[p][..|frags[p]| - 1] + chain + frags[b][1..];
      |w| >= 2 && w[0] == frags[p][0] && w[|w| - 1] == frags[Shift(p, len + 2, n)][0]
  {
    var n := |frags|;
    var b, p := Shift(a, len, n), Prev(a, n);
    Around(used, a, len, n);
    assert Shift(p, len + 2, n) == Next(b, n) && Joined(frags, b);
  }

  lemma CoversWiden(used: seq<bool>, a: nat, len: nat, n: nat)
    requires Covers(used, a, len, n) && len + 1 < n
    ensures Covers(used[Shift(a, len, n) := true][Prev(a, n) := true], Prev(a, n), len + 2, n)
  {
    var b, p := Shift(a, len, n), Prev(a, n);
    var w := used[b := true][p := true];
    forall x | 0 <= x < n ensures w[x] <==> Offset(x, p, n) < len + 2 {
      if x != p {
        assert Offset(x, p, n) == Offset(x, a, n) + 1;
      }
    }
  }

  lemma {:induction false} WeightAll(frags: seq<Path>, used: seq<bool>)
    requires |used| == |frags| && forall x :: 0 <= x < |used| ==> used[x]
    ensures Weight(frags, used) == TotalLen(frags)
  {
    if frags != [] {
      WeightAll(frags[1..], used[1..]);
    }
  }

  lemma {:induction false} UnusedAll(used: seq<bool>)
    requires forall x :: 0 <= x < |used| ==> used[x]
    ensures Unused(used) == 0
  {
    if used != [] {
      UnusedAll(used[1..]);
    }
  }

  lemma {:induction false} UnusedNone(n: nat)
    ensures Unused(seq(n, _ => false)) == n
  {
    if n > 0 {
      assert seq(n, _ => false)[1..] == seq(n - 1, _ => false);
      UnusedNone(n - 1);
    }
  }

  /** Growing a run ends with the whole loop: every fragment used, and a
      chain that ends where it starts, one point shared at each of the
      joins. */
  lemma {:induction false} GrowCycle(frags: seq<Path>, used: seq<bool>, chain: Path, a: nat, len: nat)
    requires Cycle(frags) && Arc(frags, used, chain, a, len)
    ensures var g := Grow(frags, used, chain);
      && (forall x :: 0 <= x < |frags| ==> g.1[x])
      && g.0[0] == g.0[|g.0| - 1]
      && |g.0| + |frags| == TotalLen(frags) + 1
    decreases |frags| - len, 1
  {
    if len == |frags| {
      GrowWhole(frags, used, chain, a);
    } else {
      GrowOn(frags, used, chain, a, len);
    }
  }

  /** A run short of the whole loop: one sweep, then the rest of the growth. */
  lemma {:induction false} GrowOn(frags: seq<Path>, used: seq<bool>, chain: Path, a: nat, len: nat)
    requires Cycle(frags) && Arc(frags, used, chain, a, len) && len < |frags|
    ensures var g := Grow(frags, used, chain);
      && (forall x :: 0 <= x < |frags| ==> g.1[x])
      && g.0[0] == g.0[|g.0| - 1]
      && |g.0| + |frags| == TotalLen(frags) + 1
    decreases |frags| - len, 0
  {
    var n := |frags|;
    SweepArc(frags, used, chain, a, len);
    var st := Sweep(frags, 0, chain[0], chain[|chain| - 1], SweepState(chain, used, false));
    GrowAgain(frags, used, chain);
    GrowCycle(frags, st.used, st.chain, NextStart(a, len, n), NextLen(len, n));
  }

  /** A sweep that attached something is followed by another. */
  lemma GrowAgain(frags: seq<Path>, used: seq<bool>, chain: Path)
    requires Fragments(frags) && |used| == |frags| && |chain| >= 1
    requires Sweep(frags, 0, chain[0], chain[|chain| - 1], SweepState(chain, used, false)).extended
    ensures var st := Sweep(frags, 0, chain[0], chain[|chain| - 1], SweepState(chain, used, false));
      Grow(frags, used, chain) == Grow(frags, st.used, st.chain)
  {
  }

  /** Once the run is the whole loop the next sweep finds nothing, and the
      chain is closed. */
  lemma GrowWhole(frags: seq<Path>, used: seq<bool>, chain: Path, a: nat)
    requires Cycle(frags) && Arc(frags, used, chain, a, |frags|)
    ensures Grow(frags, used, chain) == (chain, used)
    ensures forall x :: 0 <= x < |frags| ==> used[x]
    ensures chain[0] == chain[|chain| - 1]
    ensures |chain| + |frags| == TotalLen(frags) + 1
  {
    var n := |frags|;
    assert forall x :: 0 <= x < n ==> used[x];
    SweepIdle(frags, 0, chain[0], chain[|chain| - 1], SweepState(chain, used, false));
    WeightAll(frags, used);
    UnusedAll(used);
  }

  lemma {:induction false} TotalLenAtLeast(frags: seq<Path>)
    requires Fragments(frags)
    ensures TotalLen(frags) >= 2 * |frags|
  {
    if frags != [] {
      TotalLenAtLeast(frags[1..]);
    }
  }

  /** Once every fragment is used the outer loop adds no ring. */
  lemma {:induction false} StitchFromDone(frags: seq<Path>, i: nat, used: seq<bool>, rings: seq<Path>)
    requires Fragments(frags) && |used| == |frags| && i <= |frags|
    requires forall x :: 0 <= x < |used| ==> used[x]
    ensures StitchFrom(frags, i, used, rings) == rings
    decreases |frags| - i
  {
    if i < |frags| {
      StitchFromDone(frags, i + 1, used, rings);
    }
  }

  // ---------------------------------------------------------------- the points a chain holds

  /** Every point of every used fragment is somewhere in the chain. */
  predicate Holds(frags: seq<Path>, used: seq<bool>, chain: Path)
    requires |used| == |frags|
  {
    forall x, k :: 0 <= x < |frags| && used[x] && 0 <= k < |frags[x]| ==> frags[x][k] in chain
  }

  /** Every point of the chain is a point of some fragment. */
  predicate FromFrags(frags: seq<Path>, chain: Path)
  {
    forall p :: p in chain ==> exists x, k :: 0 <= x < |frags| && 0 <= k < |frags[x]| && frags[x][k] == p
  }

  /** Attaching a fragment at an endpoint that is in the chain keeps every
      point of the chain and adds every point of the fragment, and nothing
      else. */
  lemma AttachPoints(chain: Path, w: Path, cs: Point, ce: Point)
    requires |w| >= 2 && cs in chain && ce in chain && Attach(chain, w, cs, ce).Some?
    ensures var c := Attach(chain, w, cs, ce).value;
      && (forall p :: p in chain ==> p in c)
      && (forall k :: 0 <= k < |w| ==> w[k] in c)
      && (forall p :: p in c ==> p in chain || p in w)
  {
    var c := Attach(chain, w, cs, ce).value;
    var m := |w| - 1;
    if w[0] == ce {
      assert forall k :: 1 <= k < |w| ==> w[k] == w[1..][k - 1];
    } else if w[m] == ce {
      var v := Reverse(w[..m]);
      assert forall k :: 0 <= k < m ==> w[k] == v[m - 1 - k];
      assert forall p :: p in v ==> p in w;
    } else if w[m] == cs {
      assert forall k :: 0 <= k < m ==> w[k] == w[..m][k];
    } else {
      var v := Reverse(w[1..]);
      assert forall k :: 1 <= k < |w| ==> w[k] == v[m - k];
      assert forall p :: p in v ==> p in w;
    }
  }

  /** A sweep keeps the stale endpoints in the chain and keeps every point
      of every used fragment in it. */
  lemma {:induction false} SweepHolds(frags: seq<Path>, j: nat, cs: Point, ce: Point, st: SweepState)
    requires Fragments(frags) && |st.used| == |frags| && j <= |frags|
    requires cs in st.chain && ce in st.chain && Holds(frags, st.used, st.chain) && FromFrags(frags, st.chain)
    ensures var r := Sweep(frags, j, cs, ce, st);
      cs in r.chain && ce in r.chain && Holds(frags, r.used, r.chain) && FromFrags(frags, r.chain)
    decreases |frags| - j
  {
    if j < |frags| && !st.used[j] && Attach(st.chain, frags[j], cs, ce).Some? {
      var c := Attach(st.chain, frags[j], cs, ce).value;
      var u := st.used[j := true];
      AttachPoints(st.chain, frags[j], cs, ce);
      forall p | p in c
        ensures exists x, k :: 0 <= x < |frags| && 0 <= k < |frags[x]| && frags[x][k] == p
      {
        if p !in st.chain {
          var k :| 0 <= k < |frags[j]| && frags[j][k] == p;
        }
      }
      assert Holds(frags, u, c);
      SweepHolds(frags, j + 1, cs, ce, SweepState(c, u, true));
    } else if j < |frags| {
      SweepHolds(frags, j + 1, cs, ce, st);
    }
  }

  /** Growing a chain keeps every point of every used fragment in it, and
      adds only points of fragments. */
  lemma {:induction false} GrowHolds(frags: seq<Path>, used: seq<bool>, chain: Path)
    requires Fragments(frags) && |used| == |frags| && |chain| >= 1
    requires Holds(frags, used, chain) && FromFrags(frags, chain)
    ensures var g := Grow(frags, used, chain);
      Holds(frags, g.1, g.0) && FromFrags(frags, g.0)
    decreases Unused(used)
  {
    var st := Sweep(frags, 0, chain[0], chain[|chain| - 1], SweepState(chain, used, false));
    SweepHolds(frags, 0, chain[0], chain[|chain| - 1], SweepState(chain, used, false));
    if st.extended {
      UnusedDecreases(used, st.used);
      GrowHolds(frags, st.used, st.chain);
    }
  }

  /** The chain grown from the first fragment of a loop holds exactly the
      points of the fragments. */
  lemma FirstPoints(frags: seq<Path>)
    requires Cycle(frags)
    ensures var g := Grow(frags, NoneUsed(|frags|)[0 := true], frags[0]);
      AllIn(frags, g.0) && FromFrags(frags, g.0)
  {
    var u := NoneUsed(|frags|)[0 := true];
    assert forall x :: 0 <= x < |frags| && u[x] ==> x == 0;
    assert Holds(frags, u, frags[0]);
    GrowHolds(frags, u, frags[0]);
    GrowFirst(frags);
  }

  /** No fragment used yet. */
  function NoneUsed(n: nat): seq<bool>
  {
    seq(n, _ => false)
  }

  /** The outer loop starts the first chain with the first fragment alone. */
  lemma ArcStart(frags: seq<Path>)
    requires Cycle(frags)
    ensures Arc(frags, NoneUsed(|frags|)[0 := true], frags[0], 0, 1)
  {
    var n := |frags|;
    var none := NoneUsed(n);
    assert none == seq(n, _ => false);
    WeightNone(frags);
    WeightMark(frags, none, 0);
    UnusedNone(n);
    UnusedMark(none, 0);
    assert Shift(0, 1, n) == Next(0, n) && Joined(frags, 0);
  }

  /** The chain grown from the first fragment of a loop is a ring. */
  lemma GrowFirst(frags: seq<Path>)
    requires Cycle(frags)
    ensures var g := Grow(frags, NoneUsed(|frags|)[0 := true], frags[0]);
      && (forall x :: 0 <= x < |frags| ==> g.1[x])
      && CoordsClosed(g.0) && g.0[0] == g.0[|g.0| - 1]
      && |g.0| + |frags| == TotalLen(frags) + 1
  {
    ArcStart(frags);
    GrowCycle(frags, NoneUsed(|frags|)[0 := true], frags[0], 0, 1);
    TotalLenAtLeast(frags);
  }

  /** Member ways that form one loop, given in loop order, are stitched into
      exactly one ring, which ends where it starts, counts each shared point
      of a join once, and holds every point of the ways and no other. */
  lemma StitchCycle(ways: seq<Path>)
    requires Cycle(ways)
    ensures |Stitch(ways)| == 1 && RingOf(ways, Stitch(ways)[0])
  {
    StitchRing(ways);
    CycleRing(ways);
  }

  /** `r` is the ring of the loop `frags`: closed, with at least four points,
      one point fewer per join than the fragments hold together, every point
      of every fragment in it and no other point. */
  predicate RingOf(frags: seq<Path>, r: Path)
  {
    && |r| >= 4 && |r| + |frags| == TotalLen(frags) + 1 && r[0] == r[|r| - 1]
    && AllIn(frags, r) && FromFrags(frags, r)
  }

  /** Every point of every fragment is somewhere in `r`. */
  predicate AllIn(frags: seq<Path>, r: Path)
  {
    forall i, k :: 0 <= i < |frags| && 0 <= k < |frags[i]| ==> frags[i][k] in r
  }

  /** The chain grown from the first fragment of a loop is its ring. */
  lemma CycleRing(frags: seq<Path>)
    requires Cycle(frags)
    ensures RingOf(frags, Grow(frags, NoneUsed(|frags|)[0 := true], frags[0]).0)
  {
    var g := Grow(frags, NoneUsed(|frags|)[0 := true], frags[0]);
    GrowFirst(frags);
    FirstPoints(frags);
  }

  /** The only ring is the chain grown from the first fragment. */
  lemma StitchRing(ways: seq<Path>)
    requires Cycle(ways)
    ensures Stitch(ways) == [Grow(ways, NoneUsed(|ways|)[0 := true], ways[0]).0]
  {
    FragsAll(ways);
    StitchWhole(ways);
    StitchFromCycle(ways);
  }

  lemma StitchWhole(ways: seq<Path>)
    requires Frags(ways) == ways
    ensures Stitch(ways) == StitchFrom(ways, 0, NoneUsed(|ways|), [])
  {
  }

  /** The outer loop over the fragments of a loop keeps the first chain and
      finds every other fragment used. */
  lemma StitchFromCycle(frags: seq<Path>)
    requires Cycle(frags)
    ensures StitchFrom(frags, 0, NoneUsed(|frags|), [])
      == [Grow(frags, NoneUsed(|frags|)[0 := true], frags[0]).0]
  {
    var none := NoneUsed(|frags|);
    GrowFirst(frags);
    var g := Grow(frags, none[0 := true], frags[0]);
    StitchFromDone(frags, 1, g.1, [] + [g.0]);
  }
}
