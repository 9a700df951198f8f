/**
 * The tag inventory: counts, per layer and over all layers, how often each
 * tag key (mode "KEYS") or each `key=value` pair (mode "KEY_VALUES") occurs
 * in the `tags` column, and renders a report section per counter.  A counter
 * is a multiset of strings.
 */
module TagInventory {
  import opened Base
  import opened Text
  import opened TagText

  type Counter = multiset<string>

  /** `mode.upper() == "KEY_VALUES"`. */
  predicate PairMode(mode: string)
  {
    Upper(mode) == "KEY_VALUES"
  }

  /** The item one tag contributes. */
  function Item(pairs: bool, k: string, v: string): string
  {
    if pairs then k + "=" + v else k
  }

  /** The items of one row: one per tag, in whatever order the keys are visited. */
  ghost function Items(td: Tags, pairs: bool): Counter
    decreases |td|
  {
    if td == map[] then multiset{}
    else
      var k :| k in td;
      multiset{Item(pairs, k, td[k])} + Items(td - {k}, pairs)
  }

  /** Visiting any key first gives the same items: the count does not depend on the key order. */
  lemma {:induction false} ItemsRemove(td: Tags, pairs: bool, k: string)
    requires k in td
    ensures Items(td, pairs) == multiset{Item(pairs, k, td[k])} + Items(td - {k}, pairs)
    decreases |td|
  {
    var k' :| k' in td && Items(td, pairs) == multiset{Item(pairs, k', td[k'])} + Items(td - {k'}, pairs);
    if k' != k {
      var rest := td - {k} - {k'};
      assert (td - {k'}) - {k} == rest;
      assert (td - {k}) - {k'} == rest;
      assert (td - {k'})[k] == td[k] && (td - {k})[k'] == td[k'];
      var a, b := multiset{Item(pairs, k, td[k])}, multiset{Item(pairs, k', td[k'])};
      ItemsRemove(td - {k'}, pairs, k);
      ItemsRemove(td - {k}, pairs, k');
      calc {
        Items(td, pairs);
        b + Items(td - {k'}, pairs);
        b + (a + Items(rest, pairs));
        a + (b + Items(rest, pairs));
        a + Items(td - {k}, pairs);
      }
    }
  }

  /** One item per tag. */
  lemma {:induction false} ItemsSize(td: Tags, pairs: bool)
    ensures |Items(td, pairs)| == |td|
    decreases |td|
  {
    if td != map[] {
      var k :| k in td;
      ItemsRemove(td, pairs, k);
      ItemsSize(td - {k}, pairs);
    }
  }

  /** In key mode a row contributes each of its keys once. */
  lemma {:induction false} ItemsKeys(td: Tags)
    ensures Items(td, false) == multiset(td.Keys)
    decreases |td|
  {
    if td != map[] {
      var k :| k in td;
      ItemsRemove(td, false, k);
      ItemsKeys(td - {k});
      KeysSplit(td, k);
    }
  }

  lemma KeysSplit(td: Tags, k: string)
    requires k in td
    ensures multiset(td.Keys) == multiset{k} + multiset((td - {k}).Keys)
  {
    var rest := (td - {k}).Keys;
    assert td.Keys == rest + {k} && k !in rest;
  }

  /** In pair mode every item is `k=v` for a tag of the row, and every tag gives one. */
  lemma {:induction false} ItemsPairs(td: Tags, x: string)
    ensures x in Items(td, true) <==> exists k :: k in td && x == k + "=" + td[k]
    decreases |td|
  {
    if td != map[] {
      var k :| k in td;
      ItemsRemove(td, true, k);
      ItemsPairs(td - {k}, x);
    }
  }

  /** Moving one key from the pending tags into the counter keeps the final count. */
  lemma AddStep(c: Counter, rest: Tags, pairs: bool, k: string)
    requires k in rest
    ensures c + Items(rest, pairs) == (c + multiset{Item(pairs, k, rest[k])}) + Items(rest - {k}, pairs)
    ensures |rest - {k}| < |rest|
  {
    ItemsRemove(rest, pairs, k);
    assert (rest - {k}).Keys + {k} == rest.Keys;
  }

  /** `counter.update(...)` for one row, as a loop over its keys. */
  method AddItems(counter: Counter, td: Tags, pairs: bool) returns (c: Counter)
    ensures c == counter + Items(td, pairs)
  {
    c := counter;
    var rest := td;
    while rest != map[]
      invariant c + Items(rest, pairs) == counter + Items(td, pairs)
      decreases |rest|
    {
      var k :| k in rest;
      AddStep(c, rest, pairs, k);
      c := c + multiset{Item(pairs, k, rest[k])};
      rest := rest - {k};
    }
  }

  /** The counter of a layer: the items of every row, a row without tags adding none. */
  ghost function LayerCount(rows: seq<Option<string>>, mode: string, loads: Decoder, literal: Decoder): Counter
  {
    if rows == [] then multiset{}
    else
      var last := ParseTags(rows[|rows| - 1], loads, literal);
      LayerCount(rows[..|rows| - 1], mode, loads, literal) + Items(last, PairMode(mode))
  }

  /** One more row entered into the layer's counter. */
  lemma LayerStep(rows: seq<Option<string>>, i: nat, mode: string, loads: Decoder, literal: Decoder)
    requires i < |rows|
    ensures LayerCount(rows[..i + 1], mode, loads, literal)
      == LayerCount(rows[..i], mode, loads, literal) + Items(ParseTags(rows[i], loads, literal), PairMode(mode))
  {
    var s := rows[..i + 1];
    assert s[..|s| - 1] == rows[..i];
    assert s[|s| - 1] == rows[i];
  }

  /** `count_tags_in_layer`: one pass over the rows updating a counter. */
  method CountTagsInLayer(rows: seq<Option<string>>, mode: string, loads: Decoder, literal: Decoder)
    returns (counter: Counter)
    ensures counter == LayerCount(rows, mode, loads, literal)
  {
    counter := multiset{};
    var pairs := Upper(mode) == "KEY_VALUES";
    for i := 0 to |rows|
      invariant counter == LayerCount(rows[..i], mode, loads, literal)
    {
      var td := ParseTags(rows[i], loads, literal);
      LayerStep(rows, i, mode, loads, literal);
      if td != map[] {
        counter := AddItems(counter, td, pairs);
      } else {
        ItemsSize(td, pairs);
      }
    }
    assert rows[..|rows|] == rows;
  }

  /** The number of tags in rows `0 .. n-1`. */
  function TagTotal(rows: seq<Option<string>>, loads: Decoder, literal: Decoder): nat
  {
    if rows == [] then 0
    else TagTotal(rows[..|rows| - 1], loads, literal) + |ParseTags(rows[|rows| - 1], loads, literal)|
  }

  /** A layer's total occurrences is the number of tags over its rows, in either mode. */
  lemma {:induction false} LayerTotal(rows: seq<Option<string>>, mode: string, loads: Decoder, literal: Decoder)
    ensures |LayerCount(rows, mode, loads, literal)| == TagTotal(rows, loads, literal)
  {
    if rows != [] {
      LayerTotal(rows[..|rows| - 1], mode, loads, literal);
      ItemsSize(ParseTags(rows[|rows| - 1], loads, literal), PairMode(mode));
    }
  }

  /** A row without tags (missing, blank or null-like) leaves the counter as it was. */
  lemma EmptyRowAddsNothing(rows: seq<Option<string>>, raw: Option<string>, mode: string, loads: Decoder, literal: Decoder)
    requires ParseTags(raw, loads, literal) == map[]
    ensures LayerCount(rows + [raw], mode, loads, literal) == LayerCount(rows, mode, loads, literal)
  {
    assert (rows + [raw])[..|rows|] == rows;
  }

  // ---------------------------------------------------------------- all layers

  /** A layer scanned: its rows, or `None` when it has no tag field. */
  type Layer = Option<seq<Option<string>>>

  ghost function LayerCounter(l: Layer, mode: string, loads: Decoder, literal: Decoder): Counter
  {
    if l.None? then multiset{} else LayerCount(l.value, mode, loads, literal)
  }

  ghost function Sum(cs: seq<Counter>): Counter
  {
    if cs == [] then multiset{} else Sum(cs[..|cs| - 1]) + cs[|cs| - 1]
  }

  /** The scan loop of the report: one counter per layer, an empty one for a
      layer without a tag field, and the overall counter updated with each. */
  method CountLayers(layers: seq<Layer>, mode: string, loads: Decoder, literal: Decoder)
    returns (perLayer: seq<Counter>, overall: Counter)
    ensures |perLayer| == |layers|
    ensures forall i :: 0 <= i < |layers| ==> perLayer[i] == LayerCounter(layers[i], mode, loads, literal)
    ensures overall == Sum(perLayer)
  {
    perLayer := [];
    overall := multiset{};
    for i := 0 to |layers|
      invariant |perLayer| == i
      invariant forall j :: 0 <= j < i ==> perLayer[j] == LayerCounter(layers[j], mode, loads, literal)
      invariant overall == Sum(perLayer)
    {
      var c: Counter := multiset{};
      if layers[i].Some? {
        c := CountTagsInLayer(layers[i].value, mode, loads, literal);
      }
      SumSnoc(perLayer, c);
      perLayer := perLayer + [c];
      overall := overall + c;
    }
  }

  lemma SumSnoc(cs: seq<Counter>, c: Counter)
    ensures Sum(cs + [c]) == Sum(cs) + c
  {
    assert (cs + [c])[..|cs|] == cs;
  }

  /** Overall totals add up: occurrences are the sum over layers, and every
      item counted in some layer is counted overall. */
  lemma {:induction false} SumTotals(cs: seq<Counter>)
    ensures |Sum(cs)| == SizeSum(cs)
    ensures forall i, x :: 0 <= i < |cs| && x in cs[i] ==> x in Sum(cs)
  {
    if cs != [] {
      SumTotals(cs[..|cs| - 1]);
      var init := cs[..|cs| - 1];
      forall i, x | 0 <= i < |cs| && x in cs[i]
        ensures x in Sum(cs)
      {
        if i < |cs| - 1 {
          assert cs[i] == init[i];
        }
      }
    }
  }

  function SizeSum(cs: seq<Counter>): nat
  {
    if cs == [] then 0 else SizeSum(cs[..|cs| - 1]) + |cs[|cs| - 1]|
  }

  // ---------------------------------------------------------------- report section

  /** The distinct items of a counter. */
  function Distinct(c: Counter): set<string>
  {
    set x | x in c
  }

  /** Some item of a non-empty set of items is counted at least as often as
      every other. */
  lemma {:induction false} MostFrequent(counter: Counter, rest: set<string>)
    requires rest != {}
    ensures exists x :: x in rest && forall y :: y in rest ==> counter[y] <= counter[x]
    decreases |rest|
  {
    var z :| z in rest;
    if rest != {z} {
      MostFrequent(counter, rest - {z});
      var x :| x in rest - {z} && forall y :: y in rest - {z} ==> counter[y] <= counter[x];
      if counter[z] <= counter[x] {
        assert forall y :: y in rest ==> counter[y] <= counter[x];
      } else {
        assert forall y :: y in rest ==> counter[y] <= counter[z];
      }
    }
  }

  /** `listed` holds distinct items of the counter, most frequent first, and
      no item left out is counted more often than one listed. */
  predicate Ranked(counter: Counter, listed: seq<string>)
  {
    && (forall j :: 0 <= j < |listed| ==> listed[j] in counter)
    && (forall j, k :: 0 <= j < k < |listed| ==> listed[j] != listed[k])
    && (forall j, k :: 0 <= j < k < |listed| ==> counter[listed[k]] <= counter[listed[j]])
    && (forall j, x :: 0 <= j < |listed| && x in counter && x !in listed ==> counter[x] <= counter[listed[j]])
  }

  /** Part way through the selection: `listed` is ranked, the items not yet
      taken are `rest`, and none of them beats a listed one. */
  predicate Selecting(counter: Counter, listed: seq<string>, rest: set<string>)
  {
    && rest <= Distinct(counter)
    && (forall y :: y in counter && y !in rest ==> y in listed)
    && (forall j :: 0 <= j < |listed| ==> listed[j] in counter && listed[j] !in rest)
    && (forall j, k :: 0 <= j < k < |listed| ==> listed[j] != listed[k])
    && (forall j, k :: 0 <= j < k < |listed| ==> counter[listed[k]] <= counter[listed[j]])
    && (forall j, y :: 0 <= j < |listed| && y in rest ==> counter[y] <= counter[listed[j]])
  }

  /** Taking a most frequent remaining item keeps the selection going. */
  lemma SelectStep(counter: Counter, listed: seq<string>, rest: set<string>, x: string)
    requires Selecting(counter, listed, rest)
    requires x in rest && forall y :: y in rest ==> counter[y] <= counter[x]
    ensures Selecting(counter, listed + [x], rest - {x})
  {
    var l, r := listed + [x], rest - {x};
    var n := |listed|;
    assert forall j :: 0 <= j < n ==> l[j] == listed[j];
    assert l[n] == x;
    forall y | y in counter && y !in r
      ensures y in l
    {
      if y == x { assert l[n] == y; } else { assert y in listed; }
    }
    forall j, k | 0 <= j < k < |l|
      ensures l[j] != l[k] && counter[l[k]] <= counter[l[j]]
    {
      if k == n { assert x in rest; }
    }
    forall j, y | 0 <= j < |l| && y in r
      ensures counter[y] <= counter[l[j]]
    {
      if j < n { assert y in rest; }
    }
  }

  /** A selection in progress is ranked. */
  lemma SelectRanked(counter: Counter, listed: seq<string>, rest: set<string>)
    requires Selecting(counter, listed, rest)
    ensures Ranked(counter, listed)
  {
  }

  /** `counter.most_common()[:want]`: the `want` most frequent items, most
      frequent first; the order among equal counts is not modelled. */
  method MostCommon(counter: Counter, want: nat) returns (listed: seq<string>)
    requires want <= |Distinct(counter)|
    ensures |listed| == want && Ranked(counter, listed)
  {
    listed := [];
    var rest := Distinct(counter);
    while |listed| < want
      invariant |listed| <= want
      invariant |rest| == |Distinct(counter)| - |listed|
      invariant Selecting(counter, listed, rest)
      decreases want - |listed|
    {
      MostFrequent(counter, rest);
      var x :| x in rest && forall y :: y in rest ==> counter[y] <= counter[x];
      SelectStep(counter, listed, rest, x);
      listed := listed + [x];
      rest := rest - {x};
    }
    SelectRanked(counter, listed, rest);
  }

  /** `write_counter_section`: the heading, the two totals, and, unless the
      counter is empty, a header line and the `topN` (or all) most frequent
      items with their counts; `listed` is the items shown. */
  method WriteCounterSection(title: string, counter: Counter, topN: Option<nat>)
    returns (lines: seq<string>, listed: seq<string>)
    ensures |lines| >= 3 && lines[..3] == ["\n## " + title + "\n",
                           "Unique items: " + IntToString(|Distinct(counter)|) + "\n",
                           "Total occurrences: " + IntToString(|counter|) + "\n"]
    ensures |Distinct(counter)| == 0 ==> |lines| == 3 && listed == []
    ensures |Distinct(counter)| > 0 ==>
      |lines| == 4 + |listed| && lines[3] == "Items (sorted by frequency desc, then name):\n"
      && forall j :: 0 <= j < |listed| ==> lines[4 + j] == "  " + listed[j] + "\t" + IntToString(counter[listed[j]]) + "\n"
    ensures |listed| == (if topN.Some? && topN.value < |Distinct(counter)| then topN.value else |Distinct(counter)|)
    ensures Ranked(counter, listed)
  {
    var unique := |Distinct(counter)|;
    lines := ["\n## " + title + "\n",
              "Unique items: " + IntToString(unique) + "\n",
              "Total occurrences: " + IntToString(|counter|) + "\n"];
    listed := [];
    if unique == 0 {
      return;
    }
    lines := lines + ["Items (sorted by frequency desc, then name):\n"];
    var want := if topN.Some? && topN.value < unique then topN.value else unique;
    listed := MostCommon(counter, want);
    var head := lines;
    for i := 0 to |listed|
      invariant |lines| == 4 + i && lines[..4] == head
      invariant forall j :: 0 <= j < i ==> lines[4 + j] == "  " + listed[j] + "\t" + IntToString(counter[listed[j]]) + "\n"
    {
      lines := lines + ["  " + listed[i] + "\t" + IntToString(counter[listed[i]]) + "\n"];
    }
  }
}
