/**
  Weight ranges for random draws: WAN load balancing
  (python/vyos/wanloadbalance.py) and NAT backends (python/vyos/nat.py).
 */
module LoadBalance {
  import opened Wrappers

  /** An interface of the rule: its weight and whether it is known to be up. */
  datatype Interface = Interface(name: string, weight: int, healthy: bool)

  type Weighted = (string, int)

  /** A printed element of the map: one number, or a first and a last one. */
  datatype Range = Single(at: int) | Between(first: int, last: int)

  type Entry = (string, Range)

  predicate Covers(r: Range, draw: int) {
    match r
    case Single(at) => draw == at
    case Between(first, last) => first <= draw <= last
  }

  function Total(l: seq<Weighted>): int {
    if l == [] then 0 else Total(l[..|l| - 1]) + l[|l| - 1].1
  }

  function Healthy(l: seq<Interface>): seq<Weighted> {
    if l == [] then []
    else Healthy(l[..|l| - 1]) + if l[|l| - 1].healthy then [(l[|l| - 1].name, l[|l| - 1].weight)] else []
  }

  /** Stable insertion by ascending weight. */
  function PlaceByWeight(l: seq<Weighted>, w: Weighted): seq<Weighted> {
    if l == [] || l[|l| - 1].1 <= w.1 then l + [w]
    else PlaceByWeight(l[..|l| - 1], w) + [l[|l| - 1]]
  }

  /** `sorted(interfaces, key=lambda i: i[1])`. */
  function SortByWeight(l: seq<Weighted>): seq<Weighted> {
    if l == [] then [] else PlaceByWeight(SortByWeight(l[..|l| - 1]), l[|l| - 1])
  }

  lemma {:induction false} PlaceKeeps(l: seq<Weighted>, w: Weighted)
    ensures multiset(PlaceByWeight(l, w)) == multiset(l) + multiset{w}
    ensures Total(PlaceByWeight(l, w)) == Total(l) + w.1
  {
    if l == [] || l[|l| - 1].1 <= w.1 {
      assert (l + [w])[..|l + [w]| - 1] == l;
    } else {
      var front, last := l[..|l| - 1], l[|l| - 1];
      PlaceKeeps(front, w);
      MultisetSnoc(l);
      assert (PlaceByWeight(front, w) + [last])[..|PlaceByWeight(front, w) + [last]| - 1] == PlaceByWeight(front, w);
    }
  }

  lemma Snoc(l: seq<Weighted>, w: Weighted)
    ensures (l + [w])[..|l + [w]| - 1] == l && (l + [w])[|l + [w]| - 1] == w
  {
  }

  // ---- the interfaces that are up -----------------------------------------------------------

  /** Names and weights of the interfaces that are up, in the order of the rule. */
  ghost predicate AreUp(ifaces: seq<Interface>, l: seq<Weighted>) {
    exists at: seq<nat> :: AreUpAt(ifaces, l, at)
  }

  /** `at` holds the ascending positions of the interfaces that are up. */
  ghost predicate AreUpAt(ifaces: seq<Interface>, l: seq<Weighted>, at: seq<nat>) {
    && |at| == |l|
    && (forall m, n :: 0 <= m < n < |at| ==> at[m] < at[n])
    && (forall m :: 0 <= m < |at| ==>
          at[m] < |ifaces| && ifaces[at[m]].healthy && l[m] == (ifaces[at[m]].name, ifaces[at[m]].weight))
    && (forall i :: 0 <= i < |ifaces| && ifaces[i].healthy ==> i in at)
  }

  lemma {:induction false} HealthyAreUp(ifaces: seq<Interface>) returns (at: seq<nat>)
    ensures AreUpAt(ifaces, Healthy(ifaces), at)
  {
    if ifaces == [] {
      return [];
    }
    var front := ifaces[..|ifaces| - 1];
    at := HealthyAreUp(front);
    UpNext(ifaces, Healthy(front), at);
    HealthyNext(ifaces);
    at := if ifaces[|ifaces| - 1].healthy then at + [|front|] else at;
  }

  lemma HealthyNext(ifaces: seq<Interface>)
    requires ifaces != []
    ensures var n := |ifaces| - 1;
            Healthy(ifaces) == if ifaces[n].healthy then Healthy(ifaces[..n]) + [(ifaces[n].name, ifaces[n].weight)]
                               else Healthy(ifaces[..n])
  {
    assert Healthy(ifaces[..|ifaces| - 1]) + [] == Healthy(ifaces[..|ifaces| - 1]);
  }

  lemma UpNext(ifaces: seq<Interface>, l: seq<Weighted>, at: seq<nat>)
    requires ifaces != [] && AreUpAt(ifaces[..|ifaces| - 1], l, at)
    ensures var n := |ifaces| - 1;
            if ifaces[n].healthy then AreUpAt(ifaces, l + [(ifaces[n].name, ifaces[n].weight)], at + [n])
            else AreUpAt(ifaces, l, at)
  {
    var n, front := |ifaces| - 1, ifaces[..|ifaces| - 1];
    forall i | 0 <= i < n && ifaces[i].healthy ensures i in at && i in at + [n] {
      assert front[i] == ifaces[i];
    }
    forall m | 0 <= m < |at| ensures at[m] < n && front[at[m]] == ifaces[at[m]] {
    }
  }

  /** The names of a weight, in order. */
  ghost function NamesAt(l: seq<Weighted>, weight: int): seq<string> {
    if l == [] then []
    else NamesAt(l[..|l| - 1], weight) + if l[|l| - 1].1 == weight then [l[|l| - 1].0] else []
  }

  ghost predicate Ascending(l: seq<Weighted>) {
    forall i, j :: 0 <= i < j < |l| ==> l[i].1 <= l[j].1
  }

  /** `s` is `l` by ascending weight, equal weights in the order they had. */
  ghost predicate IsStableSort(l: seq<Weighted>, s: seq<Weighted>) {
    && multiset(s) == multiset(l) && Ascending(s)
    && forall weight :: NamesAt(s, weight) == NamesAt(l, weight)
  }

  lemma {:induction false} PlaceAscending(l: seq<Weighted>, w: Weighted)
    requires Ascending(l)
    ensures Ascending(PlaceByWeight(l, w))
    ensures forall i :: 0 <= i < |PlaceByWeight(l, w)| ==> PlaceByWeight(l, w)[i] in l + [w]
  {
    if l == [] || l[|l| - 1].1 <= w.1 {
    } else {
      var front, last := l[..|l| - 1], l[|l| - 1];
      PlaceAscending(front, w);
      var placed := PlaceByWeight(front, w);
      forall i | 0 <= i < |placed| ensures placed[i].1 <= last.1 && placed[i] in l + [w] {
        assert placed[i] in front + [w];
        if placed[i] in front {
          var j :| 0 <= j < |front| && front[j] == placed[i];
          assert l[j] == placed[i];
        }
      }
    }
  }

  lemma NamesSnoc(l: seq<Weighted>, w: Weighted, weight: int)
    ensures NamesAt(l + [w], weight) == NamesAt(l, weight) + if w.1 == weight then [w.0] else []
  {
    Snoc(l, w);
  }

  lemma {:induction false} PlaceStable(l: seq<Weighted>, w: Weighted, weight: int)
    ensures NamesAt(PlaceByWeight(l, w), weight) == NamesAt(l, weight) + if w.1 == weight then [w.0] else []
  {
    if l == [] || l[|l| - 1].1 <= w.1 {
      NamesSnoc(l, w, weight);
    } else {
      var front, last := l[..|l| - 1], l[|l| - 1];
      PlaceStable(front, w, weight);
      NamesSnoc(PlaceByWeight(front, w), last, weight);
    }
  }

  lemma {:induction false} SortIsStable(l: seq<Weighted>)
    ensures IsStableSort(l, SortByWeight(l))
  {
    SortKeeps(l);
    if l != [] {
      var front, last := l[..|l| - 1], l[|l| - 1];
      SortIsStable(front);
      PlaceAscending(SortByWeight(front), last);
      forall weight ensures NamesAt(SortByWeight(l), weight) == NamesAt(l, weight) {
        PlaceStable(SortByWeight(front), last, weight);
      }
    }
  }

  lemma {:induction false} SortKeeps(l: seq<Weighted>)
    ensures multiset(SortByWeight(l)) == multiset(l) && Total(SortByWeight(l)) == Total(l)
  {
    if l != [] {
      SortKeeps(l[..|l| - 1]);
      PlaceKeeps(SortByWeight(l[..|l| - 1]), l[|l| - 1]);
      MultisetSnoc(l);
    }
  }

  ghost predicate Positive(l: seq<Weighted>) {
    forall i :: 0 <= i < |l| ==> l[i].1 > 0
  }

  lemma PositiveByMembership(a: seq<Weighted>, b: seq<Weighted>)
    requires multiset(a) == multiset(b) && Positive(a)
    ensures Positive(b)
  {
    forall i | 0 <= i < |b| ensures b[i].1 > 0 {
      assert b[i] in multiset(b);
      assert b[i] in multiset(a);
    }
  }

  /** The range that starts at `start` and is `weight` long, as the WAN rule prints it. */
  function WanRange(start: int, weight: int): Range {
    var end := start + weight - 1;
    if end > start then Between(start, end) else Single(start)
  }

  function NatRange(start: int, weight: int): Range {
    Between(start, start + weight - 1)
  }

  /** Ranges laid end to end. */
  ghost predicate LaidOut(l: seq<Weighted>, out: seq<Entry>, single: bool) {
    && |out| == |l|
    && forall i :: 0 <= i < |l| ==>
         out[i] == (l[i].0, if single then WanRange(Total(l[..i]), l[i].1) else NatRange(Total(l[..i]), l[i].1))
  }

  lemma {:induction false} TotalsGrow(l: seq<Weighted>, i: nat, j: nat)
    requires Positive(l) && i <= j <= |l|
    ensures 0 <= Total(l[..i]) <= Total(l[..j])
    ensures i < j ==> Total(l[..i]) + l[i].1 <= Total(l[..j])
    decreases j
  {
    if i < j {
      TotalsGrow(l, i, j - 1);
      assert l[..j][..j - 1] == l[..j - 1];
    } else if i > 0 {
      TotalsGrow(l, i - 1, i - 1);
      assert l[..i][..i - 1] == l[..i - 1];
    }
  }

  /** With a positive weight the range covers exactly the draws it spans. */
  lemma Spans(start: int, weight: int, draw: int, single: bool)
    requires weight > 0
    ensures Covers(if single then WanRange(start, weight) else NatRange(start, weight), draw)
       <==> start <= draw < start + weight
  {
  }

  /** The entry a draw falls into. */
  lemma {:induction false} Owner(l: seq<Weighted>, draw: int) returns (i: nat)
    requires Positive(l) && 0 <= draw < Total(l)
    ensures i < |l| && Total(l[..i]) <= draw < Total(l[..i]) + l[i].1
    decreases |l|
  {
    var front := l[..|l| - 1];
    if draw >= Total(front) {
      i := |l| - 1;
    } else {
      i := Owner(front, draw);
      assert front[..i] == l[..i];
    }
  }

  function Interval(low: int, high: int): (s: set<int>)
    ensures forall x :: x in s <==> low <= x < high
    ensures |s| == if low < high then high - low else 0
    decreases high - low
  {
    if low >= high then {} else Interval(low, high - 1) + {high - 1}
  }

  /** The draws below `total` that an entry owns. */
  ghost function Draws(r: Range, total: int): set<int> {
    set draw | draw in Interval(0, total) && Covers(r, draw)
  }

  ghost predicate Selects(out: seq<Entry>, draw: int) {
    exists i :: 0 <= i < |out| && Covers(out[i].1, draw)
  }

  /**
    Positive weights: the ranges partition the numbers below the total, so each
    draw selects exactly one entry, and an entry owns as many draws as it weighs.
   */
  ghost predicate Partitions(l: seq<Weighted>, out: seq<Entry>) {
    && |out| == |l|
    && (forall i :: 0 <= i < |out| ==> out[i].0 == l[i].0)
    && (forall draw :: Selects(out, draw) <==> 0 <= draw < Total(l))
    && (forall draw, i, j | 0 <= i < |out| && 0 <= j < |out| :: Covers(out[i].1, draw) && Covers(out[j].1, draw) ==> i == j)
    && (forall i :: 0 <= i < |out| ==> |Draws(out[i].1, Total(l))| == l[i].1)
  }

  lemma DrawsSize(r: Range, total: int, low: int, high: int)
    requires 0 <= low <= high <= total && forall draw :: Covers(r, draw) <==> low <= draw < high
    ensures |Draws(r, total)| == high - low
  {
    assert Draws(r, total) == Interval(low, high);
  }

  lemma EntryMeaning(l: seq<Weighted>, out: seq<Entry>, single: bool, i: nat)
    requires Positive(l) && LaidOut(l, out, single) && i < |l|
    ensures forall draw :: Covers(out[i].1, draw) <==> Total(l[..i]) <= draw < Total(l[..i]) + l[i].1
    ensures 0 <= Total(l[..i]) && Total(l[..i]) + l[i].1 <= Total(l)
    ensures |Draws(out[i].1, Total(l))| == l[i].1
  {
    forall draw ensures Covers(out[i].1, draw) <==> Total(l[..i]) <= draw < Total(l[..i]) + l[i].1 {
      Spans(Total(l[..i]), l[i].1, draw, single);
    }
    assert l[..|l|] == l;
    TotalsGrow(l, i, |l|);
    DrawsSize(out[i].1, Total(l), Total(l[..i]), Total(l[..i]) + l[i].1);
  }

  lemma LaidOutPartitions(l: seq<Weighted>, out: seq<Entry>, single: bool)
    requires Positive(l) && LaidOut(l, out, single)
    ensures Partitions(l, out)
  {
    forall i | 0 <= i < |out| ensures |Draws(out[i].1, Total(l))| == l[i].1 {
      EntryMeaning(l, out, single, i);
    }
    forall draw ensures Selects(out, draw) <==> 0 <= draw < Total(l) {
      if i :| 0 <= i < |out| && Covers(out[i].1, draw) {
        EntryMeaning(l, out, single, i);
      }
      if 0 <= draw < Total(l) {
        var i := Owner(l, draw);
        EntryMeaning(l, out, single, i);
        assert Covers(out[i].1, draw);
      }
    }
    forall draw, i, j | 0 <= i < |out| && 0 <= j < |out| && Covers(out[i].1, draw) && Covers(out[j].1, draw)
      ensures i == j
    {
      EntryMeaning(l, out, single, i);
      EntryMeaning(l, out, single, j);
      if i < j { TotalsGrow(l, i, j); }
      if j < i { TotalsGrow(l, j, i); }
    }
  }

  // ---- the two loops --------------------------------------------------------------------

  /** The highest weight, the first of them: `sorted(…, reverse=True)` keeps equals in order. */
  ghost predicate IsFirstHeaviest(l: seq<Weighted>, k: nat)
    requires k < |l|
  {
    (forall i :: 0 <= i < |l| ==> l[i].1 <= l[k].1) && forall i :: 0 <= i < k ==> l[i].1 < l[k].1
  }

  /** An interface that is up, the first of the heaviest. */
  ghost predicate IsFirstHeaviestUp(ifaces: seq<Interface>, k: nat)
    requires k < |ifaces|
  {
    && ifaces[k].healthy
    && (forall i :: 0 <= i < |ifaces| && ifaces[i].healthy ==> ifaces[i].weight <= ifaces[k].weight)
    && (forall i :: 0 <= i < k && ifaces[i].healthy ==> ifaces[i].weight < ifaces[k].weight)
  }

  lemma HeaviestUp(ifaces: seq<Interface>, l: seq<Weighted>, at: seq<nat>, k: nat)
    requires AreUpAt(ifaces, l, at) && k < |l| && IsFirstHeaviest(l, k)
    ensures at[k] < |ifaces| && IsFirstHeaviestUp(ifaces, at[k]) && l[k] == (ifaces[at[k]].name, ifaces[at[k]].weight)
  {
    forall i | 0 <= i < |ifaces| && ifaces[i].healthy
      ensures ifaces[i].weight <= ifaces[at[k]].weight && (i < at[k] ==> ifaces[i].weight < ifaces[at[k]].weight)
    {
      var m :| 0 <= m < |at| && at[m] == i;
      assert l[m].1 == ifaces[i].weight;
    }
  }

  /** The loop that asks for the health of each interface. */
  method CollectUp(ifaces: seq<Interface>) returns (interfaces: seq<Weighted>)
    ensures interfaces == Healthy(ifaces)
  {
    interfaces := [];
    for i := 0 to |ifaces|
      invariant interfaces == Healthy(ifaces[..i])
    {
      assert ifaces[..i + 1][..i] == ifaces[..i];
      if ifaces[i].healthy {
        interfaces := interfaces + [(ifaces[i].name, ifaces[i].weight)];
      }
    }
    assert ifaces[..|ifaces|] == ifaces;
  }

  /** A range of more than one number is printed with both ends. */
  ghost predicate SinglesAreSingle(l: seq<Weighted>, out: seq<Entry>) {
    |out| == |l| && forall i :: 0 <= i < |out| ==> (out[i].1.Single? <==> l[i].1 <= 1)
  }

  lemma LaidOutSingles(l: seq<Weighted>, out: seq<Entry>)
    requires LaidOut(l, out, true)
    ensures SinglesAreSingle(l, out)
  {
  }

  /** Ranges laid end to end from 0 to the total weight. */
  ghost predicate AreRanges(l: seq<Weighted>, out: seq<Entry>, total: int) {
    total == Total(l) && LaidOut(l, out, true) && SinglesAreSingle(l, out)
  }

  /** `up` are the interfaces that are up, `sorted` the same by ascending weight. */
  method WlbWeightInterfaces(ifaces: seq<Interface>, failover: bool)
    returns (out: seq<Entry>, total: int, ghost up: seq<Weighted>, ghost sorted: seq<Weighted>)
    ensures AreUp(ifaces, up) && IsStableSort(up, sorted)
    ensures out == [] <==> forall i :: 0 <= i < |ifaces| ==> !ifaces[i].healthy
    ensures out == [] ==> total == 0
    ensures out != [] && failover ==>
              exists k :: 0 <= k < |ifaces| && IsFirstHeaviestUp(ifaces, k)
                       && out == [(ifaces[k].name, Single(ifaces[k].weight))] && total == ifaces[k].weight
    ensures out != [] && !failover ==> AreRanges(sorted, out, total)
    ensures out != [] && !failover && Positive(up) ==> Partitions(sorted, out)
  {
    var interfaces := CollectUp(ifaces);
    ghost var at := HealthyAreUp(ifaces);
    up, sorted := interfaces, SortByWeight(interfaces);
    SortIsStable(interfaces);
    if interfaces == [] {
      return [], 0, up, sorted;
    }
    assert ifaces[at[0]].healthy;
    if failover {
      var k := FirstHeaviest(interfaces);
      HeaviestUp(ifaces, interfaces, at, k);
      return [(interfaces[k].0, Single(interfaces[k].1))], interfaces[k].1, up, sorted;
    }
    out, total := WeightRanges(interfaces);
  }

  /** The weight ranges of the interfaces that are up. */
  method WeightRanges(interfaces: seq<Weighted>) returns (out: seq<Entry>, total: int)
    ensures |out| == |interfaces|
    ensures AreRanges(SortByWeight(interfaces), out, total)
    ensures Positive(interfaces) ==> Partitions(SortByWeight(interfaces), out)
  {
    total := SumOf(interfaces);
    SortKeeps(interfaces);
    assert |multiset(SortByWeight(interfaces))| == |multiset(interfaces)|;
    out := LayOut(SortByWeight(interfaces));
    LaidOutSingles(SortByWeight(interfaces), out);
    if Positive(interfaces) {
      PositiveByMembership(interfaces, SortByWeight(interfaces));
      LaidOutPartitions(SortByWeight(interfaces), out, true);
    }
  }

  /** The loop that builds the weight ranges. */
  method LayOut(sorted: seq<Weighted>) returns (out: seq<Entry>)
    ensures LaidOut(sorted, out, true)
  {
    out := [];
    var start := 0;
    for i := 0 to |sorted|
      invariant start == Total(sorted[..i]) && LaidOut(sorted[..i], out, true)
    {
      LayOutNext(sorted, out, i, true);
      var end := start + sorted[i].1 - 1;
      out := out + [(sorted[i].0, if end > start then Between(start, end) else Single(start))];
      start := start + sorted[i].1;
    }
    assert sorted[..|sorted|] == sorted;
  }

  lemma LayOutNext(l: seq<Weighted>, out: seq<Entry>, i: nat, single: bool)
    requires i < |l| && LaidOut(l[..i], out, single)
    ensures Total(l[..i + 1]) == Total(l[..i]) + l[i].1
    ensures LaidOut(l[..i + 1], out + [(l[i].0, if single then WanRange(Total(l[..i]), l[i].1) else NatRange(Total(l[..i]), l[i].1))], single)
  {
    forall j | 0 <= j <= i ensures l[..i + 1][..j] == l[..j] && l[..i][..j] == l[..j] {
      PrefixOfPrefix(l, i + 1, j);
      PrefixOfPrefix(l, i, j);
    }
  }

  lemma PrefixOfPrefix(l: seq<Weighted>, i: nat, j: nat)
    requires j <= i <= |l|
    ensures l[..i][..j] == l[..j]
  {
  }

  method SumOf(l: seq<Weighted>) returns (sum: int)
    ensures sum == Total(l)
  {
    sum := 0;
    for i := 0 to |l|
      invariant sum == Total(l[..i])
    {
      assert l[..i + 1][..i] == l[..i];
      sum := sum + l[i].1;
    }
    assert l[..|l|] == l;
  }

  method FirstHeaviest(l: seq<Weighted>) returns (k: nat)
    requires l != []
    ensures k < |l| && IsFirstHeaviest(l, k)
  {
    k := 0;
    for i := 1 to |l|
      invariant k < i && (forall j :: 0 <= j < i ==> l[j].1 <= l[k].1) && forall j :: 0 <= j < k ==> l[j].1 < l[k].1
    {
      if l[i].1 > l[k].1 {
        k := i;
      }
    }
  }

  /** The load-balance loop of `parse_nat_rule`. */
  method NatMap(backends: seq<Weighted>) returns (natMap: seq<Entry>)
    ensures LaidOut(backends, natMap, false)
    ensures Positive(backends) ==> Partitions(backends, natMap)
    ensures Positive(backends) && Total(backends) == 100 ==>
              forall draw :: 0 <= draw < 100 ==> Selects(natMap, draw)
  {
    natMap := [];
    var currentProb := 0;
    for i := 0 to |backends|
      invariant currentProb == Total(backends[..i]) && LaidOut(backends[..i], natMap, false)
    {
      LayOutNext(backends, natMap, i, false);
      var itemProb := backends[i].1;
      var upperLimit := currentProb + itemProb - 1;
      natMap := natMap + [(backends[i].0, Between(currentProb, upperLimit))];
      currentProb := currentProb + itemProb;
    }
    assert backends[..|backends|] == backends;
    if Positive(backends) {
      LaidOutPartitions(backends, natMap, false);
    }
  }
}
