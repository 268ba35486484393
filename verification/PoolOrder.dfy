/**
  Ordering address pools so that a pool comes after the pool it continues in
  (python/vyos/accel_ppp_util.py, `get_pools_in_order`).
 */
module PoolOrder {
  import opened Wrappers

  /** A pool and its `next_pool` option; an empty text counts as absent. */
  datatype Pool = Pool(name: string, nextPool: Option<string>) {
    function Next(): string {
      if nextPool.Some? then nextPool.value else ""
    }

    predicate Continues() {
      Next() != ""
    }
  }

  datatype Outcome =
    | Ordered(pools: seq<Pool>)
    | NotDefined(name: string)
    | CircularReference

  // ---- names and chains ---------------------------------------------------------

  predicate HasName(l: seq<Pool>, name: string) {
    exists i :: 0 <= i < |l| && l[i].name == name
  }

  /** The keys of a dictionary are distinct. */
  ghost predicate DistinctNames(l: seq<Pool>) {
    forall i, j :: 0 <= i < |l| && 0 <= j < |l| && i != j ==> l[i].name != l[j].name
  }

  /** The pool of that name in the data continues in `to`. */
  ghost predicate Links(data: seq<Pool>, from: string, to: string) {
    exists p :: p in data && p.name == from && p.Continues() && p.Next() == to
  }

  /** A walk along `next_pool`. */
  ghost predicate IsChain(data: seq<Pool>, c: seq<string>) {
    c != [] && forall i :: 0 <= i < |c| - 1 ==> Links(data, c[i], c[i + 1])
  }

  /** `from` chains to `to`, directly or not. */
  ghost predicate ChainsTo(data: seq<Pool>, from: string, to: string) {
    exists c :: IsChain(data, c) && |c| > 1 && c[0] == from && c[|c| - 1] == to
  }

  ghost predicate IsCyclic(data: seq<Pool>) {
    exists x :: ChainsTo(data, x, x)
  }

  ghost predicate AllDefined(data: seq<Pool>) {
    forall p :: p in data && p.Continues() ==> HasName(data, p.Next())
  }

  lemma LinksUnique(data: seq<Pool>, from: string, a: string, b: string)
    requires DistinctNames(data) && Links(data, from, a) && Links(data, from, b)
    ensures a == b
  {
  }

  lemma ChainsCons(data: seq<Pool>, x: string, y: string, to: string)
    requires DistinctNames(data) && Links(data, x, y)
    ensures ChainsTo(data, x, to) <==> to == y || ChainsTo(data, y, to)
  {
    if to == y {
      assert IsChain(data, [x, y]);
    }
    if ChainsTo(data, y, to) {
      var c :| IsChain(data, c) && |c| > 1 && c[0] == y && c[|c| - 1] == to;
      assert IsChain(data, [x] + c);
    }
    if ChainsTo(data, x, to) && to != y {
      var c :| IsChain(data, c) && |c| > 1 && c[0] == x && c[|c| - 1] == to;
      ChainTail(data, c);
      LinksUnique(data, x, y, c[1]);
    }
  }

  lemma ChainTail(data: seq<Pool>, c: seq<string>)
    requires IsChain(data, c) && |c| > 1
    ensures IsChain(data, c[1..]) && Links(data, c[0], c[1])
  {
    forall i | 0 <= i < |c[1..]| - 1 ensures Links(data, c[1..][i], c[1..][i + 1]) {
      assert Links(data, c[i + 1], c[i + 2]);
    }
  }

  lemma ChainsFrom(data: seq<Pool>, x: string, to: string) returns (y: string)
    requires ChainsTo(data, x, to)
    ensures Links(data, x, y)
  {
    var c :| IsChain(data, c) && |c| > 1 && c[0] == x && c[|c| - 1] == to;
    y := c[1];
  }

  // ---- a preorder of the forest -----------------------------------------------------

  /** `p` is placed after the pool it continues in. */
  ghost predicate NextComesFirst(l: seq<Pool>) {
    forall i :: 0 <= i < |l| && l[i].Continues() ==> HasName(l[..i], l[i].Next())
  }

  /** Whatever chains to a pool stands in one block right behind it. */
  ghost predicate BlocksAreContiguous(data: seq<Pool>, l: seq<Pool>) {
    forall i, j, k :: 0 <= i < j < k < |l| && ChainsTo(data, l[k].name, l[i].name) ==> ChainsTo(data, l[j].name, l[i].name)
  }

  ghost predicate IsPreorder(data: seq<Pool>, l: seq<Pool>) {
    DistinctNames(l) && NextComesFirst(l) && BlocksAreContiguous(data, l)
  }

  /** Placed pools chain to earlier pools only. */
  lemma {:induction false} ChainGoesBack(data: seq<Pool>, l: seq<Pool>, c: seq<string>, k: nat)
    requires DistinctNames(data) && NextComesFirst(l) && (forall p :: p in l ==> p in data)
    requires IsChain(data, c) && k < |l| && c[0] == l[k].name
    ensures exists i :: 0 <= i <= k && l[i].name == c[|c| - 1] && (|c| > 1 ==> i < k)
    decreases |c|
  {
    if |c| > 1 {
      ChainTail(data, c);
      assert l[k] in l;
      assert l[k].Continues() && l[k].Next() == c[1];
      var i :| 0 <= i < |l[..k]| && l[..k][i].name == c[1];
      ChainGoesBack(data, l, c[1..], i);
    }
  }

  lemma ChainsBack(data: seq<Pool>, l: seq<Pool>, k: nat, to: string)
    requires DistinctNames(data) && NextComesFirst(l) && (forall p :: p in l ==> p in data)
    requires k < |l| && ChainsTo(data, l[k].name, to)
    ensures exists i :: 0 <= i < k && l[i].name == to
  {
    var c :| IsChain(data, c) && |c| > 1 && c[0] == l[k].name && c[|c| - 1] == to;
    ChainGoesBack(data, l, c, k);
  }

  /** `pools.insert(at, x)`. */
  function Inserted(l: seq<Pool>, at: nat, x: Pool): seq<Pool>
    requires at <= |l|
  {
    l[..at] + [x] + l[at..]
  }

  /** The index in `l` an entry of the longer list comes from. */
  ghost function From(at: nat, i: nat): int {
    if i < at then i else i - 1
  }

  lemma InsertedAt(l: seq<Pool>, at: nat, x: Pool)
    requires at <= |l|
    ensures var l' := Inserted(l, at, x);
            |l'| == |l| + 1 && l'[at] == x && forall i :: 0 <= i < |l'| && i != at ==> l'[i] == l[From(at, i)]
    ensures multiset(Inserted(l, at, x)) == multiset(l) + multiset{x}
  {
    assert l == l[..at] + l[at..];
  }

  lemma InsertKeepsOrder(l: seq<Pool>, at: nat, x: Pool)
    requires DistinctNames(l) && NextComesFirst(l) && at <= |l| && !HasName(l, x.name)
    requires x.Continues() ==> HasName(l[..at], x.Next())
    ensures DistinctNames(Inserted(l, at, x)) && NextComesFirst(Inserted(l, at, x))
  {
    InsertKeepsNames(l, at, x);
    var l' := Inserted(l, at, x);
    InsertedAt(l, at, x);
    forall i | 0 <= i < |l'| && l'[i].Continues() ensures HasName(l'[..i], l'[i].Next()) {
      InsertedHasName(l, at, x, i, l'[i].Next());
    }
  }

  lemma InsertKeepsNames(l: seq<Pool>, at: nat, x: Pool)
    requires DistinctNames(l) && at <= |l| && !HasName(l, x.name)
    ensures DistinctNames(Inserted(l, at, x))
  {
    var l' := Inserted(l, at, x);
    InsertedAt(l, at, x);
    forall i, j | 0 <= i < |l'| && 0 <= j < |l'| && i != j ensures l'[i].name != l'[j].name {
      assert i != at ==> l'[i] == l[From(at, i)];
      assert j != at ==> l'[j] == l[From(at, j)];
    }
  }

  /** A name in front of an entry stays in front of it. */
  lemma InsertedHasName(l: seq<Pool>, at: nat, x: Pool, i: nat, n: string)
    requires at <= |l| && i <= |l| && HasName(l[..if i <= at then i else i - 1], n)
    ensures HasName(Inserted(l, at, x)[..i], n)
  {
    var l' := Inserted(l, at, x);
    var before := l[..if i <= at then i else i - 1];
    InsertedAt(l, at, x);
    var j :| 0 <= j < |before| && before[j].name == n;
    var j' := if j < at then j else j + 1;
    assert l'[..i][j'] == l'[j'] == l[j];
  }

  /** Inserting a pool right behind the one it continues in. */
  lemma InsertBehind(data: seq<Pool>, l: seq<Pool>, t: nat, x: Pool)
    requires DistinctNames(data) && IsPreorder(data, l) && (forall p :: p in l ==> p in data)
    requires x in data && !HasName(l, x.name)
    requires t < |l| && x.Continues() && x.Next() == l[t].name
    ensures IsPreorder(data, Inserted(l, t + 1, x))
  {
    var at := t + 1;
    var l' := Inserted(l, at, x);
    InsertedAt(l, at, x);
    assert l[..at][t].name == l[t].name;
    InsertKeepsOrder(l, at, x);
    assert Links(data, x.name, l[t].name);
    forall i, j, k | 0 <= i < j < k < |l'| && ChainsTo(data, l'[k].name, l'[i].name)
      ensures ChainsTo(data, l'[j].name, l'[i].name)
    {
      ChainsCons(data, x.name, l[t].name, l'[i].name);
      if k == at {
        assert l'[i] == l[i];
      } else if i == at {
        ChainsBack(data, l, From(at, k), x.name);
      } else {
        assert ChainsTo(data, l[From(at, k)].name, l[From(at, i)].name);
        if j == at && i < t && From(at, k) > t {
          assert ChainsTo(data, l[t].name, l[i].name);
        }
      }
    }
  }

  /** Inserting a pool that continues nowhere in front of such pools. */
  lemma InsertRoot(data: seq<Pool>, l: seq<Pool>, x: Pool)
    requires DistinctNames(data) && IsPreorder(data, l) && (forall p :: p in l ==> p in data && !p.Continues())
    requires x in data && !HasName(l, x.name) && !x.Continues()
    ensures IsPreorder(data, Inserted(l, 0, x))
  {
    var l' := Inserted(l, 0, x);
    InsertedAt(l, 0, x);
    InsertKeepsOrder(l, 0, x);
    forall k, to | 0 <= k < |l'| ensures !ChainsTo(data, l'[k].name, to) {
      assert l'[k] in data && !l'[k].Continues() by { if k > 0 { assert l[k - 1] in l; } }
      if ChainsTo(data, l'[k].name, to) {
        var y := ChainsFrom(data, l'[k].name, to);
      }
    }
  }

  // ---- rounds ------------------------------------------------------------------------

  /** The entries whose names are not in `names`. */
  function Except(l: seq<Pool>, names: seq<string>): seq<Pool> {
    if l == [] then []
    else if l[0].name in names then Except(l[1..], names)
    else [l[0]] + Except(l[1..], names)
  }

  lemma {:induction false} ExceptMembers(l: seq<Pool>, names: seq<string>)
    ensures forall p :: p in Except(l, names) <==> p in l && p.name !in names
    ensures |Except(l, names)| <= |l|
    ensures (exists p :: p in l && p.name in names) ==> |Except(l, names)| < |l|
    ensures DistinctNames(l) ==> DistinctNames(Except(l, names))
  {
    if l != [] {
      ExceptMembers(l[1..], names);
      assert l == [l[0]] + l[1..];
    }
  }

  /** `unresolved_pools.pop(name)` for each of `names`. */
  method PopAll(l: seq<Pool>, names: seq<string>) returns (r: seq<Pool>)
    ensures r == Except(l, names)
  {
    r := l;
    ExceptNothing(l);
    for i := 0 to |names|
      invariant r == Except(l, names[..i])
    {
      ExceptMore(l, names, i);
      r := Except(r, [names[i]]);
    }
    assert names[..|names|] == names;
  }

  lemma {:induction false} ExceptNothing(l: seq<Pool>)
    ensures Except(l, []) == l
  {
    if l != [] {
      ExceptNothing(l[1..]);
    }
  }

  lemma {:induction false} ExceptMore(l: seq<Pool>, names: seq<string>, i: nat)
    requires i < |names|
    ensures Except(Except(l, names[..i]), [names[i]]) == Except(l, names[..i + 1])
  {
    assert names[..i + 1] == names[..i] + [names[i]];
    if l != [] {
      ExceptMore(l[1..], names, i);
      var r := Except(l[1..], names[..i]);
      assert ([l[0]] + r)[1..] == r;
    }
  }

  /** `pools` and `unresolved` share out the data. */
  ghost predicate SharesOut(data: seq<Pool>, pools: seq<Pool>, unresolved: seq<Pool>) {
    && DistinctNames(data)
    && (forall p :: p in data <==> p in pools || p in unresolved)
    && (forall p :: p in unresolved ==> p.Continues())
    && DistinctNames(unresolved)
  }

  /** The index of the pool of that name, as the search for it finds it. */
  function IndexOf(l: seq<Pool>, name: string): (i: nat)
    requires HasName(l, name)
    ensures i < |l| && l[i].name == name
  {
    if l[0].name == name then 0
    else
      assert HasName(l[1..], name) by {
        var i :| 0 <= i < |l| && l[i].name == name;
        assert l[1..][i - 1] == l[i];
      }
      1 + IndexOf(l[1..], name)
  }

  // ---- cycles ------------------------------------------------------------------------

  /** Every name in `u` links to a name in `u`. */
  ghost predicate ClosedUnderLinks(data: seq<Pool>, u: set<string>) {
    forall x {:trigger LinksInto(data, x, u)} :: x in u ==> LinksInto(data, x, u)
  }

  ghost predicate LinksInto(data: seq<Pool>, x: string, u: set<string>) {
    exists y :: y in u && Links(data, x, y)
  }

  /** A walk that cannot leave a finite set comes back to where it has been. */
  lemma {:induction false} WalkUntilCycle(data: seq<Pool>, u: set<string>, c: seq<string>)
    requires ClosedUnderLinks(data, u) && IsChain(data, c) && forall i :: 0 <= i < |c| ==> c[i] in u
    ensures IsCyclic(data)
    decreases u - (set i | 0 <= i < |c| :: c[i])
  {
    var last := c[|c| - 1];
    assert LinksInto(data, last, u);
    var y :| y in u && Links(data, last, y);
    var c' := c + [y];
    assert IsChain(data, c');
    if i :| 0 <= i < |c| && c[i] == y {
      var back := c'[i..];
      forall j | 0 <= j < |back| - 1 ensures Links(data, back[j], back[j + 1]) {
        assert Links(data, c'[i + j], c'[i + j + 1]);
      }
      assert IsChain(data, back) && back[0] == y && back[|back| - 1] == y;
      assert ChainsTo(data, y, y);
    } else {
      var before, after := set i | 0 <= i < |c| :: c[i], set i | 0 <= i < |c'| :: c'[i];
      assert forall i :: 0 <= i < |c| ==> c'[i] == c[i];
      assert before <= after && y in after by { assert c'[|c|] == y; }
      assert y !in before;
      WalkUntilCycle(data, u, c');
    }
  }

  /** `p` waits for one of the unresolved pools. */
  ghost predicate Waits(data: seq<Pool>, unresolved: seq<Pool>, p: Pool) {
    p in data && p.Continues() && HasName(unresolved, p.Next())
  }

  ghost function Names(l: seq<Pool>): set<string> {
    set p | p in l :: p.name
  }

  lemma WaitingLinks(data: seq<Pool>, unresolved: seq<Pool>, p: Pool)
    requires Waits(data, unresolved, p)
    ensures LinksInto(data, p.name, Names(unresolved))
  {
    var j :| 0 <= j < |unresolved| && unresolved[j].name == p.Next();
    assert unresolved[j] in unresolved;
    assert Links(data, p.name, p.Next());
  }

  lemma StuckMeansCyclic(data: seq<Pool>, unresolved: seq<Pool>)
    requires unresolved != [] && forall p {:trigger Waits(data, unresolved, p)} :: p in unresolved ==> Waits(data, unresolved, p)
    ensures IsCyclic(data)
  {
    var u := Names(unresolved);
    forall x | x in u ensures LinksInto(data, x, u) {
      var p :| p in unresolved && p.name == x;
      assert Waits(data, unresolved, p);
      WaitingLinks(data, unresolved, p);
    }
    assert unresolved[0] in unresolved;
    WalkUntilCycle(data, u, [unresolved[0].name]);
  }

  lemma PlacedIsAcyclic(data: seq<Pool>, pools: seq<Pool>)
    requires DistinctNames(data) && IsPreorder(data, pools) && forall p :: p in data <==> p in pools
    ensures AllDefined(data) && !IsCyclic(data)
    ensures multiset(pools) == multiset(data)
  {
    forall p | p in data && p.Continues() ensures HasName(data, p.Next()) {
      var k :| 0 <= k < |pools| && pools[k] == p;
      var i :| 0 <= i < |pools[..k]| && pools[..k][i].name == p.Next();
      assert pools[i] in data;
    }
    if x :| ChainsTo(data, x, x) {
      var y := ChainsFrom(data, x, x);
      var p :| p in data && p.name == x;
      var k :| 0 <= k < |pools| && pools[k] == p;
      ChainsBack(data, pools, k, x);
    }
    SameDistinct(pools, data);
  }

  lemma {:induction false} SameDistinct(a: seq<Pool>, b: seq<Pool>)
    requires DistinctNames(a) && DistinctNames(b) && forall p :: p in a <==> p in b
    ensures multiset(a) == multiset(b)
  {
    forall p ensures multiset(a)[p] == multiset(b)[p] {
      CountDistinct(a, p);
      CountDistinct(b, p);
    }
  }

  lemma {:induction false} CountDistinct(l: seq<Pool>, p: Pool)
    requires DistinctNames(l)
    ensures multiset(l)[p] == if p in l then 1 else 0
  {
    if l != [] {
      CountDistinct(l[1..], p);
      assert l == [l[0]] + l[1..];
    }
  }

  // ---- the algorithm --------------------------------------------------------------------

  /** The state between rounds. */
  ghost predicate BetweenRounds(data: seq<Pool>, pools: seq<Pool>, unresolved: seq<Pool>) {
    && SharesOut(data, pools, unresolved) && IsPreorder(data, pools)
    && forall p :: p in unresolved ==> !HasName(pools, p.name)
  }

  /** Placed are the pools from before the round and those of the round that are resolved. */
  ghost predicate RoundMembers(before: seq<Pool>, pools: seq<Pool>, unresolved: seq<Pool>, resolved: seq<string>, i: nat)
    requires i <= |unresolved|
  {
    forall p :: p in pools <==> p in before || (p in unresolved[..i] && p.name in resolved)
  }

  ghost predicate RoundNames(unresolved: seq<Pool>, resolved: seq<string>, i: nat)
    requires i <= |unresolved|
  {
    forall n :: n in resolved ==> HasName(unresolved[..i], n)
  }

  /** The state inside a round that has visited `i` of the unresolved pools. */
  ghost predicate InRound(data: seq<Pool>, before: seq<Pool>, pools: seq<Pool>, unresolved: seq<Pool>, resolved: seq<string>, i: nat)
    requires i <= |unresolved|
  {
    && IsPreorder(data, pools)
    && RoundMembers(before, pools, unresolved, resolved, i)
    && RoundNames(unresolved, resolved, i)
    && (forall j :: 0 <= j < i ==> HasName(data, unresolved[j].Next()))
    && (resolved == [] ==> pools == before && forall j :: 0 <= j < i ==> !HasName(before, unresolved[j].Next()))
  }

  lemma PlacedMembers(before: seq<Pool>, pools: seq<Pool>, pools': seq<Pool>, unresolved: seq<Pool>, resolved: seq<string>, i: nat)
    requires i < |unresolved| && DistinctNames(unresolved)
    requires RoundMembers(before, pools, unresolved, resolved, i)
    requires forall p :: p in pools' <==> p in pools || p == unresolved[i]
    ensures RoundMembers(before, pools', unresolved, resolved + [unresolved[i].name], i + 1)
  {
    var x := unresolved[i];
    assert unresolved[..i + 1] == unresolved[..i] + [x];
    FirstSeen(unresolved, i);
  }

  lemma ResolvedNames(unresolved: seq<Pool>, resolved: seq<string>, i: nat)
    requires i < |unresolved| && RoundNames(unresolved, resolved, i)
    ensures RoundNames(unresolved, resolved, i + 1)
    ensures RoundNames(unresolved, resolved + [unresolved[i].name], i + 1)
  {
    forall n | n in resolved + [unresolved[i].name] ensures HasName(unresolved[..i + 1], n) {
      if n in resolved {
        var j :| 0 <= j < |unresolved[..i]| && unresolved[..i][j].name == n;
        assert unresolved[..i + 1][j].name == n;
      } else {
        assert unresolved[..i + 1][i].name == n;
      }
    }
  }

  lemma PlaceNext(data: seq<Pool>, before: seq<Pool>, pools: seq<Pool>, unresolved: seq<Pool>, resolved: seq<string>, i: nat, t: nat)
    requires BetweenRounds(data, before, unresolved) && i < |unresolved|
    requires InRound(data, before, pools, unresolved, resolved, i)
    requires t < |pools| && pools[t].name == unresolved[i].Next()
    ensures InRound(data, before, Inserted(pools, t + 1, unresolved[i]), unresolved, resolved + [unresolved[i].name], i + 1)
  {
    var x := unresolved[i];
    assert x in unresolved && pools[t] in pools;
    NotYetPlaced(data, before, pools, unresolved, resolved, i);
    PlacedFromData(data, before, pools, unresolved, resolved, i);
    InsertBehind(data, pools, t, x);
    assert forall p :: p in Inserted(pools, t + 1, x) <==> p in pools || p == x by {
      assert pools == pools[..t + 1] + pools[t + 1..];
    }
    PlacedMembers(before, pools, Inserted(pools, t + 1, x), unresolved, resolved, i);
    ResolvedNames(unresolved, resolved, i);
    NextIsInData(data, pools, x, t);
  }

  lemma PlacedFromData(data: seq<Pool>, before: seq<Pool>, pools: seq<Pool>, unresolved: seq<Pool>, resolved: seq<string>, i: nat)
    requires BetweenRounds(data, before, unresolved) && i <= |unresolved|
    requires InRound(data, before, pools, unresolved, resolved, i)
    ensures forall p :: p in pools ==> p in data
  {
    forall p | p in pools ensures p in data {
      if p !in before { assert p in unresolved; }
    }
  }

  lemma NextIsInData(data: seq<Pool>, pools: seq<Pool>, x: Pool, t: nat)
    requires t < |pools| && pools[t].name == x.Next() && forall p :: p in pools ==> p in data
    ensures HasName(data, x.Next())
  {
    assert pools[t] in data;
    var j :| 0 <= j < |data| && data[j] == pools[t];
  }

  lemma SkippedMembers(before: seq<Pool>, pools: seq<Pool>, unresolved: seq<Pool>, resolved: seq<string>, i: nat)
    requires i < |unresolved| && DistinctNames(unresolved)
    requires RoundMembers(before, pools, unresolved, resolved, i) && RoundNames(unresolved, resolved, i)
    ensures RoundMembers(before, pools, unresolved, resolved, i + 1)
  {
    var x := unresolved[i];
    assert unresolved[..i + 1] == unresolved[..i] + [x];
    ResolvedEarlier(unresolved, resolved, i, x.name);
  }

  lemma ResolvedEarlier(unresolved: seq<Pool>, resolved: seq<string>, i: nat, n: string)
    requires i <= |unresolved| && RoundNames(unresolved, resolved, i)
    ensures n in resolved ==> exists j :: 0 <= j < i && unresolved[j].name == n
  {
    if n in resolved {
      var j :| 0 <= j < |unresolved[..i]| && unresolved[..i][j].name == n;
      assert unresolved[j].name == n;
    }
  }

  lemma SkipNext(data: seq<Pool>, before: seq<Pool>, pools: seq<Pool>, unresolved: seq<Pool>, resolved: seq<string>, i: nat)
    requires BetweenRounds(data, before, unresolved) && i < |unresolved|
    requires InRound(data, before, pools, unresolved, resolved, i)
    requires !HasName(pools, unresolved[i].Next()) && HasName(unresolved, unresolved[i].Next())
    ensures InRound(data, before, pools, unresolved, resolved, i + 1)
  {
    SkippedMembers(before, pools, unresolved, resolved, i);
    ResolvedNames(unresolved, resolved, i);
    var k :| 0 <= k < |unresolved| && unresolved[k].name == unresolved[i].Next();
    assert unresolved[k] in unresolved;
    NextIsInData(data, unresolved, unresolved[i], k);
  }

  lemma NotYetPlaced(data: seq<Pool>, before: seq<Pool>, pools: seq<Pool>, unresolved: seq<Pool>, resolved: seq<string>, i: nat)
    requires BetweenRounds(data, before, unresolved) && i < |unresolved|
    requires InRound(data, before, pools, unresolved, resolved, i)
    ensures !HasName(pools, unresolved[i].name)
  {
    var x := unresolved[i];
    assert x in unresolved;
    forall k | 0 <= k < |pools| ensures pools[k].name != x.name {
      PlacedFrom(before, pools, unresolved, resolved, i, k);
    }
  }

  lemma PlacedFrom(before: seq<Pool>, pools: seq<Pool>, unresolved: seq<Pool>, resolved: seq<string>, i: nat, k: nat)
    requires i <= |unresolved| && RoundMembers(before, pools, unresolved, resolved, i) && k < |pools|
    ensures HasName(before, pools[k].name) || exists j :: 0 <= j < i && unresolved[j].name == pools[k].name
  {
    var p := pools[k];
    assert p in pools;
    if p in before {
      var j :| 0 <= j < |before| && before[j] == p;
      assert before[j].name == p.name;
    } else {
      var j :| 0 <= j < |unresolved[..i]| && unresolved[..i][j] == p;
      assert unresolved[j].name == p.name;
    }
  }

  /** A next pool that is neither placed nor waiting is not in the data at all. */
  lemma Undefined(data: seq<Pool>, before: seq<Pool>, pools: seq<Pool>, unresolved: seq<Pool>, resolved: seq<string>, i: nat)
    requires BetweenRounds(data, before, unresolved) && i < |unresolved|
    requires InRound(data, before, pools, unresolved, resolved, i)
    requires !HasName(pools, unresolved[i].Next()) && !HasName(unresolved, unresolved[i].Next())
    ensures unresolved[i] in data && unresolved[i].Continues() && !HasName(data, unresolved[i].Next())
  {
    var n := unresolved[i].Next();
    assert unresolved[i] in unresolved;
    forall j | 0 <= j < |data| ensures data[j].name != n {
      assert data[j] in data && (data[j] in before ==> data[j] in pools);
    }
  }

  lemma StuckWaits(data: seq<Pool>, pools: seq<Pool>, unresolved: seq<Pool>, p: Pool)
    requires SharesOut(data, pools, unresolved) && p in unresolved
    requires HasName(data, p.Next()) && !HasName(pools, p.Next())
    ensures Waits(data, unresolved, p)
  {
    var k :| 0 <= k < |data| && data[k].name == p.Next();
    assert data[k] in data;
    assert data[k] !in pools by { if i :| 0 <= i < |pools| && pools[i] == data[k] { assert HasName(pools, p.Next()); } }
    var i :| 0 <= i < |unresolved| && unresolved[i] == data[k];
    assert unresolved[i].name == p.Next();
  }

  /** A round that placed nothing is stuck in a cycle. */
  lemma StuckRound(data: seq<Pool>, pools: seq<Pool>, unresolved: seq<Pool>)
    requires BetweenRounds(data, pools, unresolved) && unresolved != []
    requires InRound(data, pools, pools, unresolved, [], |unresolved|)
    ensures AllDefined(data) && IsCyclic(data)
  {
    forall p | p in unresolved ensures Waits(data, unresolved, p) && HasName(data, p.Next()) {
      var j :| 0 <= j < |unresolved| && unresolved[j] == p;
      StuckWaits(data, pools, unresolved, p);
    }
    forall p | p in pools && p.Continues() ensures HasName(data, p.Next()) {
      var k :| 0 <= k < |pools| && pools[k] == p;
      var i :| 0 <= i < |pools[..k]| && pools[..k][i].name == p.Next();
      assert pools[i] in data;
    }
    StuckMeansCyclic(data, unresolved);
  }

  lemma EndRound(data: seq<Pool>, before: seq<Pool>, pools: seq<Pool>, unresolved: seq<Pool>, resolved: seq<string>)
    requires BetweenRounds(data, before, unresolved) && resolved != []
    requires InRound(data, before, pools, unresolved, resolved, |unresolved|)
    ensures BetweenRounds(data, pools, Except(unresolved, resolved))
    ensures |Except(unresolved, resolved)| < |unresolved|
  {
    ExceptMembers(unresolved, resolved);
    assert unresolved[..|unresolved|] == unresolved;
    assert resolved[0] in resolved;
    assert HasName(unresolved, resolved[0]);
    forall p | p in Except(unresolved, resolved) ensures !HasName(pools, p.name) {
      forall k | 0 <= k < |pools| ensures pools[k].name != p.name {
        assert pools[k] in pools && (pools[k] in before ==> HasName(before, pools[k].name));
      }
    }
  }

  // ---- the order among pools with the same next pool ---------------------------------------

  /** The position of a name in the data. */
  ghost function Pos(l: seq<Pool>, name: string): nat {
    if l == [] || l[0].name == name then 0 else 1 + Pos(l[1..], name)
  }

  lemma {:induction false} PosOf(l: seq<Pool>, i: nat)
    requires DistinctNames(l) && i < |l|
    ensures Pos(l, l[i].name) == i
  {
    if i > 0 {
      assert l[1..][i - 1] == l[i];
      PosOf(l[1..], i - 1);
    }
  }

  /** `x` comes in front of its next pool in the data, and that pool continues, too: `x` has to wait for a later round. */
  ghost predicate IsLate(data: seq<Pool>, x: Pool) {
    && x.Continues() && Pos(data, x.name) < Pos(data, x.Next())
    && exists q :: q in data && q.Continues() && q.name == x.Next()
  }

  /** Of two pools with the same next pool, `y` is placed first. */
  ghost predicate PlacedBefore(data: seq<Pool>, y: Pool, x: Pool) {
    if IsLate(data, y) == IsLate(data, x) then Pos(data, y.name) < Pos(data, x.name) else IsLate(data, x)
  }

  /** Pools with the same next pool, or with none, stand in the reverse order of their placing. */
  ghost predicate SiblingsReversed(data: seq<Pool>, l: seq<Pool>) {
    forall i, j :: 0 <= i < j < |l| && l[i].Next() == l[j].Next() ==> PlacedBefore(data, l[j], l[i])
  }

  /** What is not yet placed belongs in front of the siblings that are. */
  ghost predicate OthersLater(data: seq<Pool>, pools: seq<Pool>) {
    forall x, y {:trigger PlacedBefore(data, y, x)} ::
      y in pools && x in data && x !in pools && x.Next() == y.Next() ==> PlacedBefore(data, y, x)
  }

  ghost predicate InDataOrder(data: seq<Pool>, l: seq<Pool>) {
    forall a, b :: 0 <= a < b < |l| ==> Pos(data, l[a].name) < Pos(data, l[b].name)
  }

  /** Who still waits for a pool placed in an earlier round is late. */
  ghost predicate WaitersAreLate(data: seq<Pool>, before: seq<Pool>, unresolved: seq<Pool>) {
    forall x, q :: x in unresolved && q in before && q.Continues() && q.name == x.Next() ==> IsLate(data, x)
  }

  /** Who was skipped in this round and now has its next pool placed is late. */
  ghost predicate SkippedAreLate(data: seq<Pool>, before: seq<Pool>, pools: seq<Pool>, unresolved: seq<Pool>, resolved: seq<string>, i: nat)
    requires i <= |unresolved|
  {
    forall j, q :: 0 <= j < i && unresolved[j].name !in resolved && q in pools && q.name == unresolved[j].Next() ==>
      q !in before && IsLate(data, unresolved[j])
  }

  ghost predicate SiblingsBetween(data: seq<Pool>, pools: seq<Pool>, unresolved: seq<Pool>) {
    && InDataOrder(data, unresolved) && WaitersAreLate(data, pools, unresolved)
    && SiblingsReversed(data, pools) && OthersLater(data, pools)
  }

  ghost predicate SiblingsInRound(data: seq<Pool>, before: seq<Pool>, pools: seq<Pool>, unresolved: seq<Pool>, resolved: seq<string>, i: nat)
    requires i <= |unresolved|
  {
    && SkippedAreLate(data, before, pools, unresolved, resolved, i)
    && SiblingsReversed(data, pools) && OthersLater(data, pools)
  }

  lemma InsertKeepsSiblings(data: seq<Pool>, l: seq<Pool>, t: nat, x: Pool)
    requires DistinctNames(l) && NextComesFirst(l) && SiblingsReversed(data, l)
    requires t < |l| && x.Continues() && x.Next() == l[t].name
    requires forall y :: y in l && y.Next() == x.Next() ==> PlacedBefore(data, y, x)
    ensures SiblingsReversed(data, Inserted(l, t + 1, x))
  {
    var at, l' := t + 1, Inserted(l, t + 1, x);
    InsertedAt(l, at, x);
    forall i, j | 0 <= i < j < |l'| && l'[i].Next() == l'[j].Next() ensures PlacedBefore(data, l'[j], l'[i]) {
      if i == at {
        assert l'[j] == l[j - 1] && l[j - 1] in l;
      } else if j == at {
        NotInFrontOfNext(l, t, i);
      } else {
        assert l'[i] == l[From(at, i)] && l'[j] == l[From(at, j)];
      }
    }
  }

  lemma NotInFrontOfNext(l: seq<Pool>, t: nat, i: nat)
    requires DistinctNames(l) && NextComesFirst(l) && i <= t < |l| && l[i].Continues()
    ensures l[i].Next() != l[t].name
  {
    var c :| 0 <= c < |l[..i]| && l[..i][c].name == l[i].Next();
    assert l[c].name == l[i].Next();
  }

  /** A pool placed now is placed before its siblings that still wait. */
  lemma SiblingLater(data: seq<Pool>, before: seq<Pool>, pools: seq<Pool>, unresolved: seq<Pool>, resolved: seq<string>,
                     i: nat, t: nat, j: nat)
    requires BetweenRounds(data, before, unresolved) && SiblingsBetween(data, before, unresolved) && i < |unresolved|
    requires InRound(data, before, pools, unresolved, resolved, i)
    requires SiblingsInRound(data, before, pools, unresolved, resolved, i)
    requires t < |pools| && pools[t].name == unresolved[i].Next()
    requires j < |unresolved| && j != i && unresolved[j] !in pools && unresolved[j].Next() == unresolved[i].Next()
    ensures PlacedBefore(data, unresolved[i], unresolved[j])
  {
    var x, y, q := unresolved[j], unresolved[i], pools[t];
    assert q in pools && x in unresolved && y in unresolved;
    PlacedThisRound(data, before, pools, unresolved, resolved, i, q);
    if j < i {
      assert unresolved[..i][j] == x;
      assert x.name !in resolved;
      assert IsLate(data, x) && !IsLate(data, y);
    } else if IsLate(data, y) {
      assert q in before;
      NextContinues(data, y, q);
      assert IsLate(data, x);
    }
  }

  lemma PlacedThisRound(data: seq<Pool>, before: seq<Pool>, pools: seq<Pool>, unresolved: seq<Pool>, resolved: seq<string>, i: nat, q: Pool)
    requires BetweenRounds(data, before, unresolved) && InDataOrder(data, unresolved) && i < |unresolved|
    requires InRound(data, before, pools, unresolved, resolved, i) && q in pools
    ensures q in data
    ensures q in before || (q.Continues() && Pos(data, q.name) < Pos(data, unresolved[i].name))
  {
    if q !in before {
      var m :| 0 <= m < |unresolved[..i]| && unresolved[..i][m] == q;
      assert unresolved[m] in unresolved;
    }
  }

  lemma NextContinues(data: seq<Pool>, y: Pool, q: Pool)
    requires DistinctNames(data) && q in data && q.name == y.Next() && IsLate(data, y)
    ensures q.Continues()
  {
  }

  lemma PlaceSiblings(data: seq<Pool>, before: seq<Pool>, pools: seq<Pool>, unresolved: seq<Pool>, resolved: seq<string>, i: nat, t: nat)
    requires BetweenRounds(data, before, unresolved) && SiblingsBetween(data, before, unresolved) && i < |unresolved|
    requires InRound(data, before, pools, unresolved, resolved, i)
    requires SiblingsInRound(data, before, pools, unresolved, resolved, i)
    requires t < |pools| && pools[t].name == unresolved[i].Next()
    ensures SiblingsInRound(data, before, Inserted(pools, t + 1, unresolved[i]), unresolved, resolved + [unresolved[i].name], i + 1)
  {
    var x := unresolved[i];
    var pools' := Inserted(pools, t + 1, x);
    assert x in unresolved;
    NotYetPlaced(data, before, pools, unresolved, resolved, i);
    InsertedMembers(pools, t + 1, x);
    assert x !in pools by { NamedMember(pools, x); }
    InsertKeepsSiblings(data, pools, t, x);
    forall z, y | y in pools' && z in data && z !in pools' && z.Next() == y.Next() ensures PlacedBefore(data, y, z) {
      if y == x {
        var j := UnplacedAt(data, before, pools, unresolved, resolved, i, z);
        SiblingLater(data, before, pools, unresolved, resolved, i, t, j);
      }
    }
    PlaceSkipped(data, before, pools, unresolved, resolved, i, pools');
  }

  lemma InsertedMembers(l: seq<Pool>, at: nat, x: Pool)
    requires at <= |l|
    ensures forall p :: p in Inserted(l, at, x) <==> p in l || p == x
  {
    assert l == l[..at] + l[at..];
  }

  lemma NamedMember(l: seq<Pool>, x: Pool)
    ensures x in l ==> HasName(l, x.name)
  {
  }

  lemma UnplacedAt(data: seq<Pool>, before: seq<Pool>, pools: seq<Pool>, unresolved: seq<Pool>, resolved: seq<string>, i: nat, z: Pool)
    returns (j: nat)
    requires SharesOut(data, before, unresolved) && i <= |unresolved|
    requires RoundMembers(before, pools, unresolved, resolved, i) && z in data && z !in pools
    ensures j < |unresolved| && unresolved[j] == z
  {
    j :| 0 <= j < |unresolved| && unresolved[j] == z;
  }

  lemma PlaceSkipped(data: seq<Pool>, before: seq<Pool>, pools: seq<Pool>, unresolved: seq<Pool>, resolved: seq<string>, i: nat, pools': seq<Pool>)
    requires BetweenRounds(data, before, unresolved) && InDataOrder(data, unresolved) && i < |unresolved|
    requires SkippedAreLate(data, before, pools, unresolved, resolved, i)
    requires forall p :: p in pools' <==> p in pools || p == unresolved[i]
    ensures SkippedAreLate(data, before, pools', unresolved, resolved + [unresolved[i].name], i + 1)
  {
    var x := unresolved[i];
    assert x in unresolved;
    NamedMember(before, x);
    forall j, q | 0 <= j < i + 1 && unresolved[j].name !in resolved + [x.name] && q in pools' && q.name == unresolved[j].Next()
      ensures q !in before && IsLate(data, unresolved[j])
    {
      assert j < i && unresolved[j] in unresolved;
    }
  }

  lemma SkipSiblings(data: seq<Pool>, before: seq<Pool>, pools: seq<Pool>, unresolved: seq<Pool>, resolved: seq<string>, i: nat)
    requires i < |unresolved| && SiblingsInRound(data, before, pools, unresolved, resolved, i)
    requires !HasName(pools, unresolved[i].Next())
    ensures SiblingsInRound(data, before, pools, unresolved, resolved, i + 1)
  {
    forall q | q in pools ensures q.name != unresolved[i].Next() { NamedMember(pools, q); }
  }

  lemma EndSiblings(data: seq<Pool>, before: seq<Pool>, pools: seq<Pool>, unresolved: seq<Pool>, resolved: seq<string>)
    requires SiblingsBetween(data, before, unresolved)
    requires SiblingsInRound(data, before, pools, unresolved, resolved, |unresolved|)
    ensures SiblingsBetween(data, pools, Except(unresolved, resolved))
  {
    ExceptInOrder(data, unresolved, resolved);
    ExceptMembers(unresolved, resolved);
    forall x, q | x in Except(unresolved, resolved) && q in pools && q.Continues() && q.name == x.Next() ensures IsLate(data, x) {
      var j :| 0 <= j < |unresolved| && unresolved[j] == x;
    }
  }

  lemma {:induction false} ExceptInOrder(data: seq<Pool>, l: seq<Pool>, names: seq<string>)
    requires InDataOrder(data, l)
    ensures InDataOrder(data, Except(l, names))
  {
    if l != [] {
      assert InDataOrder(data, l[1..]);
      ExceptInOrder(data, l[1..], names);
      ExceptMembers(l[1..], names);
      forall p | p in l[1..] ensures Pos(data, l[0].name) < Pos(data, p.name) {
        var m :| 0 <= m < |l[1..]| && l[1..][m] == p;
        assert l[m + 1] == p;
      }
      InOrderCons(data, l[0], Except(l[1..], names));
    }
  }

  lemma InOrderCons(data: seq<Pool>, x: Pool, l: seq<Pool>)
    requires InDataOrder(data, l) && forall p :: p in l ==> Pos(data, x.name) < Pos(data, p.name)
    ensures InDataOrder(data, [x] + l)
  {
    assert forall b :: 0 <= b < |l| ==> l[b] in l;
  }

  lemma PrefixPos(data: seq<Pool>, i: nat)
    requires DistinctNames(data) && i < |data|
    ensures forall p :: p in data[..i] ==> Pos(data, p.name) < Pos(data, data[i].name)
  {
    forall p | p in data[..i] ensures Pos(data, p.name) < Pos(data, data[i].name) {
      var m :| 0 <= m < i && data[..i][m] == p;
      PosOf(data, m);
      PosOf(data, i);
    }
  }

  /** The first loop: pools without a next pool go to the front one by one, the others keep their order. */
  lemma SortOutSiblings(data: seq<Pool>, pools: seq<Pool>, unresolved: seq<Pool>, i: nat)
    requires DistinctNames(data) && i < |data| && SiblingsReversed(data, pools) && InDataOrder(data, unresolved)
    requires forall p :: p in pools ==> p in data[..i] && !p.Continues()
    requires forall p :: p in unresolved ==> p in data[..i]
    ensures !data[i].Continues() ==> SiblingsReversed(data, Inserted(pools, 0, data[i]))
    ensures InDataOrder(data, unresolved + [data[i]])
  {
    PrefixPos(data, i);
    assert forall b :: 0 <= b < |pools| ==> pools[b] in pools;
    assert forall b :: 0 <= b < |unresolved| ==> unresolved[b] in unresolved;
    if !data[i].Continues() {
      InsertedAt(pools, 0, data[i]);
    }
  }

  lemma SortedOutSiblings(data: seq<Pool>, pools: seq<Pool>, unresolved: seq<Pool>)
    requires SiblingsReversed(data, pools) && InDataOrder(data, unresolved)
    requires forall p :: p in pools <==> p in data && !p.Continues()
    ensures SiblingsBetween(data, pools, unresolved)
  {
  }

  lemma StartSiblings(data: seq<Pool>, pools: seq<Pool>, unresolved: seq<Pool>)
    requires SiblingsBetween(data, pools, unresolved)
    ensures SiblingsInRound(data, pools, pools, unresolved, [], 0)
  {
  }

  /** The result is the only preorder of the data with the siblings in that order. */
  lemma OrderIsUnique(data: seq<Pool>, a: seq<Pool>, b: seq<Pool>)
    requires DistinctNames(data)
    requires IsPreorder(data, a) && SiblingsReversed(data, a) && multiset(a) == multiset(data)
    requires IsPreorder(data, b) && SiblingsReversed(data, b) && multiset(b) == multiset(data)
    ensures a == b
  {
    SameLength(a, data);
    SameLength(b, data);
    UniqueUpTo(data, a, b, |a|);
    assert a[..|a|] == a && b[..|b|] == b;
  }

  lemma SameLength(a: seq<Pool>, b: seq<Pool>)
    requires multiset(a) == multiset(b)
    ensures |a| == |b| && forall p :: p in a <==> p in b
  {
    assert |multiset(a)| == |multiset(b)|;
    assert forall p :: p in a <==> p in multiset(a);
    assert forall p :: p in b <==> p in multiset(b);
  }

  ghost predicate IsOrdering(data: seq<Pool>, l: seq<Pool>) {
    IsPreorder(data, l) && SiblingsReversed(data, l) && forall p :: p in l <==> p in data
  }

  lemma {:induction false} UniqueUpTo(data: seq<Pool>, a: seq<Pool>, b: seq<Pool>, k: nat)
    requires DistinctNames(data) && IsOrdering(data, a) && IsOrdering(data, b) && k <= |a| == |b|
    ensures a[..k] == b[..k]
  {
    if k > 0 {
      UniqueUpTo(data, a, b, k - 1);
      NextIsSame(data, a, b, k - 1);
      assert a[..k] == a[..k - 1] + [a[k - 1]] && b[..k] == b[..k - 1] + [b[k - 1]];
    }
  }

  lemma NextIsSame(data: seq<Pool>, a: seq<Pool>, b: seq<Pool>, k: nat)
    requires DistinctNames(data) && IsOrdering(data, a) && IsOrdering(data, b) && k < |a| == |b| && a[..k] == b[..k]
    ensures a[k] == b[k]
  {
    var x, y := a[k], b[k];
    if x != y {
      var n := ComesLater(data, a, b, k);
      var m := ComesLater(data, b, a, k);
      var i := NextAt(a, k);
      var j := NextAt(b, k);
      assert i >= 0 ==> a[i] == a[..k][i] == b[i];
      assert j >= 0 ==> b[j] == b[..k][j] == a[j];
      if i < j {
        assert y in a;
        BetweenChains(data, a, j, k, n);
        NextNotInFront(data, a, j, k, i);
      } else if j < i {
        assert x in b;
        BetweenChains(data, b, i, k, m);
        NextNotInFront(data, b, i, k, j);
      } else {
        SiblingBehind(data, a, k, n);
        SiblingBehind(data, b, k, m);
      }
    }
  }

  lemma SiblingBehind(data: seq<Pool>, l: seq<Pool>, k: nat, n: nat)
    requires SiblingsReversed(data, l) && k < n < |l| && l[k].Next() == l[n].Next()
    ensures PlacedBefore(data, l[n], l[k])
  {
  }

  /** What the other list has next comes later in this one. */
  lemma ComesLater(data: seq<Pool>, a: seq<Pool>, b: seq<Pool>, k: nat) returns (n: nat)
    requires IsOrdering(data, a) && IsOrdering(data, b) && k < |a| == |b| && a[..k] == b[..k] && a[k] != b[k]
    ensures k < n < |a| && a[n] == b[k]
  {
    assert b[k] in b;
    n :| 0 <= n < |a| && a[n] == b[k];
    SamePrefix(a, b, k, n);
  }

  lemma SamePrefix(a: seq<Pool>, b: seq<Pool>, k: nat, n: nat)
    requires n < |a| && k <= |a| && k <= |b| && a[..k] == b[..k]
    ensures n < k ==> a[n] == b[n]
  {
    assert n < k ==> a[..k][n] == b[..k][n];
  }

  /** The index of the next pool, or -1. */
  lemma NextAt(l: seq<Pool>, k: nat) returns (i: int)
    requires NextComesFirst(l) && k < |l|
    ensures -1 <= i < k && (if i == -1 then !l[k].Continues() else l[k].Continues() && l[i].name == l[k].Next())
  {
    if l[k].Continues() {
      i :| 0 <= i < |l[..k]| && l[..k][i].name == l[k].Next();
    } else {
      i := -1;
    }
  }

  /** What stands between a pool and one that continues in it chains to it. */
  lemma BetweenChains(data: seq<Pool>, l: seq<Pool>, j: nat, k: nat, n: nat)
    requires DistinctNames(data) && BlocksAreContiguous(data, l) && j < k < n < |l|
    requires l[n] in data && l[n].Continues() && l[n].Next() == l[j].name
    ensures ChainsTo(data, l[k].name, l[j].name)
  {
    assert Links(data, l[n].name, l[j].name);
    ChainsCons(data, l[n].name, l[j].name, l[j].name);
  }

  /** A pool that chains to `l[j]` does not continue in a pool in front of it. */
  lemma NextNotInFront(data: seq<Pool>, l: seq<Pool>, j: nat, k: nat, i: int)
    requires DistinctNames(data) && NextComesFirst(l) && DistinctNames(l) && forall p :: p in l ==> p in data
    requires j < k < |l| && ChainsTo(data, l[k].name, l[j].name)
    requires -1 <= i < k && (if i == -1 then !l[k].Continues() else l[k].Continues() && l[i].name == l[k].Next())
    ensures j <= i
  {
    assert l[k] in l;
    if i == -1 {
      var z := ChainsFrom(data, l[k].name, l[j].name);
    } else {
      assert Links(data, l[k].name, l[i].name);
      ChainsCons(data, l[k].name, l[i].name, l[j].name);
      if ChainsTo(data, l[i].name, l[j].name) {
        ChainsBack(data, l, i, l[j].name);
      }
    }
  }

  /** `first` and `foo` continue in `second`, which continues in `third`. */
  ghost predicate IsExample(first: Pool, second: Pool, third: Pool, foo: Pool) {
    && DistinctNames([first, second, third, foo])
    && first.Continues() && second.Continues() && !third.Continues() && foo.Continues()
    && first.Next() == second.name && second.Next() == third.name && foo.Next() == second.name
  }

  lemma ExampleNames(a: Pool, b: Pool, c: Pool, d: Pool)
    requires DistinctNames([a, b, c, d])
    ensures a.name != b.name && a.name != c.name && a.name != d.name && b.name != c.name && b.name != d.name && c.name != d.name
  {
    var l := [a, b, c, d];
    assert l[0].name != l[1].name && l[0].name != l[2].name && l[0].name != l[3].name;
    assert l[1].name != l[2].name && l[1].name != l[3].name && l[2].name != l[3].name;
  }

  lemma ExampleLinks(first: Pool, second: Pool, third: Pool, foo: Pool)
    requires IsExample(first, second, third, foo)
    ensures var data := [first, second, third, foo];
            && ChainsTo(data, first.name, second.name)
            && ChainsTo(data, first.name, third.name) && ChainsTo(data, second.name, third.name)
  {
    var data := [first, second, third, foo];
    assert Links(data, second.name, third.name) && Links(data, first.name, second.name);
    ChainsCons(data, second.name, third.name, third.name);
    ChainsCons(data, first.name, second.name, third.name);
    ChainsCons(data, first.name, second.name, second.name);
  }

  lemma ExampleSiblings(first: Pool, second: Pool, third: Pool, foo: Pool)
    requires IsExample(first, second, third, foo)
    ensures SiblingsReversed([first, second, third, foo], [third, second, first, foo])
  {
    var data := [first, second, third, foo];
    PosOf(data, 0);
    PosOf(data, 1);
    PosOf(data, 3);
    ExampleNames(first, second, third, foo);
    assert second in data;
    assert IsLate(data, first) && !IsLate(data, foo);
  }

  lemma ExampleDistinct(first: Pool, second: Pool, third: Pool, foo: Pool)
    requires IsExample(first, second, third, foo)
    ensures DistinctNames([third, second, first, foo]) && NextComesFirst([third, second, first, foo])
  {
    var l := [third, second, first, foo];
    ExampleNames(first, second, third, foo);
    assert l[..1][0] == third && l[..2][1] == second && l[..3][1] == second;
  }

  /** The documented result: `foo` is placed a round before `first`, and so behind it. */
  lemma DocumentedOrder(first: Pool, second: Pool, third: Pool, foo: Pool)
    requires IsExample(first, second, third, foo)
    ensures IsOrdering([first, second, third, foo], [third, second, first, foo])
  {
    ExampleLinks(first, second, third, foo);
    ExampleDistinct(first, second, third, foo);
    ExampleSiblings(first, second, third, foo);
  }

  /** The option is there and not empty. */
  ghost predicate NextIs(p: Pool, n: string) {
    n != "" && p.nextPool == Some(n)
  }

  lemma NextIsNext(p: Pool, n: string)
    ensures NextIs(p, n) <==> p.Continues() && p.Next() == n
  {
  }

  /** Whether all next pools are defined, said of the option itself. */
  lemma UndefinedNext(data: seq<Pool>)
    ensures !AllDefined(data) <==> exists p, n :: p in data && NextIs(p, n) && forall q :: q in data ==> q.name != n
  {
    if p :| p in data && p.Continues() && !HasName(data, p.Next()) {
      NextIsNext(p, p.Next());
      forall q | q in data ensures q.name != p.Next() {
        NamedMember(data, q);
      }
    }
    if p, n :| p in data && NextIs(p, n) && forall q :: q in data ==> q.name != n {
      NextIsNext(p, n);
      forall i | 0 <= i < |data| ensures data[i].name != n { assert data[i] in data; }
    }
  }

  ghost predicate IsUndefined(data: seq<Pool>, name: string) {
    !HasName(data, name) && exists p :: p in data && p.Continues() && p.Next() == name
  }

  /** The first loop: who continues nowhere is placed at once. */
  method SortOut(data: seq<Pool>) returns (pools: seq<Pool>, unresolvedPools: seq<Pool>)
    requires DistinctNames(data)
    ensures BetweenRounds(data, pools, unresolvedPools) && SiblingsBetween(data, pools, unresolvedPools)
    ensures forall p :: p in pools ==> !p.Continues()
  {
    pools, unresolvedPools := [], [];
    for i := 0 to |data|
      invariant IsPreorder(data, pools) && DistinctNames(unresolvedPools)
      invariant forall p :: p in pools <==> p in data[..i] && !p.Continues()
      invariant forall p :: p in unresolvedPools <==> p in data[..i] && p.Continues()
      invariant SiblingsReversed(data, pools) && InDataOrder(data, unresolvedPools)
    {
      var x := data[i];
      assert data[..i + 1] == data[..i] + [x];
      FirstSeen(data, i);
      SortOutSiblings(data, pools, unresolvedPools, i);
      if !x.Continues() {
        InsertRoot(data, pools, x);
        InsertedAt(pools, 0, x);
        assert forall p :: p in Inserted(pools, 0, x) <==> p in pools || p == x;
        pools := Inserted(pools, 0, x);
      } else {
        assert forall p :: p in unresolvedPools ==> p.name != x.name;
        unresolvedPools := unresolvedPools + [x];
      }
    }
    assert data[..|data|] == data;
    SortedOutSiblings(data, pools, unresolvedPools);
  }

  /** One round over the unresolved pools; it may meet a next pool that is not defined. */
  method PlaceRound(ghost data: seq<Pool>, before: seq<Pool>, unresolvedPools: seq<Pool>)
    returns (pools: seq<Pool>, resolvedPools: seq<string>, undefined: Option<string>)
    requires BetweenRounds(data, before, unresolvedPools) && SiblingsBetween(data, before, unresolvedPools)
    ensures undefined.None? ==>
              && InRound(data, before, pools, unresolvedPools, resolvedPools, |unresolvedPools|)
              && SiblingsInRound(data, before, pools, unresolvedPools, resolvedPools, |unresolvedPools|)
    ensures undefined.Some? ==> IsUndefined(data, undefined.value)
  {
    pools, resolvedPools := before, [];
    StartSiblings(data, before, unresolvedPools);
    for i := 0 to |unresolvedPools|
      invariant InRound(data, before, pools, unresolvedPools, resolvedPools, i)
      invariant SiblingsInRound(data, before, pools, unresolvedPools, resolvedPools, i)
    {
      var pool := unresolvedPools[i];
      var nextPoolName := pool.Next();
      if HasName(pools, nextPoolName) {
        var index := IndexOf(pools, nextPoolName);
        PlaceSiblings(data, before, pools, unresolvedPools, resolvedPools, i, index);
        PlaceNext(data, before, pools, unresolvedPools, resolvedPools, i, index);
        pools := Inserted(pools, index + 1, pool);
        resolvedPools := resolvedPools + [pool.name];
      } else if HasName(unresolvedPools, nextPoolName) {
        SkipSiblings(data, before, pools, unresolvedPools, resolvedPools, i);
        SkipNext(data, before, pools, unresolvedPools, resolvedPools, i);
      } else {
        Undefined(data, before, pools, unresolvedPools, resolvedPools, i);
        return pools, resolvedPools, Some(nextPoolName);
      }
    }
    return pools, resolvedPools, None;
  }

  method GetPoolsInOrder(data: seq<Pool>) returns (r: Outcome)
    requires DistinctNames(data)
    ensures r.Ordered? ==> multiset(r.pools) == multiset(data) && IsPreorder(data, r.pools) && SiblingsReversed(data, r.pools)
    ensures r.NotDefined? <==> !AllDefined(data)
    ensures r.NotDefined? ==> IsUndefined(data, r.name)
    ensures r.NotDefined? <==> exists p, n :: p in data && NextIs(p, n) && forall q :: q in data ==> q.name != n
    ensures r.Ordered? ==> forall i, n :: 0 <= i < |r.pools| && NextIs(r.pools[i], n) ==> HasName(r.pools[..i], n)
    ensures r.CircularReference? <==> AllDefined(data) && IsCyclic(data)
  {
    UndefinedNext(data);
    var pools, unresolvedPools := SortOut(data);
    while unresolvedPools != []
      invariant BetweenRounds(data, pools, unresolvedPools) && SiblingsBetween(data, pools, unresolvedPools)
      decreases |unresolvedPools|
    {
      ghost var before := pools;
      var resolvedPools, undefined;
      pools, resolvedPools, undefined := PlaceRound(data, pools, unresolvedPools);
      if undefined.Some? {
        return NotDefined(undefined.value);
      }
      if resolvedPools == [] {
        StuckRound(data, pools, unresolvedPools);
        return CircularReference;
      }
      EndSiblings(data, before, pools, unresolvedPools, resolvedPools);
      EndRound(data, before, pools, unresolvedPools, resolvedPools);
      unresolvedPools := PopAll(unresolvedPools, resolvedPools);
    }
    PlacedIsAcyclic(data, pools);
    return Ordered(pools);
  }

  lemma FirstSeen(data: seq<Pool>, i: nat)
    requires DistinctNames(data) && i < |data|
    ensures forall p :: p in data[..i] ==> p.name != data[i].name
  {
    forall p | p in data[..i] ensures p.name != data[i].name {
      var j :| 0 <= j < i && data[..i][j] == p;
      assert data[j] == p;
    }
  }
}
