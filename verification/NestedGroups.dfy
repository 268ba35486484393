/**
  Nested firewall groups: the checker of include references
  (src/conf_mode/firewall.py, `verify_nested_group`) and the expander it
  protects (python/vyos/template.py, `nft_nested_group`).
 */
module NestedGroups {
  import opened Wrappers

  /** A group: its `include` list if it has one, and its member lists by key. */
  datatype Group = Group(nested: Option<seq<string>>, members: map<string, seq<string>>)

  type Groups = map<string, Group>

  datatype Verdict = Accepted | NoSuchGroup(included: string) | Circular(group: string)

  /** A Python list passed by reference. */
  class NameList {
    var items: seq<string>

    constructor ()
      ensures items == []
    {
      items := [];
    }

    method Append(x: string)
      modifies this
      ensures items == old(items) + [x]
    {
      items := items + [x];
    }
  }

  // ---- the include graph ----------------------------------------------------------

  predicate Nests(groups: Groups, x: string) {
    x in groups && groups[x].nested.Some?
  }

  /** The `k`th include of group `x` is `g`. */
  predicate IncludesAt(groups: Groups, x: string, k: int, g: string) {
    Nests(groups, x) && 0 <= k < |groups[x].nested.value| && groups[x].nested.value[k] == g
  }

  ghost predicate Includes(groups: Groups, x: string, g: string) {
    exists k :: IncludesAt(groups, x, k, g)
  }

  ghost predicate IsPath(groups: Groups, p: seq<string>) {
    p != [] && forall i :: 0 <= i < |p| - 1 ==> Includes(groups, p[i], p[i + 1])
  }

  ghost predicate Reachable(groups: Groups, from: string, to: string) {
    exists p :: IsPath(groups, p) && p[0] == from && p[|p| - 1] == to
  }

  /**
    Every include below `start` exists; no include leads back to `start`; and
    no group that nests others is included twice.
   */
  ghost predicate IsIncludeTree(groups: Groups, start: string) {
    && (forall x, k, g | Reachable(groups, start, x) :: IncludesAt(groups, x, k, g) ==>
          g in groups && (Nests(groups, g) ==> g != start))
    && (forall x, k, y, l, g | Reachable(groups, start, x) && Reachable(groups, start, y) && Nests(groups, g) ::
          IncludesAt(groups, x, k, g) && IncludesAt(groups, y, l, g) ==> x == y && k == l)
  }

  lemma ReachableSelf(groups: Groups, x: string)
    ensures Reachable(groups, x, x)
  {
    assert IsPath(groups, [x]);
  }

  lemma ReachableStep(groups: Groups, from: string, x: string, k: int, g: string)
    requires Reachable(groups, from, x) && IncludesAt(groups, x, k, g)
    ensures Reachable(groups, from, g)
  {
    var p :| IsPath(groups, p) && p[0] == from && p[|p| - 1] == x;
    assert IsPath(groups, p + [g]);
  }

  lemma ReachableCons(groups: Groups, x: string, k: int, g: string, to: string)
    requires IncludesAt(groups, x, k, g) && Reachable(groups, g, to)
    ensures Reachable(groups, x, to)
  {
    var p :| IsPath(groups, p) && p[0] == g && p[|p| - 1] == to;
    assert IsPath(groups, [x] + p);
  }

  lemma ReachableSplit(groups: Groups, x: string, to: string) returns (k: int, g: string)
    requires Reachable(groups, x, to) && x != to
    ensures IncludesAt(groups, x, k, g) && Reachable(groups, g, to)
  {
    var p :| IsPath(groups, p) && p[0] == x && p[|p| - 1] == to;
    g := p[1];
    assert Includes(groups, p[0], p[1]);
    k :| IncludesAt(groups, x, k, g);
    forall i | 0 <= i < |p[1..]| - 1 ensures Includes(groups, p[1..][i], p[1..][i + 1]) {
      assert Includes(groups, p[i + 1], p[i + 2]);
    }
    assert IsPath(groups, p[1..]);
  }

  // ---- the checker, as a function of the shared list ---------------------------------

  ghost function Unseen(groups: Groups, seen: seq<string>): set<string> {
    set x | x in groups && x !in seen
  }

  /** The list afterwards and the verdict. */
  ghost function VerifyGroup(groups: Groups, name: string, seen: seq<string>): (r: (seq<string>, Verdict))
    requires name in groups && name !in seen
    ensures seen <= r.0
    decreases Unseen(groups, seen), 0
  {
    if groups[name].nested.None? then (seen, Accepted)
    else
      assert name in Unseen(groups, seen) && name !in Unseen(groups, seen + [name]);
      VerifyIncludes(groups, name, groups[name].nested.value, seen + [name])
  }

  ghost function VerifyIncludes(groups: Groups, name: string, includes: seq<string>, seen: seq<string>)
    : (r: (seq<string>, Verdict))
    ensures seen <= r.0
    decreases Unseen(groups, seen), |includes| + 1
  {
    if includes == [] then (seen, Accepted)
    else
      var g := includes[0];
      if g !in groups then (seen, NoSuchGroup(g))
      else if g in seen then (seen, Circular(name))
      else if Nests(groups, g) then
        var r := VerifyGroup(groups, g, seen);
        assert forall x :: x in seen ==> x in r.0;
        if r.1 == Accepted then VerifyIncludes(groups, name, includes[1..], r.0) else r
      else
        VerifyIncludes(groups, name, includes[1..], seen)
  }

  /** `verify_nested_group`, appending to the list it is given. */
  method VerifyNestedGroup(name: string, group: Group, groups: Groups, seen: NameList) returns (v: Verdict)
    requires name in groups && groups[name] == group && name !in seen.items
    modifies seen
    ensures (seen.items, v) == VerifyGroup(groups, name, old(seen.items))
    decreases Unseen(groups, seen.items)
  {
    if group.nested.None? {
      return Accepted;
    }
    var includes := group.nested.value;
    assert name in Unseen(groups, seen.items);
    ghost var before := seen.items;
    seen.Append(name);
    for i := 0 to |includes|
      invariant before + [name] <= seen.items
      invariant VerifyGroup(groups, name, before) == VerifyIncludes(groups, name, includes[i..], seen.items)
    {
      var g := includes[i];
      assert includes[i..][0] == g && includes[i..][1..] == includes[i + 1..];
      if g !in groups {
        return NoSuchGroup(g);
      }
      if g in seen.items {
        return Circular(name);
      }
      if groups[g].nested.Some? {
        assert name in seen.items by { assert (before + [name])[|before|] == name; }
        assert forall x :: x in before ==> x in seen.items;
        v := VerifyNestedGroup(g, groups[g], groups, seen);
        if v != Accepted {
          return;
        }
      }
    }
    return Accepted;
  }

  /** The verdict on one group, as the group loop of `verify` asks for it. */
  ghost predicate IsAccepted(groups: Groups, name: string) {
    name in groups && VerifyGroup(groups, name, []).1 == Accepted
  }

  /** The group loop of `verify`: each group is checked against a list of its own. */
  method VerifyGroups(groups: Groups, names: seq<string>) returns (v: Verdict)
    requires forall x :: x in names <==> x in groups
    ensures v == Accepted <==> forall x :: x in groups ==> IsAccepted(groups, x)
    ensures v != Accepted ==> exists x :: x in groups && IsCulprit(groups, x, v)
  {
    for i := 0 to |names|
      invariant forall j :: 0 <= j < i ==> IsAccepted(groups, names[j])
    {
      var seen := new NameList();
      v := VerifyNestedGroup(names[i], groups[names[i]], groups, seen);
      if v != Accepted {
        assert !IsAccepted(groups, names[i]);
        ErrorNamesCulprit(groups, names[i]);
        return;
      }
    }
    return Accepted;
  }

  // ---- what acceptance means -----------------------------------------------------------

  ghost predicate Distinct(s: seq<string>) {
    forall i, j :: 0 <= i < |s| && 0 <= j < |s| && i != j ==> s[i] != s[j]
  }

  /** `x` stands in `s` at position `lo` or later, before `hi`. */
  ghost predicate Within(s: seq<string>, x: string, lo: int, hi: int) {
    exists i :: lo <= i < hi && 0 <= i < |s| && s[i] == x
  }

  /** The groups entered from position `lo` on include forward, each nesting group once. */
  ghost predicate Forward(groups: Groups, s: seq<string>, lo: nat, hi: nat)
    requires hi <= |s|
  {
    && (forall i :: lo <= i < hi ==> Nests(groups, s[i]))
    && (forall i, k, g | lo <= i < hi :: IncludesAt(groups, s[i], k, g) ==>
          g in groups && (Nests(groups, g) ==> Within(s, g, i + 1, hi)))
    && (forall i, k, j, l, g | lo <= i < hi && lo <= j < hi && Nests(groups, g) ::
          IncludesAt(groups, s[i], k, g) && IncludesAt(groups, s[j], l, g) ==> i == j && k == l)
  }

  /** An accepted tail of an include list: its nesting groups were entered here, by it alone. */
  ghost predicate Entered(groups: Groups, includes: seq<string>, s: seq<string>, lo: nat) {
    && (forall k :: 0 <= k < |includes| ==>
          includes[k] in groups && (Nests(groups, includes[k]) ==> Within(s, includes[k], lo, |s|)))
    && (forall k, l | 0 <= k < |includes| && 0 <= l < |includes| && Nests(groups, includes[k]) ::
          includes[k] == includes[l] ==> k == l)
    && (forall i, m, g | lo <= i < |s| && Nests(groups, g) :: IncludesAt(groups, s[i], m, g) ==> g !in includes)
  }

  lemma {:induction false} AcceptedGroup(groups: Groups, name: string, seen: seq<string>)
    requires Nests(groups, name) && name !in seen && Distinct(seen)
    requires VerifyGroup(groups, name, seen).1 == Accepted
    ensures var s := VerifyGroup(groups, name, seen).0;
            Distinct(s) && |s| > |seen| && s[|seen|] == name && Forward(groups, s, |seen|, |s|)
    decreases Unseen(groups, seen), 0
  {
    assert name in Unseen(groups, seen);
    var includes := groups[name].nested.value;
    var s := VerifyIncludes(groups, name, includes, seen + [name]).0;
    AcceptedIncludes(groups, name, includes, seen + [name]);
    assert s[|seen|] == (seen + [name])[|seen|];
    forall i, k, g | |seen| <= i < |s| && IncludesAt(groups, s[i], k, g)
      ensures g in groups && (Nests(groups, g) ==> Within(s, g, i + 1, |s|))
    {
      if i == |seen| { assert includes[k] == g; }
    }
  }

  lemma {:induction false} AcceptedIncludes(groups: Groups, name: string, includes: seq<string>, seen: seq<string>)
    requires Distinct(seen)
    requires VerifyIncludes(groups, name, includes, seen).1 == Accepted
    ensures var s := VerifyIncludes(groups, name, includes, seen).0;
            Distinct(s) && Forward(groups, s, |seen|, |s|) && Entered(groups, includes, s, |seen|)
    decreases Unseen(groups, seen), |includes| + 1
  {
    if includes != [] {
      var g, rest := includes[0], includes[1..];
      if Nests(groups, g) {
        var s1 := VerifyGroup(groups, g, seen).0;
        AcceptedGroup(groups, g, seen);
        assert forall x :: x in seen ==> x in s1;
        AcceptedIncludes(groups, name, rest, s1);
        var s := VerifyIncludes(groups, name, rest, s1).0;
        assert s[..|s1|] == s1;
        ForwardPrefix(groups, s1, s, |seen|);
        ForwardJoin(groups, s, |seen|, |s1|);
        EnteredJoin(groups, includes, s, |seen|, |s1|);
      } else {
        AcceptedIncludes(groups, name, rest, seen);
        assert includes == [g] + rest;
      }
    }
  }

  lemma ForwardPrefix(groups: Groups, s1: seq<string>, s: seq<string>, lo: nat)
    requires s1 <= s && Forward(groups, s1, lo, |s1|)
    ensures Forward(groups, s, lo, |s1|)
  {
    forall i, k, g | lo <= i < |s1| && IncludesAt(groups, s[i], k, g) && Nests(groups, g)
      ensures Within(s, g, i + 1, |s1|)
    {
      assert s1[i] == s[i];
      var j :| i + 1 <= j < |s1| && s1[j] == g;
      assert s[j] == g;
    }
  }

  lemma ForwardJoin(groups: Groups, s: seq<string>, lo: nat, mid: nat)
    requires lo <= mid <= |s| && Distinct(s) && Forward(groups, s, lo, mid) && Forward(groups, s, mid, |s|)
    ensures Forward(groups, s, lo, |s|)
  {
    forall i, k, j, l, g | lo <= i < |s| && lo <= j < |s| && Nests(groups, g)
      && IncludesAt(groups, s[i], k, g) && IncludesAt(groups, s[j], l, g)
      ensures i == j && k == l
    {
      assert Within(s, g, i + 1, |s|) && (i < mid ==> Within(s, g, lo, mid)) && (mid <= i ==> Within(s, g, mid, |s|));
      assert Within(s, g, j + 1, |s|) && (j < mid ==> Within(s, g, lo, mid)) && (mid <= j ==> Within(s, g, mid, |s|));
      WithinApart(s, g, lo, mid);
    }
  }

  lemma WithinApart(s: seq<string>, g: string, lo: nat, mid: nat)
    requires Distinct(s)
    ensures !(Within(s, g, lo, mid) && Within(s, g, mid, |s|))
  {
    if Within(s, g, lo, mid) {
      var i :| lo <= i < mid && 0 <= i < |s| && s[i] == g;
      assert forall j :: mid <= j < |s| ==> s[j] != s[i];
    }
  }

  lemma EnteredJoin(groups: Groups, includes: seq<string>, s: seq<string>, lo: nat, mid: nat)
    requires includes != [] && lo < mid <= |s| && Distinct(s) && s[lo] == includes[0] && Nests(groups, includes[0])
    requires Forward(groups, s, lo, mid) && Forward(groups, s, mid, |s|) && Entered(groups, includes[1..], s, mid)
    ensures Entered(groups, includes, s, lo)
  {
    var rest := includes[1..];
    assert includes == [includes[0]] + rest;
    assert !Within(s, includes[0], lo + 1, |s|);
    forall i, m, g | lo <= i < |s| && Nests(groups, g) && IncludesAt(groups, s[i], m, g) ensures g !in includes {
      assert Within(s, g, i + 1, |s|) by { if i < mid { assert Within(s, g, i + 1, mid); } }
      WithinApart(s, g, lo, mid);
      forall k | 0 <= k < |rest| ensures rest[k] != g {
        assert Nests(groups, rest[k]) ==> Within(s, rest[k], mid, |s|);
        assert i < mid ==> Within(s, g, lo, mid);
      }
    }
    forall k, l | 0 <= k < |includes| && 0 <= l < |includes| && Nests(groups, includes[k]) && includes[k] == includes[l]
      ensures k == l
    {
      if k > 0 { assert includes[k] == rest[k - 1]; }
      if l > 0 { assert includes[l] == rest[l - 1]; }
    }
  }

  /** Accepted groups have an include tree below them. */
  lemma AcceptedIsTree(groups: Groups, start: string)
    requires IsAccepted(groups, start)
    ensures IsIncludeTree(groups, start)
  {
    if Nests(groups, start) {
      AcceptedGroup(groups, start, []);
      var s := VerifyGroup(groups, start, []).0;
      forall x, k, g | Reachable(groups, start, x) && IncludesAt(groups, x, k, g)
        ensures Within(s, x, 0, |s|)
      {
        ReachableIsEntered(groups, s, start, x);
      }
      forall x, k, g | Reachable(groups, start, x) && IncludesAt(groups, x, k, g)
        ensures g in groups && (Nests(groups, g) ==> g != start)
      {
        var i :| 0 <= i < |s| && s[i] == x;
        if Nests(groups, g) { assert Within(s, g, i + 1, |s|); }
      }
      forall x, k, y, l, g | Reachable(groups, start, x) && Reachable(groups, start, y) && Nests(groups, g)
        && IncludesAt(groups, x, k, g) && IncludesAt(groups, y, l, g)
        ensures x == y && k == l
      {
        var i :| 0 <= i < |s| && s[i] == x;
        var j :| 0 <= j < |s| && s[j] == y;
      }
    } else {
      forall x, k, g | Reachable(groups, start, x) && IncludesAt(groups, x, k, g) ensures false {
        if x != start { var k', g' := ReachableSplit(groups, start, x); }
      }
    }
  }

  lemma ReachableIsEntered(groups: Groups, s: seq<string>, start: string, x: string)
    requires Forward(groups, s, 0, |s|) && Within(s, start, 0, |s|)
    requires Reachable(groups, start, x) && Nests(groups, x)
    ensures Within(s, x, 0, |s|)
  {
    var p :| IsPath(groups, p) && p[0] == start && p[|p| - 1] == x;
    PathIsEntered(groups, s, p, |p| - 1);
  }

  lemma {:induction false} PathIsEntered(groups: Groups, s: seq<string>, p: seq<string>, n: nat)
    requires Forward(groups, s, 0, |s|) && IsPath(groups, p) && Within(s, p[0], 0, |s|)
    requires n < |p| && Nests(groups, p[n])
    ensures Within(s, p[n], 0, |s|)
  {
    if n > 0 {
      assert Includes(groups, p[n - 1], p[n]);
      PathIsEntered(groups, s, p, n - 1);
      var i :| 0 <= i < |s| && s[i] == p[n - 1];
      var k :| IncludesAt(groups, p[n - 1], k, p[n]);
      assert Within(s, p[n], i + 1, |s|);
    }
  }

  // ---- trees are accepted ------------------------------------------------------------------

  type Edges = set<(string, int)>

  /** Every group entered so far is the start or was led to by an include already passed. */
  ghost predicate Justified(groups: Groups, start: string, seen: seq<string>, passed: Edges) {
    && (forall z :: z in seen ==> Nests(groups, z) && Reachable(groups, start, z))
    && (forall z :: z in seen && z != start ==> LedTo(groups, passed, z))
    && (forall e :: e in passed ==> e.0 in seen)
  }

  ghost predicate LedTo(groups: Groups, passed: Edges, z: string) {
    exists e :: e in passed && IncludesAt(groups, e.0, e.1, z)
  }

  /**
    What an error tells: a group that does not exist is included somewhere below
    `start`; or the group named includes `start`, or a nesting group that is
    included at another place, too.
   */
  ghost predicate IsCulprit(groups: Groups, start: string, v: Verdict) {
    match v
    case Accepted => false
    case NoSuchGroup(g) => g !in groups && exists x, k :: Reachable(groups, start, x) && IncludesAt(groups, x, k, g)
    case Circular(x) => Reachable(groups, start, x) && exists k, g :: IncludedTwice(groups, start, x, k, g)
  }

  ghost predicate IncludedTwice(groups: Groups, start: string, x: string, k: int, g: string) {
    && IncludesAt(groups, x, k, g) && Nests(groups, g)
    && (g == start || exists y, l :: Reachable(groups, start, y) && IncludesAt(groups, y, l, g) && (y, l) != (x, k))
  }

  lemma CulpritIsNoTree(groups: Groups, start: string, v: Verdict)
    requires IsCulprit(groups, start, v)
    ensures !IsIncludeTree(groups, start)
  {
  }

  lemma {:induction false} WalkGroup(groups: Groups, start: string, name: string, seen: seq<string>, passed: Edges)
    returns (passed': Edges)
    requires Justified(groups, start, seen, passed)
    requires Nests(groups, name) && Reachable(groups, start, name) && name !in seen
    requires name == start || LedTo(groups, passed, name)
    ensures var (s, v) := VerifyGroup(groups, name, seen);
            if v == Accepted then Justified(groups, start, s, passed') else IsCulprit(groups, start, v)
    ensures passed <= passed' && forall e :: e in passed' - passed ==> e.0 !in seen
    decreases Unseen(groups, seen), 0, 0
  {
    assert name in Unseen(groups, seen);
    var includes := groups[name].nested.value;
    assert includes[0..] == includes;
    passed' := WalkIncludes(groups, start, name, 0, seen + [name], passed);
  }

  /** A group already entered is included at another place, or is the start. */
  lemma SeenIsIncludedTwice(groups: Groups, start: string, seen: seq<string>, passed: Edges, name: string, k: int, g: string)
    requires Justified(groups, start, seen, passed)
    requires name in seen && IncludesAt(groups, name, k, g) && (name, k) !in passed && g in seen
    ensures IsCulprit(groups, start, Circular(name))
  {
    if g != start {
      var e :| e in passed && IncludesAt(groups, e.0, e.1, g);
      assert Reachable(groups, start, e.0) && e != (name, k);
    }
    assert IncludedTwice(groups, start, name, k, g);
  }

  lemma {:induction false} WalkIncludes(groups: Groups, start: string, name: string, k: nat, seen: seq<string>, passed: Edges)
    returns (passed': Edges)
    requires Justified(groups, start, seen, passed)
    requires name in seen && Nests(groups, name) && k <= |groups[name].nested.value|
    requires forall l :: l >= k ==> (name, l) !in passed
    ensures var (s, v) := VerifyIncludes(groups, name, groups[name].nested.value[k..], seen);
            if v == Accepted then Justified(groups, start, s, passed') else IsCulprit(groups, start, v)
    ensures passed <= passed' && forall e :: e in passed' - passed ==> e.0 !in seen || e.0 == name
    decreases Unseen(groups, seen), 1, |groups[name].nested.value| - k
  {
    var includes := groups[name].nested.value;
    if k == |includes| {
      return passed;
    }
    var g := includes[k];
    assert includes[k..][0] == g && includes[k..][1..] == includes[k + 1..];
    assert IncludesAt(groups, name, k, g);
    ReachableStep(groups, start, name, k, g);
    passed' := passed + {(name, k)};
    if g !in groups {
      return;
    }
    if g in seen {
      SeenIsIncludedTwice(groups, start, seen, passed, name, k, g);
      return;
    }
    if Nests(groups, g) {
      assert LedTo(groups, passed', g) by { assert (name, k) in passed'; }
      passed' := WalkGroup(groups, start, g, seen, passed');
      var r := VerifyGroup(groups, g, seen);
      if r.1 == Accepted {
        assert forall x :: x in seen ==> x in r.0;
        passed' := WalkIncludes(groups, start, name, k + 1, r.0, passed');
      }
    } else {
      passed' := WalkIncludes(groups, start, name, k + 1, seen, passed');
    }
  }

  /** An error names a real culprit. */
  lemma ErrorNamesCulprit(groups: Groups, start: string)
    requires start in groups
    ensures var v := VerifyGroup(groups, start, []).1; v != Accepted ==> IsCulprit(groups, start, v)
  {
    if Nests(groups, start) {
      ReachableSelf(groups, start);
      var passed := WalkGroup(groups, start, start, [], {});
    }
  }

  /** The checker accepts a group exactly when its includes form a tree below it. */
  lemma AcceptedIffTree(groups: Groups, start: string)
    requires start in groups
    ensures IsAccepted(groups, start) <==> IsIncludeTree(groups, start)
  {
    if IsAccepted(groups, start) {
      AcceptedIsTree(groups, start);
    } else {
      ErrorNamesCulprit(groups, start);
      CulpritIsNoTree(groups, start, VerifyGroup(groups, start, []).1);
    }
  }

  /** A group included along two paths is no cycle, yet it is refused when it nests others. */
  lemma SharedGroupIsRefused(groups: Groups)
    requires groups == map["a" := Group(Some(["b", "c"]), map[]), "b" := Group(Some(["d"]), map[]),
                           "c" := Group(Some(["d"]), map[]), "d" := Group(Some([]), map[])]
    ensures !IsAccepted(groups, "a")
  {
    ReachableSelf(groups, "a");
    assert IncludesAt(groups, "a", 0, "b") && IncludesAt(groups, "a", 1, "c");
    assert IncludesAt(groups, "b", 0, "d") && IncludesAt(groups, "c", 0, "d");
    ReachableStep(groups, "a", "a", 0, "b");
    ReachableStep(groups, "a", "a", 1, "c");
    assert !IsIncludeTree(groups, "a");
    AcceptedIffTree(groups, "a");
  }

  // ---- the expander ------------------------------------------------------------------------

  /** How many nesting groups lie at or below an accepted group: the expander's measure. */
  ghost function Weight(groups: Groups, name: string): nat
    requires name in groups
  {
    |VerifyGroup(groups, name, []).0|
  }

  /** The checker's answer does not depend on what it has seen before, once it accepts. */
  lemma {:induction false} GroupAlone(groups: Groups, name: string, before: seq<string>, seen: seq<string>)
    requires name in groups && name !in before + seen
    requires VerifyGroup(groups, name, before + seen).1 == Accepted
    ensures VerifyGroup(groups, name, seen).1 == Accepted
    ensures VerifyGroup(groups, name, before + seen).0 == before + VerifyGroup(groups, name, seen).0
    decreases Unseen(groups, before + seen), 0
  {
    if Nests(groups, name) {
      assert name in Unseen(groups, before + seen);
      assert (before + seen) + [name] == before + (seen + [name]);
      IncludesAlone(groups, name, groups[name].nested.value, before, seen + [name]);
    }
  }

  lemma {:induction false} IncludesAlone(groups: Groups, name: string, includes: seq<string>, before: seq<string>, seen: seq<string>)
    requires VerifyIncludes(groups, name, includes, before + seen).1 == Accepted
    ensures VerifyIncludes(groups, name, includes, seen).1 == Accepted
    ensures VerifyIncludes(groups, name, includes, before + seen).0 == before + VerifyIncludes(groups, name, includes, seen).0
    decreases Unseen(groups, before + seen), |includes| + 1
  {
    if includes != [] {
      var g := includes[0];
      assert g !in seen;
      if Nests(groups, g) {
        GroupAlone(groups, g, before, seen);
        var s := VerifyGroup(groups, g, seen).0;
        assert forall x :: x in before + seen ==> x in before + s;
        IncludesAlone(groups, name, includes[1..], before, s);
      } else {
        IncludesAlone(groups, name, includes[1..], before, seen);
      }
    }
  }

  /** What an accepted group includes exists, is accepted itself, and weighs less. */
  lemma IncludedIsAccepted(groups: Groups, name: string, k: int, g: string)
    requires IsAccepted(groups, name) && IncludesAt(groups, name, k, g)
    ensures IsAccepted(groups, g) && Weight(groups, g) < Weight(groups, name)
  {
    assert [] + [name] == [name];
    IncludesBelow(groups, name, groups[name].nested.value, [name], k);
  }

  lemma {:induction false} IncludesBelow(groups: Groups, name: string, includes: seq<string>, seen: seq<string>, k: int)
    requires seen != [] && 0 <= k < |includes|
    requires VerifyIncludes(groups, name, includes, seen).1 == Accepted
    ensures IsAccepted(groups, includes[k])
    ensures Weight(groups, includes[k]) < |VerifyIncludes(groups, name, includes, seen).0|
    decreases |includes|
  {
    var g := includes[0];
    var s := if Nests(groups, g) then VerifyGroup(groups, g, seen).0 else seen;
    if k == 0 {
      assert g !in seen && seen + [] == seen;
      GroupAlone(groups, g, seen, []);
      assert |s| <= |VerifyIncludes(groups, name, includes[1..], s).0|;
    } else {
      IncludesBelow(groups, name, includes[1..], s, k - 1);
    }
  }

  ghost function MembersOf(groups: Groups, key: string, name: string): seq<string>
    requires name in groups
  {
    if key in groups[name].members then groups[name].members[key] else []
  }

  ghost predicate AllAccepted(groups: Groups, names: seq<string>) {
    forall i :: 0 <= i < |names| ==> IsAccepted(groups, names[i])
  }

  ghost function MaxWeight(groups: Groups, names: seq<string>): (w: nat)
    requires AllAccepted(groups, names)
    ensures forall i :: 0 <= i < |names| ==> Weight(groups, names[i]) <= w
    ensures names != [] ==> exists i :: 0 <= i < |names| && Weight(groups, names[i]) == w
  {
    if names == [] then 0
    else
      var w := MaxWeight(groups, names[1..]);
      if w < Weight(groups, names[0]) || names[1..] == [] then Weight(groups, names[0]) else w
  }

  lemma IncludesAreAccepted(groups: Groups, name: string)
    requires IsAccepted(groups, name) && Nests(groups, name)
    ensures AllAccepted(groups, groups[name].nested.value)
    ensures MaxWeight(groups, groups[name].nested.value) < Weight(groups, name)
  {
    var includes := groups[name].nested.value;
    forall k | 0 <= k < |includes|
      ensures IsAccepted(groups, includes[k]) && Weight(groups, includes[k]) < Weight(groups, name)
    {
      IncludedIsAccepted(groups, name, k, includes[k]);
    }
    assert |VerifyGroup(groups, name, []).0| > 0;
  }

  /** The members at and below the named groups, in the order the expander meets them. */
  ghost function Listing(groups: Groups, key: string, names: seq<string>): seq<string>
    requires AllAccepted(groups, names)
    decreases MaxWeight(groups, names), |names|
  {
    if names == [] then []
    else
      var x := names[0];
      var below :=
        if Nests(groups, x) then
          IncludesAreAccepted(groups, x);
          Listing(groups, key, groups[x].nested.value)
        else [];
      MembersOf(groups, key, x) + below + Listing(groups, key, names[1..])
  }

  /** Appending in order what is not yet there. */
  ghost function AppendNew(out: seq<string>, items: seq<string>): seq<string>
    decreases |items|
  {
    if items == [] then out
    else AppendNew(if items[0] in out then out else out + [items[0]], items[1..])
  }

  lemma {:induction false} AppendNewConcat(out: seq<string>, a: seq<string>, b: seq<string>)
    ensures AppendNew(out, a + b) == AppendNew(AppendNew(out, a), b)
    decreases |a|
  {
    if a == [] {
      assert a + b == b;
    } else {
      assert (a + b)[1..] == a[1..] + b;
      AppendNewConcat(if a[0] in out then out else out + [a[0]], a[1..], b);
    }
  }

  lemma {:induction false} AppendNewMeaning(out: seq<string>, items: seq<string>)
    ensures out <= AppendNew(out, items)
    ensures forall x :: x in AppendNew(out, items) <==> x in out || x in items
    ensures var added := AppendNew(out, items)[|out|..]; Distinct(added) && forall x :: x in added ==> x !in out
    decreases |items|
  {
    if items != [] {
      var next := if items[0] in out then out else out + [items[0]];
      AppendNewMeaning(next, items[1..]);
      var r := AppendNew(next, items[1..]);
      assert forall x :: x in next <==> x in out || x == items[0];
      assert forall x :: x in items <==> x == items[0] || x in items[1..];
      if items[0] !in out {
        NewItemFirst(out, items[0], r);
      }
    }
  }

  lemma NewItemFirst(out: seq<string>, x: string, r: seq<string>)
    requires out + [x] <= r && x !in out
    requires Distinct(r[|out| + 1..]) && forall y :: y in r[|out| + 1..] ==> y !in out + [x]
    ensures out <= r && Distinct(r[|out|..]) && forall y :: y in r[|out|..] ==> y !in out
  {
    assert r[|out|..] == [x] + r[|out| + 1..];
    assert forall y :: y in out ==> y in out + [x];
    assert x in out + [x];
  }

  lemma ListingOne(groups: Groups, key: string, name: string)
    requires IsAccepted(groups, name)
    ensures AllAccepted(groups, [name])
    ensures Nests(groups, name) ==> AllAccepted(groups, groups[name].nested.value)
    ensures Listing(groups, key, [name])
         == MembersOf(groups, key, name) + if Nests(groups, name) then Listing(groups, key, groups[name].nested.value) else []
  {
    if Nests(groups, name) { IncludesAreAccepted(groups, name); }
    assert [name][1..] == [];
  }

  lemma ListingCons(groups: Groups, key: string, x: string, names: seq<string>)
    requires AllAccepted(groups, [x]) && AllAccepted(groups, names) && AllAccepted(groups, [x] + names)
    ensures Listing(groups, key, [x] + names) == Listing(groups, key, [x]) + Listing(groups, key, names)
  {
    ListingOne(groups, key, [x][0]);
    assert ([x] + names)[1..] == names;
  }

  lemma AcceptedConcat(groups: Groups, a: seq<string>, b: seq<string>)
    ensures AllAccepted(groups, a + b) <==> AllAccepted(groups, a) && AllAccepted(groups, b)
  {
    if AllAccepted(groups, a + b) {
      assert forall i :: 0 <= i < |a| ==> a[i] == (a + b)[i];
      assert forall i :: 0 <= i < |b| ==> b[i] == (a + b)[|a| + i];
    }
  }

  lemma Associative(a: seq<string>, b: seq<string>, c: seq<string>)
    ensures (a + b) + c == a + (b + c)
  {
  }

  lemma {:induction false} ListingConcat(groups: Groups, key: string, a: seq<string>, b: seq<string>)
    requires AllAccepted(groups, a) && AllAccepted(groups, b) && AllAccepted(groups, a + b)
    ensures Listing(groups, key, a + b) == Listing(groups, key, a) + Listing(groups, key, b)
  {
    if a == [] {
      assert a + b == b;
    } else {
      var x, t := a[0], a[1..];
      assert a == [x] + t;
      Associative([x], t, b);
      AcceptedConcat(groups, [x], t);
      AcceptedConcat(groups, t, b);
      ListingConcat(groups, key, t, b);
      ListingCons(groups, key, x, t);
      ListingCons(groups, key, x, t + b);
      Associative(Listing(groups, key, [x]), Listing(groups, key, t), Listing(groups, key, b));
    }
  }

  /** `x` is a member of a group reachable through includes from one of `names`. */
  ghost predicate MemberBelow(groups: Groups, key: string, names: seq<string>, x: string) {
    exists n, y :: n in names && Reachable(groups, n, y) && HasMember(groups, key, y, x)
  }

  ghost predicate HasMember(groups: Groups, key: string, y: string, x: string) {
    y in groups && key in groups[y].members && x in groups[y].members[key]
  }

  lemma {:induction false} ListingMeaning(groups: Groups, key: string, names: seq<string>, x: string)
    requires AllAccepted(groups, names)
    ensures x in Listing(groups, key, names) <==> MemberBelow(groups, key, names, x)
    decreases MaxWeight(groups, names), |names|
  {
    if names != [] {
      var n := names[0];
      ListingMeaning(groups, key, names[1..], x);
      BelowCons(groups, key, names, x);
      if Nests(groups, n) {
        IncludesAreAccepted(groups, n);
        ListingMeaning(groups, key, groups[n].nested.value, x);
        BelowIncludes(groups, key, n, x);
      } else {
        BelowNothing(groups, key, n, x);
      }
    }
  }

  lemma BelowCons(groups: Groups, key: string, names: seq<string>, x: string)
    requires names != []
    ensures MemberBelow(groups, key, names, x)
       <==> MemberBelow(groups, key, [names[0]], x) || MemberBelow(groups, key, names[1..], x)
  {
    assert names == [names[0]] + names[1..];
    assert names[0] in [names[0]];
  }

  lemma BelowNothing(groups: Groups, key: string, n: string, x: string)
    requires n in groups && !Nests(groups, n)
    ensures MemberBelow(groups, key, [n], x) <==> x in MembersOf(groups, key, n)
  {
    ReachableSelf(groups, n);
    assert n in [n];
    forall y | Reachable(groups, n, y) ensures y == n {
      if y != n { var k, g := ReachableSplit(groups, n, y); }
    }
  }

  lemma BelowIncludes(groups: Groups, key: string, n: string, x: string)
    requires Nests(groups, n)
    ensures MemberBelow(groups, key, [n], x)
       <==> x in MembersOf(groups, key, n) || MemberBelow(groups, key, groups[n].nested.value, x)
  {
    var includes := groups[n].nested.value;
    ReachableSelf(groups, n);
    assert n in [n];
    if MemberBelow(groups, key, includes, x) {
      var g, y :| g in includes && Reachable(groups, g, y) && HasMember(groups, key, y, x);
      var k :| 0 <= k < |includes| && includes[k] == g;
      ReachableCons(groups, n, k, g, y);
    }
    if MemberBelow(groups, key, [n], x) {
      var y :| Reachable(groups, n, y) && HasMember(groups, key, y, x);
      if y != n {
        var k, g := ReachableSplit(groups, n, y);
        assert g in includes;
      }
    }
  }

  /** The list afterwards: what was there, then each missing member below `names`, once. */
  ghost predicate Expands(groups: Groups, key: string, names: seq<string>, out: seq<string>, r: seq<string>) {
    && out <= r
    && Distinct(r[|out|..]) && (forall x :: x in r[|out|..] ==> x !in out)
    && (forall x :: x in r <==> x in out || MemberBelow(groups, key, names, x))
  }

  lemma AppendedListingExpands(groups: Groups, key: string, names: seq<string>, out: seq<string>)
    requires AllAccepted(groups, names)
    ensures Expands(groups, key, names, out, AppendNew(out, Listing(groups, key, names)))
  {
    AppendNewMeaning(out, Listing(groups, key, names));
    forall x ensures x in Listing(groups, key, names) <==> MemberBelow(groups, key, names, x) {
      ListingMeaning(groups, key, names, x);
    }
  }

  /** Of each include list, what is below the first entries comes first. */
  ghost predicate InIncludeOrder(groups: Groups, key: string, names: seq<string>, out: seq<string>, r: seq<string>) {
    forall i {:trigger names[..i]} :: 0 <= i <= |names| ==> StartsWith(groups, key, names[..i], out, r)
  }

  /** The list has a front that expands `names`. */
  ghost predicate StartsWith(groups: Groups, key: string, names: seq<string>, out: seq<string>, r: seq<string>) {
    exists n :: |out| <= n <= |r| && Expands(groups, key, names, out, r[..n])
  }

  lemma ListingInOrder(groups: Groups, key: string, names: seq<string>, out: seq<string>)
    requires AllAccepted(groups, names)
    ensures InIncludeOrder(groups, key, names, out, AppendNew(out, Listing(groups, key, names)))
  {
    var r := AppendNew(out, Listing(groups, key, names));
    forall i {:trigger names[..i]} | 0 <= i <= |names| ensures StartsWith(groups, key, names[..i], out, r) {
      ListingStarts(groups, key, names, out, i);
    }
  }

  lemma ListingStarts(groups: Groups, key: string, names: seq<string>, out: seq<string>, i: nat)
    requires AllAccepted(groups, names) && i <= |names|
    ensures StartsWith(groups, key, names[..i], out, AppendNew(out, Listing(groups, key, names)))
  {
    var r, a, b := AppendNew(out, Listing(groups, key, names)), names[..i], names[i..];
    assert names == a + b;
    AcceptedConcat(groups, a, b);
    ListingConcat(groups, key, a, b);
    var part := AppendNew(out, Listing(groups, key, a));
    AppendNewConcat(out, Listing(groups, key, a), Listing(groups, key, b));
    AppendNewMeaning(part, Listing(groups, key, b));
    AppendedListingExpands(groups, key, a, out);
    assert r[..|part|] == part;
  }

  /** A group's own members come before those of the groups it includes, which follow in include order. */
  lemma OwnMembersFirst(groups: Groups, key: string, name: string, out: seq<string>)
    requires IsAccepted(groups, name) && Nests(groups, name)
    ensures AllAccepted(groups, [name])
    ensures var includes, members := groups[name].nested.value, groups[name].members;
            var own := if key in members then AppendNew(out, members[key]) else out;
            var r := AppendNew(out, Listing(groups, key, [name]));
            own <= r && Expands(groups, key, includes, own, r) && InIncludeOrder(groups, key, includes, own, r)
  {
    var includes, members := groups[name].nested.value, MembersOf(groups, key, name);
    ListingOne(groups, key, name);
    AppendNewConcat(out, members, Listing(groups, key, includes));
    AppendedListingExpands(groups, key, includes, AppendNew(out, members));
    ListingInOrder(groups, key, includes, AppendNew(out, members));
  }

  lemma AppendListed(groups: Groups, key: string, out: seq<string>, names: seq<string>, i: nat)
    requires AllAccepted(groups, names) && i < |names|
    ensures AllAccepted(groups, names[..i]) && AllAccepted(groups, names[..i + 1]) && AllAccepted(groups, [names[i]])
    ensures AppendNew(out, Listing(groups, key, names[..i + 1]))
         == AppendNew(AppendNew(out, Listing(groups, key, names[..i])), Listing(groups, key, [names[i]]))
  {
    assert names[..i + 1] == names[..i] + [names[i]];
    ListingConcat(groups, key, names[..i], [names[i]]);
    AppendNewConcat(out, Listing(groups, key, names[..i]), Listing(groups, key, [names[i]]));
  }

  lemma AppendItem(out: seq<string>, items: seq<string>, i: nat)
    requires i < |items|
    ensures var r := AppendNew(out, items[..i]);
            AppendNew(out, items[..i + 1]) == if items[i] in r then r else r + [items[i]]
  {
    assert items[..i + 1] == items[..i] + [items[i]];
    AppendNewConcat(out, items[..i], [items[i]]);
    assert [items[i]][1..] == [];
  }

  /** The inner function of `nft_nested_group`, extending the shared list in place. */
  method AddIncludes(name: string, groups: Groups, key: string, outList: NameList)
    requires IsAccepted(groups, name)
    modifies outList
    ensures outList.items == AppendNew(old(outList.items), Listing(groups, key, [name]))
    decreases Weight(groups, name)
  {
    ghost var out := outList.items;
    ghost var members := MembersOf(groups, key, name);
    ListingOne(groups, key, name);
    if key in groups[name].members {
      var items := groups[name].members[key];
      for i := 0 to |items|
        invariant outList.items == AppendNew(out, items[..i])
      {
        AppendItem(out, items, i);
        if items[i] in outList.items {
          continue;
        }
        outList.Append(items[i]);
      }
      assert items[..|items|] == members;
    }
    assert outList.items == AppendNew(out, members);
    if groups[name].nested.Some? {
      var includes := groups[name].nested.value;
      IncludesAreAccepted(groups, name);
      ghost var out1 := outList.items;
      for i := 0 to |includes|
        invariant outList.items == AppendNew(out1, Listing(groups, key, includes[..i]))
      {
        AppendListed(groups, key, out1, includes, i);
        AddIncludes(includes[i], groups, key, outList);
      }
      assert includes[..|includes|] == includes;
      AppendNewConcat(out, members, Listing(groups, key, includes));
    } else {
      assert members + [] == members;
    }
  }

  /** `nft_nested_group`: an undefined list starts empty, a given one is extended in place. */
  method NftNestedGroup(outList: NameList?, includes: seq<string>, groups: Groups, key: string) returns (r: NameList)
    requires AllAccepted(groups, includes)
    modifies outList
    ensures outList != null ==> r == outList
    ensures var out := if outList == null then [] else old(outList.items);
            && r.items == AppendNew(out, Listing(groups, key, includes))
            && Expands(groups, key, includes, out, r.items) && InIncludeOrder(groups, key, includes, out, r.items)
  {
    if outList == null {
      r := new NameList();
    } else {
      r := outList;
    }
    ghost var out := r.items;
    for i := 0 to |includes|
      invariant r.items == AppendNew(out, Listing(groups, key, includes[..i]))
    {
      AppendListed(groups, key, out, includes, i);
      AddIncludes(includes[i], groups, key, r);
    }
    assert includes[..|includes|] == includes;
    AppendedListingExpands(groups, key, includes, out);
    ListingInOrder(groups, key, includes, out);
  }
}
