/**
  The checker of firewall jump targets: a last-in first-out worklist over the
  jump graph (src/conf_mode/firewall.py, `verify_jump_target`).
 */
module JumpTargets {
  import opened Wrappers

  /** The parts of a rule the checker reads. */
  datatype Rule = Rule(jumpTarget: Option<string>, matchIpsecIn: bool, matchNoneIn: bool)

  type Chains = map<string, seq<Rule>>

  /** `firewall[family]`, which may have no `name` node at all. */
  datatype Family = NoNames | Names(chains: Chains)

  datatype Verdict =
    | Accept
    | NoSuchChain(target: string)
    | IpsecConflict(target: string)
    | Loop(target: string, child: string)

  // ---- the jump graph ------------------------------------------------------------

  function ChainsOf(family: Family): Chains {
    if family.NoNames? then map[] else family.chains
  }

  /** Rule `r` of chain `x` jumps to `c`. */
  predicate JumpsBy(g: Chains, x: string, r: int, c: string) {
    x in g && 0 <= r < |g[x]| && g[x][r].jumpTarget == Some(c)
  }

  ghost predicate Jumps(g: Chains, x: string, c: string) {
    exists r :: JumpsBy(g, x, r, c)
  }

  ghost predicate IsPath(g: Chains, p: seq<string>) {
    p != [] && forall i :: 0 <= i < |p| - 1 ==> Jumps(g, p[i], p[i + 1])
  }

  ghost predicate Reachable(g: Chains, from: string, to: string) {
    exists p :: IsPath(g, p) && p[0] == from && p[|p| - 1] == to
  }

  /** No chain reachable from `from` can jump back to itself. */
  ghost predicate AcyclicFrom(g: Chains, from: string) {
    forall p :: IsPath(g, p) && |p| > 1 && Reachable(g, from, p[0]) ==> p[0] != p[|p| - 1]
  }

  ghost predicate HasTarget(rules: seq<Rule>, c: string) {
    exists r :: 0 <= r < |rules| && rules[r].jumpTarget == Some(c)
  }

  predicate IpsecOk(hook: string, rules: seq<Rule>) {
    hook == "output" ==> forall r :: 0 <= r < |rules| ==> !rules[r].matchIpsecIn && !rules[r].matchNoneIn
  }

  ghost predicate ChainOk(g: Chains, hook: string, x: string) {
    x in g && IpsecOk(hook, g[x])
  }

  /** The start is no rule's target, and no chain is the target of two rules. */
  ghost predicate TreeLike(g: Chains, start: string) {
    && (forall x, r :: Reachable(g, start, x) ==> !JumpsBy(g, x, r, start))
    && (forall x, r, y, s, c | Reachable(g, start, x) && Reachable(g, start, y) ::
          JumpsBy(g, x, r, c) && JumpsBy(g, y, s, c) ==> x == y && r == s)
  }

  lemma ReachableSelf(g: Chains, x: string)
    ensures Reachable(g, x, x)
  {
    assert IsPath(g, [x]);
  }

  lemma ReachableStep(g: Chains, from: string, x: string, c: string)
    requires Reachable(g, from, x) && Jumps(g, x, c)
    ensures Reachable(g, from, c)
  {
    var p :| IsPath(g, p) && p[0] == from && p[|p| - 1] == x;
    assert IsPath(g, p + [c]);
  }

  lemma PathTail(g: Chains, p: seq<string>)
    requires IsPath(g, p) && |p| > 1
    ensures IsPath(g, p[1..])
  {
    forall i | 0 <= i < |p[1..]| - 1 ensures Jumps(g, p[1..][i], p[1..][i + 1]) {
      assert Jumps(g, p[i + 1], p[i + 2]);
    }
  }

  lemma {:induction false} PathStaysIn(g: Chains, p: seq<string>, s: set<string>)
    requires IsPath(g, p) && p[0] in s
    requires forall x, c :: x in s && Jumps(g, x, c) ==> c in s
    ensures p[|p| - 1] in s
  {
    if |p| > 1 {
      assert Jumps(g, p[0], p[1]);
      PathTail(g, p);
      PathStaysIn(g, p[1..], s);
    }
  }

  // ---- the worklist ----------------------------------------------------------------

  /** The jump targets of `rules`, in rule order: what one chain pushes. */
  function Targets(rules: seq<Rule>): (t: seq<string>)
  {
    if rules == [] then []
    else
      var front := Targets(rules[..|rules| - 1]);
      match rules[|rules| - 1].jumpTarget
      case None => front
      case Some(c) => front + [c]
  }

  lemma {:induction false} TargetsAreJumps(g: Chains, x: string, n: nat)
    requires x in g && n <= |g[x]|
    ensures forall c :: c in Targets(g[x][..n]) <==> exists r :: r < n && JumpsBy(g, x, r, c)
  {
    if n > 0 {
      TargetsAreJumps(g, x, n - 1);
      assert g[x][..n][..n - 1] == g[x][..n - 1];
      forall c | c in Targets(g[x][..n]) ensures exists r :: r < n && JumpsBy(g, x, r, c) {
        if c !in Targets(g[x][..n - 1]) { assert JumpsBy(g, x, n - 1, c); }
      }
    }
  }

  lemma TargetsAreChildren(g: Chains, x: string)
    requires x in g
    ensures forall c :: c in Targets(g[x]) <==> Jumps(g, x, c)
  {
    TargetsAreJumps(g, x, |g[x]|);
    assert g[x][..|g[x]|] == g[x];
    forall c | Jumps(g, x, c) ensures c in Targets(g[x]) {
      var r :| JumpsBy(g, x, r, c);
    }
  }

  ghost predicate Invariant(g: Chains, hook: string, start: string, seen: seq<string>, pending: seq<string>) {
    && start in seen + pending
    && (forall x :: x in seen + pending ==> Reachable(g, start, x))
    && (forall x :: x in seen ==> ChainOk(g, hook, x))
    && ChildrenFollow(g, seen, pending)
    && RepeatsAreCaught(g, seen, pending)
  }

  /** What a traversed chain jumps to was traversed later or is still pending. */
  ghost predicate ChildrenFollow(g: Chains, seen: seq<string>, pending: seq<string>) {
    forall i, c :: 0 <= i < |seen| && Jumps(g, seen[i], c) ==> c in seen[i + 1..] + pending
  }

  /**
    A pending chain that was already traversed has a child that will be
    traversed before it is popped again: the second visit raises.
   */
  ghost predicate RepeatsAreCaught(g: Chains, seen: seq<string>, pending: seq<string>) {
    forall i :: 0 <= i < |pending| && pending[i] in seen && (exists c :: Jumps(g, pending[i], c)) ==>
      exists c :: c in seen + pending[i + 1..] && Jumps(g, pending[i], c)
  }

  lemma ChildrenFollowStep(g: Chains, seen: seq<string>, pending: seq<string>, x: string)
    requires x in g && ChildrenFollow(g, seen, pending + [x])
    ensures ChildrenFollow(g, seen + [x], pending + Targets(g[x]))
  {
    TargetsAreChildren(g, x);
    var seen', pending' := seen + [x], pending + Targets(g[x]);
    forall i, c | 0 <= i < |seen'| && Jumps(g, seen'[i], c) ensures c in seen'[i + 1..] + pending' {
      if i < |seen| {
        assert c in seen[i + 1..] + (pending + [x]);
        assert seen'[i + 1..] == seen[i + 1..] + [x];
      }
    }
  }

  lemma RepeatsAreCaughtStep(g: Chains, seen: seq<string>, pending: seq<string>, x: string)
    requires x in g && RepeatsAreCaught(g, seen, pending + [x])
    requires forall c :: c in Targets(g[x]) ==> c !in seen
    ensures RepeatsAreCaught(g, seen + [x], pending + Targets(g[x]))
  {
    TargetsAreChildren(g, x);
    var old', seen', pending' := pending + [x], seen + [x], pending + Targets(g[x]);
    forall i | 0 <= i < |pending'| && pending'[i] in seen' && exists c :: Jumps(g, pending'[i], c)
      ensures exists c :: c in seen' + pending'[i + 1..] && Jumps(g, pending'[i], c)
    {
      var y := pending'[i];
      if i >= |pending| {
        assert y in Targets(g[x]);
        assert y == x && Jumps(g, x, x);
      } else if y in seen {
        assert old'[i] == y;
        var c :| c in seen + old'[i + 1..] && Jumps(g, y, c);
        assert old'[i + 1..] == pending[i + 1..] + [x];
        assert pending'[i + 1..] == pending[i + 1..] + Targets(g[x]);
        assert c in seen' + pending'[i + 1..];
      } else {
        var c :| Jumps(g, x, c);
        assert pending'[i + 1..] == pending[i + 1..] + Targets(g[x]);
        assert c in seen' + pending'[i + 1..];
      }
    }
  }

  lemma InvariantStep(g: Chains, hook: string, start: string, seen: seq<string>, pending: seq<string>, x: string)
    requires Invariant(g, hook, start, seen, pending + [x])
    requires ChainOk(g, hook, x) && forall c :: c in Targets(g[x]) ==> c !in seen
    ensures Invariant(g, hook, start, seen + [x], pending + Targets(g[x]))
  {
    ChildrenFollowStep(g, seen, pending, x);
    RepeatsAreCaughtStep(g, seen, pending, x);
    TargetsAreChildren(g, x);
    assert x in seen + (pending + [x]);
    forall y | y in Targets(g[x]) ensures Reachable(g, start, y) {
      ReachableStep(g, start, x, y);
    }
  }

  /** When nothing is pending, the traversal order proves the graph sound. */
  lemma AcceptedGraph(g: Chains, hook: string, start: string, seen: seq<string>)
    requires Invariant(g, hook, start, seen, [])
    ensures forall x :: Reachable(g, start, x) ==> ChainOk(g, hook, x)
    ensures AcyclicFrom(g, start)
  {
    assert seen + [] == seen;
    var s := set x | x in seen;
    forall x, c | x in s && Jumps(g, x, c) ensures c in s {
      var i := LastIndex(seen, x);
      assert c in seen[i + 1..] + [];
    }
    forall x | Reachable(g, start, x) ensures x in s {
      var p :| IsPath(g, p) && p[0] == start && p[|p| - 1] == x;
      PathStaysIn(g, p, s);
    }
    forall p | IsPath(g, p) && |p| > 1 && Reachable(g, start, p[0]) ensures p[0] != p[|p| - 1] {
      PathGoesForward(g, seen, p);
    }
  }

  function LastIndex(s: seq<string>, x: string): (i: nat)
    requires x in s
    ensures i < |s| && s[i] == x && x !in s[i + 1..]
  {
    if s[|s| - 1] == x then |s| - 1
    else
      var i := LastIndex(s[..|s| - 1], x);
      assert s[i + 1..] == s[..|s| - 1][i + 1..] + [s[|s| - 1]];
      i
  }

  lemma LastIndexIsLast(s: seq<string>, x: string, k: nat)
    requires k < |s| && s[k] == x
    ensures k <= LastIndex(s, x)
  {
    InSuffix(s, LastIndex(s, x) + 1, k);
  }

  lemma InSuffix(s: seq<string>, lo: nat, k: nat)
    requires lo <= |s| && k < |s|
    ensures lo <= k ==> s[k] in s[lo..]
  {
    assert lo <= k ==> s[lo..][k - lo] == s[k];
  }

  lemma {:induction false} PathGoesForward(g: Chains, seen: seq<string>, p: seq<string>)
    requires ChildrenFollow(g, seen, [])
    requires IsPath(g, p) && p[0] in seen
    ensures p[|p| - 1] in seen
    ensures |p| > 1 ==> LastIndex(seen, p[0]) < LastIndex(seen, p[|p| - 1])
  {
    if |p| > 1 {
      var i := LastIndex(seen, p[0]);
      assert Jumps(g, seen[i], p[1]);
      assert p[1] in seen[i + 1..] + [];
      var k :| 0 <= k < |seen[i + 1..]| && seen[i + 1..][k] == p[1];
      LastIndexIsLast(seen, p[1], i + 1 + k);
      PathTail(g, p);
      PathGoesForward(g, seen, p[1..]);
    }
  }

  // ---- graphs on which the checker never reports a loop -----------------------------

  ghost predicate Distinct(s: seq<string>) {
    forall i, j :: 0 <= i < |s| && 0 <= j < |s| && i != j ==> s[i] != s[j]
  }

  /** On a tree, every chain is queued once, by the one rule that jumps to it. */
  ghost predicate QueuedOnce(g: Chains, start: string, seen: seq<string>, pending: seq<string>) {
    var all := seen + pending;
    && Distinct(all)
    && (forall z :: z in all && z != start ==> exists x, r :: x in seen && JumpsBy(g, x, r, z))
  }

  /** The targets of `x` are new when the graph is a tree. */
  lemma TargetsAreNew(g: Chains, hook: string, start: string, seen: seq<string>, pending: seq<string>, x: string, c: string)
    requires Invariant(g, hook, start, seen, pending + [x])
    requires TreeLike(g, start) && QueuedOnce(g, start, seen, pending + [x])
    requires x in g && Jumps(g, x, c)
    ensures c !in seen + (pending + [x])
  {
    var all := seen + (pending + [x]);
    assert all[|all| - 1] == x && x in all;
    forall i | 0 <= i < |seen| ensures seen[i] != x { assert all[i] == seen[i]; }
    if c in all {
      OnlyJumper(g, hook, start, seen, pending, x, c);
    }
  }

  lemma OnlyJumper(g: Chains, hook: string, start: string, seen: seq<string>, pending: seq<string>, x: string, c: string)
    requires Invariant(g, hook, start, seen, pending + [x])
    requires TreeLike(g, start) && QueuedOnce(g, start, seen, pending + [x])
    requires x in g && Jumps(g, x, c) && c in seen + (pending + [x])
    ensures x in seen
  {
    var all := seen + (pending + [x]);
    assert all[|all| - 1] == x && x in all;
    var r :| JumpsBy(g, x, r, c);
    assert c != start;
    var y, s :| y in seen && JumpsBy(g, y, s, c);
    assert y in all;
  }

  lemma {:induction false} TargetsDistinct(g: Chains, start: string, x: string, n: nat)
    requires TreeLike(g, start) && Reachable(g, start, x) && x in g && n <= |g[x]|
    ensures Distinct(Targets(g[x][..n]))
  {
    if n > 0 {
      TargetsDistinct(g, start, x, n - 1);
      TargetsAreJumps(g, x, n - 1);
      assert g[x][..n][..n - 1] == g[x][..n - 1];
      var front := Targets(g[x][..n - 1]);
      var last := g[x][n - 1].jumpTarget;
      if last.Some? && last.value in front {
        var r :| r < n - 1 && JumpsBy(g, x, r, last.value);
        assert JumpsBy(g, x, n - 1, last.value);
        assert false;
      }
    }
  }

  lemma QueuedOnceStep(g: Chains, hook: string, start: string, seen: seq<string>, pending: seq<string>, x: string)
    requires Invariant(g, hook, start, seen, pending + [x])
    requires TreeLike(g, start) && QueuedOnce(g, start, seen, pending + [x])
    requires x in g
    ensures QueuedOnce(g, start, seen + [x], pending + Targets(g[x]))
  {
    var t := Targets(g[x]);
    var before, after := seen + (pending + [x]), (seen + [x]) + (pending + t);
    assert x in before;
    TargetsAreChildren(g, x);
    TargetsDistinct(g, start, x, |g[x]|);
    assert g[x][..|g[x]|] == g[x];
    forall c | c in t ensures c !in before { TargetsAreNew(g, hook, start, seen, pending, x, c); }
    Rearranged(seen, pending, x, t);
    forall z | z in after && z != start ensures exists y, r :: y in seen + [x] && JumpsBy(g, y, r, z) {
      if z in t {
        var r :| JumpsBy(g, x, r, z);
      } else {
        assert z in before;
      }
    }
  }

  lemma Rearranged(seen: seq<string>, pending: seq<string>, x: string, t: seq<string>)
    requires Distinct(seen + (pending + [x])) && Distinct(t)
    requires forall c :: c in t ==> c !in seen + (pending + [x])
    ensures Distinct((seen + [x]) + (pending + t))
  {
    var before, after := seen + (pending + [x]), (seen + [x]) + (pending + t);
    var a, b := |seen|, |before|;
    forall i, j | 0 <= i < j < |after| ensures after[i] != after[j] {
      var i' := if i < a then i else if i == a then b - 1 else i - 1;
      var j' := if j < a then j else if j == a then b - 1 else j - 1;
      assert i < b ==> after[i] == before[i'] && after[i] in before;
      assert i >= b ==> after[i] == t[i - b];
      assert j < b ==> after[j] == before[j'];
      assert j >= b ==> after[j] == t[j - b] && after[j] in t;
    }
  }

  /** The chains not traversed yet: what makes the worklist end. */
  ghost function Unseen(g: Chains, seen: seq<string>): set<string> {
    set x | x in g && x !in seen
  }

  lemma UnseenShrinks(g: Chains, seen: seq<string>, x: string)
    requires x in g
    ensures if x in seen then Unseen(g, seen + [x]) == Unseen(g, seen) else Unseen(g, seen + [x]) < Unseen(g, seen)
  {
    assert x !in seen ==> x in Unseen(g, seen);
  }

  /** A second visit that does not raise is one of a chain without jumps. */
  lemma RevisitIsLeaf(g: Chains, seen: seq<string>, rest: seq<string>, x: string)
    requires x in g && RepeatsAreCaught(g, seen, rest + [x])
    requires forall c :: c in Targets(g[x]) ==> c !in seen
    ensures x in seen ==> Targets(g[x]) == []
  {
    if x in seen && Targets(g[x]) != [] {
      RevisitJumpsBack(g, seen, rest, x);
    }
  }

  lemma RevisitJumpsBack(g: Chains, seen: seq<string>, rest: seq<string>, x: string)
    requires x in g && RepeatsAreCaught(g, seen, rest + [x]) && x in seen && Targets(g[x]) != []
    ensures exists c :: c in Targets(g[x]) && c in seen
  {
    TargetsAreChildren(g, x);
    var pending, i := rest + [x], |rest|;
    assert Jumps(g, x, Targets(g[x])[0]);
    assert pending[i] == x && pending[i + 1..] == [];
    var c :| c in seen + pending[i + 1..] && Jumps(g, x, c);
    assert c in seen;
  }

  // ---- exactly which acyclic graphs are accepted ------------------------------------

  /** `s` is closed under jumps and `rank` decreases along them: no cycle inside `s`. */
  ghost predicate Ranked(g: Chains, s: set<string>, rank: string -> nat) {
    forall x, c :: x in s && Jumps(g, x, c) ==> c in s && rank(c) < rank(x)
  }

  ghost function Bound(rank: string -> nat, ts: seq<string>): (b: nat)
    ensures forall t :: t in ts ==> rank(t) < b
    ensures b > 0 ==> exists t :: t in ts && b == rank(t) + 1
  {
    if ts == [] then 0
    else
      var front, last := Bound(rank, ts[..|ts| - 1]), ts[|ts| - 1];
      assert last in ts;
      if rank(last) < front then front else rank(last) + 1
  }

  ghost predicate Inside(g: Chains, s: set<string>, rank: string -> nat, ts: seq<string>) {
    Ranked(g, s, rank) && forall t :: t in ts ==> t in s
  }

  /** The chains below `x` as nested traffic meets them: a chain, then its targets from the last rule up. */
  ghost function Walk(g: Chains, s: set<string>, rank: string -> nat, x: string): seq<string>
    requires Inside(g, s, rank, [x])
    decreases rank(x) + 1, 0
  {
    if x in g then
      TargetsAreChildren(g, x);
      assert x in [x];
      [x] + WalkAll(g, s, rank, Targets(g[x]))
    else
      [x]
  }

  ghost function WalkAll(g: Chains, s: set<string>, rank: string -> nat, ts: seq<string>): seq<string>
    requires Inside(g, s, rank, ts)
    decreases Bound(rank, ts), |ts|
  {
    if ts == [] then []
    else
      Walk(g, s, rank, ts[|ts| - 1]) + WalkAll(g, s, rank, ts[..|ts| - 1])
  }

  /** No walked chain jumps to one walked before it. */
  ghost predicate NoBackwardJump(g: Chains, walk: seq<string>) {
    forall i, c :: 0 <= i < |walk| && Jumps(g, walk[i], c) ==> c !in walk[..i]
  }

  lemma {:induction false} WalkAllConcat(g: Chains, s: set<string>, rank: string -> nat, a: seq<string>, b: seq<string>)
    requires Inside(g, s, rank, a) && Inside(g, s, rank, b)
    ensures Inside(g, s, rank, a + b)
    ensures WalkAll(g, s, rank, a + b) == WalkAll(g, s, rank, b) + WalkAll(g, s, rank, a)
  {
    if b == [] {
      assert a + b == a;
    } else {
      var front := b[..|b| - 1];
      WalkAllConcat(g, s, rank, a, front);
      assert (a + b)[..|a + b| - 1] == a + front;
    }
  }

  /** The worklist has walked `seen` and has yet to walk `pending`, top first. */
  ghost predicate WalkSplit(g: Chains, s: set<string>, rank: string -> nat, start: string, seen: seq<string>, pending: seq<string>) {
    && Inside(g, s, rank, [start]) && Inside(g, s, rank, pending)
    && Walk(g, s, rank, start) == seen + WalkAll(g, s, rank, pending)
  }

  lemma WalkSplitStep(g: Chains, s: set<string>, rank: string -> nat, start: string,
                      seen: seq<string>, rest: seq<string>, x: string)
    requires WalkSplit(g, s, rank, start, seen, rest + [x]) && x in g
    ensures WalkSplit(g, s, rank, start, seen + [x], rest + Targets(g[x]))
  {
    var pending, t := rest + [x], Targets(g[x]);
    assert pending[|pending| - 1] == x && x in pending && pending[..|pending| - 1] == rest;
    TargetsAreChildren(g, x);
    forall y | y in rest ensures y in s { assert y in pending; }
    WalkAllConcat(g, s, rank, rest, t);
    assert Walk(g, s, rank, x) == [x] + WalkAll(g, s, rank, t);
    assert WalkAll(g, s, rank, pending) == Walk(g, s, rank, x) + WalkAll(g, s, rank, rest);
    assert seen + (([x] + WalkAll(g, s, rank, t)) + WalkAll(g, s, rank, rest))
        == (seen + [x]) + (WalkAll(g, s, rank, t) + WalkAll(g, s, rank, rest));
  }

  /** The refined form of the checker on acyclic graphs. */
  ghost predicate WalksExactly(g: Chains, start: string, seen: seq<string>, pending: seq<string>) {
    && NoBackwardJump(g, seen)
    && forall s, rank | start in s && Ranked(g, s, rank) :: WalkSplit(g, s, rank, start, seen, pending)
  }

  lemma WalksExactlyStart(g: Chains, start: string)
    ensures WalksExactly(g, start, [], [start])
  {
    forall s, rank | start in s && Ranked(g, s, rank) ensures WalkSplit(g, s, rank, start, [], [start]) {
      assert [start][..0] == [];
      assert Walk(g, s, rank, start) == [] + (Walk(g, s, rank, start) + []);
    }
  }

  lemma WalksExactlyStep(g: Chains, start: string, seen: seq<string>, rest: seq<string>, x: string)
    requires WalksExactly(g, start, seen, rest + [x])
    requires x in g && forall c :: c in Targets(g[x]) ==> c !in seen
    ensures WalksExactly(g, start, seen + [x], rest + Targets(g[x]))
  {
    TargetsAreChildren(g, x);
    forall i, c | 0 <= i < |seen + [x]| && Jumps(g, (seen + [x])[i], c) ensures c !in (seen + [x])[..i] {
      assert (seen + [x])[..i] == seen[..i];
      assert seen[..|seen|] == seen;
    }
    forall s, rank | start in s && Ranked(g, s, rank)
      ensures WalkSplit(g, s, rank, start, seen + [x], rest + Targets(g[x]))
    {
      WalkSplitStep(g, s, rank, start, seen, rest, x);
    }
  }

  /** Whether the walk of an acyclic graph is free of backward jumps. */
  ghost predicate WalkIsClean(g: Chains, s: set<string>, rank: string -> nat, start: string)
    requires start in s && Ranked(g, s, rank)
  {
    NoBackwardJump(g, Walk(g, s, rank, start))
  }

  lemma WalkedClean(g: Chains, start: string, seen: seq<string>)
    requires WalksExactly(g, start, seen, [])
    ensures forall s, rank | start in s && Ranked(g, s, rank) :: WalkIsClean(g, s, rank, start)
  {
    forall s, rank | start in s && Ranked(g, s, rank) ensures WalkIsClean(g, s, rank, start) {
      assert WalkSplit(g, s, rank, start, seen, []);
      assert seen + [] == seen;
    }
  }

  lemma WalkedBackward(g: Chains, start: string, seen: seq<string>, rest: seq<string>, x: string, c: string)
    requires WalksExactly(g, start, seen, rest + [x]) && Jumps(g, x, c) && c in seen
    ensures forall s, rank | start in s && Ranked(g, s, rank) :: !WalkIsClean(g, s, rank, start)
  {
    forall s, rank | start in s && Ranked(g, s, rank) ensures !WalkIsClean(g, s, rank, start) {
      WalkSplitStep(g, s, rank, start, seen, rest, x);
      var w := Walk(g, s, rank, start);
      assert w[|seen|] == (seen + [x])[|seen|] == x && w[..|seen|] == seen;
    }
  }

  // ---- acyclic graphs are ranked -----------------------------------------------------------

  ghost function ReachedFrom(g: Chains, x: string): set<string> {
    set y | y in g && Reachable(g, x, y)
  }

  lemma ReachableTrans(g: Chains, a: string, b: string, c: string)
    requires Reachable(g, a, b) && Reachable(g, b, c)
    ensures Reachable(g, a, c)
  {
    var p :| IsPath(g, p) && p[0] == a && p[|p| - 1] == b;
    var q :| IsPath(g, q) && q[0] == b && q[|q| - 1] == c;
    PathsJoin(g, p, q);
    assert (p + q[1..])[0] == a && (p + q[1..])[|p + q[1..]| - 1] == c;
  }

  lemma PathsJoin(g: Chains, p: seq<string>, q: seq<string>)
    requires IsPath(g, p) && IsPath(g, q) && p[|p| - 1] == q[0]
    ensures IsPath(g, p + q[1..])
  {
    var r := p + q[1..];
    forall i | 0 <= i < |r| - 1 ensures Jumps(g, r[i], r[i + 1]) {
      if i < |p| - 1 {
        assert Jumps(g, p[i], p[i + 1]);
      } else {
        assert Jumps(g, q[i - |p| + 1], q[i - |p| + 2]);
      }
    }
  }

  lemma JumpReaches(g: Chains, x: string, c: string)
    requires Jumps(g, x, c)
    ensures Reachable(g, x, c)
  {
    ReachableSelf(g, x);
    ReachableStep(g, x, x, c);
  }

  /** A chain that jumps to `c` is not reached back from it. */
  lemma NoWayBack(g: Chains, start: string, x: string, c: string)
    requires AcyclicFrom(g, start) && Reachable(g, start, x) && Jumps(g, x, c)
    ensures !Reachable(g, c, x)
  {
    if Reachable(g, c, x) {
      var p :| IsPath(g, p) && p[0] == c && p[|p| - 1] == x;
      assert IsPath(g, [x, c]);
      PathsJoin(g, p, [x, c]);
      var cycle := p + [x, c][1..];
      assert |cycle| > 1 && cycle[0] == c && cycle[|cycle| - 1] == c;
      ReachableStep(g, start, x, c);
    }
  }

  /** How many chains can be reached decreases along jumps. */
  lemma AcyclicIsRanked(g: Chains, start: string)
    requires AcyclicFrom(g, start) && forall x :: Reachable(g, start, x) ==> x in g
    ensures start in ReachedFrom(g, start) && Ranked(g, ReachedFrom(g, start), x => |ReachedFrom(g, x)|)
  {
    var s := ReachedFrom(g, start);
    ReachableSelf(g, start);
    forall x, c | x in s && Jumps(g, x, c) ensures c in s && |ReachedFrom(g, c)| < |ReachedFrom(g, x)| {
      ReachableStep(g, start, x, c);
      ReachesLess(g, start, x, c);
    }
  }

  lemma ReachesLess(g: Chains, start: string, x: string, c: string)
    requires AcyclicFrom(g, start) && Reachable(g, start, x) && Jumps(g, x, c)
    ensures |ReachedFrom(g, c)| < |ReachedFrom(g, x)|
  {
    NoWayBack(g, start, x, c);
    JumpReaches(g, x, c);
    forall y | y in ReachedFrom(g, c) ensures y in ReachedFrom(g, x) { ReachableTrans(g, x, c, y); }
    ReachableSelf(g, x);
    assert x in ReachedFrom(g, x) && x !in ReachedFrom(g, c);
    ProperSubset(ReachedFrom(g, c), ReachedFrom(g, x));
  }

  lemma ProperSubset(a: set<string>, b: set<string>)
    requires a < b
    ensures |a| < |b|
  {
    assert b == a + (b - a);
  }

  /** Conversely, a ranking rules out cycles. */
  lemma RankedIsAcyclic(g: Chains, s: set<string>, rank: string -> nat, start: string)
    requires start in s && Ranked(g, s, rank)
    ensures AcyclicFrom(g, start)
  {
    forall p | IsPath(g, p) && |p| > 1 && Reachable(g, start, p[0]) ensures p[0] != p[|p| - 1] {
      var q :| IsPath(g, q) && q[0] == start && q[|q| - 1] == p[0];
      PathStaysIn(g, q, s);
      PathDescends(g, s, rank, p);
    }
  }

  lemma {:induction false} PathDescends(g: Chains, s: set<string>, rank: string -> nat, p: seq<string>)
    requires Ranked(g, s, rank) && IsPath(g, p) && p[0] in s
    ensures if |p| > 1 then rank(p[|p| - 1]) < rank(p[0]) else p[|p| - 1] == p[0]
  {
    if |p| > 1 {
      assert Jumps(g, p[0], p[1]);
      PathTail(g, p);
      PathDescends(g, s, rank, p[1..]);
    }
  }

  // ---- when the walk jumps back, in terms of paths -----------------------------------------

  /** Something reachable from `b` jumps to something reachable from `a`. */
  ghost predicate Crosses(g: Chains, b: string, a: string) {
    exists x, c :: Reachable(g, b, x) && Jumps(g, x, c) && Reachable(g, a, c)
  }

  /** Two rules of `y` whose targets share chains: what the earlier rule leads to jumps into what the later one leads to. */
  ghost predicate SharesBelow(g: Chains, y: string) {
    exists r, t, b, a :: r < t && JumpsBy(g, y, r, b) && JumpsBy(g, y, t, a) && Crosses(g, b, a)
  }

  /** Some chain reachable from `start` does so. */
  ghost predicate SharesChains(g: Chains, start: string) {
    exists y :: Reachable(g, start, y) && SharesBelow(g, y)
  }

  /** The same about a list of targets. */
  ghost predicate ListShares(g: Chains, ts: seq<string>) {
    (exists i :: 0 <= i < |ts| && SharesChains(g, ts[i])) || CrossInOrder(g, ts)
  }

  ghost predicate CrossInOrder(g: Chains, ts: seq<string>) {
    exists i, j :: 0 <= i < j < |ts| && Crosses(g, ts[i], ts[j])
  }

  ghost predicate SomeCrosses(g: Chains, ts: seq<string>, a: string) {
    exists i :: 0 <= i < |ts| && Crosses(g, ts[i], a)
  }

  lemma CrossInOrderSplit(g: Chains, ts: seq<string>)
    requires ts != []
    ensures var front, last := ts[..|ts| - 1], ts[|ts| - 1];
            CrossInOrder(g, ts) <==> CrossInOrder(g, front) || SomeCrosses(g, front, last)
  {
    var front, last := ts[..|ts| - 1], ts[|ts| - 1];
    assert forall i :: 0 <= i < |front| ==> ts[i] == front[i];
    if i, j :| 0 <= i < j < |ts| && Crosses(g, ts[i], ts[j]) {
      assert Crosses(g, front[i], ts[j]);
    }
    if i, j :| 0 <= i < j < |front| && Crosses(g, front[i], front[j]) {
      assert Crosses(g, ts[i], ts[j]);
    }
    if i :| 0 <= i < |front| && Crosses(g, front[i], last) {
      assert Crosses(g, ts[i], ts[|ts| - 1]);
    }
  }

  lemma InsideTargets(g: Chains, s: set<string>, rank: string -> nat, x: string)
    requires Inside(g, s, rank, [x]) && x in g
    ensures Inside(g, s, rank, Targets(g[x]))
  {
    TargetsAreChildren(g, x);
    assert x in [x];
  }

  lemma InsideParts(g: Chains, s: set<string>, rank: string -> nat, ts: seq<string>)
    requires Inside(g, s, rank, ts) && ts != []
    ensures Inside(g, s, rank, [ts[|ts| - 1]]) && Inside(g, s, rank, ts[..|ts| - 1])
  {
    assert ts[|ts| - 1] in ts;
    forall t | t in ts[..|ts| - 1] ensures t in s { assert t in ts; }
  }

  /** The walk meets exactly the reachable chains. */
  lemma {:induction false} WalkReaches(g: Chains, s: set<string>, rank: string -> nat, x: string, c: string)
    requires Inside(g, s, rank, [x])
    ensures c in Walk(g, s, rank, x) <==> Reachable(g, x, c)
    decreases rank(x) + 1, 0
  {
    ReachableSelf(g, x);
    if x in g {
      InsideTargets(g, s, rank, x);
      TargetsAreChildren(g, x);
      assert x in [x];
      WalkAllReaches(g, s, rank, Targets(g[x]), c);
      ReachableSplit(g, x, c);
    } else {
      forall c' ensures !Jumps(g, x, c') {}
      ReachableSplit(g, x, c);
    }
  }

  /** A chain is reached at once or through a jump. */
  lemma ReachableSplit(g: Chains, x: string, c: string)
    ensures Reachable(g, x, c) <==> c == x || exists t :: Jumps(g, x, t) && Reachable(g, t, c)
  {
    ReachableSelf(g, x);
    if Reachable(g, x, c) && c != x {
      var p :| IsPath(g, p) && p[0] == x && p[|p| - 1] == c;
      assert Jumps(g, p[0], p[1]);
      PathTail(g, p);
      assert p[1..][|p[1..]| - 1] == c;
      assert Reachable(g, p[1], c);
    }
    if t :| Jumps(g, x, t) && Reachable(g, t, c) {
      JumpReaches(g, x, t);
      ReachableTrans(g, x, t, c);
    }
  }

  lemma {:induction false} WalkAllReaches(g: Chains, s: set<string>, rank: string -> nat, ts: seq<string>, c: string)
    requires Inside(g, s, rank, ts)
    ensures c in WalkAll(g, s, rank, ts) <==> exists t :: t in ts && Reachable(g, t, c)
    decreases Bound(rank, ts), |ts|
  {
    if ts != [] {
      var front, last := ts[..|ts| - 1], ts[|ts| - 1];
      InsideParts(g, s, rank, ts);
      WalkReaches(g, s, rank, last, c);
      WalkAllReaches(g, s, rank, front, c);
      forall t ensures t in ts <==> t in front || t == last { FrontOrLast(ts, t); }
    }
  }

  lemma FrontOrLast(ts: seq<string>, t: string)
    requires ts != []
    ensures t in ts <==> t in ts[..|ts| - 1] || t == ts[|ts| - 1]
  {
    assert ts == ts[..|ts| - 1] + [ts[|ts| - 1]];
  }

  lemma NoBackwardConcat(g: Chains, a: seq<string>, b: seq<string>)
    ensures NoBackwardJump(g, a + b)
       <==> NoBackwardJump(g, a) && NoBackwardJump(g, b) && forall x, c :: x in b && Jumps(g, x, c) ==> c !in a
  {
    var w := a + b;
    assert forall i :: 0 <= i < |a| ==> w[i] == a[i] && w[..i] == a[..i];
    assert forall i :: 0 <= i < |b| ==> w[|a| + i] == b[i] && w[..|a| + i] == a + b[..i];
    if NoBackwardJump(g, w) {
      forall i, c | 0 <= i < |b| && Jumps(g, b[i], c) ensures c !in a && c !in b[..i] {
        assert c !in w[..|a| + i];
      }
    }
  }

  /** The walk from one chain is clean exactly when nothing is shared below it. */
  lemma {:induction false} WalkCleanIff(g: Chains, s: set<string>, rank: string -> nat, x: string)
    requires Inside(g, s, rank, [x])
    ensures NoBackwardJump(g, Walk(g, s, rank, x)) <==> !SharesChains(g, x)
    decreases rank(x) + 1, 0
  {
    assert x in [x];
    if x in g {
      var ts := Targets(g[x]);
      InsideTargets(g, s, rank, x);
      TargetsAreChildren(g, x);
      WalkAllCleanIff(g, s, rank, ts);
      NoBackwardConcat(g, [x], WalkAll(g, s, rank, ts));
      forall z, c | z in WalkAll(g, s, rank, ts) && Jumps(g, z, c) ensures c != x {
        WalkAllReaches(g, s, rank, ts, z);
        var t :| t in ts && Reachable(g, t, z);
        RankBelow(g, s, rank, t, z);
      }
      SharesSplit(g, x);
    } else {
      forall y | Reachable(g, x, y) ensures !SharesBelow(g, y) { ReachableSplit(g, x, y); }
    }
  }

  lemma RankBelow(g: Chains, s: set<string>, rank: string -> nat, x: string, y: string)
    requires Ranked(g, s, rank) && x in s && Reachable(g, x, y)
    ensures y in s && rank(y) <= rank(x)
  {
    var p :| IsPath(g, p) && p[0] == x && p[|p| - 1] == y;
    PathStaysIn(g, p, s);
    PathDescends(g, s, rank, p);
  }

  lemma {:induction false} WalkAllCleanIff(g: Chains, s: set<string>, rank: string -> nat, ts: seq<string>)
    requires Inside(g, s, rank, ts)
    ensures NoBackwardJump(g, WalkAll(g, s, rank, ts)) <==> !ListShares(g, ts)
    decreases Bound(rank, ts), |ts|
  {
    if ts != [] {
      var front, last := ts[..|ts| - 1], ts[|ts| - 1];
      InsideParts(g, s, rank, ts);
      WalkCleanIff(g, s, rank, last);
      WalkAllCleanIff(g, s, rank, front);
      NoBackwardConcat(g, Walk(g, s, rank, last), WalkAll(g, s, rank, front));
      CrossingWalks(g, s, rank, front, last);
      ListSharesSplit(g, ts);
    }
  }

  lemma CrossingWalks(g: Chains, s: set<string>, rank: string -> nat, front: seq<string>, last: string)
    requires Inside(g, s, rank, front) && Inside(g, s, rank, [last])
    ensures (exists x, c :: x in WalkAll(g, s, rank, front) && Jumps(g, x, c) && c in Walk(g, s, rank, last))
       <==> SomeCrosses(g, front, last)
  {
    if x, c :| x in WalkAll(g, s, rank, front) && Jumps(g, x, c) && c in Walk(g, s, rank, last) {
      WalkAllReaches(g, s, rank, front, x);
      WalkReaches(g, s, rank, last, c);
      var t :| t in front && Reachable(g, t, x);
      var i :| 0 <= i < |front| && front[i] == t;
      assert Crosses(g, front[i], last);
    }
    if i :| 0 <= i < |front| && Crosses(g, front[i], last) {
      var x, c :| Reachable(g, front[i], x) && Jumps(g, x, c) && Reachable(g, last, c);
      WalkAllReaches(g, s, rank, front, x);
      WalkReaches(g, s, rank, last, c);
      assert front[i] in front;
    }
  }

  lemma ListSharesSplit(g: Chains, ts: seq<string>)
    requires ts != []
    ensures var front, last := ts[..|ts| - 1], ts[|ts| - 1];
            ListShares(g, ts)
            <==> ListShares(g, front) || SharesChains(g, last) || SomeCrosses(g, front, last)
  {
    var front := ts[..|ts| - 1];
    assert forall i :: 0 <= i < |front| ==> ts[i] == front[i];
    CrossInOrderSplit(g, ts);
  }

  /** What is shared below a chain is shared by two of its rules or below a target. */
  lemma SharesSplit(g: Chains, x: string)
    requires x in g
    ensures SharesChains(g, x) <==> ListShares(g, Targets(g[x]))
  {
    var ts := Targets(g[x]);
    if SharesChains(g, x) {
      SharesInTargets(g, x);
    }
    if i :| 0 <= i < |ts| && SharesChains(g, ts[i]) {
      var y :| Reachable(g, ts[i], y) && SharesBelow(g, y);
      assert ts[i] in ts;
      TargetsAreChildren(g, x);
      JumpReaches(g, x, ts[i]);
      ReachableTrans(g, x, ts[i], y);
    }
    if i, j :| 0 <= i < j < |ts| && Crosses(g, ts[i], ts[j]) {
      assert PairAt(ts, ts[i], ts[j]);
      TargetPair(g, x, ts[i], ts[j]);
      assert SharesBelow(g, x);
      ReachableSelf(g, x);
    }
  }

  lemma SharesInTargets(g: Chains, x: string)
    requires x in g && SharesChains(g, x)
    ensures ListShares(g, Targets(g[x]))
  {
    var ts := Targets(g[x]);
    var y :| Reachable(g, x, y) && SharesBelow(g, y);
    ReachableSplit(g, x, y);
    if y == x {
      var r, t, b, a :| r < t && JumpsBy(g, x, r, b) && JumpsBy(g, x, t, a) && Crosses(g, b, a);
      assert RulePair(g, x, |g[x]|, b, a);
      TargetPair(g, x, b, a);
    } else {
      var t :| Jumps(g, x, t) && Reachable(g, t, y);
      TargetsAreChildren(g, x);
      var i :| 0 <= i < |ts| && ts[i] == t;
      assert SharesChains(g, ts[i]);
    }
  }

  ghost predicate PairAt(ts: seq<string>, b: string, a: string) {
    exists i, j :: 0 <= i < j < |ts| && ts[i] == b && ts[j] == a
  }

  lemma PairAtSnoc(front: seq<string>, last: string, b: string, a: string)
    ensures PairAt(front + [last], b, a) <==> PairAt(front, b, a) || (b in front && a == last)
  {
    var ts := front + [last];
    assert ts[|front|] == last && forall i :: 0 <= i < |front| ==> ts[i] == front[i];
    if b in front && a == last {
      var i :| 0 <= i < |front| && front[i] == b;
      assert ts[i] == b && ts[|front|] == a;
    }
  }

  ghost predicate RulePair(g: Chains, x: string, n: nat, b: string, a: string) {
    exists r, t :: r < t < n && JumpsBy(g, x, r, b) && JumpsBy(g, x, t, a)
  }

  lemma RulePairSnoc(g: Chains, x: string, n: nat, b: string, a: string)
    requires n > 0
    ensures RulePair(g, x, n, b, a)
       <==> RulePair(g, x, n - 1, b, a) || (JumpsBy(g, x, n - 1, a) && exists r :: r < n - 1 && JumpsBy(g, x, r, b))
  {
    if RulePair(g, x, n, b, a) {
      var r, t :| r < t < n && JumpsBy(g, x, r, b) && JumpsBy(g, x, t, a);
      assert t < n - 1 || t == n - 1;
    }
  }

  /** Pairs among the targets are pairs of rules. */
  lemma {:induction false} TargetPairs(g: Chains, x: string, n: nat, b: string, a: string)
    requires x in g && n <= |g[x]|
    ensures PairAt(Targets(g[x][..n]), b, a) <==> RulePair(g, x, n, b, a)
  {
    if n > 0 {
      TargetPairs(g, x, n - 1, b, a);
      TargetsAreJumps(g, x, n - 1);
      TargetsSnoc(g[x], n - 1);
      RulePairSnoc(g, x, n, b, a);
      var front := Targets(g[x][..n - 1]);
      if g[x][n - 1].jumpTarget.Some? {
        PairAtSnoc(front, g[x][n - 1].jumpTarget.value, b, a);
      } else {
        assert front + [] == front;
      }
    }
  }

  lemma TargetPair(g: Chains, x: string, b: string, a: string)
    requires x in g
    ensures PairAt(Targets(g[x]), b, a) <==> RulePair(g, x, |g[x]|, b, a)
  {
    TargetPairs(g, x, |g[x]|, b, a);
    assert g[x][..|g[x]|] == g[x];
  }

  // ---- the checker ------------------------------------------------------------------

  ghost predicate AllChainsOk(g: Chains, hook: string, start: string) {
    forall x :: Reachable(g, start, x) ==> ChainOk(g, hook, x)
  }

  /** The verdict on any acyclic graph: accepted exactly when the walk is clean. */
  ghost predicate AcceptsRanked(g: Chains, start: string, accepted: bool) {
    forall s, rank | start in s && Ranked(g, s, rank) :: accepted == WalkIsClean(g, s, rank, start)
  }

  lemma TargetsSnoc(rules: seq<Rule>, i: nat)
    requires i < |rules|
    ensures Targets(rules[..i + 1])
         == Targets(rules[..i]) + if rules[i].jumpTarget.Some? then [rules[i].jumpTarget.value] else []
  {
    assert rules[..i + 1][..i] == rules[..i];
  }

  /** What holds of the two lists before every pop. */
  ghost predicate Progress(g: Chains, hook: string, start: string, recursive: bool, seen: seq<string>, pending: seq<string>) {
    if recursive then
      && Invariant(g, hook, start, seen, pending)
      && (TreeLike(g, start) ==> QueuedOnce(g, start, seen, pending))
      && WalksExactly(g, start, seen, pending)
    else
      || (seen == [] && pending == [start])
      || (seen == [start] && pending == [] && ChainOk(g, hook, start))
  }

  lemma ProgressStart(g: Chains, hook: string, start: string, recursive: bool)
    ensures Progress(g, hook, start, recursive, [], [start])
  {
    ReachableSelf(g, start);
    WalksExactlyStart(g, start);
  }

  lemma ProgressTarget(g: Chains, hook: string, start: string, recursive: bool, seen: seq<string>, rest: seq<string>, x: string)
    requires Progress(g, hook, start, recursive, seen, rest + [x])
    ensures Reachable(g, start, x) && (!recursive ==> x == start)
  {
    var pending := rest + [x];
    assert pending[|rest|] == x && x in seen + pending;
    ReachableSelf(g, start);
  }

  lemma ProgressStep(g: Chains, hook: string, start: string, recursive: bool, seen: seq<string>, rest: seq<string>, x: string)
    requires Progress(g, hook, start, recursive, seen, rest + [x]) && ChainOk(g, hook, x)
    requires recursive ==> forall c :: c in Targets(g[x]) ==> c !in seen
    ensures Progress(g, hook, start, recursive, seen + [x], if recursive then rest + Targets(g[x]) else rest)
    ensures Unseen(g, seen + [x]) < Unseen(g, seen)
         || (Unseen(g, seen + [x]) == Unseen(g, seen) && (recursive ==> Targets(g[x]) == []))
  {
    if recursive {
      InvariantStep(g, hook, start, seen, rest, x);
      if TreeLike(g, start) {
        QueuedOnceStep(g, hook, start, seen, rest, x);
      }
      RevisitIsLeaf(g, seen, rest, x);
      WalksExactlyStep(g, start, seen, rest, x);
    } else {
      assert |rest + [x]| == 1 && (rest + [x])[0] == x;
    }
    UnseenShrinks(g, seen, x);
  }

  lemma ProgressDone(g: Chains, hook: string, start: string, recursive: bool, seen: seq<string>)
    requires Progress(g, hook, start, recursive, seen, [])
    ensures recursive ==> AllChainsOk(g, hook, start) && AcyclicFrom(g, start) && AcceptsRanked(g, start, true)
    ensures !recursive ==> ChainOk(g, hook, start)
  {
    if recursive {
      WalkedClean(g, start, seen);
      AcceptedGraph(g, hook, start, seen);
    }
  }

  /** A jump back to a traversed chain only occurs where chains are shared. */
  lemma LoopIsNoTree(g: Chains, hook: string, start: string, seen: seq<string>, rest: seq<string>, x: string, c: string)
    requires Progress(g, hook, start, true, seen, rest + [x])
    requires x in g && HasTarget(g[x], c) && c in seen
    ensures !TreeLike(g, start) && Jumps(g, x, c) && AcceptsRanked(g, start, false)
  {
    var r :| 0 <= r < |g[x]| && g[x][r].jumpTarget == Some(c);
    assert JumpsBy(g, x, r, c);
    WalkedBackward(g, start, seen, rest, x, c);
    if TreeLike(g, start) {
      TargetsAreNew(g, hook, start, seen, rest, x, c);
    }
  }

  lemma IpsecSnoc(hook: string, rules: seq<Rule>, i: nat)
    requires i < |rules| && IpsecOk(hook, rules[..i])
    ensures hook == "output" && (rules[i].matchIpsecIn || rules[i].matchNoneIn) ==> !IpsecOk(hook, rules)
    ensures !(hook == "output" && (rules[i].matchIpsecIn || rules[i].matchNoneIn)) ==> IpsecOk(hook, rules[..i + 1])
  {
    forall r | 0 <= r < i ensures rules[..i + 1][r] == rules[..i][r] == rules[r] {
    }
  }

  /** The loop over the rules of one chain: an error, or the chains to visit next. */
  method CheckRules(target: string, targetRules: seq<Rule>, hook: string, recursive: bool,
                    targetsSeen: seq<string>, pending: seq<string>)
    returns (v: Verdict, targetsPending: seq<string>)
    ensures v.Accept? ==> IpsecOk(hook, targetRules) && targetsPending == (if recursive then pending + Targets(targetRules) else pending)
    ensures v.Accept? && recursive ==> forall c :: c in Targets(targetRules) ==> c !in targetsSeen
    ensures !v.NoSuchChain? && (v.IpsecConflict? ==> v.target == target && !IpsecOk(hook, targetRules))
    ensures v.Loop? ==> recursive && v.target == target && v.child in targetsSeen && HasTarget(targetRules, v.child)
  {
    targetsPending := pending;
    var noIpsecIn := hook in ["output"];
    assert noIpsecIn <==> hook == "output";
    for i := 0 to |targetRules|
      invariant IpsecOk(hook, targetRules[..i])
      invariant targetsPending == if recursive then pending + Targets(targetRules[..i]) else pending
      invariant recursive ==> forall c :: c in Targets(targetRules[..i]) ==> c !in targetsSeen
    {
      var rule := targetRules[i];
      TargetsSnoc(targetRules, i);
      IpsecSnoc(hook, targetRules, i);
      if noIpsecIn && (rule.matchIpsecIn || rule.matchNoneIn) {
        return IpsecConflict(target), targetsPending;
      }
      if recursive && rule.jumpTarget.Some? {
        var child := rule.jumpTarget.value;
        if child in targetsSeen {
          return Loop(target, child), targetsPending;
        }
        targetsPending := targetsPending + [child];
      }
    }
    assert targetRules[..|targetRules|] == targetRules;
    return Accept, targetsPending;
  }

  /** On an acyclic graph the trace of the worklist comes to a property of the paths. */
  lemma AcceptsUnshared(g: Chains, start: string, accepted: bool)
    requires AcceptsRanked(g, start, accepted) && AcyclicFrom(g, start)
    requires forall x :: Reachable(g, start, x) ==> x in g
    ensures accepted <==> !SharesChains(g, start)
  {
    AcyclicIsRanked(g, start);
    var s, rank := ReachedFrom(g, start), x => |ReachedFrom(g, x)|;
    assert accepted == WalkIsClean(g, s, rank, start);
    WalkCleanIff(g, s, rank, start);
  }

  /**
    What a verdict says about the graph. The recursive checker accepts exactly the
    sound acyclic graphs in which no two rules of a chain share chains below.
   */
  ghost predicate VerdictIsRight(g: Chains, hook: string, start: string, recursive: bool, v: Verdict) {
    && (recursive ==> (v.Accept? <==> AllChainsOk(g, hook, start) && AcyclicFrom(g, start) && !SharesChains(g, start)))
    && (recursive && AllChainsOk(g, hook, start) && TreeLike(g, start) ==> v.Accept?)
    && (!recursive ==> (v.Accept? <==> ChainOk(g, hook, start)))
    && (v.NoSuchChain? ==> Reachable(g, start, v.target) && v.target !in g)
    && (v.IpsecConflict? ==> Reachable(g, start, v.target) && v.target in g && !IpsecOk(hook, g[v.target]))
    && (v.Loop? ==> && recursive && Reachable(g, start, v.target)
                    && Jumps(g, v.target, v.child) && !TreeLike(g, start))
  }

  /** The three ways to refuse the chain just popped. */
  lemma RefusalIsRight(g: Chains, hook: string, start: string, recursive: bool,
                       seen: seq<string>, rest: seq<string>, x: string, v: Verdict)
    requires Progress(g, hook, start, recursive, seen, rest + [x])
    requires !v.Accept? && v.target == x && (v.NoSuchChain? <==> x !in g)
    requires v.IpsecConflict? ==> !IpsecOk(hook, g[x])
    requires v.Loop? ==> recursive && HasTarget(g[x], v.child) && v.child in seen
    ensures VerdictIsRight(g, hook, start, recursive, v)
  {
    ProgressTarget(g, hook, start, recursive, seen, rest, x);
    if v.Loop? {
      LoopIsNoTree(g, hook, start, seen, rest, x, v.child);
      if AllChainsOk(g, hook, start) && AcyclicFrom(g, start) {
        AcceptsUnshared(g, start, false);
      }
    }
  }

  lemma AcceptIsRight(g: Chains, hook: string, start: string, recursive: bool, seen: seq<string>)
    requires Progress(g, hook, start, recursive, seen, [])
    ensures VerdictIsRight(g, hook, start, recursive, Accept)
  {
    ProgressDone(g, hook, start, recursive, seen);
    if recursive {
      AcceptsUnshared(g, start, true);
    }
  }

  /** `a` jumps to `b`, then to `d`, and `b` jumps to `d`. */
  ghost predicate IsDiamond(g: Chains, a: string, b: string, d: string) {
    && a != b && a != d && b != d && g.Keys == {a, b, d}
    && g[a] == [Rule(Some(b), false, false), Rule(Some(d), false, false)]
    && g[b] == [Rule(Some(d), false, false)] && g[d] == []
  }

  lemma DiamondIsRanked(g: Chains, a: string, b: string, d: string)
    requires IsDiamond(g, a, b, d)
    ensures Ranked(g, {a, b, d}, x => if x == a then 2 else if x == b then 1 else 0)
  {
    forall x, c | Jumps(g, x, c) ensures (x == a && c in {b, d}) || (x == b && c == d) {
      var r :| JumpsBy(g, x, r, c);
    }
  }

  lemma DiamondShares(g: Chains, a: string, b: string, d: string)
    requires IsDiamond(g, a, b, d)
    ensures SharesChains(g, a)
  {
    assert JumpsBy(g, a, 0, b) && JumpsBy(g, a, 1, d) && JumpsBy(g, b, 0, d);
    ReachableSelf(g, a);
    ReachableSelf(g, b);
    ReachableSelf(g, d);
    assert Jumps(g, b, d) && Crosses(g, b, d);
    assert SharesBelow(g, a);
  }

  lemma DiamondIsSound(g: Chains, hook: string, a: string, b: string, d: string)
    requires IsDiamond(g, a, b, d)
    ensures AllChainsOk(g, hook, a) && AcyclicFrom(g, a)
  {
    var s, rank := {a, b, d}, x => if x == a then 2 else if x == b then 1 else 0;
    DiamondIsRanked(g, a, b, d);
    RankedIsAcyclic(g, s, rank, a);
    forall x | Reachable(g, a, x) ensures ChainOk(g, hook, x) { RankBelow(g, s, rank, a, x); }
  }

  /** Sharing is enough to be refused: this graph is sound and acyclic, and its verdict is a loop. */
  lemma SharedChainIsRefused(hook: string, v: Verdict)
    requires VerdictIsRight(Diamond(), hook, "a", true, v)
    ensures AllChainsOk(Diamond(), hook, "a") && AcyclicFrom(Diamond(), "a") && v.Loop?
  {
    DiamondIsSound(Diamond(), hook, "a", "b", "d");
    DiamondShares(Diamond(), "a", "b", "d");
  }

  function Diamond(): Chains {
    map["a" := [Rule(Some("b"), false, false), Rule(Some("d"), false, false)],
        "b" := [Rule(Some("d"), false, false)],
        "d" := []]
  }

  method VerifyJumpTarget(family: Family, hook: string, jumpTarget: string, recursive: bool)
    returns (v: Verdict)
    ensures VerdictIsRight(ChainsOf(family), hook, jumpTarget, recursive, v)
  {
    ghost var g := ChainsOf(family);
    var targetsSeen: seq<string> := [];
    var targetsPending := [jumpTarget];
    ProgressStart(g, hook, jumpTarget, recursive);
    while targetsPending != []
      invariant Progress(g, hook, jumpTarget, recursive, targetsSeen, targetsPending)
      decreases Unseen(g, targetsSeen), |targetsPending|
    {
      var target := targetsPending[|targetsPending| - 1];
      ghost var rest := targetsPending[..|targetsPending| - 1];
      assert targetsPending == rest + [target];
      targetsPending := targetsPending[..|targetsPending| - 1];

      if family.NoNames? || target !in family.chains {
        RefusalIsRight(g, hook, jumpTarget, recursive, targetsSeen, rest, target, NoSuchChain(target));
        return NoSuchChain(target);
      }
      v, targetsPending := CheckRules(target, family.chains[target], hook, recursive, targetsSeen, targetsPending);
      if !v.Accept? {
        RefusalIsRight(g, hook, jumpTarget, recursive, targetsSeen, rest, target, v);
        return;
      }
      ProgressStep(g, hook, jumpTarget, recursive, targetsSeen, rest, target);
      targetsSeen := targetsSeen + [target];
    }
    AcceptIsRight(g, hook, jumpTarget, recursive, targetsSeen);
    return Accept;
  }
}
