/**
  The queue of dependent configuration scripts (python/vyos/configdep.py).
 */
module ConfigDep {
  import opened Wrappers
  import opened BagOrder

  /** A queued closure: a fresh object (`id`) for a target script and a tag. */
  datatype Func = Func(id: nat, target: string, tag: Option<string>) {
    /** The closure's `__name__`. */
    function Name(): string {
      if tag.Some? then target + "_" + tag.value else target
    }

    /** The name `run_conditionally` looks for: an empty tag leaves no trace in it. */
    function ScriptName(): string {
      if tag.Some? && tag.value != "" then target + "_" + tag.value else target
    }
  }

  // ---- removing redundant entries -------------------------------------------------

  ghost predicate Named(l: seq<Func>, name: string) {
    exists i :: 0 <= i < |l| && l[i].Name() == name
  }

  /** The last occurrence of each name, in the original order. */
  ghost function LastOccurrences(l: seq<Func>): seq<Func> {
    if l == [] then []
    else if Named(l[1..], l[0].Name()) then LastOccurrences(l[1..])
    else [l[0]] + LastOccurrences(l[1..])
  }

  ghost predicate DistinctNames(l: seq<Func>) {
    forall i, j :: 0 <= i < j < |l| ==> l[i].Name() != l[j].Name()
  }

  lemma NamedCons(l: seq<Func>, name: string)
    requires l != []
    ensures Named(l, name) <==> l[0].Name() == name || Named(l[1..], name)
  {
    if Named(l[1..], name) {
      var i :| 0 <= i < |l[1..]| && l[1..][i].Name() == name;
      assert l[i + 1].Name() == name;
    }
  }

  lemma {:induction false} LastOccurrencesNames(l: seq<Func>, name: string)
    ensures Named(LastOccurrences(l), name) <==> Named(l, name)
  {
    if l != [] {
      NamedCons(l, name);
      LastOccurrencesNames(l[1..], name);
      var r := LastOccurrences(l[1..]);
      NamedCons([l[0]] + r, name);
      assert ([l[0]] + r)[1..] == r;
    }
  }

  lemma {:induction false} LastOccurrencesDistinct(l: seq<Func>)
    ensures DistinctNames(LastOccurrences(l))
  {
    if l != [] {
      LastOccurrencesDistinct(l[1..]);
      LastOccurrencesNames(l[1..], l[0].Name());
    }
  }

  /** The entry kept for a name is the last one that bears it. */
  lemma {:induction false} LastOccurrencesKeepsLast(l: seq<Func>, f: Func)
    ensures f in LastOccurrences(l)
       <==> exists i :: 0 <= i < |l| && l[i] == f && !Named(l[i + 1..], f.Name())
  {
    if l != [] {
      LastOccurrencesKeepsLast(l[1..], f);
      if i :| 0 <= i < |l[1..]| && l[1..][i] == f && !Named(l[1..][i + 1..], f.Name()) {
        assert l[i + 1] == f && l[i + 2..] == l[1..][i + 1..];
      }
      if i :| 0 <= i < |l| && l[i] == f && !Named(l[i + 1..], f.Name()) {
        if i > 0 { assert l[1..][i - 1] == f && l[1..][i - 1 + 1..] == l[i + 1..]; }
      }
    }
  }

  // ---- names, targets and tags ----------------------------------------------------------

  /** One text is the other, an underscore and more. */
  ghost predicate Extends(long: string, short: string) {
    |short| < |long| && long[..|short|] == short && long[|short|] == '_'
  }

  /** A name is the target, or the target, an underscore and the tag. */
  lemma NameParts(f: Func)
    ensures f.target <= f.Name() && (f.tag.None? ==> f.Name() == f.target)
    ensures f.tag.Some? ==> Extends(f.Name(), f.target) && f.Name()[|f.target| + 1..] == f.tag.value
  {
    if f.tag.Some? {
      assert f.Name() == f.target + ("_" + f.tag.value);
      assert f.Name()[|f.target| + 1..] == f.tag.value;
    }
  }

  /** Names tell entries apart, unless one's target extends the other's. */
  lemma SameName(f: Func, g: Func)
    requires !Extends(f.target, g.target) && !Extends(g.target, f.target)
    ensures f.Name() == g.Name() <==> f.target == g.target && f.tag == g.tag
  {
    NameParts(f);
    NameParts(g);
    if f.Name() == g.Name() {
      SameNamePart(f, g);
      SameNamePart(g, f);
    }
  }

  lemma SameNamePart(f: Func, g: Func)
    requires f.Name() == g.Name()
    ensures |f.target| < |g.target| ==> Extends(g.target, f.target)
    ensures |f.target| == |g.target| ==> f.target == g.target && f.tag == g.tag
  {
    NameParts(f);
    NameParts(g);
    var name := f.Name();
    assert f.target == name[..|f.target|] && g.target == name[..|g.target|];
    if |f.target| < |g.target| {
      assert g.target[..|f.target|] == name[..|f.target|];
      assert g.target[|f.target|] == name[|f.target|];
    }
  }

  /** Where one does, a tag can make their names clash, and then the later entry replaces the other. */
  lemma ClashingTargets(f: Func, g: Func)
    requires f.tag.None? && Extends(f.target, g.target) && g.tag == Some(f.target[|g.target| + 1..])
    ensures f.Name() == g.Name() && LastOccurrences([f, g]) == [g]
  {
    NameParts(g);
    assert f.target == f.target[..|g.target|] + ("_" + f.target[|g.target| + 1..]);
    assert f.Name() == g.Name();
    assert [f, g] == [f] + [g] && [g] == [g] + [];
    assert [g][0].Name() == f.Name() && !Named([], g.Name());
    LastOccurrencesCons(f, [g]);
    LastOccurrencesCons(g, []);
  }

  /** No target of the entries extends another one's. */
  ghost predicate TargetsApart(l: seq<Func>) {
    forall f, g :: f in l && g in l ==> !Extends(f.target, g.target)
  }

  /** Then the entries kept are the last ones for their target and tag. */
  lemma KeepsLastOfTag(l: seq<Func>, f: Func)
    requires TargetsApart(l)
    ensures f in LastOccurrences(l)
       <==> exists i :: 0 <= i < |l| && l[i] == f && forall j :: i < j < |l| ==> l[j].target != f.target || l[j].tag != f.tag
  {
    LastOccurrencesKeepsLast(l, f);
    forall i | 0 <= i < |l| && l[i] == f
      ensures Named(l[i + 1..], f.Name()) <==> exists j :: i < j < |l| && l[j].target == f.target && l[j].tag == f.tag
    {
      NamedLater(l, i);
    }
  }

  lemma NamedLater(l: seq<Func>, i: nat)
    requires TargetsApart(l) && i < |l|
    ensures Named(l[i + 1..], l[i].Name()) <==> exists j :: i < j < |l| && l[j].target == l[i].target && l[j].tag == l[i].tag
  {
    assert l[i] in l;
    var rest := l[i + 1..];
    if k :| 0 <= k < |rest| && rest[k].Name() == l[i].Name() {
      assert rest[k] == l[i + 1 + k] && l[i + 1 + k] in l;
      SameName(l[i + 1 + k], l[i]);
    }
    if j :| i < j < |l| && l[j].target == l[i].target && l[j].tag == l[i].tag {
      assert l[i + 1..][j - i - 1].Name() == l[i].Name();
    }
  }

  /** In particular `append_uniq` to a reduced list drops what has the target and tag of the new entry, and nothing else. */
  lemma AppendedDrops(l: seq<Func>, e: Func, f: Func)
    requires TargetsApart(l + [e]) && DistinctNames(l) && f in l && f != e
    ensures f in LastOccurrences(l + [e]) <==> f.target != e.target || f.tag != e.tag
  {
    var l' := l + [e];
    var i :| 0 <= i < |l| && l[i] == f;
    assert l'[i] == f && l'[|l|] == e && f in l' && e in l';
    SameName(f, e);
    KeepsLastOfTag(l', f);
    forall j | 0 <= j < |l| && j != i ensures l[j].target != f.target || l[j].tag != f.tag {
      assert l[j].Name() != l[i].Name();
      assert l'[j] == l[j] && l[j] in l';
    }
  }

  lemma {:induction false} LastOccurrencesInOrder(l: seq<Func>)
    ensures IsSubsequence(LastOccurrences(l), l)
  {
    if l != [] {
      LastOccurrencesInOrder(l[1..]);
      assert LastOccurrences(l) != [] ==> LastOccurrences(l)[1..] == LastOccurrences(l[1..]) || LastOccurrences(l) == LastOccurrences(l[1..]);
    }
  }

  lemma {:induction false} DistinctIsFixed(l: seq<Func>)
    requires DistinctNames(l)
    ensures LastOccurrences(l) == l
  {
    if l != [] {
      DistinctIsFixed(l[1..]);
    }
  }

  ghost function Without(l: seq<Func>, k: nat): seq<Func>
    requires k < |l|
  {
    l[..k] + l[k + 1..]
  }

  /** Dropping an entry whose name occurs again later changes nothing that is kept. */
  lemma {:induction false} DropRedundant(l: seq<Func>, k: nat)
    requires k < |l| && Named(l[k + 1..], l[k].Name())
    ensures LastOccurrences(Without(l, k)) == LastOccurrences(l)
  {
    if k == 0 {
      assert Without(l, 0) == l[1..];
    } else {
      WithoutTail(l, k);
      DropRedundant(l[1..], k - 1);
      DropRedundantNames(l[1..], k - 1, l[0].Name());
      LastOccurrencesNewHead(l[0], Without(l[1..], k - 1), l[1..]);
    }
  }

  lemma WithoutTail(l: seq<Func>, k: nat)
    requires 0 < k < |l|
    ensures l == [l[0]] + l[1..] && l[1..][k - 1] == l[k] && l[1..][k..] == l[k + 1..]
    ensures Without(l, k) == [l[0]] + Without(l[1..], k - 1)
  {
  }

  lemma DropRedundantNames(l: seq<Func>, k: nat, name: string)
    requires k < |l| && Named(l[k + 1..], l[k].Name())
    ensures Named(Without(l, k), name) <==> Named(l, name)
  {
    var w := Without(l, k);
    if i :| 0 <= i < |l| && l[i].Name() == name {
      if i < k {
        assert w[i] == l[i];
      } else {
        var j :| 0 <= j < |l[k + 1..]| && l[k + 1..][j].Name() == if i == k then l[k].Name() else l[k + 1..][i - k - 1].Name();
        assert w[k + j] == l[k + 1..][j];
      }
    }
  }

  lemma LastOccurrencesCons(f: Func, l: seq<Func>)
    ensures LastOccurrences([f] + l) == if Named(l, f.Name()) then LastOccurrences(l) else [f] + LastOccurrences(l)
  {
    assert ([f] + l)[1..] == l;
  }

  lemma LastOccurrencesNewHead(f: Func, x: seq<Func>, y: seq<Func>)
    requires LastOccurrences(x) == LastOccurrences(y)
    requires Named(x, f.Name()) <==> Named(y, f.Name())
    ensures LastOccurrences([f] + x) == LastOccurrences([f] + y)
  {
    LastOccurrencesCons(f, x);
    LastOccurrencesCons(f, y);
  }

  lemma HeadConcat(f: Func, x: seq<Func>, y: seq<Func>)
    ensures ([f] + x) + y == [f] + (x + y)
  {
  }

  /** `append_uniq` for each of `added`. */
  ghost function Appended(l: seq<Func>, added: seq<Func>): seq<Func> {
    if added == [] then l else LastOccurrences(l + added)
  }

  /** One more `append_uniq` after those for `added`. */
  lemma AppendedOneMore(l: seq<Func>, added: seq<Func>, f: Func)
    ensures LastOccurrences(Appended(l, added) + [f]) == Appended(l, added + [f])
  {
    ReducedAppend(l + added, [f]);
    assert (l + added) + [f] == l + (added + [f]);
    assert l + [] == l;
  }

  /** Appending to a list that was already reduced: the calls of `append_uniq` add up. */
  lemma {:induction false} ReducedAppend(a: seq<Func>, b: seq<Func>)
    ensures LastOccurrences(LastOccurrences(a) + b) == LastOccurrences(a + b)
  {
    if a == [] {
      assert [] + b == b && a + b == b;
    } else {
      var f, rest := a[0], a[1..];
      var reduced := LastOccurrences(rest);
      ReducedAppend(rest, b);
      LastOccurrencesNames(rest, f.Name());
      NamedConcat(rest, b, f.Name());
      NamedConcat(reduced, b, f.Name());
      HeadConcat(f, rest, b);
      assert a == [f] + rest;
      if Named(rest, f.Name()) {
        LastOccurrencesCons(f, rest + b);
        assert LastOccurrences(a) == reduced;
      } else {
        LastOccurrencesNewHead(f, reduced + b, rest + b);
        assert LastOccurrences(a) == [f] + reduced;
        HeadConcat(f, reduced, b);
      }
    }
  }

  lemma NamedConcat(a: seq<Func>, b: seq<Func>, name: string)
    ensures Named(a + b, name) <==> Named(a, name) || Named(b, name)
  {
    if i :| 0 <= i < |b| && b[i].Name() == name {
      assert (a + b)[|a| + i].Name() == name;
    }
    if i :| 0 <= i < |a| && a[i].Name() == name {
      assert (a + b)[i].Name() == name;
    }
  }

  // ---- the dependency dictionary -----------------------------------------------------

  /** Script, then case, to the scripts that depend on it. */
  type Dependencies = map<string, map<string, seq<string>>>

  ghost predicate DependsOn(d: Dependencies, script: string, target: string) {
    script in d && exists c :: c in d[script] && target in d[script][c]
  }

  /** For each script, all its dependents, whatever the case. */
  function Graph(d: Dependencies): map<string, set<string>> {
    map k | k in d :: set c, i | c in d[k] && 0 <= i < |d[k][c]| :: d[k][c][i]
  }

  lemma GraphEdges(d: Dependencies, k: string, t: string)
    ensures k in Graph(d) && t in Graph(d)[k] <==> DependsOn(d, k, t)
  {
    if DependsOn(d, k, t) {
      var c :| c in d[k] && t in d[k][c];
      var i :| 0 <= i < |d[k][c]| && d[k][c][i] == t;
    }
  }

  method GraphFromDependencyDict(d: Dependencies) returns (g: map<string, set<string>>)
    ensures g == Graph(d)
  {
    g := map[];
    var keys := d.Keys;
    while keys != {}
      invariant keys <= d.Keys && g.Keys == d.Keys - keys
      invariant forall k :: k in g ==> g[k] == Graph(d)[k]
    {
      var k :| k in keys;
      keys := keys - {k};
      g := g[k := {}];
      var cases := d[k].Keys;
      while cases != {}
        invariant cases <= d[k].Keys && k in g && g.Keys == d.Keys - keys
        invariant forall j :: j in g && j != k ==> g[j] == Graph(d)[j]
        invariant forall t :: t in g[k] <==> exists c :: c in d[k] && c !in cases && t in d[k][c]
      {
        var c :| c in cases;
        cases := cases - {c};
        g := g[k := g[k] + (set t | t in d[k][c])];
      }
      forall t ensures t in g[k] <==> t in Graph(d)[k] {
        GraphEdges(d, k, t);
      }
    }
  }

  /** A topological order, predecessors first, as `TopologicalSorter.static_order` yields it. */
  ghost predicate IsTopological(g: map<string, set<string>>, order: seq<string>) {
    && (forall i, j :: 0 <= i < j < |order| ==> order[i] != order[j])
    && forall k, t :: k in g && t in g[k] ==> Precedes(order, t, k)
  }

  ghost predicate Precedes(order: seq<string>, t: string, k: string) {
    exists i, j :: 0 <= i < j < |order| && order[i] == t && order[j] == k
  }

  /** `is_acyclic`: the sorter finds an order. */
  ghost predicate IsAcyclic(d: Dependencies) {
    exists order :: IsTopological(Graph(d), order)
  }

  ghost predicate Ranks(d: Dependencies, rank: string -> nat) {
    forall k, t :: DependsOn(d, k, t) ==> rank(t) < rank(k)
  }

  lemma DependentsRankLower(d: Dependencies, rank: string -> nat, script: string, c: string)
    requires Ranks(d, rank) && script in d && c in d[script]
    ensures forall i :: 0 <= i < |d[script][c]| ==> rank(d[script][c][i]) < rank(script)
  {
    forall i | 0 <= i < |d[script][c]| ensures rank(d[script][c][i]) < rank(script) {
      assert DependsOn(d, script, d[script][c][i]);
    }
  }

  ghost function Position(order: seq<string>, x: string): nat {
    if order == [] || order[0] == x then 0 else 1 + Position(order[1..], x)
  }

  lemma {:induction false} PositionOf(order: seq<string>, i: nat)
    requires forall i, j :: 0 <= i < j < |order| ==> order[i] != order[j]
    requires i < |order|
    ensures Position(order, order[i]) == i
  {
    if i > 0 {
      PositionOf(order[1..], i - 1);
    }
  }

  /** A topological order ranks the scripts: dependents are ranked lower. */
  lemma AcyclicRanks(d: Dependencies) returns (rank: string -> nat)
    requires IsAcyclic(d)
    ensures Ranks(d, rank)
  {
    var order :| IsTopological(Graph(d), order);
    rank := (x: string) => Position(order, x);
    forall k, t | DependsOn(d, k, t) ensures rank(t) < rank(k) {
      GraphEdges(d, k, t);
      assert Precedes(order, t, k);
      var i, j :| 0 <= i < j < |order| && order[i] == t && order[j] == k;
      PositionOf(order, i);
      PositionOf(order, j);
    }
  }

  // ---- measures and promises --------------------------------------------------------------

  ghost function RankBag(rank: string -> nat, l: seq<Func>): Bag {
    if l == [] then multiset{} else multiset{rank(l[0].target)} + RankBag(rank, l[1..])
  }

  lemma RankBagCons(rank: string -> nat, f: Func, l: seq<Func>)
    ensures RankBag(rank, [f] + l) == multiset{rank(f.target)} + RankBag(rank, l)
  {
    assert ([f] + l)[1..] == l;
  }

  lemma {:induction false} RankBagConcat(rank: string -> nat, a: seq<Func>, b: seq<Func>)
    ensures RankBag(rank, a + b) == RankBag(rank, a) + RankBag(rank, b)
  {
    if a == [] {
      assert a + b == b;
    } else {
      var f, rest := a[0], a[1..];
      assert a == [f] + rest && a + b == [f] + (rest + b);
      RankBagCons(rank, f, rest);
      RankBagCons(rank, f, rest + b);
      RankBagConcat(rank, rest, b);
    }
  }

  lemma {:induction false} RankBagReduced(rank: string -> nat, l: seq<Func>)
    ensures RankBag(rank, LastOccurrences(l)) <= RankBag(rank, l)
  {
    if l != [] {
      RankBagReduced(rank, l[1..]);
      var r := LastOccurrences(l[1..]);
      assert ([l[0]] + r)[1..] == r;
    }
  }

  datatype Event = Queued(f: Func) | Ran(f: Func) | Deferred(f: Func)

  ghost predicate ServedAfter(log: seq<Event>, i: int, name: string) {
    exists j :: 0 <= i < j < |log| && !log[j].Queued? && log[j].f.Name() == name
  }

  /** Whatever was queued has been served since, or its name is still waiting. */
  ghost predicate AllServedOrWaiting(log: seq<Event>, l: seq<Func>) {
    forall i :: 0 <= i < |log| && log[i].Queued? ==>
      ServedAfter(log, i, log[i].f.Name()) || Named(l, log[i].f.Name())
  }

  /** The commit's script lists, fixed while dependents run. */
  datatype Commit = Commit(scriptsCalled: seq<string>, commitScripts: seq<string>) {
    predicate Defers(f: Func) {
      f.ScriptName() in commitScripts && f.ScriptName() !in scriptsCalled
    }

    /** What becomes of a popped entry. */
    function Served(f: Func): Event {
      if Defers(f) then Deferred(f) else Ran(f)
    }
  }

  /** A script still to come in this commit is left to its own turn. */
  ghost predicate IsPending(commit: Commit, script: string) {
    script in commit.commitScripts && script !in commit.scriptsCalled
  }

  /** The script of an entry: the target, extended by the tag if it has one that is not empty. */
  ghost predicate IsScriptOf(f: Func, script: string) {
    match f.tag
    case None => script == f.target
    case Some(t) => script == if t == "" then f.target else f.target + "_" + t
  }

  /** An entry is deferred exactly if its script is still to come. */
  ghost predicate RightlyServed(commit: Commit, log: seq<Event>) {
    forall j, script :: 0 <= j < |log| && IsScriptOf(log[j].f, script) ==>
      (log[j].Ran? ==> !IsPending(commit, script)) && (log[j].Deferred? ==> IsPending(commit, script))
  }

  ghost predicate ServedTag(log: seq<Event>, i: int, f: Func) {
    exists j :: 0 <= i < j < |log| && !log[j].Queued? && log[j].f.target == f.target && log[j].f.tag == f.tag
  }

  /** No target in the log extends another one. */
  ghost predicate LogApart(log: seq<Event>) {
    forall i, j :: 0 <= i < |log| && 0 <= j < |log| ==> !Extends(log[i].f.target, log[j].f.target)
  }

  /** What was served by name was then served for that very target and tag. */
  lemma ServedByTag(log: seq<Event>, i: nat)
    requires LogApart(log) && i < |log| && ServedAfter(log, i, log[i].f.Name())
    ensures ServedTag(log, i, log[i].f)
  {
    var j :| i < j < |log| && !log[j].Queued? && log[j].f.Name() == log[i].f.Name();
    SameName(log[j].f, log[i].f);
  }

  /** Every entry queued was run or deferred later, with its own target and tag if these tell the names apart. */
  ghost predicate AllServed(log: seq<Event>) {
    forall i :: 0 <= i < |log| && log[i].Queued? ==>
      ServedAfter(log, i, log[i].f.Name()) && (LogApart(log) ==> ServedTag(log, i, log[i].f))
  }

  lemma QueueEvent(log: seq<Event>, l: seq<Func>, f: Func, l': seq<Func>)
    requires AllServedOrWaiting(log, l) && l' == LastOccurrences(l + [f])
    ensures AllServedOrWaiting(log + [Queued(f)], l')
  {
    var log' := log + [Queued(f)];
    forall i | 0 <= i < |log'| && log'[i].Queued?
      ensures ServedAfter(log', i, log'[i].f.Name()) || Named(l', log'[i].f.Name())
    {
      var name := log'[i].f.Name();
      LastOccurrencesNames(l + [f], name);
      NamedConcat(l, [f], name);
      if i == |log| {
        assert [f][0].Name() == name;
      } else if ServedAfter(log, i, name) {
        var j :| i < j < |log| && !log[j].Queued? && log[j].f.Name() == name;
        assert log'[j] == log[j];
      }
    }
  }

  lemma ServeEvent(log: seq<Event>, l: seq<Func>, e: Event)
    requires l != [] && AllServedOrWaiting(log, l) && !e.Queued? && e.f == l[0]
    ensures AllServedOrWaiting(log + [e], l[1..])
  {
    var log' := log + [e];
    forall i | 0 <= i < |log'| && log'[i].Queued?
      ensures ServedAfter(log', i, log'[i].f.Name()) || Named(l[1..], log'[i].f.Name())
    {
      var name := log'[i].f.Name();
      NamedCons(l, name);
      if ServedAfter(log, i, name) {
        var j :| i < j < |log| && !log[j].Queued? && log[j].f.Name() == name;
        assert log'[j] == log[j];
      } else if l[0].Name() == name {
        assert log'[|log|] == e;
      }
    }
  }

  // ---- the queue ------------------------------------------------------------------------------

  class DependencyQueue {
    var list: seq<Func>
    var nextId: nat
    const dependencies: Dependencies
    const commit: Commit
    /** What has happened so far. */
    ghost var log: seq<Event>

    ghost predicate Valid()
      reads this
    {
      AllServedOrWaiting(log, list) && RightlyServed(commit, log)
    }

    constructor (dependencies: Dependencies, commit: Commit)
      ensures Valid() && list == [] && log == []
      ensures this.dependencies == dependencies && this.commit == commit
    {
      this.dependencies, this.commit := dependencies, commit;
      list, nextId, log := [], 0, [];
    }

    /**
      `remove_redundant`: the list shrinks under the reverse iteration, and
      `remove` takes the first entry equal to the one just visited.
     */
    method RemoveRedundant()
      modifies `list
      ensures list == LastOccurrences(old(list))
    {
      var names: set<string> := {};
      var i := |list|;
      while i > 0
        invariant 0 <= i <= |list|
        invariant LastOccurrences(list) == LastOccurrences(old(list))
        invariant forall n :: n in names <==> Named(list[i..], n)
        invariant DistinctNames(list[i..])
        decreases i
      {
        i := i - 1;
        var e := list[i];
        NamedSuffix(list, i);
        if e.Name() in names {
          var k := FirstIndex(list, e, i);
          RemovalKeeps(list, k, i);
          list := list[..k] + list[k + 1..];
        } else {
          names := names + {e.Name()};
          DistinctSuffix(list, i);
        }
      }
      assert list[0..] == list;
      DistinctIsFixed(list);
    }

    /** `append_uniq`. */
    method AppendUniq(e: Func)
      requires Valid()
      modifies `list, `log
      ensures Valid() && list == LastOccurrences(old(list) + [e])
      ensures log == old(log) + [Queued(e)]
    {
      QueueEvent(log, list, e, LastOccurrences(list + [e]));
      list := list + [e];
      RemoveRedundant();
      log := log + [Queued(e)];
    }

    /** `set_dependents`, called by `script` for one of its cases. */
    method SetDependents(script: string, c: string, tag: Option<string>, ghost rank: string -> nat)
      returns (ghost added: seq<Func>)
      requires Valid() && script in dependencies && c in dependencies[script] && Ranks(dependencies, rank)
      modifies `list, `log, `nextId
      ensures Valid() && old(log) <= log
      ensures list == Appended(old(list), added)
      ensures |added| == |dependencies[script][c]|
      ensures forall i :: 0 <= i < |added| ==> added[i].target == dependencies[script][c][i] && added[i].tag == tag
      ensures forall i :: 0 <= i < |added| ==> rank(added[i].target) < rank(script)
    {
      var targets := dependencies[script][c];
      added := [];
      for i := 0 to |targets|
        invariant Valid() && old(log) <= log && |added| == i
        invariant list == Appended(old(list), added)
        invariant forall j :: 0 <= j < i ==> added[j].target == targets[j] && added[j].tag == tag
      {
        var func := Func(nextId, targets[i], tag);
        nextId := nextId + 1;
        AppendedOneMore(old(list), added, func);
        AppendUniq(func);
        added := added + [func];
      }
      DependentsRankLower(dependencies, rank, script, c);
    }

    /**
      The run of a configuration script: it queues dependents of its own, any
      number of times, for any of its cases and any tags; it may then drain the
      queue; and it may raise.
     */
    method RunScript(f: Func, ghost rank: string -> nat, ghost bag: Bag, ghost k: ORDINAL)
      returns (ok: bool, ghost k': ORDINAL)
      requires Valid() && Ranks(dependencies, rank)
      requires bag == RankBag(rank, list) + multiset{rank(f.target)} && Ends#[k](bag)
      modifies `list, `log, `nextId
      ensures Valid() && old(log) <= log
      ensures k' < k && (ok ==> Ends#[k'](RankBag(rank, list)))
      decreases k, 0
    {
      ghost var queued: Bag := multiset{};
      var calls: nat := *;
      while calls > 0
        invariant Valid() && old(log) <= log
        invariant AllBelow(queued, rank(f.target)) && RankBag(rank, list) <= RankBag(rank, old(list)) + queued
      {
        calls := calls - 1;
        if f.target in dependencies && dependencies[f.target].Keys != {} {
          var c :| c in dependencies[f.target];
          var tag: Option<string> := *;
          ghost var before := list;
          ghost var added := SetDependents(f.target, c, tag, rank);
          QueuedBag(rank, before, added, rank(f.target), list);
          queued := queued + RankBag(rank, added);
        }
      }
      assert Replaces(bag, rank(f.target), queued, RankBag(rank, list));
      k' := EndsStep(k, bag, RankBag(rank, list));
      if * {
        ok := CallDependentsFrom(rank, k');
        if !ok {
          return;
        }
      }
      ok := *;
    }

    /** `run_conditionally` and the pop before it. */
    method ServeFirst(ghost rank: string -> nat, ghost k: ORDINAL) returns (ok: bool, ghost k': ORDINAL)
      requires Valid() && list != [] && Ranks(dependencies, rank) && Ends#[k](RankBag(rank, list))
      modifies `list, `log, `nextId
      ensures Valid() && old(log) + [commit.Served(old(list)[0])] <= log
      ensures k' < k && (ok ==> Ends#[k'](RankBag(rank, list)))
      decreases k, 1
    {
      ghost var bag := RankBag(rank, list);
      var f := list[0];
      ServeEvent(log, list, commit.Served(f));
      list := list[1..];
      if commit.Defers(f) {
        log := log + [Deferred(f)];
        assert Replaces(bag, rank(f.target), multiset{}, RankBag(rank, list));
        k' := EndsStep(k, bag, RankBag(rank, list));
        return true, k';
      }
      log := log + [Ran(f)];
      ok, k' := RunScript(f, rank, bag, k);
    }

    /** The loop of `call_dependents`, from any state reached inside a commit. */
    method CallDependentsFrom(ghost rank: string -> nat, ghost k: ORDINAL) returns (ok: bool)
      requires Valid() && Ranks(dependencies, rank) && Ends#[k](RankBag(rank, list))
      modifies `list, `log, `nextId
      ensures Valid() && old(log) <= log
      ensures old(list) != [] ==> old(log) + [commit.Served(old(list)[0])] <= log
      ensures ok ==> list == [] && Ends#[k](RankBag(rank, list))
      decreases k, 2
    {
      ghost var left := k;
      while list != []
        invariant Valid() && old(log) <= log
        invariant (list == old(list) && log == old(log)) || (old(list) != [] && old(log) + [commit.Served(old(list)[0])] <= log)
        invariant left <= k && Ends#[left](RankBag(rank, list))
        decreases left
      {
        ok, left := ServeFirst(rank, left);
        if !ok {
          return;
        }
      }
      EndsEmpty(k, RankBag(rank, old(list)));
      return true;
    }

    /**
      `call_dependents`: on an acyclic dependency dictionary it always ends;
      unless a script raised, the queue is then empty and whatever was queued
      before or during the run has been run or deferred after it was last queued.
     */
    method CallDependents() returns (ok: bool)
      requires Valid() && IsAcyclic(dependencies)
      modifies `list, `log, `nextId
      ensures Valid() && old(log) <= log
      ensures old(list) != [] ==> old(log) + [commit.Served(old(list)[0])] <= log
      ensures ok ==> list == [] && AllServed(log)
    {
      ghost var rank := AcyclicRanks(dependencies);
      BagsEnd(RankBag(rank, list));
      ghost var k: ORDINAL :| Ends#[k](RankBag(rank, list));
      ok := CallDependentsFrom(rank, k);
      if ok && LogApart(log) {
        forall i | 0 <= i < |log| && log[i].Queued? ensures ServedTag(log, i, log[i].f) {
          ServedByTag(log, i);
        }
      }
    }
  }

  /** Queueing dependents adds only smaller ranks. */
  lemma QueuedBag(rank: string -> nat, before: seq<Func>, added: seq<Func>, r: nat, after: seq<Func>)
    requires after == Appended(before, added)
    requires forall i :: 0 <= i < |added| ==> rank(added[i].target) < r
    ensures AllBelow(RankBag(rank, added), r)
    ensures RankBag(rank, after) <= RankBag(rank, before) + RankBag(rank, added)
  {
    RankBagConcat(rank, before, added);
    RankBagReduced(rank, before + added);
    RankBagBelow(rank, added, r);
  }

  lemma {:induction false} RankBagBelow(rank: string -> nat, l: seq<Func>, r: nat)
    requires forall i :: 0 <= i < |l| ==> rank(l[i].target) < r
    ensures AllBelow(RankBag(rank, l), r)
  {
    if l != [] {
      RankBagBelow(rank, l[1..], r);
    }
  }

  /** The index `list.remove` takes: that of the first equal entry. */
  function FirstIndex(l: seq<Func>, e: Func, bound: nat): (k: nat)
    requires bound < |l| && l[bound] == e
    ensures k <= bound && l[k] == e && e !in l[..k]
  {
    if l[0] == e then 0
    else
      var k := FirstIndex(l[1..], e, bound - 1);
      assert l[..k + 1] == [l[0]] + l[1..][..k];
      k + 1
  }

  /** Removing the first equal entry `k` while visiting `i`. */
  lemma RemovalKeeps(l: seq<Func>, k: nat, i: nat)
    requires k <= i < |l| && l[k] == l[i] && Named(l[i + 1..], l[i].Name())
    ensures LastOccurrences(l[..k] + l[k + 1..]) == LastOccurrences(l)
    ensures (l[..k] + l[k + 1..])[i..] == l[i + 1..]
  {
    NamedEarlier(l, k + 1, i + 1, l[i].Name());
    DropRedundant(l, k);
    SuffixWithout(l, k, i);
  }

  lemma SuffixWithout(l: seq<Func>, k: nat, i: nat)
    requires k <= i < |l|
    ensures |Without(l, k)| == |l| - 1 && Without(l, k)[i..] == l[i + 1..]
  {
    forall j | i <= j < |l| - 1 ensures Without(l, k)[j] == l[j + 1] {
    }
  }

  lemma NamedEarlier(l: seq<Func>, a: nat, b: nat, name: string)
    requires a <= b <= |l| && Named(l[b..], name)
    ensures Named(l[a..], name)
  {
    var j :| 0 <= j < |l[b..]| && l[b..][j].Name() == name;
    assert l[a..][b - a + j] == l[b + j];
  }

  lemma NamedSuffix(l: seq<Func>, i: nat)
    requires i < |l|
    ensures forall n :: Named(l[i..], n) <==> l[i].Name() == n || Named(l[i + 1..], n)
  {
    assert l[i..][1..] == l[i + 1..];
    forall n ensures Named(l[i..], n) <==> l[i].Name() == n || Named(l[i + 1..], n) {
      NamedCons(l[i..], n);
    }
  }

  lemma DistinctSuffix(l: seq<Func>, i: nat)
    requires i < |l| && DistinctNames(l[i + 1..]) && !Named(l[i + 1..], l[i].Name())
    ensures DistinctNames(l[i..])
  {
    assert l[i..] == [l[i]] + l[i + 1..];
  }
}
