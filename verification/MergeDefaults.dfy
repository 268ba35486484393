/**
  Overlaying default values onto a configuration tree, in place
  (python/vyos/config.py, `merge_defaults`).
 */
module MergeDefaults {
  import opened Wrappers

  type Path = seq<string>

  /** The tree: its nodes by path, with their values. */
  type Nodes = map<Path, seq<string>>

  /** A default: one value, several, or a dictionary, whose items keep their order. */
  datatype Default = Value(text: string) | Values(texts: seq<string>) | Dict(items: seq<(string, Default)>)

  // ---- the tree's operations -------------------------------------------------------

  predicate IsPrefix(p: Path, path: Path) {
    |p| <= |path| && p == path[..|p|]
  }

  function Prefixes(path: Path): (s: set<Path>)
    ensures forall p :: p in s <==> p != [] && IsPrefix(p, path)
  {
    if path == [] then {}
    else
      assert forall p :: p != [] && IsPrefix(p, path) && p != path ==> IsPrefix(p, path[..|path| - 1]);
      Prefixes(path[..|path| - 1]) + {path}
  }

  /** Creating a node creates the nodes above it; existing ones stay as they are. */
  function Filled(nodes: Nodes, path: Path): Nodes {
    map p | p in Prefixes(path) + nodes.Keys :: if p in nodes then nodes[p] else []
  }

  class ConfigTree {
    var nodes: Nodes

    constructor (nodes: Nodes)
      ensures this.nodes == nodes
    {
      this.nodes := nodes;
    }

    predicate Exists(path: Path)
      reads this
    {
      path in nodes
    }

    method Set(path: Path)
      modifies this
      ensures nodes == Filled(old(nodes), path)
    {
      nodes := Filled(nodes, path);
    }

    /** `set(path, value, replace)`. */
    method SetValue(path: Path, value: string, replace: bool)
      requires path != []
      modifies this
      ensures var filled := Filled(old(nodes), path);
              path in filled && nodes == filled[path := (if replace then [] else filled[path]) + [value]]
    {
      nodes := Filled(nodes, path);
      assert IsPrefix(path, path);
      nodes := nodes[path := (if replace then [] else nodes[path]) + [value]];
    }
  }

  // ---- the walk, as a fold over the leaves of the defaults -----------------------------

  type Leaf = (Path, Default)

  predicate IsLeaf(d: Default) {
    d.Dict? ==> d.items == []
  }

  /** The defaults without parts of their own, with their paths, in walking order, from item `i` on. */
  function Leaves(d: Default, i: nat, base: Path): seq<Leaf>
    requires d.Dict? && i <= |d.items|
    decreases d, 1, |d.items| - i
  {
    if i == |d.items| then []
    else LeavesOf(d.items[i].1, base + [d.items[i].0]) + Leaves(d, i + 1, base)
  }

  function LeavesOf(d: Default, path: Path): seq<Leaf>
    decreases d, 2
  {
    if IsLeaf(d) then [(path, d)] else Leaves(d, 0, path)
  }

  /** An empty list of values creates nothing. */
  predicate Creates(d: Default) {
    !(d.Values? && d.texts == [])
  }

  function ValuesOf(d: Default): seq<string> {
    match d
    case Value(v) => [v]
    case Values(l) => l
    case Dict(_) => []
  }

  /** One leaf: nothing happens where the path exists. */
  function Applied(nodes: Nodes, leaf: Leaf): Nodes {
    if leaf.0 in nodes || !Creates(leaf.1) then nodes
    else if leaf.1.Dict? then Filled(nodes, leaf.0)
    else Filled(nodes, leaf.0)[leaf.0 := ValuesOf(leaf.1)]
  }

  function ApplyAll(nodes: Nodes, leaves: seq<Leaf>): Nodes
    decreases |leaves|
  {
    if leaves == [] then nodes else ApplyAll(Applied(nodes, leaves[0]), leaves[1..])
  }

  lemma {:induction false} ApplyAllConcat(nodes: Nodes, a: seq<Leaf>, b: seq<Leaf>)
    ensures ApplyAll(nodes, a + b) == ApplyAll(ApplyAll(nodes, a), b)
    decreases |a|
  {
    if a == [] {
      assert a + b == b;
    } else {
      assert (a + b)[1..] == a[1..] + b;
      ApplyAllConcat(Applied(nodes, a[0]), a[1..], b);
    }
  }

  lemma ApplySingle(nodes: Nodes, leaf: Leaf)
    ensures ApplyAll(nodes, [leaf]) == Applied(nodes, leaf)
  {
    assert [leaf][1..] == [];
  }

  /** The inner function of `merge_defaults`. */
  method Walk(tree: ConfigTree, subdict: Default, path: Path)
    requires subdict.Dict?
    modifies tree
    ensures tree.nodes == ApplyAll(old(tree.nodes), Leaves(subdict, 0, path))
    decreases subdict
  {
    ghost var before := tree.nodes;
    var items := subdict.items;
    for i := 0 to |items|
      invariant ApplyAll(before, Leaves(subdict, 0, path)) == ApplyAll(tree.nodes, Leaves(subdict, i, path))
    {
      var value := items[i].1;
      var current := path + [items[i].0];
      ApplyAllConcat(tree.nodes, LeavesOf(value, current), Leaves(subdict, i + 1, path));
      ApplySingle(tree.nodes, (current, value));
      match value {
        case Dict(parts) =>
          if parts == [] {
            if !tree.Exists(current) {
              tree.Set(current);
            }
          } else {
            Walk(tree, value, current);
          }
        case Values(texts) =>
          if !tree.Exists(current) {
            AddValues(tree, current, texts);
          }
        case Value(text) =>
          if !tree.Exists(current) {
            tree.SetValue(current, text, true);
            assert [] + [text] == [text];
          }
      }
    }
  }

  /** The loop that sets the values of a list one by one. */
  method AddValues(tree: ConfigTree, path: Path, texts: seq<string>)
    requires path != [] && path !in tree.nodes
    modifies tree
    ensures tree.nodes == Applied(old(tree.nodes), (path, Values(texts)))
  {
    ghost var before := tree.nodes;
    for i := 0 to |texts|
      invariant tree.nodes == Applied(before, (path, Values(texts[..i])))
    {
      assert IsPrefix(path, path);
      if i > 0 { FilledAgain(before, path, texts[..i]); }
      tree.SetValue(path, texts[i], false);
      assert texts[..i + 1] == texts[..i] + [texts[i]];
    }
    assert texts[..|texts|] == texts;
  }

  lemma FilledAgain(nodes: Nodes, path: Path, values: seq<string>)
    requires path != []
    ensures var n := Filled(nodes, path)[path := values]; Filled(n, path) == n
  {
    assert IsPrefix(path, path);
  }

  /** `merge_defaults`; the keys of a dictionary are distinct. */
  method Merge(tree: ConfigTree, defaults: Default)
    requires defaults.Dict? && DistinctKeys(defaults)
    modifies tree
    ensures IsOverlay(old(tree.nodes), defaults, tree.nodes)
    ensures PrefixClosed(old(tree.nodes)) ==>
              PrefixClosed(tree.nodes) && AddsOnlyDefaults(old(tree.nodes), defaults, tree.nodes)
    ensures tree.nodes == ApplyAll(old(tree.nodes), Leaves(defaults, 0, []))
  {
    MergeMeaning(tree.nodes, defaults);
    if PrefixClosed(tree.nodes) {
      ExistsIff(tree.nodes, defaults);
    }
    Walk(tree, defaults, []);
  }

  // ---- what is wanted, without the walk ------------------------------------------------------

  /** The default at a path: its keys are followed down the nested dictionaries. */
  ghost function DefaultAt(d: Default, path: Path): Option<Default>
    decreases d
  {
    if path == [] then Some(d)
    else if d.Dict? && HasKey(d, path[0]) then
      var i :| 0 <= i < |d.items| && d.items[i].0 == path[0];
      DefaultAt(d.items[i].1, path[1..])
    else None
  }

  ghost predicate HasKey(d: Default, key: string)
    requires d.Dict?
  {
    exists i :: 0 <= i < |d.items| && d.items[i].0 == key
  }

  /** At `path` stands a default to be set: a text, a list of texts or an empty dictionary. */
  ghost predicate SetsAt(defaults: Default, path: Path, x: Default) {
    path != [] && StandsAt(defaults, path, x)
  }

  ghost predicate StandsAt(d: Default, path: Path, x: Default) {
    DefaultAt(d, path) == Some(x) && (x.Value? || x.Values? || x == Dict([]))
  }

  /** What stands at a path set to that default. */
  ghost predicate HasValuesOf(values: seq<string>, x: Default) {
    match x
    case Value(text) => values == [text]
    case Values(texts) => values == texts
    case Dict(_) => values == []
  }

  /** With a node, the nodes above it exist. */
  ghost predicate PrefixClosed(nodes: Nodes) {
    forall p, q :: p in nodes && q != [] && q <= p ==> q in nodes
  }

  /** Some default that is no empty list lies at or below the path. */
  ghost predicate LeadsToDefault(defaults: Default, p: Path) {
    exists q, x :: SetsAt(defaults, q, x) && x != Values([]) && p <= q
  }

  /**
    Configured nodes keep their values. A default exists afterwards exactly if it was
    configured or is no empty list, and it has its own values unless it was configured.
    Any other new node lies on the way to such a default and has no value.
   */
  ghost predicate IsOverlay(nodes: Nodes, defaults: Default, after: Nodes) {
    && (forall p :: p in nodes ==> p in after && after[p] == nodes[p])
    && (forall p, x :: SetsAt(defaults, p, x) ==> (p in after <==> p in nodes || x != Values([])))
    && (forall p, x :: SetsAt(defaults, p, x) && x != Values([]) && p !in nodes ==> p in after && HasValuesOf(after[p], x))
    && (forall p :: p in after && p !in nodes ==>
          p != [] && LeadsToDefault(defaults, p) && (after[p] == [] || exists x :: SetsAt(defaults, p, x)))
  }

  ghost predicate AddsOnlyDefaults(nodes: Nodes, defaults: Default, after: Nodes) {
    forall p :: p != [] ==> (p in after <==> p in nodes || LeadsToDefault(defaults, p))
  }

  lemma {:induction false} DefaultAtKey(d: Default, path: Path, i: nat)
    requires d.Dict? && DistinctKeys(d) && i < |d.items| && path != [] && d.items[i].0 == path[0]
    ensures DefaultAt(d, path) == DefaultAt(d.items[i].1, path[1..])
  {
    assert HasKey(d, path[0]);
  }

  /** The walk meets exactly the defaults to be set. */
  lemma {:induction false} LeavesOfMeaning(d: Default, base: Path, p: Path, x: Default)
    requires DistinctKeys(d)
    ensures (base + p, x) in LeavesOf(d, base) <==> StandsAt(d, p, x)
    decreases d, 2
  {
    if IsLeaf(d) {
      assert (base + p, x) in LeavesOf(d, base) <==> base + p == base && x == d;
      assert p == [] <==> base + p == base;
    } else if p == [] {
      assert base + p == base;
      NoLeafAbove(d, base, x);
    } else {
      LeavesMeaning(d, 0, base, p, x);
      if HasKey(d, p[0]) {
        var i :| 0 <= i < |d.items| && d.items[i].0 == p[0];
        DefaultAtKey(d, p, i);
      }
    }
  }

  lemma NoLeafAbove(d: Default, base: Path, x: Default)
    requires d.Dict?
    ensures (base, x) !in Leaves(d, 0, base)
  {
    forall n | 0 <= n < |Leaves(d, 0, base)| ensures Leaves(d, 0, base)[n].0 != base {
      LeavesGoThrough(d, 0, base, n);
    }
  }

  lemma {:induction false} LeavesMeaning(d: Default, i: nat, base: Path, p: Path, x: Default)
    requires d.Dict? && DistinctKeys(d) && i <= |d.items| && p != []
    ensures (base + p, x) in Leaves(d, i, base)
       <==> exists k :: i <= k < |d.items| && d.items[k].0 == p[0] && StandsAt(d.items[k].1, p[1..], x)
    decreases d, 1, |d.items| - i
  {
    if i < |d.items| {
      var current := base + [d.items[i].0];
      LeavesMeaning(d, i + 1, base, p, x);
      if p[0] == d.items[i].0 {
        assert base + p == current + p[1..];
        LeavesOfMeaning(d.items[i].1, current, p[1..], x);
      } else {
        NotThroughKey(d.items[i].1, base, d.items[i].0, p, x);
      }
    }
  }

  lemma NotThroughKey(d: Default, base: Path, key: string, p: Path, x: Default)
    requires p != [] && p[0] != key
    ensures (base + p, x) !in LeavesOf(d, base + [key])
  {
    var current := base + [key];
    forall n | 0 <= n < |LeavesOf(d, current)| ensures LeavesOf(d, current)[n].0 != base + p {
      LeafBelow(d, current, n);
      PrefixAgrees(current, LeavesOf(d, current)[n].0, |base|);
      assert (base + p)[|base|] == p[0];
    }
  }

  /** The leaves of the whole dictionary are the defaults to be set. */
  lemma AllLeaves(defaults: Default, p: Path, x: Default)
    requires defaults.Dict? && DistinctKeys(defaults)
    ensures (p, x) in Leaves(defaults, 0, []) <==> SetsAt(defaults, p, x)
  {
    if p == [] {
      NoLeafAbove(defaults, [], x);
    } else {
      assert [] + p == p;
      LeavesMeaning(defaults, 0, [], p, x);
      if HasKey(defaults, p[0]) {
        var i :| 0 <= i < |defaults.items| && defaults.items[i].0 == p[0];
        DefaultAtKey(defaults, p, i);
      }
    }
  }

  // ---- what the overlay does ---------------------------------------------------------------

  /** Whatever was configured stays as it was. */
  lemma {:induction false} ConfiguredStays(nodes: Nodes, leaves: seq<Leaf>, p: Path)
    requires p in nodes
    ensures p in ApplyAll(nodes, leaves) && ApplyAll(nodes, leaves)[p] == nodes[p]
    decreases |leaves|
  {
    if leaves != [] {
      ConfiguredStays(Applied(nodes, leaves[0]), leaves[1..], p);
    }
  }

  /** A default's path exists afterwards, unless it is an empty list of values and nothing else made it. */
  lemma {:induction false} DefaultsExist(nodes: Nodes, leaves: seq<Leaf>, i: nat)
    requires i < |leaves| && leaves[i].0 != [] && Creates(leaves[i].1)
    ensures leaves[i].0 in ApplyAll(nodes, leaves)
    decreases |leaves|
  {
    var next := Applied(nodes, leaves[0]);
    if i == 0 {
      assert IsPrefix(leaves[0].0, leaves[0].0);
      ConfiguredStays(next, leaves[1..], leaves[0].0);
    } else {
      DefaultsExist(next, leaves[1..], i - 1);
    }
  }

  ghost predicate LeadsToLeaf(leaves: seq<Leaf>, p: Path) {
    exists i :: 0 <= i < |leaves| && Creates(leaves[i].1) && IsPrefix(p, leaves[i].0)
  }

  /** Nothing exists afterwards but what did, and the way to a default that creates. */
  lemma {:induction false} NothingElse(nodes: Nodes, leaves: seq<Leaf>, p: Path)
    requires p in ApplyAll(nodes, leaves) && p !in nodes
    ensures LeadsToLeaf(leaves, p)
    ensures (p != [] && ApplyAll(nodes, leaves)[p] == []) || exists i :: 0 <= i < |leaves| && leaves[i].0 == p
    decreases |leaves|
  {
    if leaves != [] {
      var next := Applied(nodes, leaves[0]);
      if p !in next {
        NothingElse(next, leaves[1..], p);
        var i :| 0 <= i < |leaves[1..]| && Creates(leaves[1..][i].1) && IsPrefix(p, leaves[1..][i].0);
        assert leaves[i + 1] == leaves[1..][i];
        if j :| 0 <= j < |leaves[1..]| && leaves[1..][j].0 == p {
          assert leaves[j + 1].0 == p;
        }
      } else {
        assert Creates(leaves[0].1);
        assert p == leaves[0].0 || p in Prefixes(leaves[0].0);
        assert IsPrefix(p, leaves[0].0);
        ConfiguredStays(next, leaves[1..], p);
      }
    }
  }

  /** An overlay once applied has nothing left to do. */
  lemma {:induction false} IdleWhenPresent(nodes: Nodes, leaves: seq<Leaf>)
    requires forall i :: 0 <= i < |leaves| && Creates(leaves[i].1) ==> leaves[i].0 in nodes
    ensures ApplyAll(nodes, leaves) == nodes
    decreases |leaves|
  {
    if leaves != [] {
      assert leaves[0].0 in nodes || !Creates(leaves[0].1);
      IdleWhenPresent(nodes, leaves[1..]);
    }
  }

  lemma Idempotent(nodes: Nodes, leaves: seq<Leaf>)
    requires forall i :: 0 <= i < |leaves| ==> leaves[i].0 != []
    ensures ApplyAll(ApplyAll(nodes, leaves), leaves) == ApplyAll(nodes, leaves)
  {
    forall i | 0 <= i < |leaves| && Creates(leaves[i].1) ensures leaves[i].0 in ApplyAll(nodes, leaves) {
      DefaultsExist(nodes, leaves, i);
    }
    IdleWhenPresent(ApplyAll(nodes, leaves), leaves);
  }

  // ---- the values a default leaves behind -------------------------------------------------

  /** Keys of one dictionary are distinct, at every level. */
  ghost predicate DistinctKeys(d: Default) {
    d.Dict? ==>
      && (forall i, j :: 0 <= i < j < |d.items| ==> d.items[i].0 != d.items[j].0)
      && (forall i :: 0 <= i < |d.items| ==> DistinctKeys(d.items[i].1))
  }

  /** Every leaf below a dictionary goes through one of its keys. */
  ghost predicate Through(d: Default, i: nat, base: Path, path: Path)
    requires d.Dict?
  {
    |path| > |base| && IsPrefix(base, path) && exists k :: i <= k < |d.items| && d.items[k].0 == path[|base|]
  }

  lemma {:induction false} LeavesGoThrough(d: Default, i: nat, base: Path, n: nat)
    requires d.Dict? && i <= |d.items| && n < |Leaves(d, i, base)|
    ensures Through(d, i, base, Leaves(d, i, base)[n].0)
    decreases d, 1, |d.items| - i
  {
    var path := base + [d.items[i].0];
    var first := LeavesOf(d.items[i].1, path);
    if n < |first| {
      LeafBelow(d.items[i].1, path, n);
      var p := first[n].0;
      assert p[..|base|] == p[..|path|][..|base|] == base;
      assert d.items[i].0 == p[..|path|][|base|];
    } else {
      LeavesGoThrough(d, i + 1, base, n - |first|);
    }
  }

  lemma {:induction false} LeafBelow(d: Default, path: Path, n: nat)
    requires n < |LeavesOf(d, path)|
    ensures IsPrefix(path, LeavesOf(d, path)[n].0)
    decreases d, 2
  {
    if !IsLeaf(d) {
      LeavesGoThrough(d, 0, path, n);
    }
  }

  ghost predicate Antichain(leaves: seq<Leaf>) {
    forall i, j :: 0 <= i < |leaves| && 0 <= j < |leaves| && i != j ==> !IsPrefix(leaves[i].0, leaves[j].0)
  }

  lemma PrefixAgrees(p: Path, q: Path, k: nat)
    requires k < |p| && k < |q|
    ensures IsPrefix(p, q) ==> p[k] == q[k]
  {
    assert |p| <= |q| ==> q[..|p|][k] == q[k];
  }

  lemma {:induction false} LeavesAntichain(d: Default, i: nat, base: Path)
    requires d.Dict? && i <= |d.items| && DistinctKeys(d)
    ensures Antichain(Leaves(d, i, base))
    decreases d, 1, |d.items| - i
  {
    if i < |d.items| {
      var path := base + [d.items[i].0];
      var first, rest := LeavesOf(d.items[i].1, path), Leaves(d, i + 1, base);
      if !IsLeaf(d.items[i].1) {
        LeavesAntichain(d.items[i].1, 0, path);
      }
      LeavesAntichain(d, i + 1, base);
      forall m, n | 0 <= m < |first| && 0 <= n < |rest|
        ensures !IsPrefix(first[m].0, rest[n].0) && !IsPrefix(rest[n].0, first[m].0)
      {
        LeafBelow(d.items[i].1, path, m);
        LeavesGoThrough(d, i + 1, base, n);
        var p, q := first[m].0, rest[n].0;
        assert p[|base|] == p[..|path|][|base|] == d.items[i].0;
        assert q[|base|] != p[|base|];
        PrefixAgrees(p, q, |base|);
        PrefixAgrees(q, p, |base|);
      }
    }
  }

  /** A default that was not configured is there afterwards with exactly its values. */
  lemma {:induction false} DefaultValues(nodes: Nodes, leaves: seq<Leaf>, i: nat)
    requires Antichain(leaves) && i < |leaves| && leaves[i].0 != [] && leaves[i].0 !in nodes && Creates(leaves[i].1)
    ensures leaves[i].0 in ApplyAll(nodes, leaves) && ApplyAll(nodes, leaves)[leaves[i].0] == ValuesOf(leaves[i].1)
    decreases |leaves|
  {
    var path := leaves[i].0;
    var next := Applied(nodes, leaves[0]);
    if i == 0 {
      assert IsPrefix(path, path);
      ConfiguredStays(next, leaves[1..], path);
    } else {
      assert !IsPrefix(path, leaves[0].0) && leaves[0].0 != path;
      assert path !in next;
      DefaultValues(next, leaves[1..], i - 1);
    }
  }

  /** `merge_defaults` on any tree and any defaults. */
  lemma MergeMeaning(nodes: Nodes, defaults: Default)
    requires defaults.Dict? && DistinctKeys(defaults)
    ensures IsOverlay(nodes, defaults, ApplyAll(nodes, Leaves(defaults, 0, [])))
  {
    var leaves := Leaves(defaults, 0, []);
    var after := ApplyAll(nodes, leaves);
    LeavesAntichain(defaults, 0, []);
    forall p | p in nodes ensures p in after && after[p] == nodes[p] {
      ConfiguredStays(nodes, leaves, p);
    }
    forall p, x | SetsAt(defaults, p, x)
      ensures p in after <==> p in nodes || x != Values([])
      ensures x != Values([]) && p !in nodes ==> p in after && HasValuesOf(after[p], x)
    {
      AllLeaves(defaults, p, x);
      var i :| 0 <= i < |leaves| && leaves[i] == (p, x);
      LeafExistsIff(nodes, leaves, i);
      if p !in nodes && x != Values([]) {
        DefaultValues(nodes, leaves, i);
      }
    }
    forall p | p in after && p !in nodes
      ensures p != [] && LeadsToDefault(defaults, p) && (after[p] == [] || exists x :: SetsAt(defaults, p, x))
    {
      NothingElse(nodes, leaves, p);
      LeadsToEither(defaults, p);
      if i :| 0 <= i < |leaves| && leaves[i].0 == p {
        AllLeaves(defaults, p, leaves[i].1);
        assert leaves[i] in leaves;
      }
    }
  }

  lemma LeadsToEither(defaults: Default, p: Path)
    requires defaults.Dict? && DistinctKeys(defaults)
    ensures LeadsToLeaf(Leaves(defaults, 0, []), p) <==> LeadsToDefault(defaults, p)
  {
    var leaves := Leaves(defaults, 0, []);
    if i :| 0 <= i < |leaves| && Creates(leaves[i].1) && IsPrefix(p, leaves[i].0) {
      assert leaves[i] in leaves;
      AllLeaves(defaults, leaves[i].0, leaves[i].1);
    }
    if q, x :| SetsAt(defaults, q, x) && x != Values([]) && p <= q {
      AllLeaves(defaults, q, x);
      var i :| 0 <= i < |leaves| && leaves[i] == (q, x);
      assert Creates(leaves[i].1) && IsPrefix(p, leaves[i].0);
    }
  }

  lemma LeavesHavePaths(defaults: Default)
    requires defaults.Dict?
    ensures forall i :: 0 <= i < |Leaves(defaults, 0, [])| ==> Leaves(defaults, 0, [])[i].0 != []
  {
    forall i | 0 <= i < |Leaves(defaults, 0, [])| ensures Leaves(defaults, 0, [])[i].0 != [] {
      LeavesGoThrough(defaults, 0, [], i);
    }
  }

  lemma LeafExistsIff(nodes: Nodes, leaves: seq<Leaf>, i: nat)
    requires Antichain(leaves) && i < |leaves| && leaves[i].0 != []
    ensures leaves[i].0 in ApplyAll(nodes, leaves) <==> leaves[i].0 in nodes || Creates(leaves[i].1)
  {
    var p := leaves[i].0;
    if p in nodes {
      ConfiguredStays(nodes, leaves, p);
    } else if Creates(leaves[i].1) {
      DefaultsExist(nodes, leaves, i);
    } else if p in ApplyAll(nodes, leaves) {
      NothingElse(nodes, leaves, p);
    }
  }

  /** One leaf brings the nodes above it along. */
  lemma AppliedKeepsClosed(nodes: Nodes, leaf: Leaf)
    requires PrefixClosed(nodes)
    ensures PrefixClosed(Applied(nodes, leaf))
  {
    var next := Applied(nodes, leaf);
    forall p, q | p in next && q != [] && IsPrefix(q, p) ensures q in next {
      if p !in nodes {
        assert IsPrefix(p, leaf.0);
        assert q == leaf.0[..|p|][..|q|] == leaf.0[..|q|];
      }
    }
  }

  lemma {:induction false} ApplyAllKeepsClosed(nodes: Nodes, leaves: seq<Leaf>)
    requires PrefixClosed(nodes)
    ensures PrefixClosed(ApplyAll(nodes, leaves))
    decreases |leaves|
  {
    if leaves != [] {
      AppliedKeepsClosed(nodes, leaves[0]);
      ApplyAllKeepsClosed(Applied(nodes, leaves[0]), leaves[1..]);
    }
  }

  /**
    Which paths exist afterwards, those of whole dictionaries of defaults included:
    those that existed, and those on the way to a default that creates something.
   */
  lemma ExistsIff(nodes: Nodes, defaults: Default)
    requires defaults.Dict? && DistinctKeys(defaults) && PrefixClosed(nodes)
    ensures var after := ApplyAll(nodes, Leaves(defaults, 0, []));
            PrefixClosed(after) && AddsOnlyDefaults(nodes, defaults, after)
  {
    var leaves := Leaves(defaults, 0, []);
    var after := ApplyAll(nodes, leaves);
    ApplyAllKeepsClosed(nodes, leaves);
    LeavesHavePaths(defaults);
    forall p: Path | p != [] ensures p in after <==> p in nodes || LeadsToDefault(defaults, p) {
      LeadsToEither(defaults, p);
      if p in nodes {
        ConfiguredStays(nodes, leaves, p);
      } else if p in after {
        NothingElse(nodes, leaves, p);
      } else if i :| 0 <= i < |leaves| && Creates(leaves[i].1) && IsPrefix(p, leaves[i].0) {
        DefaultsExist(nodes, leaves, i);
      }
    }
  }

  /** A second overlay changes nothing. */
  lemma MergeIdempotent(nodes: Nodes, defaults: Default)
    requires defaults.Dict?
    ensures var leaves := Leaves(defaults, 0, []);
            ApplyAll(ApplyAll(nodes, leaves), leaves) == ApplyAll(nodes, leaves)
  {
    LeavesHavePaths(defaults);
    Idempotent(nodes, Leaves(defaults, 0, []));
  }

  /** An empty list of values is a default whose path need not exist afterwards. */
  lemma EmptyListCreatesNothing(key: string)
    ensures ApplyAll(map[], Leaves(Dict([(key, Values([]))]), 0, [])) == map[]
  {
    var d := Dict([(key, Values([]))]);
    assert Leaves(d, 1, []) == [];
    assert Leaves(d, 0, []) == [([] + [key], Values([]))];
    ApplySingle(map[], ([] + [key], Values([])));
  }
}
