/**
  The migration of a configuration file as a transaction
  (python/vyos/migrate.py, python/vyos/compose_config.py).
 */
module Migration {
  import opened Wrappers
  import opened ComponentVersion

  // ---- applying one script -------------------------------------------------------

  /** A migration function changes the tree in place and may raise half-way. */
  datatype Outcome = Done(config: string) | Raised(config: string)

  /** The file `n-to-m`; its function, unless the file cannot be loaded. */
  datatype Script = Script(source: nat, target: nat, migrate: Option<string -> Outcome>)

  /** What applying a script comes to: with checkpoints, a failure leaves no trace. */
  ghost function Applied(checkpointed: bool, s: Script, config: string): Outcome {
    match s.migrate
    case None => Raised(config)
    case Some(f) =>
      match f(config)
      case Done(c) => Done(c)
      case Raised(c) => Raised(if checkpointed then config else c)
  }

  /** The tree, written as the text it renders to, and its checkpoint. */
  class ComposeConfig {
    var configTree: string
    var checkpoint: string
    const checkpointed: bool

    constructor (config: string, checkpointed: bool)
      ensures configTree == config && this.checkpointed == checkpointed
    {
      configTree, checkpoint, this.checkpointed := config, config, checkpointed;
    }

    method ApplyFunc(f: string -> Outcome) returns (ok: bool)
      modifies this
      ensures match f(old(configTree))
              case Done(c) => ok && configTree == c
              case Raised(c) => !ok && configTree == if checkpointed then old(configTree) else c
    {
      if checkpointed {
        checkpoint := configTree;
      }
      match f(configTree) {
        case Done(c) =>
          configTree := c;
          ok := true;
        case Raised(c) =>
          configTree := c;
          if checkpointed {
            configTree := checkpoint;
          }
          ok := false;
      }
    }

    method ApplyFile(s: Script) returns (ok: bool)
      modifies this
      ensures ok == Applied(checkpointed, s, old(configTree)).Done?
      ensures configTree == Applied(checkpointed, s, old(configTree)).config
    {
      if s.migrate.None? {
        return false;
      }
      ok := ApplyFunc(s.migrate.value);
    }
  }

  // ---- the scripts of one component -------------------------------------------------

  /** The order of the numbers in the file names. */
  predicate InOrder(a: Script, b: Script) {
    a.source < b.source || (a.source == b.source && a.target <= b.target)
  }

  function PlaceScript(l: seq<Script>, s: Script): seq<Script> {
    if l == [] then [s]
    else if InOrder(l[|l| - 1], s) then l + [s]
    else PlaceScript(l[..|l| - 1], s) + [l[|l| - 1]]
  }

  /** `sorted(script_list, key=sort_func)`. */
  function SortScripts(l: seq<Script>): seq<Script> {
    if l == [] then [] else PlaceScript(SortScripts(l[..|l| - 1]), l[|l| - 1])
  }

  function FromVersion(l: seq<Script>, start: nat): seq<Script> {
    if l == [] then []
    else (if l[0].source >= start then [l[0]] else []) + FromVersion(l[1..], start)
  }

  /** By the first number, then by the second. */
  ghost predicate Ascending(l: seq<Script>) {
    forall i, j :: 0 <= i < j < |l| ==>
      l[i].source < l[j].source || (l[i].source == l[j].source && l[i].target <= l[j].target)
  }

  lemma {:induction false} PlaceScriptKeeps(l: seq<Script>, s: Script)
    ensures multiset(PlaceScript(l, s)) == multiset(l) + multiset{s}
    ensures forall x :: x in PlaceScript(l, s) <==> x == s || x in l
  {
    if l != [] && !InOrder(l[|l| - 1], s) {
      PlaceScriptKeeps(l[..|l| - 1], s);
      MultisetSnoc(l);
      assert l == l[..|l| - 1] + [l[|l| - 1]];
    }
  }

  lemma {:induction false} PlaceScriptAscending(l: seq<Script>, s: Script)
    requires Ascending(l)
    ensures Ascending(PlaceScript(l, s))
  {
    if l != [] {
      var front, last := l[..|l| - 1], l[|l| - 1];
      if InOrder(last, s) {
        forall i | 0 <= i < |l| ensures InOrder(l[i], s) {
          assert i < |l| - 1 ==> InOrder(l[i], last);
        }
      } else {
        PlaceScriptAscending(front, s);
        PlaceScriptKeeps(front, s);
        var placed := PlaceScript(front, s);
        forall i | 0 <= i < |placed| ensures InOrder(placed[i], last) {
          assert placed[i] in placed;
          if placed[i] != s {
            var j :| 0 <= j < |front| && front[j] == placed[i];
            assert InOrder(l[j], l[|l| - 1]);
          }
        }
      }
    }
  }

  /** The listing is put in ascending order, nothing lost. */
  lemma {:induction false} SortedScripts(l: seq<Script>)
    ensures Ascending(SortScripts(l)) && multiset(SortScripts(l)) == multiset(l)
  {
    if l != [] {
      SortedScripts(l[..|l| - 1]);
      PlaceScriptAscending(SortScripts(l[..|l| - 1]), l[|l| - 1]);
      PlaceScriptKeeps(SortScripts(l[..|l| - 1]), l[|l| - 1]);
      MultisetSnoc(l);
    }
  }

  lemma FromVersionMember(l: seq<Script>, start: nat, s: Script)
    requires s in FromVersion(l, start)
    ensures s in l && s.source >= start
  {
    FromVersionCounts(l, start, s);
    assert s in multiset(FromVersion(l, start));
  }

  lemma {:induction false} FromVersionAscending(l: seq<Script>, start: nat)
    requires Ascending(l)
    ensures Ascending(FromVersion(l, start))
  {
    if l != [] {
      FromVersionAscending(l[1..], start);
      var rest := FromVersion(l[1..], start);
      forall i | 0 <= i < |rest| ensures InOrder(l[0], rest[i]) {
        FromVersionMember(l[1..], start, rest[i]);
        var j :| 0 <= j < |l[1..]| && l[1..][j] == rest[i];
        assert l[j + 1] == rest[i];
      }
      AscendingCons(l[0], rest);
    }
  }

  lemma AscendingCons(s: Script, l: seq<Script>)
    requires Ascending(l) && forall i :: 0 <= i < |l| ==> InOrder(s, l[i])
    ensures Ascending([s] + l)
  {
  }

  lemma {:induction false} FromVersionCounts(l: seq<Script>, start: nat, s: Script)
    ensures multiset(FromVersion(l, start))[s] == if s.source >= start then multiset(l)[s] else 0
  {
    if l != [] {
      FromVersionCounts(l[1..], start, s);
      assert l == [l[0]] + l[1..];
    }
  }

  /** What never changes during a migration. */
  datatype Setup = Setup(system: Version, scripts: map<string, seq<Script>>, force: bool, checkpointed: bool) {
    ghost predicate Valid() {
      system.component.Some? && system.vintage == Vyos
    }
  }

  /** The scripts that apply to a component, given the file's own versions. */
  function Applicable(setup: Setup, file: Version, key: string): seq<Script> {
    var all := SortScripts(if key in setup.scripts then setup.scripts[key] else []);
    if file.component.Some? && !setup.force then
      FromVersion(all, if key in file.component.value then file.component.value[key] else 0)
    else all
  }

  /** A script of the component applies unless it starts below the file's own version; forced, or without versions, all do. */
  ghost predicate Applies(setup: Setup, file: Version, key: string, s: Script) {
    match file.component
    case None => true
    case Some(versions) => setup.force || (key in versions ==> s.source >= versions[key])
  }

  /** The scripts that apply, each as often as it is there, in ascending order. */
  lemma ApplicableMeaning(setup: Setup, file: Version, key: string)
    ensures var l := Applicable(setup, file, key);
            && Ascending(l)
            && (forall s {:trigger Applies(setup, file, key, s)} ::
                  multiset(l)[s] == if key in setup.scripts && Applies(setup, file, key, s) then multiset(setup.scripts[key])[s] else 0)
  {
    var raw := if key in setup.scripts then setup.scripts[key] else [];
    SortedScripts(raw);
    var all, l := SortScripts(raw), Applicable(setup, file, key);
    if file.component.Some? && !setup.force {
      var from := if key in file.component.value then file.component.value[key] else 0;
      FromVersionAscending(all, from);
      forall s ensures multiset(l)[s] == if Applies(setup, file, key, s) then multiset(raw)[s] else 0 {
        FromVersionCounts(all, from, s);
      }
    }
  }

  /** Scripts applied up to the first failure: the tree afterwards and how many succeeded. */
  ghost function RunScripts(checkpointed: bool, l: seq<Script>, config: string): (r: (string, nat))
    ensures r.1 <= |l|
  {
    if l == [] then (config, 0)
    else
      match Applied(checkpointed, l[0], config)
      case Raised(c) => (c, 0)
      case Done(c) =>
        var r := RunScripts(checkpointed, l[1..], c);
        (r.0, r.1 + 1)
  }

  /** The composition, in order, of the scripts' effects. */
  ghost function Composition(l: seq<Script>, config: string): string {
    if l == [] then config else Composition(l[1..], Applied(true, l[0], config).config)
  }

  /** Every script succeeds on what the ones before it made. */
  ghost predicate AllSucceed(l: seq<Script>, config: string) {
    l == [] || (Applied(true, l[0], config).Done? && AllSucceed(l[1..], Applied(true, l[0], config).config))
  }

  /** What the failing script leaves of the tree: with checkpoints all of it. */
  ghost predicate FailsOn(checkpointed: bool, s: Script, config: string, after: string) {
    match s.migrate
    case None => after == config
    case Some(f) => f(config).Raised? && after == if checkpointed then config else f(config).config
  }

  /**
    The longest prefix of scripts that succeed is composed; the next script, if there
    is one, fails on what they made, and with checkpoints that is the tree.
   */
  lemma {:induction false} RunScriptsMeaning(checkpointed: bool, l: seq<Script>, config: string)
    ensures var (c, n) := RunScripts(checkpointed, l, config);
            && AllSucceed(l[..n], config)
            && if n < |l| then FailsOn(checkpointed, l[n], Composition(l[..n], config), c) else c == Composition(l, config)
  {
    if l != [] {
      match Applied(checkpointed, l[0], config) {
        case Raised(c) =>
        case Done(c) =>
          RunScriptsMeaning(checkpointed, l[1..], c);
          var n := RunScripts(checkpointed, l[1..], c).1;
          assert l[..n + 1][1..] == l[1..][..n];
          assert n + 1 == |l| ==> l[..n + 1] == l;
      }
    }
  }

  /** One more script after `n` successes. */
  lemma {:induction false} RunScriptsSnoc(checkpointed: bool, l: seq<Script>, config: string, n: nat)
    requires n < |l| && RunScripts(checkpointed, l[..n], config).1 == n
    ensures var c := RunScripts(checkpointed, l[..n], config).0;
            && (Applied(checkpointed, l[n], c).Done? ==>
                  RunScripts(checkpointed, l[..n + 1], config) == (Applied(checkpointed, l[n], c).config, n + 1))
            && (Applied(checkpointed, l[n], c).Raised? ==>
                  RunScripts(checkpointed, l, config) == (Applied(checkpointed, l[n], c).config, n))
  {
    if n == 0 {
      assert l[..1][1..] == [];
    } else {
      assert l[..n][1..] == l[1..][..n - 1] && l[..n + 1][1..] == l[1..][..n];
      var c := Applied(checkpointed, l[0], config).config;
      RunScriptsSnoc(checkpointed, l[1..], c, n - 1);
    }
  }

  // ---- all components ----------------------------------------------------------------------

  /** The record being built and the tree. */
  datatype State = State(revision: Version, config: string)

  /** The version a component is left at by `n` successes, if it changes. */
  function VersionReached(setup: Setup, key: string, l: seq<Script>, n: nat): Option<nat>
    requires setup.system.component.Some? && key in setup.system.component.value && n <= |l|
  {
    if l == [] then Some(setup.system.component.value[key])
    else if n > 0 then Some(l[n - 1].target)
    else None
  }

  /** The scripts' effect on versions: one update for each success. */
  ghost function Recorded(v: Version, key: string, l: seq<Script>): Version {
    if l == [] then v else ComponentUpdated(Recorded(v, key, l[..|l| - 1]), key, l[|l| - 1].target)
  }

  ghost function StepComponent(setup: Setup, file: Version, st: State, key: string): State
    requires setup.system.component.Some? && key in setup.system.component.value
  {
    StepScripts(setup, st, key, Applicable(setup, file, key))
  }

  ghost function StepScripts(setup: Setup, st: State, key: string, l: seq<Script>): State
    requires setup.system.component.Some? && key in setup.system.component.value
  {
    if l == [] then
      State(ComponentUpdated(st.revision, key, setup.system.component.value[key]), st.config)
    else
      var (c, n) := RunScripts(setup.checkpointed, l, st.config);
      State(Recorded(st.revision, key, l[..n]), c)
  }

  ghost function StepComponents(setup: Setup, file: Version, st: State, keys: seq<string>): State
    requires setup.system.component.Some? && forall k :: k in keys ==> k in setup.system.component.value
  {
    if keys == [] then st
    else StepComponent(setup, file, StepComponents(setup, file, st, keys[..|keys| - 1]), keys[|keys| - 1])
  }

  lemma StepComponentsSnoc(setup: Setup, file: Version, st: State, keys: seq<string>, i: nat)
    requires setup.system.component.Some? && (forall k :: k in keys ==> k in setup.system.component.value) && i < |keys|
    ensures keys[i] in setup.system.component.value
    ensures StepComponents(setup, file, st, keys[..i + 1])
         == StepComponent(setup, file, StepComponents(setup, file, st, keys[..i]), keys[i])
  {
    assert keys[i] in keys && keys[..i + 1][..i] == keys[..i];
  }

  /** The scripts that succeed on the way through the components, in order. */
  ghost function Successes(setup: Setup, file: Version, st: State, keys: seq<string>): seq<Script>
    requires setup.system.component.Some? && forall k :: k in keys ==> k in setup.system.component.value
  {
    if keys == [] then []
    else
      var front, key := keys[..|keys| - 1], keys[|keys| - 1];
      var l := Applicable(setup, file, key);
      Successes(setup, file, st, front)
      + l[..RunScripts(setup.checkpointed, l, StepComponents(setup, file, st, front).config).1]
  }

  lemma {:induction false} CompositionConcat(a: seq<Script>, b: seq<Script>, config: string)
    ensures Composition(a + b, config) == Composition(b, Composition(a, config))
    ensures AllSucceed(a + b, config) <==> AllSucceed(a, config) && AllSucceed(b, Composition(a, config))
  {
    if a == [] {
      assert a + b == b;
    } else {
      assert (a + b)[1..] == a[1..] + b;
      CompositionConcat(a[1..], b, Applied(true, a[0], config).config);
    }
  }

  /** With checkpoints, the resulting tree composes exactly the successful scripts, in order. */
  lemma {:induction false} ConfigIsComposition(setup: Setup, file: Version, st: State, keys: seq<string>)
    requires setup.Valid() && setup.checkpointed && forall k :: k in keys ==> k in setup.system.component.value
    ensures var done := Successes(setup, file, st, keys);
            AllSucceed(done, st.config) && StepComponents(setup, file, st, keys).config == Composition(done, st.config)
  {
    if keys != [] {
      var front, key := keys[..|keys| - 1], keys[|keys| - 1];
      ConfigIsComposition(setup, file, st, front);
      var before := StepComponents(setup, file, st, front).config;
      var l := Applicable(setup, file, key);
      RunScriptsMeaning(true, l, before);
      assert l[..|l|] == l;
      CompositionConcat(Successes(setup, file, st, front), l[..RunScripts(true, l, before).1], st.config);
    }
  }

  /** The tree after scripts that are all tried, each on what the one before it left. */
  ghost function LeftBy(checkpointed: bool, l: seq<Script>, config: string): string {
    if l == [] then config else LeftBy(checkpointed, l[1..], Applied(checkpointed, l[0], config).config)
  }

  /** The scripts tried on the way through the components, the failing ones included. */
  ghost function Tried(setup: Setup, file: Version, st: State, keys: seq<string>): seq<Script>
    requires setup.system.component.Some? && forall k :: k in keys ==> k in setup.system.component.value
  {
    if keys == [] then []
    else
      var front, key := keys[..|keys| - 1], keys[|keys| - 1];
      var l := Applicable(setup, file, key);
      Tried(setup, file, st, front) + TriedOf(setup.checkpointed, l, StepComponents(setup, file, st, front).config)
  }

  ghost function TriedOf(checkpointed: bool, l: seq<Script>, config: string): seq<Script> {
    var n := RunScripts(checkpointed, l, config).1;
    if n < |l| then l[..n + 1] else l
  }

  lemma {:induction false} LeftByConcat(checkpointed: bool, a: seq<Script>, b: seq<Script>, config: string)
    ensures LeftBy(checkpointed, a + b, config) == LeftBy(checkpointed, b, LeftBy(checkpointed, a, config))
  {
    if a == [] {
      assert a + b == b;
    } else {
      assert (a + b)[1..] == a[1..] + b;
      LeftByConcat(checkpointed, a[1..], b, Applied(checkpointed, a[0], config).config);
    }
  }

  lemma {:induction false} RunScriptsLeave(checkpointed: bool, l: seq<Script>, config: string)
    ensures RunScripts(checkpointed, l, config).0 == LeftBy(checkpointed, TriedOf(checkpointed, l, config), config)
  {
    if l != [] {
      match Applied(checkpointed, l[0], config) {
        case Raised(c) =>
          assert l[..1][1..] == [];
        case Done(c) =>
          RunScriptsLeave(checkpointed, l[1..], c);
          var n := RunScripts(checkpointed, l[1..], c).1;
          if n < |l[1..]| {
            assert l[..n + 2][1..] == l[1..][..n + 1];
          }
      }
    }
  }

  /** With checkpoints or without, the tree is what the scripts that were tried left of it, in order. */
  lemma {:induction false} ConfigIsLeft(setup: Setup, file: Version, st: State, keys: seq<string>)
    requires setup.Valid() && forall k :: k in keys ==> k in setup.system.component.value
    ensures StepComponents(setup, file, st, keys).config == LeftBy(setup.checkpointed, Tried(setup, file, st, keys), st.config)
  {
    if keys != [] {
      var front, key := keys[..|keys| - 1], keys[|keys| - 1];
      ConfigIsLeft(setup, file, st, front);
      var before := StepComponents(setup, file, st, front);
      StepLeaves(setup, file, before, key);
      LeftByConcat(setup.checkpointed, Tried(setup, file, st, front),
                   TriedOf(setup.checkpointed, Applicable(setup, file, key), before.config), st.config);
    }
  }

  lemma StepLeaves(setup: Setup, file: Version, st: State, key: string)
    requires setup.Valid() && key in setup.system.component.value
    ensures StepComponent(setup, file, st, key).config
         == LeftBy(setup.checkpointed, TriedOf(setup.checkpointed, Applicable(setup, file, key), st.config), st.config)
  {
    RunScriptsLeave(setup.checkpointed, Applicable(setup, file, key), st.config);
  }

  function ComponentsOf(v: Version): Components {
    if v.component.Some? then v.component.value else map[]
  }

  /** Updating components touches nothing but the versions and the footer. */
  ghost predicate SameBut(v: Version, w: Version, m: Components) {
    && w.release == v.release && w.vintage == v.vintage && w.configBody == v.configBody
    && w.component == Some(m)
  }

  lemma UpdatedTwice(v: Version, w: Version, key: string, a: nat, b: nat)
    requires SameBut(v, w, ComponentsOf(v)[key := a])
    ensures SameBut(v, ComponentUpdated(w, key, b), ComponentsOf(v)[key := b])
  {
    assert ComponentsOf(v)[key := a][key := b] == ComponentsOf(v)[key := b];
  }

  lemma {:induction false} RecordedComponent(v: Version, key: string, l: seq<Script>)
    ensures l == [] ==> Recorded(v, key, l) == v
    ensures l != [] ==> SameBut(v, Recorded(v, key, l), ComponentsOf(v)[key := l[|l| - 1].target])
  {
    if |l| > 1 {
      var front := l[..|l| - 1];
      RecordedComponent(v, key, front);
      UpdatedTwice(v, Recorded(v, key, front), key, front[|front| - 1].target, l[|l| - 1].target);
    } else if |l| == 1 {
      assert Recorded(v, key, l[..0]) == v;
    }
  }

  /** The version recorded for `k`, if any. */
  function Lookup(v: Version, k: string): Option<nat> {
    if v.component.Some? && k in v.component.value then Some(v.component.value[k]) else None
  }

  lemma StepLookup(setup: Setup, file: Version, st: State, key: string, k: string)
    requires setup.Valid() && key in setup.system.component.value
    ensures var l := Applicable(setup, file, key);
            var reached := VersionReached(setup, key, l, RunScripts(setup.checkpointed, l, st.config).1);
            Lookup(StepComponent(setup, file, st, key).revision, k)
            == if k == key && reached.Some? then reached else Lookup(st.revision, k)
  {
    var l := Applicable(setup, file, key);
    if l != [] {
      var n := RunScripts(setup.checkpointed, l, st.config).1;
      RecordedComponent(st.revision, key, l[..n]);
      if n > 0 { assert l[..n][n - 1] == l[n - 1]; }
    }
  }

  ghost predicate DistinctKeys(keys: seq<string>) {
    forall i, j :: 0 <= i < j < |keys| ==> keys[i] != keys[j]
  }

  /**
    After all components, each is at the version its last successful script set,
    at the system's if no script applies, and else where the pruned file left it.
   */
  lemma {:induction false} FinalVersions(setup: Setup, file: Version, st: State, keys: seq<string>, i: nat)
    requires setup.Valid() && (forall k :: k in keys ==> k in setup.system.component.value)
    requires DistinctKeys(keys) && i < |keys|
    ensures var l := Applicable(setup, file, keys[i]);
            var reached := VersionReached(setup, keys[i], l,
                             RunScripts(setup.checkpointed, l, StepComponents(setup, file, st, keys[..i]).config).1);
            Lookup(StepComponents(setup, file, st, keys).revision, keys[i])
            == if reached.Some? then reached else Lookup(st.revision, keys[i])
    decreases |keys|
  {
    var front, key := keys[..|keys| - 1], keys[|keys| - 1];
    StepLookup(setup, file, StepComponents(setup, file, st, front), key, keys[i]);
    if i < |keys| - 1 {
      assert front[..i] == keys[..i];
      FinalVersions(setup, file, st, front, i);
    } else {
      assert keys[..i] == front;
      OtherVersions(setup, file, st, front, keys[i]);
    }
  }

  lemma {:induction false} OtherVersions(setup: Setup, file: Version, st: State, keys: seq<string>, k: string)
    requires setup.Valid() && (forall k :: k in keys ==> k in setup.system.component.value) && k !in keys
    ensures Lookup(StepComponents(setup, file, st, keys).revision, k) == Lookup(st.revision, k)
  {
    if keys != [] {
      var front, key := keys[..|keys| - 1], keys[|keys| - 1];
      assert key in keys;
      OtherVersions(setup, file, st, front, k);
      StepLookup(setup, file, StepComponents(setup, file, st, front), key, k);
    }
  }

  // ---- the order of components ------------------------------------------------------------

  function Keys(items: seq<Item>): seq<string> {
    seq(|items|, i requires 0 <= i < |items| => items[i].0)
  }

  function IndexOf(l: seq<string>, x: string): (i: nat)
    requires x in l
    ensures i < |l| && l[i] == x
  {
    if l[0] == x then 0 else 1 + IndexOf(l[1..], x)
  }

  /** Both indices are taken before `bgp` is popped, so it lands behind `quagga`. */
  function MoveBgp(keys: seq<string>): seq<string> {
    if "bgp" in keys && "quagga" in keys then
      var at := IndexOf(keys, "quagga");
      var b := IndexOf(keys, "bgp");
      var rest := keys[..b] + keys[b + 1..];
      var q := if at <= |rest| then at else |rest|;
      rest[..q] + ["bgp"] + rest[q..]
    else keys
  }

  ghost function OrderedKeys(m: Components): seq<string> {
    MoveBgp(Keys(SortedItems(m)))
  }

  lemma SortedKeys(m: Components)
    ensures var keys := Keys(SortedItems(m));
            && (forall k :: k in keys <==> k in m)
            && (forall i, j :: 0 <= i < j < |keys| ==> Before(keys[i], keys[j]))
            && DistinctKeys(keys)
  {
    var items := SortedItems(m);
    var keys := Keys(items);
    forall i | 0 <= i < |items| ensures items[i].0 in m {
      assert (items[i].0, items[i].1) in items;
    }
    forall k | k in m ensures k in keys {
      assert (k, m[k]) in items;
      var i :| 0 <= i < |items| && items[i] == (k, m[k]);
      assert keys[i] == k;
    }
    forall i, j | 0 <= i < j < |keys| ensures keys[i] != keys[j] {
      BeforeIrreflexive(keys[i]);
    }
  }

  /** Sorted, except that `bgp` comes right behind `quagga` when both are there. */
  lemma ComponentOrder(m: Components)
    ensures var keys := OrderedKeys(m);
            && DistinctKeys(keys) && (forall k :: k in keys <==> k in m)
            && (forall i, j | 0 <= i < j < |keys| :: (keys[i] != "bgp" && keys[j] != "bgp") || "quagga" !in m ==>
                  Before(keys[i], keys[j]))
            && ("bgp" in m && "quagga" in m ==> exists i :: 0 <= i < |keys| - 1 && keys[i] == "quagga" && keys[i + 1] == "bgp")
  {
    var sorted := Keys(SortedItems(m));
    SortedKeys(m);
    if "bgp" in m && "quagga" in m {
      MovedBehind(sorted);
    }
  }

  /** Where entry `i` of the reordered list comes from: `bgp` moves from `b` to `q`. */
  function MovedFrom(b: nat, q: nat, i: nat): nat {
    if i < b then i else if i < q then i + 1 else if i == q then b else i
  }

  lemma MovedEntries(l: seq<string>, b: nat, q: nat)
    requires b < q < |l|
    ensures var rest := l[..b] + l[b + 1..];
            var moved := rest[..q] + [l[b]] + rest[q..];
            |moved| == |l| && forall i :: 0 <= i < |moved| ==> moved[i] == l[MovedFrom(b, q, i)]
  {
  }

  lemma BeforeAt(l: seq<string>, i: nat, j: nat)
    requires forall i, j :: 0 <= i < j < |l| ==> Before(l[i], l[j])
    ensures i < j < |l| ==> Before(l[i], l[j])
  {
  }

  /** `bgp` sorts first, so it moves up to `quagga`. */
  lemma MoveBgpIs(sorted: seq<string>, b: nat, q: nat)
    requires forall i, j :: 0 <= i < j < |sorted| ==> Before(sorted[i], sorted[j])
    requires "bgp" in sorted && "quagga" in sorted && b == IndexOf(sorted, "bgp") && q == IndexOf(sorted, "quagga")
    ensures b < q
    ensures var moved := MoveBgp(sorted);
            |moved| == |sorted| && forall i :: 0 <= i < |moved| ==> moved[i] == sorted[MovedFrom(b, q, i)]
  {
    BgpIsFirst();
    BeforeAt(sorted, q, b);
    MovedEntries(sorted, b, q);
  }

  lemma MovedBehind(sorted: seq<string>)
    requires forall i, j :: 0 <= i < j < |sorted| ==> Before(sorted[i], sorted[j])
    requires DistinctKeys(sorted) && "bgp" in sorted && "quagga" in sorted
    ensures var keys := MoveBgp(sorted);
            && DistinctKeys(keys) && (forall k :: k in keys <==> k in sorted)
            && (forall i, j | 0 <= i < j < |keys| :: keys[i] != "bgp" && keys[j] != "bgp" ==> Before(keys[i], keys[j]))
            && exists i :: 0 <= i < |keys| - 1 && keys[i] == "quagga" && keys[i + 1] == "bgp"
  {
    var q, b := IndexOf(sorted, "quagga"), IndexOf(sorted, "bgp");
    MoveBgpIs(sorted, b, q);
    MovedProperties(sorted, MoveBgp(sorted), b, q);
  }

  lemma BgpIsFirst()
    ensures Before("bgp", "quagga") && !Before("quagga", "bgp")
  {
    BeforeOrder("bgp", "quagga", "");
  }

  lemma MovedProperties(l: seq<string>, moved: seq<string>, b: nat, q: nat)
    requires b < q < |l| == |moved| && DistinctKeys(l) && forall i, j :: 0 <= i < j < |l| ==> Before(l[i], l[j])
    requires forall i :: 0 <= i < |moved| ==> moved[i] == l[MovedFrom(b, q, i)]
    ensures DistinctKeys(moved) && forall k :: k in moved <==> k in l
    ensures forall i, j | 0 <= i < j < |moved| :: moved[i] != l[b] && moved[j] != l[b] ==> Before(moved[i], moved[j])
    ensures 0 <= q - 1 < |moved| - 1 && moved[q - 1] == l[q] && moved[q] == l[b]
  {
    forall i, j | 0 <= i < j < |moved| ensures moved[i] != moved[j] {
      assert MovedFrom(b, q, i) != MovedFrom(b, q, j);
    }
    forall k | k in l ensures k in moved {
      var i :| 0 <= i < |l| && l[i] == k;
      assert moved[if i < b then i else if i == b then q else if i <= q then i - 1 else i] == k;
    }
  }

  // ---- the migration -------------------------------------------------------------------------

  /** What `run_migration_scripts` makes of the file's version record. */
  ghost function Migrated(setup: Setup, file: Version, config: string): State
    requires setup.Valid()
  {
    ComponentOrder(setup.system.component.value);
    var st := StepComponents(setup, file, State(Pruned(file, setup.system), config), OrderedKeys(setup.system.component.value));
    State(st.revision.(configBody := Some(st.config)), st.config)
  }

  /** The first `i` scripts have succeeded. */
  ghost predicate AfterScripts(setup: Setup, start: State, key: string, l: seq<Script>, i: nat, now: State)
    requires i <= |l|
  {
    && RunScripts(setup.checkpointed, l[..i], start.config) == (now.config, i)
    && now.revision == Recorded(start.revision, key, l[..i])
  }

  lemma NextScript(setup: Setup, start: State, key: string, l: seq<Script>, i: nat, now: State)
    requires setup.system.component.Some? && key in setup.system.component.value
    requires i < |l| && AfterScripts(setup, start, key, l, i, now)
    ensures var r := Applied(setup.checkpointed, l[i], now.config);
            && (r.Done? ==> AfterScripts(setup, start, key, l, i + 1,
                              State(ComponentUpdated(now.revision, key, l[i].target), r.config)))
            && (r.Raised? ==> State(now.revision, r.config) == StepScripts(setup, start, key, l))
  {
    RunScriptsSnoc(setup.checkpointed, l, start.config, i);
    assert l[..i + 1][..i] == l[..i];
  }

  class ConfigMigrate {
    const setup: Setup
    var fileVersion: VersionInfo
    var compose: ComposeConfig?
    var configModified: bool
    /** The record last written to the configuration file. */
    var written: Option<Version>

    ghost predicate Valid()
      reads this, fileVersion
    {
      && setup.Valid()
      && fileVersion.configBody.Some?
      && (fileVersion.component.None? ==> fileVersion.vintage == Vyos)
    }

    constructor (setup: Setup, file: VersionInfo)
      requires setup.Valid() && file.configBody.Some? && (file.component.None? ==> file.vintage == Vyos)
      ensures Valid() && this.setup == setup && fileVersion == file && written == None
    {
      this.setup, fileVersion, compose, configModified, written := setup, file, null, true, None;
    }

    method WriteConfig()
      modifies `written
      ensures written == Some(fileVersion.View())
    {
      written := Some(fileVersion.View());
    }

    /** The scripts of one component, up to the first failure. */
    method RunComponent(key: string, scriptList: seq<Script>, revision: VersionInfo)
      requires compose != null && compose.checkpointed == setup.checkpointed
      requires setup.Valid() && key in setup.system.component.value
      modifies revision, compose
      ensures State(revision.View(), compose.configTree)
           == StepScripts(setup, State(old(revision.View()), old(compose.configTree)), key, scriptList)
    {
      if scriptList == [] {
        revision.UpdateComponent(key, setup.system.component.value[key]);
        return;
      }
      ghost var start := State(revision.View(), compose.configTree);
      for i := 0 to |scriptList|
        invariant AfterScripts(setup, start, key, scriptList, i, State(revision.View(), compose.configTree))
      {
        NextScript(setup, start, key, scriptList, i, State(revision.View(), compose.configTree));
        var ok := compose.ApplyFile(scriptList[i]);
        if !ok {
          return;
        }
        revision.UpdateComponent(key, scriptList[i].target);
      }
      assert scriptList[..|scriptList|] == scriptList;
    }

    /** The loop over the components. */
    method RunComponents(components: seq<string>, revision: VersionInfo)
      requires Valid() && compose != null && compose.checkpointed == setup.checkpointed && revision != fileVersion
      requires forall k :: k in components ==> k in setup.system.component.value
      modifies revision, compose
      ensures State(revision.View(), compose.configTree)
           == StepComponents(setup, fileVersion.View(), State(old(revision.View()), old(compose.configTree)), components)
    {
      ghost var file := fileVersion.View();
      ghost var start := State(revision.View(), compose.configTree);
      for i := 0 to |components|
        invariant fileVersion.View() == file
        invariant State(revision.View(), compose.configTree) == StepComponents(setup, file, start, components[..i])
      {
        var key := components[i];
        StepComponentsSnoc(setup, file, start, components, i);
        var scriptList := SortScripts(if key in setup.scripts then setup.scripts[key] else []);
        if fileVersion.component.Some? && !setup.force {
          var from := if key in fileVersion.component.value then fileVersion.component.value[key] else 0;
          scriptList := FromVersion(scriptList, from);
        }
        RunComponent(key, scriptList, revision);
      }
      assert components[..|components|] == components;
    }

    /**
      Returns normally exactly when the versions reached are the system's; the
      file's record is replaced by what was reached in either case.
     */
    method RunMigrationScripts() returns (ok: bool)
      requires Valid() && compose != null && compose.checkpointed == setup.checkpointed
      modifies `fileVersion, compose
      ensures Valid() && fresh(fileVersion) && compose == old(compose)
      ensures State(fileVersion.View(), compose.configTree)
           == Migrated(setup, old(fileVersion.View()), old(compose.configTree))
      ensures ok <==> fileVersion.View().component == setup.system.component
      ensures fileVersion.configBody == Some(compose.configTree)
    {
      ghost var file, config := fileVersion.View(), compose.configTree;
      var components := OrderComponents(setup.system.component.value);
      ComponentOrder(setup.system.component.value);
      var revision := VersionInfoCopy(fileVersion);
      var system := new VersionInfo(setup.system);
      VersionInfoPruneComponent(revision, system);
      ghost var start := State(revision.View(), config);
      RunComponents(components, revision);
      StepsKeepFields(setup, file, start, components);
      revision.UpdateConfigBody(compose.configTree);
      fileVersion := VersionInfoCopy(revision);
      ok := revision.component == setup.system.component;
    }

    method BringSyntaxUpToDate()
      requires Valid()
      modifies `written, fileVersion
      ensures Valid() && fileVersion.View() == SyntaxUpdated(setup, old(fileVersion.View()))
      ensures written == if old(fileVersion.vintage) == setup.system.vintage then old(written) else Some(fileVersion.View())
    {
      if setup.system.vintage != fileVersion.vintage {
        fileVersion.UpdateSyntax();
        WriteConfig();
      }
    }

    /** `load_config` and the scripts. */
    method LoadAndMigrate() returns (ok: bool)
      requires Valid()
      modifies `fileVersion, `compose
      ensures Valid() && fresh(fileVersion)
      ensures fileVersion.View() == Migrated(setup, old(fileVersion.View()), old(fileVersion.configBody).value).revision
      ensures ok <==> fileVersion.component == setup.system.component
    {
      compose := new ComposeConfig(fileVersion.configBody.value, setup.checkpointed);
      ok := RunMigrationScripts();
    }

    /** The run of a file that is not at the system's versions. */
    method MigrateFile() returns (ok: bool)
      requires Valid() && setup.system.component != fileVersion.component
      modifies this, fileVersion
      ensures Valid()
      ensures var r := MigrationResult(setup, old(fileVersion.View()), old(written), old(configModified));
              && ok == r.ok && written == r.written && configModified == r.configModified
              && fileVersion.View() == r.file
    {
      BringSyntaxUpToDate();
      ok := LoadAndMigrate();
      if !ok {
        return;
      }
      fileVersion.UpdateRelease(setup.system.release);
      WriteConfig();
    }

    /**
      The whole run: what it leaves in memory and on disk is `RunResult` of the file's
      record. If it raises, the file is as before; if it returns, the file is current.
     */
    method Run() returns (ok: bool)
      requires Valid()
      modifies this, fileVersion
      ensures Valid()
      ensures var r := RunResult(setup, old(fileVersion.View()), old(written), old(configModified));
              && ok == r.ok && written == r.written && configModified == r.configModified
              && fileVersion.View() == r.file
      ensures !ok ==> OnDiskAsBefore(old(fileVersion.View()), old(written), written)
      ensures ok ==> IsCurrent(setup, old(fileVersion.View()), old(written), fileVersion.View(), written)
      ensures old(fileVersion.component) != setup.system.component ==> SyntaxIsNew(setup, old(fileVersion.vintage), fileVersion.View(), written)
      ensures configModified == (old(configModified) && !(old(fileVersion.component) == setup.system.component
                                                          && old(fileVersion.release) == setup.system.release))
    {
      RunPromises(setup, fileVersion.View(), written, configModified);
      if setup.system.component == fileVersion.component {
        if setup.system.release != fileVersion.release {
          fileVersion.UpdateRelease(setup.system.release);
          WriteConfig();
        } else {
          configModified := false;
        }
        return true;
      }
      ok := MigrateFile();
    }
  }

  /** Everything a run leaves behind. */
  datatype Result = Result(ok: bool, file: Version, written: Option<Version>, configModified: bool)

  ghost function Released(v: Version, release: string): Version
    requires v.component.Some?
  {
    v.(release := release, footerLines := Some(FooterOf(v.component.value, release)))
  }

  ghost function SyntaxUpdated(setup: Setup, v: Version): Version
    requires v.component.None? ==> v.vintage == setup.system.vintage
  {
    if v.vintage == setup.system.vintage then v
    else v.(vintage := Vyos, footerLines := Some(FooterOf(v.component.value, v.release)))
  }

  ghost function RunResult(setup: Setup, file: Version, written: Option<Version>, modified: bool): Result
    requires setup.Valid() && file.configBody.Some? && (file.component.None? ==> file.vintage == Vyos)
  {
    if file.component == setup.system.component then
      if file.release != setup.system.release then
        var v := Released(file, setup.system.release);
        Result(true, v, Some(v), modified)
      else
        Result(true, file, written, false)
    else
      MigrationResult(setup, file, written, modified)
  }

  ghost function MigrationResult(setup: Setup, file: Version, written: Option<Version>, modified: bool): Result
    requires setup.Valid() && file.configBody.Some? && (file.component.None? ==> file.vintage == Vyos)
  {
    var v := SyntaxUpdated(setup, file);
    var onDisk := if file.vintage == setup.system.vintage then written else Some(v);
    var st := Migrated(setup, v, v.configBody.value);
    if st.revision.component == setup.system.component then
      var r := Released(st.revision, setup.system.release);
      Result(true, r, Some(r), modified)
    else
      Result(false, st.revision, onDisk, modified)
  }

  /** On disk is what was there, or the same body, versions and release in the newer footer form. */
  ghost predicate OnDiskAsBefore(file: Version, before: Option<Version>, after: Option<Version>) {
    after == before
    || (after.Some? && after.value.configBody == file.configBody && after.value.component == file.component
        && after.value.release == file.release)
  }

  /** The record has the system's versions and release, and is on disk unless it was so from the start. */
  ghost predicate IsCurrent(setup: Setup, file: Version, before: Option<Version>, reached: Version, after: Option<Version>) {
    && reached.component == setup.system.component && reached.release == setup.system.release && reached.configBody.Some?
    && (after == Some(reached) || (reached == file && after == before))
  }

  /** Corollary for `Run`: a run that raises has not touched the body or the versions on disk. */
  lemma FailedRunKeepsFile(setup: Setup, file: Version, written: Option<Version>, modified: bool)
    requires setup.Valid() && file.configBody.Some? && (file.component.None? ==> file.vintage == Vyos)
    requires !RunResult(setup, file, written, modified).ok
    ensures OnDiskAsBefore(file, written, RunResult(setup, file, written, modified).written)
  {
  }

  /**
    Corollary for `Run`: a run that returns has put the system's versions and release
    on disk, or found them there; and it is then idle when run again.
   */
  lemma FinishedRunIsCurrent(setup: Setup, file: Version, written: Option<Version>, modified: bool)
    requires setup.Valid() && file.configBody.Some? && (file.component.None? ==> file.vintage == Vyos)
    requires RunResult(setup, file, written, modified).ok
    ensures var r := RunResult(setup, file, written, modified);
            && IsCurrent(setup, file, written, r.file, r.written)
            && RunResult(setup, r.file, r.written, r.configModified) == Result(true, r.file, r.written, false)
  {
  }

  /** A migration has brought the footer form up to date, on disk too if it was not. */
  ghost predicate SyntaxIsNew(setup: Setup, before: Vintage, reached: Version, written: Option<Version>) {
    reached.vintage == setup.system.vintage
    && (before != setup.system.vintage ==> written.Some? && written.value.vintage == setup.system.vintage)
  }

  lemma RunPromises(setup: Setup, file: Version, written: Option<Version>, modified: bool)
    requires setup.Valid() && file.configBody.Some? && (file.component.None? ==> file.vintage == Vyos)
    ensures var r := RunResult(setup, file, written, modified);
            && (if r.ok then IsCurrent(setup, file, written, r.file, r.written) else OnDiskAsBefore(file, written, r.written))
            && (file.component != setup.system.component ==> SyntaxIsNew(setup, file.vintage, r.file, r.written))
  {
    if file.component != setup.system.component {
      var v := SyntaxUpdated(setup, file);
      ComponentOrder(setup.system.component.value);
      StepsKeepFields(setup, v, State(Pruned(v, setup.system), v.configBody.value), OrderedKeys(setup.system.component.value));
    }
    if RunResult(setup, file, written, modified).ok {
      FinishedRunIsCurrent(setup, file, written, modified);
    } else {
      FailedRunKeepsFile(setup, file, written, modified);
    }
  }

  method OrderComponents(m: Components) returns (keys: seq<string>)
    ensures keys == OrderedKeys(m)
  {
    var items := Sorted(m);
    keys := MoveBgp(Keys(items));
  }

  lemma {:induction false} StepsKeepFields(setup: Setup, file: Version, st: State, keys: seq<string>)
    requires setup.Valid() && forall k :: k in keys ==> k in setup.system.component.value
    ensures var r := StepComponents(setup, file, st, keys).revision;
            r.release == st.revision.release && r.vintage == st.revision.vintage
    ensures StepComponents(setup, file, st, keys).revision.component.None? ==> st.revision.component.None?
  {
    if keys != [] {
      var front, key := keys[..|keys| - 1], keys[|keys| - 1];
      StepsKeepFields(setup, file, st, front);
      var l := Applicable(setup, file, key);
      var before := StepComponents(setup, file, st, front);
      RecordedComponent(before.revision, key, l[..RunScripts(setup.checkpointed, l, before.config).1]);
    }
  }

  // ---- when a migration succeeds -------------------------------------------------------------

  /** The tree the scripts of a component start from. */
  ghost function ConfigBefore(setup: Setup, file: Version, config: string, key: string): string
    requires setup.Valid() && key in setup.system.component.value
  {
    ComponentOrder(setup.system.component.value);
    var keys := OrderedKeys(setup.system.component.value);
    StepComponents(setup, file, State(Pruned(file, setup.system), config), keys[..IndexOf(keys, key)]).config
  }

  /** How many scripts of a component succeed. */
  ghost function SuccessesOf(setup: Setup, file: Version, config: string, key: string): (n: nat)
    requires setup.Valid() && key in setup.system.component.value
    ensures n <= |Applicable(setup, file, key)|
  {
    RunScripts(setup.checkpointed, Applicable(setup, file, key), ConfigBefore(setup, file, config, key)).1
  }

  /**
    `n` successes leave the component at the system's version: no script applies, or
    the last successful one leads there, or none succeeds and the file was there already.
   */
  ghost predicate EndsAtSystem(setup: Setup, file: Version, key: string, n: nat)
    requires setup.Valid() && key in setup.system.component.value
  {
    var wanted, l := setup.system.component.value[key], Applicable(setup, file, key);
    l == [] || (n <= |l| && if n > 0 then l[n - 1].target == wanted else Lookup(file, key) == Some(wanted))
  }

  /** The run returns normally. */
  ghost predicate Succeeds(setup: Setup, file: Version, config: string)
    requires setup.Valid()
  {
    Migrated(setup, file, config).revision.component == setup.system.component
  }

  lemma {:induction false} StepsKeepKeys(setup: Setup, file: Version, st: State, keys: seq<string>)
    requires setup.Valid() && forall k :: k in keys ==> k in setup.system.component.value
    requires ComponentsOf(st.revision).Keys <= setup.system.component.value.Keys
    ensures ComponentsOf(StepComponents(setup, file, st, keys).revision).Keys <= setup.system.component.value.Keys
  {
    if keys != [] {
      var front, key := keys[..|keys| - 1], keys[|keys| - 1];
      StepsKeepKeys(setup, file, st, front);
      var l := Applicable(setup, file, key);
      var before := StepComponents(setup, file, st, front);
      RecordedComponent(before.revision, key, l[..RunScripts(setup.checkpointed, l, before.config).1]);
    }
  }

  lemma ComponentLookup(setup: Setup, file: Version, config: string, key: string)
    requires setup.Valid() && key in setup.system.component.value
    ensures EndsAtSystem(setup, file, key, SuccessesOf(setup, file, config, key))
       <==> Lookup(Migrated(setup, file, config).revision, key) == Some(setup.system.component.value[key])
  {
    ComponentOrder(setup.system.component.value);
    var keys := OrderedKeys(setup.system.component.value);
    var i, st := IndexOf(keys, key), State(Pruned(file, setup.system), config);
    FinalVersions(setup, file, st, keys, i);
    EndsWhere(setup, file, key, Lookup(StepComponents(setup, file, st, keys).revision, key),
              SuccessesOf(setup, file, config, key));
  }

  lemma EndsWhere(setup: Setup, file: Version, key: string, reached: Option<nat>, n: nat)
    requires setup.Valid() && key in setup.system.component.value && n <= |Applicable(setup, file, key)|
    requires var r := VersionReached(setup, key, Applicable(setup, file, key), n);
             reached == if r.Some? then r else Lookup(Pruned(file, setup.system), key)
    ensures EndsAtSystem(setup, file, key, n) <==> reached == Some(setup.system.component.value[key])
  {
  }

  lemma LookupDecides(v: Version, m: Components)
    requires m != map[] && ComponentsOf(v).Keys <= m.Keys
    ensures v.component == Some(m) <==> forall k :: k in m ==> Lookup(v, k) == Some(m[k])
  {
    if forall k :: k in m ==> Lookup(v, k) == Some(m[k]) {
      var k :| k in m;
      assert v.component.Some?;
      assert v.component.value == m;
    }
  }

  /**
    `run_migration_scripts` returns normally exactly when every component of the
    system ends at the system's version.
   */
  lemma MigrationSucceedsIff(setup: Setup, file: Version, config: string)
    requires setup.Valid() && setup.system.component.value != map[]
    ensures Succeeds(setup, file, config)
       <==> forall key :: key in setup.system.component.value ==>
              EndsAtSystem(setup, file, key, SuccessesOf(setup, file, config, key))
  {
    var m := setup.system.component.value;
    ComponentOrder(m);
    StepsKeepKeys(setup, file, State(Pruned(file, setup.system), config), OrderedKeys(m));
    LookupDecides(Migrated(setup, file, config).revision, m);
    forall key | key in m
      ensures EndsAtSystem(setup, file, key, SuccessesOf(setup, file, config, key))
         <==> Lookup(Migrated(setup, file, config).revision, key) == Some(m[key])
    {
      ComponentLookup(setup, file, config, key);
    }
  }

  // ---- whether a normal return tells that no script failed ------------------------------------

  ghost predicate NothingFailed(setup: Setup, file: Version, config: string)
    requires setup.Valid()
  {
    forall key :: key in setup.system.component.value ==>
      SuccessesOf(setup, file, config, key) == |Applicable(setup, file, key)|
  }

  /** The same files by name, whatever their functions do. */
  ghost predicate SameNames(l: seq<Script>, m: seq<Script>) {
    |l| == |m| && forall i :: 0 <= i < |l| ==> l[i].source == m[i].source && l[i].target == m[i].target
  }

  /** The same installation with other contents of the applicable script files. */
  ghost predicate OtherContents(setup: Setup, other: Setup, file: Version)
    requires setup.Valid()
  {
    && other.system == setup.system && other.force == setup.force && other.checkpointed == setup.checkpointed
    && forall key :: key in setup.system.component.value ==>
         SameNames(Applicable(setup, file, key), Applicable(other, file, key))
  }

  /**
    What can be read off the file names before the run: where scripts apply to a
    component, the last one leads to the system's version, no earlier one does, and
    the file is not there yet.
   */
  ghost predicate VersionsTell(setup: Setup, file: Version)
    requires setup.Valid()
  {
    forall key :: key in setup.system.component.value ==> OnlyTheLastReaches(setup, file, key)
  }

  ghost predicate OnlyTheLastReaches(setup: Setup, file: Version, key: string)
    requires setup.Valid() && key in setup.system.component.value
  {
    var wanted, l := setup.system.component.value[key], Applicable(setup, file, key);
    l != [] ==>
      && l[|l| - 1].target == wanted
      && (forall i :: 0 <= i < |l| - 1 ==> l[i].target != wanted)
      && Lookup(file, key) != Some(wanted)
  }

  lemma OnlyTheLastEnds(setup: Setup, file: Version, key: string, n: nat)
    requires setup.Valid() && key in setup.system.component.value
    requires OnlyTheLastReaches(setup, file, key) && n <= |Applicable(setup, file, key)|
    ensures EndsAtSystem(setup, file, key, n) <==> n == |Applicable(setup, file, key)|
  {
  }

  /** Where the names tell, a normal return means that every script succeeded, and the other way round. */
  lemma ToldByVersions(setup: Setup, file: Version, config: string)
    requires setup.Valid() && setup.system.component.value != map[] && VersionsTell(setup, file)
    ensures Succeeds(setup, file, config) <==> NothingFailed(setup, file, config)
  {
    MigrationSucceedsIff(setup, file, config);
    forall key | key in setup.system.component.value
      ensures EndsAtSystem(setup, file, key, SuccessesOf(setup, file, config, key))
         <==> SuccessesOf(setup, file, config, key) == |Applicable(setup, file, key)|
    {
      OnlyTheLastEnds(setup, file, key, SuccessesOf(setup, file, config, key));
    }
  }

  lemma SameNamesTell(setup: Setup, other: Setup, file: Version)
    requires setup.Valid() && OtherContents(setup, other, file)
    ensures VersionsTell(setup, file) <==> VersionsTell(other, file)
  {
    forall key | key in setup.system.component.value
      ensures OnlyTheLastReaches(setup, file, key) <==> OnlyTheLastReaches(other, file, key)
    {
      assert SameNames(Applicable(setup, file, key), Applicable(other, file, key));
    }
  }

  // ---- contents that stop each component where one likes --------------------------------------

  /** Scripts of these names that leave the tree alone, the one at `stop` failing. */
  function Stopping(l: seq<Script>, stop: nat): seq<Script> {
    seq(|l|, i requires 0 <= i < |l| => l[i].(migrate := if i == stop then None else Some(c => Done(c))))
  }

  lemma {:induction false} StoppingCount(checkpointed: bool, l: seq<Script>, stop: nat, config: string)
    ensures RunScripts(checkpointed, Stopping(l, stop), config) == (config, if stop < |l| then stop else |l|)
  {
    if l != [] && stop != 0 {
      StoppingTail(l, stop);
      StoppingCount(checkpointed, l[1..], stop - 1, config);
    }
  }

  lemma StoppingTail(l: seq<Script>, stop: nat)
    requires l != [] && stop > 0
    ensures Stopping(l, stop)[1..] == Stopping(l[1..], stop - 1)
  {
  }

  lemma {:induction false} SortedAlready(l: seq<Script>)
    requires Ascending(l)
    ensures SortScripts(l) == l
  {
    if l != [] {
      SortedAlready(l[..|l| - 1]);
      assert l == l[..|l| - 1] + [l[|l| - 1]];
    }
  }

  lemma {:induction false} FilteredAlready(l: seq<Script>, start: nat)
    requires forall i :: 0 <= i < |l| ==> l[i].source >= start
    ensures FromVersion(l, start) == l
  {
    if l != [] {
      FilteredAlready(l[1..], start);
      assert l == [l[0]] + l[1..];
    }
  }

  /** The installation whose components stop at the given places, or not at all. */
  ghost function Stopped(setup: Setup, file: Version, stops: map<string, nat>): Setup
    requires setup.Valid()
  {
    setup.(scripts := map key | key in setup.system.component.value ::
             Stopping(Applicable(setup, file, key), StopOf(setup, file, stops, key)))
  }

  ghost function StopOf(setup: Setup, file: Version, stops: map<string, nat>, key: string): nat {
    if key in stops then stops[key] else |Applicable(setup, file, key)|
  }

  lemma ApplicableIsFixed(setup: Setup, file: Version, key: string, stop: nat, other: Setup)
    requires other.force == setup.force && key in other.scripts
    requires other.scripts[key] == Stopping(Applicable(setup, file, key), stop)
    ensures Applicable(other, file, key) == other.scripts[key]
  {
    var all := SortScripts(if key in setup.scripts then setup.scripts[key] else []);
    SortedScripts(if key in setup.scripts then setup.scripts[key] else []);
    var l := Applicable(setup, file, key);
    if file.component.Some? && !setup.force {
      var from := if key in file.component.value then file.component.value[key] else 0;
      FromVersionAscending(all, from);
      forall i | 0 <= i < |l| ensures l[i].source >= from {
        FromVersionMember(all, from, l[i]);
      }
      FilteredAlready(other.scripts[key], from);
    }
    assert Ascending(l);
    SortedAlready(other.scripts[key]);
  }

  lemma StoppedKeepsNames(setup: Setup, file: Version, stops: map<string, nat>)
    requires setup.Valid()
    ensures OtherContents(setup, Stopped(setup, file, stops), file)
  {
    var other := Stopped(setup, file, stops);
    forall key | key in setup.system.component.value
      ensures SameNames(Applicable(setup, file, key), Applicable(other, file, key))
    {
      ApplicableIsFixed(setup, file, key, StopOf(setup, file, stops, key), other);
    }
  }

  lemma StoppedCount(setup: Setup, file: Version, stops: map<string, nat>, config: string, key: string)
    requires setup.Valid() && key in setup.system.component.value
    requires StopOf(setup, file, stops, key) <= |Applicable(setup, file, key)|
    ensures SuccessesOf(Stopped(setup, file, stops), file, config, key) == StopOf(setup, file, stops, key)
  {
    ComponentOrder(setup.system.component.value);
    var other := Stopped(setup, file, stops);
    var stop := StopOf(setup, file, stops, key);
    ApplicableIsFixed(setup, file, key, stop, other);
    StoppingCount(setup.checkpointed, Applicable(setup, file, key), stop, ConfigBefore(other, file, config, key));
  }

  lemma SameNamesEnd(setup: Setup, other: Setup, file: Version, key: string, n: nat)
    requires setup.Valid() && OtherContents(setup, other, file) && key in setup.system.component.value
    ensures |Applicable(other, file, key)| == |Applicable(setup, file, key)|
    ensures EndsAtSystem(setup, file, key, n) <==> EndsAtSystem(other, file, key, n)
  {
    assert SameNames(Applicable(setup, file, key), Applicable(other, file, key));
  }

  /** Whether stopping there ends at the system's versions, and whether a script failed, can be read off. */
  lemma StoppedRun(setup: Setup, file: Version, stops: map<string, nat>, config: string)
    requires setup.Valid() && setup.system.component.value != map[]
    requires forall key :: key in setup.system.component.value ==>
               StopOf(setup, file, stops, key) <= |Applicable(setup, file, key)|
    ensures var m, other := setup.system.component.value, Stopped(setup, file, stops);
            && (Succeeds(other, file, config)
                <==> forall key :: key in m ==> EndsAtSystem(setup, file, key, StopOf(setup, file, stops, key)))
            && (NothingFailed(other, file, config)
                <==> forall key :: key in m ==> StopOf(setup, file, stops, key) == |Applicable(setup, file, key)|)
  {
    var other := Stopped(setup, file, stops);
    MigrationSucceedsIff(other, file, config);
    forall key | key in setup.system.component.value
      ensures SuccessesOf(other, file, config, key) == StopOf(setup, file, stops, key)
      ensures EndsAtSystem(other, file, key, StopOf(setup, file, stops, key))
         <==> EndsAtSystem(setup, file, key, StopOf(setup, file, stops, key))
      ensures |Applicable(other, file, key)| == |Applicable(setup, file, key)|
    {
      StoppedKeepsNames(setup, file, stops);
      StoppedCount(setup, file, stops, config, key);
      SameNamesEnd(setup, other, file, key, StopOf(setup, file, stops, key));
    }
  }

  /**
    Exactly when the file names tell: whatever the scripts contain, a run returns
    normally if and only if none of its scripts failed.
   */
  lemma SuccessTellsIff(setup: Setup, file: Version, config: string)
    requires setup.Valid() && setup.system.component.value != map[]
    ensures VersionsTell(setup, file)
       <==> forall other :: OtherContents(setup, other, file) ==>
              (Succeeds(other, file, config) <==> NothingFailed(other, file, config))
  {
    if VersionsTell(setup, file) {
      forall other | OtherContents(setup, other, file) ensures Succeeds(other, file, config) <==> NothingFailed(other, file, config) {
        SameNamesTell(setup, other, file);
        ToldByVersions(other, file, config);
      }
    } else {
      var key :| key in setup.system.component.value && !OnlyTheLastReaches(setup, file, key);
      var stops := Misleading(setup, file, config, key);
      StoppedKeepsNames(setup, file, stops);
    }
  }

  /** Each clause of the condition is needed: contents that mislead where one is broken. */
  lemma Misleading(setup: Setup, file: Version, config: string, key: string) returns (stops: map<string, nat>)
    requires setup.Valid() && setup.system.component.value != map[]
    requires key in setup.system.component.value && !OnlyTheLastReaches(setup, file, key)
    ensures var other := Stopped(setup, file, stops);
            Succeeds(other, file, config) != NothingFailed(other, file, config)
  {
    var m := setup.system.component.value;
    if k :| k in m && !EndsAtSystem(setup, file, k, |Applicable(setup, file, k)|) {
      stops := map[];
      StoppedRun(setup, file, stops, config);
    } else {
      var n := EarlyStop(setup, file, key);
      stops := map[key := n];
      StoppedRun(setup, file, stops, config);
    }
  }

  lemma EarlyStop(setup: Setup, file: Version, key: string) returns (n: nat)
    requires setup.Valid() && key in setup.system.component.value && !OnlyTheLastReaches(setup, file, key)
    requires EndsAtSystem(setup, file, key, |Applicable(setup, file, key)|)
    ensures n < |Applicable(setup, file, key)| && EndsAtSystem(setup, file, key, n)
  {
    var wanted, l := setup.system.component.value[key], Applicable(setup, file, key);
    if Lookup(file, key) == Some(wanted) {
      n := 0;
    } else {
      var i :| 0 <= i < |l| - 1 && l[i].target == wanted;
      n := i + 1;
    }
  }

  /**
    When a failure can stay hidden: every component can stop at the system's version,
    one of them before its last script.
   */
  ghost predicate CanHide(setup: Setup, file: Version)
    requires setup.Valid()
  {
    var m := setup.system.component.value;
    && (forall key :: key in m ==> CanStop(setup, file, key, |Applicable(setup, file, key)|))
    && (exists key :: key in m && HidesAt(setup, file, key))
  }

  ghost predicate CanStop(setup: Setup, file: Version, key: string, bound: nat)
    requires setup.Valid() && key in setup.system.component.value
  {
    exists n: nat :: n <= bound && EndsAtSystem(setup, file, key, n)
  }

  ghost predicate HidesAt(setup: Setup, file: Version, key: string)
    requires setup.Valid() && key in setup.system.component.value
  {
    var l := Applicable(setup, file, key);
    l != [] && CanStop(setup, file, key, |l| - 1)
  }

  /** Some contents of the script files let a run return normally after a failure, exactly then. */
  lemma FailureHiddenIff(setup: Setup, file: Version, config: string)
    requires setup.Valid() && setup.system.component.value != map[]
    ensures CanHide(setup, file)
       <==> exists other :: OtherContents(setup, other, file)
              && Succeeds(other, file, config) && !NothingFailed(other, file, config)
  {
    if CanHide(setup, file) {
      var key :| key in setup.system.component.value && HidesAt(setup, file, key);
      var stops := map k | k in setup.system.component.value :: StopPlace(setup, file, k, k == key);
      StoppedKeepsNames(setup, file, stops);
      StoppedRun(setup, file, stops, config);
      assert StopOf(setup, file, stops, key) < |Applicable(setup, file, key)|;
    }
    if other :| OtherContents(setup, other, file) && Succeeds(other, file, config) && !NothingFailed(other, file, config) {
      HiddenByStopping(setup, other, file, config);
    }
  }

  ghost function StopPlace(setup: Setup, file: Version, key: string, early: bool): (n: nat)
    requires setup.Valid() && key in setup.system.component.value
    requires CanStop(setup, file, key, |Applicable(setup, file, key)|) && (early ==> HidesAt(setup, file, key))
    ensures EndsAtSystem(setup, file, key, n) && n <= |Applicable(setup, file, key)|
    ensures early ==> n < |Applicable(setup, file, key)|
  {
    var bound := if early then |Applicable(setup, file, key)| - 1 else |Applicable(setup, file, key)|;
    var n: nat :| n <= bound && EndsAtSystem(setup, file, key, n);
    n
  }

  lemma HiddenByStopping(setup: Setup, other: Setup, file: Version, config: string)
    requires setup.Valid() && setup.system.component.value != map[] && OtherContents(setup, other, file)
    ensures Succeeds(other, file, config) && !NothingFailed(other, file, config) ==> CanHide(setup, file)
  {
    if !Succeeds(other, file, config) || NothingFailed(other, file, config) {
      return;
    }
    MigrationSucceedsIff(other, file, config);
    forall key | key in setup.system.component.value
      ensures SuccessesOf(other, file, config, key) <= |Applicable(setup, file, key)| == |Applicable(other, file, key)|
      ensures EndsAtSystem(setup, file, key, SuccessesOf(other, file, config, key))
    {
      SameNamesEnd(setup, other, file, key, SuccessesOf(other, file, config, key));
    }
    var key :| key in setup.system.component.value && SuccessesOf(other, file, config, key) != |Applicable(other, file, key)|;
    assert HidesAt(setup, file, key);
  }

  /**
    An unforced run that needs a migration and hides a failure: the file is at the
    system's version of `interfaces`, but a script leads beyond it and fails.
   */
  lemma FailureHidden(setup: Setup, file: Version, config: string, s: Script)
    requires setup.Valid() && !setup.force && setup.system.component.value == map["interfaces" := 34, "qos" := 2]
    requires setup.scripts == map["interfaces" := [s]] && s.source == 34 && s.target == 35
    requires forall c :: Applied(setup.checkpointed, s, c).Raised?
    requires file.component == Some(map["interfaces" := 34])
    ensures file.component != setup.system.component
    ensures Succeeds(setup, file, config) && !NothingFailed(setup, file, config)
  {
    var m := setup.system.component.value;
    assert "qos" in m && "qos" !in file.component.value;
    BeyondSystem(setup, file, s);
    NoneSucceeds(setup, file, config, "interfaces");
    forall key | key in m ensures EndsAtSystem(setup, file, key, SuccessesOf(setup, file, config, key)) {
      assert key == "interfaces" || key == "qos";
      EndsWithout(setup, file, config, key);
    }
    MigrationSucceedsIff(setup, file, config);
  }

  lemma EndsWithout(setup: Setup, file: Version, config: string, key: string)
    requires setup.Valid() && key in setup.system.component.value
    requires Applicable(setup, file, key) == []
          || (SuccessesOf(setup, file, config, key) == 0 && Lookup(file, key) == Some(setup.system.component.value[key]))
    ensures EndsAtSystem(setup, file, key, SuccessesOf(setup, file, config, key))
  {
  }

  lemma BeyondSystem(setup: Setup, file: Version, s: Script)
    requires !setup.force && setup.scripts == map["interfaces" := [s]] && s.source == 34
    requires file.component == Some(map["interfaces" := 34])
    ensures Applicable(setup, file, "interfaces") == [s] && Applicable(setup, file, "qos") == []
  {
    SortedAlready([s]);
    FilteredAlready([s], 34);
  }

  lemma NoneSucceeds(setup: Setup, file: Version, config: string, key: string)
    requires setup.Valid() && key in setup.system.component.value && Applicable(setup, file, key) != []
    requires forall c :: Applied(setup.checkpointed, Applicable(setup, file, key)[0], c).Raised?
    ensures SuccessesOf(setup, file, config, key) == 0
  {
    ComponentOrder(setup.system.component.value);
    assert Applied(setup.checkpointed, Applicable(setup, file, key)[0], ConfigBefore(setup, file, config, key)).Raised?;
  }

  /** In either mode, tree and body are what the scripts that were tried left, component after component. */
  lemma MigratedTree(setup: Setup, file: Version, config: string)
    requires setup.Valid()
    ensures var keys := OrderedKeys(setup.system.component.value);
            (forall k :: k in keys ==> k in setup.system.component.value) &&
            var left := LeftBy(setup.checkpointed, Tried(setup, file, State(Pruned(file, setup.system), config), keys), config);
            && Migrated(setup, file, config).config == left
            && Migrated(setup, file, config).revision.configBody == Some(left)
  {
    ComponentOrder(setup.system.component.value);
    ConfigIsLeft(setup, file, State(Pruned(file, setup.system), config), OrderedKeys(setup.system.component.value));
  }

  /** With checkpoints, the migrated body composes exactly the scripts that succeeded. */
  lemma MigratedBody(setup: Setup, file: Version, config: string)
    requires setup.Valid() && setup.checkpointed
    ensures var keys := OrderedKeys(setup.system.component.value);
            (forall k :: k in keys ==> k in setup.system.component.value) &&
            var done := Successes(setup, file, State(Pruned(file, setup.system), config), keys);
            && AllSucceed(done, config)
            && Migrated(setup, file, config).revision.configBody == Some(Composition(done, config))
  {
    ComponentOrder(setup.system.component.value);
    ConfigIsComposition(setup, file, State(Pruned(file, setup.system), config), OrderedKeys(setup.system.component.value));
  }

  /** The file a successful run has written, when read back, needs neither migration nor a new release. */
  lemma WrittenFileIsCurrent(setup: Setup, file: Version, written: Option<Version>, modified: bool, defaultRelease: string)
    requires setup.Valid() && file.configBody.Some? && (file.component.None? ==> file.vintage == Vyos)
    requires file.component != setup.system.component || file.release != setup.system.release
    requires RunResult(setup, file, written, modified).ok
    requires NamesOk(setup.system.component.value) && setup.system.component.value != map[]
    requires All(c => !IsSpace(c), setup.system.release)
    requires NoLineIn(WARNING, RunResult(setup, file, written, modified).file.configBody.value)
    ensures var r := RunResult(setup, file, written, modified);
            && r.written.Some?
            && var p := ParseVersion(Written(r.written.value), defaultRelease);
               && p.Parsed? && p.version.component == setup.system.component && p.version.release == setup.system.release
               && p.version.configBody == Some(r.file.configBody.value + "\n")
  {
    var r := RunResult(setup, file, written, modified);
    WrittenRoundTrip(r.file, setup.system.component.value, r.file.configBody.value, defaultRelease);
  }
}
