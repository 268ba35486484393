/**
  Reconciling the NETFLOW rules of an iptables chain with the configured
  interfaces (python/vyos/ipt_netflow.py).
 */
module Netflow {
  import opened Wrappers

  /** A rule as the listing shows it. */
  datatype Rule = Rule(target: string, inIface: string, outIface: string)

  datatype Direction = Ingress | Egress

  /** What the listing yields for a NETFLOW rule, numbered from 1. */
  datatype Listed = Listed(inIface: string, outIface: string, rulenum: nat)

  /** `-D CHAIN rulenum` and `-A CHAIN -j NETFLOW -i/-o iface`. */
  datatype Command = Delete(rulenum: nat) | Append(iface: string)

  function Iface(d: Direction, r: Rule): string {
    if d == Egress then r.outIface else r.inIface
  }

  /** The rule an append creates, as the listing shows it. */
  function NewRule(d: Direction, iface: string): Rule {
    if d == Egress then Rule("NETFLOW", "*", iface) else Rule("NETFLOW", iface, "*")
  }

  // ---- the live chain --------------------------------------------------------------

  /** The effect of one command; deleting a rule that is not there fails. */
  function Effect(d: Direction, rules: seq<Rule>, c: Command): seq<Rule>
    requires c.Delete? ==> 1 <= c.rulenum <= |rules|
  {
    match c
    case Delete(n) => rules[..n - 1] + rules[n..]
    case Append(iface) => rules + [NewRule(d, iface)]
  }

  class Chain {
    var rules: seq<Rule>

    constructor (rules: seq<Rule>)
      ensures this.rules == rules
    {
      this.rules := rules;
    }

    method Run(d: Direction, c: Command)
      requires c.Delete? ==> 1 <= c.rulenum <= |rules|
      modifies this
      ensures rules == Effect(d, old(rules), c)
    {
      match c {
        case Delete(n) => rules := rules[..n - 1] + rules[n..];
        case Append(iface) => rules := rules + [NewRule(d, iface)];
      }
    }
  }

  // ---- what the configuration wants --------------------------------------------------

  predicate IsNetflow(r: Rule) {
    r.target == "NETFLOW"
  }

  /** A NETFLOW rule for an interface that is not configured. */
  predicate IsExcess(d: Direction, configured: seq<string>, r: Rule) {
    IsNetflow(r) && Iface(d, r) !in configured
  }

  function Kept(d: Direction, configured: seq<string>, rules: seq<Rule>): seq<Rule> {
    if rules == [] then []
    else
      var last := rules[|rules| - 1];
      Kept(d, configured, rules[..|rules| - 1]) + if IsExcess(d, configured, last) then [] else [last]
  }

  /** The interfaces of the kept NETFLOW rules. */
  function Active(d: Direction, configured: seq<string>, rules: seq<Rule>): seq<string> {
    if rules == [] then []
    else
      var last := rules[|rules| - 1];
      Active(d, configured, rules[..|rules| - 1])
      + if IsNetflow(last) && !IsExcess(d, configured, last) then [Iface(d, last)] else []
  }

  function WithoutFirst(s: seq<string>, x: string): seq<string> {
    if s == [] then []
    else if s[0] == x then s[1..]
    else [s[0]] + WithoutFirst(s[1..], x)
  }

  /** `for iface in active: if iface in configured: configured.remove(iface)`. */
  function Missing(configured: seq<string>, active: seq<string>): seq<string> {
    if active == [] then configured
    else WithoutFirst(Missing(configured, active[..|active| - 1]), active[|active| - 1])
  }

  function NewRules(d: Direction, ifaces: seq<string>): seq<Rule> {
    if ifaces == [] then []
    else NewRules(d, ifaces[..|ifaces| - 1]) + [NewRule(d, ifaces[|ifaces| - 1])]
  }

  /** The chain afterwards. */
  function Reconciled(d: Direction, configured: seq<string>, rules: seq<Rule>): seq<Rule> {
    Kept(d, configured, rules) + NewRules(d, Missing(configured, Active(d, configured, rules)))
  }

  // ---- what is wanted, counted --------------------------------------------------------

  /** A NETFLOW rule for the interface: of what goes out on it, or of what comes in. */
  ghost predicate IsWatch(d: Direction, iface: string, r: Rule) {
    r.target == "NETFLOW" && match d case Egress => r.outIface == iface case Ingress => r.inIface == iface
  }

  /** How many NETFLOW rules watch `iface`. */
  ghost function Watches(d: Direction, iface: string, rules: seq<Rule>): nat {
    if rules == [] then 0
    else
      var last := rules[|rules| - 1];
      Watches(d, iface, rules[..|rules| - 1]) + if IsWatch(d, iface, last) then 1 else 0
  }

  ghost function Others(rules: seq<Rule>): seq<Rule> {
    if rules == [] then []
    else
      var last := rules[|rules| - 1];
      Others(rules[..|rules| - 1]) + if last.target == "NETFLOW" then [] else [last]
  }

  lemma Snoc(s: seq<Rule>, r: Rule)
    ensures (s + [r])[..|s + [r]| - 1] == s && (s + [r])[|s + [r]| - 1] == r
  {
  }

  lemma {:induction false} WatchesConcat(d: Direction, iface: string, a: seq<Rule>, b: seq<Rule>)
    ensures Watches(d, iface, a + b) == Watches(d, iface, a) + Watches(d, iface, b)
  {
    if b == [] {
      assert a + b == a;
    } else {
      var front, last := b[..|b| - 1], b[|b| - 1];
      assert a + b == (a + front) + [last];
      Snoc(a + front, last);
      WatchesConcat(d, iface, a, front);
    }
  }

  lemma {:induction false} OthersConcat(a: seq<Rule>, b: seq<Rule>)
    ensures Others(a + b) == Others(a) + Others(b)
  {
    if b == [] {
      assert a + b == a;
    } else {
      var front, last := b[..|b| - 1], b[|b| - 1];
      assert a + b == (a + front) + [last];
      Snoc(a + front, last);
      OthersConcat(a, front);
    }
  }

  lemma {:induction false} KeptWatches(d: Direction, configured: seq<string>, rules: seq<Rule>, iface: string)
    ensures Watches(d, iface, Kept(d, configured, rules)) == if iface in configured then Watches(d, iface, rules) else 0
  {
    if rules != [] {
      var front, last := rules[..|rules| - 1], rules[|rules| - 1];
      KeptWatches(d, configured, front, iface);
      Snoc(Kept(d, configured, front), last);
      assert Kept(d, configured, rules) ==
             if IsExcess(d, configured, last) then Kept(d, configured, front) else Kept(d, configured, front) + [last];
    }
  }

  lemma {:induction false} KeptOthers(d: Direction, configured: seq<string>, rules: seq<Rule>)
    ensures Others(Kept(d, configured, rules)) == Others(rules)
  {
    if rules != [] {
      var front, last := rules[..|rules| - 1], rules[|rules| - 1];
      KeptOthers(d, configured, front);
      Snoc(Kept(d, configured, front), last);
      assert Kept(d, configured, rules) ==
             if IsExcess(d, configured, last) then Kept(d, configured, front) else Kept(d, configured, front) + [last];
      assert Others(front) + [] == Others(front);
    }
  }

  lemma {:induction false} ActiveCounts(d: Direction, configured: seq<string>, rules: seq<Rule>, iface: string)
    ensures multiset(Active(d, configured, rules))[iface] == if iface in configured then Watches(d, iface, rules) else 0
  {
    if rules != [] {
      ActiveCounts(d, configured, rules[..|rules| - 1], iface);
    }
  }

  lemma {:induction false} WithoutFirstCounts(s: seq<string>, x: string)
    ensures multiset(WithoutFirst(s, x)) == multiset(s) - multiset{x}
  {
    if s != [] {
      assert s == [s[0]] + s[1..];
      if s[0] != x { WithoutFirstCounts(s[1..], x); }
    }
  }

  /** The difference: as many of each interface as are configured beyond the active ones. */
  lemma {:induction false} MissingCounts(configured: seq<string>, active: seq<string>)
    ensures multiset(Missing(configured, active)) == multiset(configured) - multiset(active)
  {
    if active != [] {
      MissingCounts(configured, active[..|active| - 1]);
      WithoutFirstCounts(Missing(configured, active[..|active| - 1]), active[|active| - 1]);
      MultisetSnoc(active);
    }
  }

  lemma WatchesSnoc(d: Direction, iface: string, s: seq<Rule>, r: Rule)
    ensures Watches(d, iface, s + [r]) == Watches(d, iface, s) + if IsNetflow(r) && Iface(d, r) == iface then 1 else 0
    ensures IsNetflow(r) ==> Others(s + [r]) == Others(s)
  {
    Snoc(s, r);
    assert Others(s) + [] == Others(s);
  }

  lemma {:induction false} NewRulesCounts(d: Direction, ifaces: seq<string>, iface: string)
    ensures Watches(d, iface, NewRules(d, ifaces)) == multiset(ifaces)[iface]
    ensures Others(NewRules(d, ifaces)) == []
  {
    if ifaces != [] {
      NewRulesCounts(d, ifaces[..|ifaces| - 1], iface);
      WatchesSnoc(d, iface, NewRules(d, ifaces[..|ifaces| - 1]), NewRule(d, ifaces[|ifaces| - 1]));
      MultisetSnoc(ifaces);
    }
  }

  /**
    No rule watches an unconfigured interface, a configured one has as many rules
    as it had or as it is configured, whichever is more, and all other rules stay
    as they were.
   */
  lemma ReconciledMeaning(d: Direction, configured: seq<string>, rules: seq<Rule>, iface: string)
    ensures var r := Reconciled(d, configured, rules);
            && (iface !in configured ==> Watches(d, iface, r) == 0)
            && (iface in configured ==>
                  var had, want := Watches(d, iface, rules), multiset(configured)[iface];
                  Watches(d, iface, r) == if had > want then had else want)
            && Others(r) == Others(rules)
  {
    var active := Active(d, configured, rules);
    var added := NewRules(d, Missing(configured, active));
    KeptWatches(d, configured, rules, iface);
    KeptOthers(d, configured, rules);
    ActiveCounts(d, configured, rules, iface);
    MissingCounts(configured, active);
    NewRulesCounts(d, Missing(configured, active), iface);
    WatchesConcat(d, iface, Kept(d, configured, rules), added);
    OthersConcat(Kept(d, configured, rules), added);
  }

  // ---- what is kept and what is added ------------------------------------------------------

  /** Other rules stay, and NETFLOW rules of configured interfaces. */
  ghost predicate Stays(d: Direction, configured: seq<string>, r: Rule) {
    r.target != "NETFLOW" || match d case Egress => r.outIface in configured case Ingress => r.inIface in configured
  }

  /** `kept` is `rules`, in order, without the rules that do not stay. */
  ghost predicate IsKept(d: Direction, configured: seq<string>, rules: seq<Rule>, kept: seq<Rule>) {
    && IsSubsequence(kept, rules)
    && forall r {:trigger Stays(d, configured, r)} :: multiset(kept)[r] == if Stays(d, configured, r) then multiset(rules)[r] else 0
  }

  /** `added` are NETFLOW rules that watch `ifaces`, in order, whatever the other interface. */
  ghost predicate AreWatches(d: Direction, ifaces: seq<string>, added: seq<Rule>) {
    && |added| == |ifaces|
    && forall i :: 0 <= i < |ifaces| ==>
         added[i] == match d case Egress => Rule("NETFLOW", "*", ifaces[i]) case Ingress => Rule("NETFLOW", ifaces[i], "*")
  }

  /** The chain is what is kept and then one new rule for each missing interface, in configured order. */
  ghost predicate IsReconciled(d: Direction, configured: seq<string>, before: seq<Rule>, after: seq<Rule>) {
    exists kept, ifaces, added ::
      && IsKept(d, configured, before, kept) && AreMissing(d, configured, before, ifaces) && AreWatches(d, ifaces, added)
      && after == kept + added
  }

  /** Each interface as often as it is configured beyond the rules that watch it. */
  ghost predicate AreMissing(d: Direction, configured: seq<string>, before: seq<Rule>, ifaces: seq<string>) {
    && IsSubsequence(ifaces, configured)
    && forall x {:trigger Watches(d, x, before)} ::
         multiset(ifaces)[x] == Beyond(multiset(configured)[x], Watches(d, x, before))
  }

  /** By how much `a` is beyond `b`. */
  function Beyond(a: nat, b: nat): nat {
    if a > b then a - b else 0
  }

  lemma {:induction false} KeptIsSubsequence(d: Direction, configured: seq<string>, rules: seq<Rule>)
    ensures IsSubsequence(Kept(d, configured, rules), rules)
  {
    if rules != [] {
      var front, last := rules[..|rules| - 1], rules[|rules| - 1];
      KeptIsSubsequence(d, configured, front);
      SubsequenceSnoc(Kept(d, configured, front), front, last);
      FrontLast(rules);
      assert Kept(d, configured, front) + [] == Kept(d, configured, front);
    }
  }

  lemma FrontLast(rules: seq<Rule>)
    requires rules != []
    ensures rules == rules[..|rules| - 1] + [rules[|rules| - 1]]
  {
  }

  lemma {:induction false} KeptCounts(d: Direction, configured: seq<string>, rules: seq<Rule>, r: Rule)
    ensures multiset(Kept(d, configured, rules))[r] == if Stays(d, configured, r) then multiset(rules)[r] else 0
  {
    if rules != [] {
      KeptCounts(d, configured, rules[..|rules| - 1], r);
      MultisetSnoc(rules);
    }
  }

  lemma {:induction false} NewRulesAre(d: Direction, ifaces: seq<string>)
    ensures AreWatches(d, ifaces, NewRules(d, ifaces))
  {
    if ifaces != [] {
      NewRulesAre(d, ifaces[..|ifaces| - 1]);
    }
  }

  lemma {:induction false} WithoutIsSubsequence(s: seq<string>, l: seq<string>, x: string)
    requires IsSubsequence(s, l)
    ensures IsSubsequence(WithoutFirst(s, x), l)
  {
    if s != [] {
      if IsSubsequence(s, l[1..]) {
        WithoutIsSubsequence(s, l[1..], x);
      } else if s[0] != x {
        WithoutIsSubsequence(s[1..], l[1..], x);
        assert WithoutFirst(s, x)[1..] == WithoutFirst(s[1..], x);
      }
    }
  }

  lemma {:induction false} MissingIsSubsequence(configured: seq<string>, active: seq<string>)
    ensures IsSubsequence(Missing(configured, active), configured)
  {
    if active == [] {
      SubsequenceSelf(configured);
    } else {
      MissingIsSubsequence(configured, active[..|active| - 1]);
      WithoutIsSubsequence(Missing(configured, active[..|active| - 1]), configured, active[|active| - 1]);
    }
  }

  lemma KeptIsKept(d: Direction, configured: seq<string>, rules: seq<Rule>)
    ensures IsKept(d, configured, rules, Kept(d, configured, rules))
  {
    KeptIsSubsequence(d, configured, rules);
    forall r ensures multiset(Kept(d, configured, rules))[r] == if Stays(d, configured, r) then multiset(rules)[r] else 0 {
      KeptCounts(d, configured, rules, r);
    }
  }

  lemma DifferenceCount(a: multiset<string>, b: multiset<string>, x: string)
    ensures (a - b)[x] == Beyond(a[x], b[x])
  {
  }

  lemma MissingCount(d: Direction, configured: seq<string>, rules: seq<Rule>, x: string)
    ensures multiset(Missing(configured, Active(d, configured, rules)))[x]
         == Beyond(multiset(configured)[x], Watches(d, x, rules))
  {
    var active := Active(d, configured, rules);
    MissingCounts(configured, active);
    DifferenceCount(multiset(configured), multiset(active), x);
    ActiveBeyond(d, configured, rules, x);
  }

  lemma ActiveBeyond(d: Direction, configured: seq<string>, rules: seq<Rule>, x: string)
    ensures Beyond(multiset(configured)[x], multiset(Active(d, configured, rules))[x])
         == Beyond(multiset(configured)[x], Watches(d, x, rules))
  {
    ActiveCounts(d, configured, rules, x);
    assert x in configured <==> x in multiset(configured);
  }

  lemma MissingAreMissing(d: Direction, configured: seq<string>, rules: seq<Rule>)
    ensures AreMissing(d, configured, rules, Missing(configured, Active(d, configured, rules)))
  {
    MissingIsSubsequence(configured, Active(d, configured, rules));
    forall x ensures multiset(Missing(configured, Active(d, configured, rules)))[x] == Beyond(multiset(configured)[x], Watches(d, x, rules)) {
      MissingCount(d, configured, rules, x);
    }
  }

  lemma ReconciledShape(d: Direction, configured: seq<string>, rules: seq<Rule>)
    ensures IsReconciled(d, configured, rules, Reconciled(d, configured, rules))
  {
    KeptIsKept(d, configured, rules);
    MissingAreMissing(d, configured, rules);
    NewRulesAre(d, Missing(configured, Active(d, configured, rules)));
  }

  // ---- listing and commands -------------------------------------------------------------

  function Listing(rules: seq<Rule>): seq<Listed> {
    if rules == [] then []
    else
      var last := rules[|rules| - 1];
      Listing(rules[..|rules| - 1]) + if IsNetflow(last) then [Listed(last.inIface, last.outIface, |rules|)] else []
  }

  lemma {:induction false} ListingMeaning(rules: seq<Rule>, l: Listed)
    ensures l in Listing(rules)
       <==> 1 <= l.rulenum <= |rules| && rules[l.rulenum - 1] == Rule("NETFLOW", l.inIface, l.outIface)
  {
    if rules != [] {
      ListingMeaning(rules[..|rules| - 1], l);
    }
  }

  /** `_iptables_get_rules`: the NETFLOW rules with their numbers in the whole chain. */
  method IptablesGetRules(lines: seq<Rule>) returns (rules: seq<Listed>)
    ensures rules == Listing(lines)
  {
    rules := [];
    var rulenum := 0;
    for i := 0 to |lines|
      invariant rulenum == i && rules == Listing(lines[..i])
    {
      rulenum := rulenum + 1;
      assert lines[..i + 1][..i] == lines[..i];
      var line := lines[i];
      if line.target != "NETFLOW" {
        continue;
      }
      rules := rules + [Listed(line.inIface, line.outIface, rulenum)];
    }
    assert lines[..|lines|] == lines;
  }

  /** The numbers of the excess rules, ascending. */
  function ExcessNumbers(d: Direction, configured: seq<string>, rules: seq<Rule>): seq<nat> {
    if rules == [] then []
    else
      ExcessNumbers(d, configured, rules[..|rules| - 1])
      + if IsExcess(d, configured, rules[|rules| - 1]) then [|rules|] else []
  }

  /** Placing a number in a descending list. */
  function InsertDescending(s: seq<nat>, n: nat): seq<nat> {
    if s == [] || n >= s[0] then [n] + s else [s[0]] + InsertDescending(s[1..], n)
  }

  /** `sort(reverse=True)`. */
  function SortedDescending(s: seq<nat>): seq<nat> {
    if s == [] then [] else InsertDescending(SortedDescending(s[..|s| - 1]), s[|s| - 1])
  }

  /** Deleting by number, one after the other; numbers out of range are skipped. */
  ghost function DeleteAll(rules: seq<Rule>, numbers: seq<nat>): seq<Rule> {
    if numbers == [] then rules
    else if 1 <= numbers[0] <= |rules| then DeleteAll(rules[..numbers[0] - 1] + rules[numbers[0]..], numbers[1..])
    else DeleteAll(rules, numbers[1..])
  }

  ghost predicate AllUpTo(numbers: seq<nat>, n: nat) {
    forall i :: 0 <= i < |numbers| ==> 1 <= numbers[i] <= n
  }

  ghost predicate Descending(numbers: seq<nat>) {
    forall i, j :: 0 <= i < j < |numbers| ==> numbers[i] > numbers[j]
  }

  /** Deleting from the end first leaves the smaller numbers valid. */
  lemma {:induction false} DeleteInFront(front: seq<Rule>, tail: seq<Rule>, numbers: seq<nat>)
    requires AllUpTo(numbers, |front|) && Descending(numbers)
    ensures DeleteAll(front + tail, numbers) == DeleteAll(front, numbers) + tail
  {
    if numbers != [] {
      var n := numbers[0];
      var front' := front[..n - 1] + front[n..];
      assert (front + tail)[..n - 1] + (front + tail)[n..] == front' + tail;
      forall i | 0 <= i < |numbers[1..]| ensures 1 <= numbers[1..][i] <= |front'| {
        assert numbers[1..][i] == numbers[i + 1];
      }
      DeleteInFront(front', tail, numbers[1..]);
    }
  }

  /** A number beyond all others goes to the front. */
  lemma SortSnoc(numbers: seq<nat>, n: nat)
    requires AllUpTo(SortedDescending(numbers), n)
    ensures SortedDescending(numbers + [n]) == [n] + SortedDescending(numbers)
  {
    assert (numbers + [n])[..|numbers + [n]| - 1] == numbers;
  }

  lemma DeleteLast(front: seq<Rule>, last: Rule, numbers: seq<nat>)
    ensures DeleteAll(front + [last], [|front| + 1] + numbers) == DeleteAll(front, numbers)
  {
    var rules, n := front + [last], |front| + 1;
    assert rules[..n - 1] + rules[n..] == front;
    assert ([n] + numbers)[1..] == numbers;
  }

  /** A deletion order that does not disturb itself and leaves `kept`. */
  ghost predicate DeletesTo(rules: seq<Rule>, numbers: seq<nat>, kept: seq<Rule>) {
    AllUpTo(numbers, |rules|) && Descending(numbers) && DeleteAll(rules, numbers) == kept
  }

  lemma DeletesLast(rules: seq<Rule>, numbers: seq<nat>, kept: seq<Rule>)
    requires rules != [] && DeletesTo(rules[..|rules| - 1], numbers, kept)
    ensures DeletesTo(rules, [|rules|] + numbers, kept)
    ensures DeletesTo(rules, numbers, kept + [rules[|rules| - 1]])
  {
    var front, last := rules[..|rules| - 1], rules[|rules| - 1];
    assert rules == front + [last];
    DeleteLast(front, last, numbers);
    DeleteInFront(front, [last], numbers);
  }

  lemma {:induction false} ExcessSorted(d: Direction, configured: seq<string>, rules: seq<Rule>)
    ensures DeletesTo(rules, SortedDescending(ExcessNumbers(d, configured, rules)), Kept(d, configured, rules))
  {
    if rules != [] {
      var front := rules[..|rules| - 1];
      var before, kept := ExcessNumbers(d, configured, front), Kept(d, configured, front);
      ExcessSorted(d, configured, front);
      DeletesLast(rules, SortedDescending(before), kept);
      if IsExcess(d, configured, rules[|rules| - 1]) {
        SortSnoc(before, |rules|);
        assert kept + [] == kept;
      } else {
        assert before + [] == before;
      }
    }
  }

  /** The commands of a whole run. */
  function Commands(d: Direction, configured: seq<string>, rules: seq<Rule>): seq<Command> {
    Deletes(SortedDescending(ExcessNumbers(d, configured, rules)))
    + Appends(Missing(configured, Active(d, configured, rules)))
  }

  function Deletes(numbers: seq<nat>): seq<Command> {
    seq(|numbers|, i requires 0 <= i < |numbers| => Delete(numbers[i]))
  }

  function Appends(ifaces: seq<string>): seq<Command> {
    seq(|ifaces|, i requires 0 <= i < |ifaces| => Append(ifaces[i]))
  }

  // ---- the reconciliation -----------------------------------------------------------------

  function ListedIface(d: Direction, l: Listed): string {
    if d == Egress then l.outIface else l.inIface
  }

  /** The numbers and interfaces the comparison loop collects from a listing. */
  ghost function ListedExcess(d: Direction, configured: seq<string>, l: seq<Listed>): seq<nat> {
    if l == [] then []
    else
      var last := l[|l| - 1];
      ListedExcess(d, configured, l[..|l| - 1]) + if ListedIface(d, last) !in configured then [last.rulenum] else []
  }

  ghost function ListedActive(d: Direction, configured: seq<string>, l: seq<Listed>): seq<string> {
    if l == [] then []
    else
      var last := l[|l| - 1];
      ListedActive(d, configured, l[..|l| - 1]) + if ListedIface(d, last) !in configured then [] else [ListedIface(d, last)]
  }

  lemma {:induction false} ListingCompared(d: Direction, configured: seq<string>, rules: seq<Rule>)
    ensures ListedExcess(d, configured, Listing(rules)) == ExcessNumbers(d, configured, rules)
    ensures ListedActive(d, configured, Listing(rules)) == Active(d, configured, rules)
  {
    if rules != [] {
      var front, last := rules[..|rules| - 1], rules[|rules| - 1];
      ListingCompared(d, configured, front);
      if IsNetflow(last) {
        assert Listing(rules)[..|Listing(rules)| - 1] == Listing(front);
      } else {
        assert Listing(front) + [] == Listing(front);
      }
    }
  }

  lemma {:induction false} AbsentIsKept(s: seq<string>, x: string)
    requires x !in s
    ensures WithoutFirst(s, x) == s
  {
    if s != [] {
      assert s == [s[0]] + s[1..];
      AbsentIsKept(s[1..], x);
    }
  }

  /** The first `i` deletes leave a chain in which the next number still exists. */
  lemma {:induction false} DeleteOneMore(rules: seq<Rule>, numbers: seq<nat>, i: nat)
    requires AllUpTo(numbers, |rules|) && Descending(numbers) && i < |numbers|
    ensures var now := DeleteAll(rules, numbers[..i]);
            && 1 <= numbers[i] <= |now|
            && DeleteAll(rules, numbers[..i + 1]) == now[..numbers[i] - 1] + now[numbers[i]..]
    decreases i
  {
    var n := numbers[0];
    var rules' := rules[..n - 1] + rules[n..];
    if i == 0 {
      assert numbers[..1][1..] == [];
    } else {
      forall j | 0 <= j < |numbers[1..]| ensures 1 <= numbers[1..][j] <= |rules'| {
        assert numbers[1..][j] == numbers[j + 1];
      }
      DeleteOneMore(rules', numbers[1..], i - 1);
      assert numbers[..i][1..] == numbers[1..][..i - 1] && numbers[..i + 1][1..] == numbers[1..][..i];
    }
  }

  /** The chain after the first `i` of the commands. */
  ghost function After(d: Direction, rules: seq<Rule>, numbers: seq<nat>, ifaces: seq<string>, i: nat): seq<Rule>
    requires i <= |numbers| + |ifaces|
  {
    if i <= |numbers| then DeleteAll(rules, numbers[..i])
    else DeleteAll(rules, numbers) + NewRules(d, ifaces[..i - |numbers|])
  }

  lemma AfterDelete(d: Direction, rules: seq<Rule>, numbers: seq<nat>, ifaces: seq<string>, i: nat)
    requires AllUpTo(numbers, |rules|) && Descending(numbers) && i < |numbers|
    ensures 1 <= numbers[i] <= |After(d, rules, numbers, ifaces, i)|
    ensures After(d, rules, numbers, ifaces, i + 1) == Effect(d, After(d, rules, numbers, ifaces, i), Delete(numbers[i]))
  {
    DeleteOneMore(rules, numbers, i);
  }

  lemma AfterAppend(d: Direction, rules: seq<Rule>, numbers: seq<nat>, ifaces: seq<string>, i: nat)
    requires |numbers| <= i < |numbers| + |ifaces|
    ensures After(d, rules, numbers, ifaces, i + 1)
         == Effect(d, After(d, rules, numbers, ifaces, i), Append(ifaces[i - |numbers|]))
  {
    var j := i - |numbers|;
    var deleted := DeleteAll(rules, numbers);
    assert numbers[..|numbers|] == numbers;
    assert ifaces[..j + 1][..j] == ifaces[..j];
    assert NewRules(d, ifaces[..j + 1]) == NewRules(d, ifaces[..j]) + [NewRule(d, ifaces[j])];
    assert ifaces[..0] == [] && deleted + [] == deleted;
    assert After(d, rules, numbers, ifaces, i) == deleted + NewRules(d, ifaces[..j]);
  }

  lemma AfterCommand(d: Direction, rules: seq<Rule>, numbers: seq<nat>, ifaces: seq<string>, commands: seq<Command>, i: nat)
    requires AllUpTo(numbers, |rules|) && Descending(numbers)
    requires commands == Deletes(numbers) + Appends(ifaces) && i < |commands|
    ensures commands[i].Delete? ==> 1 <= commands[i].rulenum <= |After(d, rules, numbers, ifaces, i)|
    ensures After(d, rules, numbers, ifaces, i + 1) == Effect(d, After(d, rules, numbers, ifaces, i), commands[i])
  {
    if i < |numbers| {
      AfterDelete(d, rules, numbers, ifaces, i);
    } else {
      AfterAppend(d, rules, numbers, ifaces, i);
    }
  }

  lemma AfterAll(d: Direction, rules: seq<Rule>, numbers: seq<nat>, ifaces: seq<string>)
    ensures After(d, rules, numbers, ifaces, |numbers| + |ifaces|) == DeleteAll(rules, numbers) + NewRules(d, ifaces)
  {
    assert numbers[..|numbers|] == numbers && ifaces[..|ifaces|] == ifaces;
    assert ifaces == [] ==> DeleteAll(rules, numbers) + NewRules(d, ifaces) == DeleteAll(rules, numbers);
  }

  /** The comparison loop: what to delete and what is already watched. */
  method CompareRules(activeRules: seq<Listed>, configuredIfaces: seq<string>, d: Direction)
    returns (rulenumsDelete: seq<nat>, activeIfaces: seq<string>)
    ensures rulenumsDelete == ListedExcess(d, configuredIfaces, activeRules)
    ensures activeIfaces == ListedActive(d, configuredIfaces, activeRules)
  {
    rulenumsDelete, activeIfaces := [], [];
    for i := 0 to |activeRules|
      invariant rulenumsDelete == ListedExcess(d, configuredIfaces, activeRules[..i])
      invariant activeIfaces == ListedActive(d, configuredIfaces, activeRules[..i])
    {
      assert activeRules[..i + 1][..i] == activeRules[..i];
      var rule := activeRules[i];
      var interface := if d == Egress then rule.outIface else rule.inIface;
      if interface !in configuredIfaces {
        rulenumsDelete := rulenumsDelete + [rule.rulenum];
      } else {
        activeIfaces := activeIfaces + [interface];
      }
    }
    assert activeRules[..|activeRules|] == activeRules;
  }

  /** The loop that crosses off interfaces which already have a rule. */
  method CrossOff(configuredIfaces: seq<string>, activeIfaces: seq<string>) returns (remaining: seq<string>)
    ensures remaining == Missing(configuredIfaces, activeIfaces)
  {
    remaining := configuredIfaces;
    for i := 0 to |activeIfaces|
      invariant remaining == Missing(configuredIfaces, activeIfaces[..i])
    {
      assert activeIfaces[..i + 1][..i] == activeIfaces[..i];
      if activeIfaces[i] in remaining {
        remaining := WithoutFirst(remaining, activeIfaces[i]);
      } else {
        AbsentIsKept(remaining, activeIfaces[i]);
      }
    }
    assert activeIfaces[..|activeIfaces|] == activeIfaces;
  }

  lemma DeletesSnoc(numbers: seq<nat>, i: nat)
    requires i < |numbers|
    ensures Deletes(numbers[..i + 1]) == Deletes(numbers[..i]) + [Delete(numbers[i])]
  {
  }

  lemma AppendsSnoc(before: seq<Command>, ifaces: seq<string>, i: nat)
    requires i < |ifaces|
    ensures before + Appends(ifaces[..i + 1]) == before + Appends(ifaces[..i]) + [Append(ifaces[i])]
  {
  }

  /** The two loops that write the commands. */
  method WriteCommands(rulenumsDelete: seq<nat>, missing: seq<string>) returns (commands: seq<Command>)
    ensures commands == Deletes(rulenumsDelete) + Appends(missing)
  {
    commands := [];
    for i := 0 to |rulenumsDelete|
      invariant commands == Deletes(rulenumsDelete[..i])
    {
      DeletesSnoc(rulenumsDelete, i);
      commands := commands + [Delete(rulenumsDelete[i])];
    }
    assert rulenumsDelete[..|rulenumsDelete|] == rulenumsDelete;
    for i := 0 to |missing|
      invariant commands == Deletes(rulenumsDelete) + Appends(missing[..i])
    {
      AppendsSnoc(Deletes(rulenumsDelete), missing, i);
      commands := commands + [Append(missing[i])];
    }
    assert missing[..|missing|] == missing;
  }

  method IptablesConfig(chain: Chain, configuredIfaces: seq<string>, d: Direction) returns (commands: seq<Command>)
    modifies chain
    ensures chain.rules == Reconciled(d, configuredIfaces, old(chain.rules))
    ensures IsReconciled(d, configuredIfaces, old(chain.rules), chain.rules)
    ensures commands == Commands(d, configuredIfaces, old(chain.rules))
  {
    ReconciledShape(d, configuredIfaces, chain.rules);
    ghost var rules := chain.rules;
    var activeRules := IptablesGetRules(chain.rules);
    var rulenumsDelete, activeIfaces := CompareRules(activeRules, configuredIfaces, d);
    ListingCompared(d, configuredIfaces, rules);
    ExcessSorted(d, configuredIfaces, rules);
    rulenumsDelete := SortedDescending(rulenumsDelete);
    var configuredExtended := CrossOff(configuredIfaces, activeIfaces);
    commands := WriteCommands(rulenumsDelete, configuredExtended);
    RunCommands(chain, d, commands, rulenumsDelete, configuredExtended, Kept(d, configuredIfaces, rules));
  }

  /** The last loop: the commands take effect on the chain one by one. */
  method RunCommands(chain: Chain, d: Direction, commands: seq<Command>,
                     ghost numbers: seq<nat>, ghost ifaces: seq<string>, ghost kept: seq<Rule>)
    requires commands == Deletes(numbers) + Appends(ifaces)
    requires DeletesTo(chain.rules, numbers, kept)
    modifies chain
    ensures chain.rules == kept + NewRules(d, ifaces)
  {
    ghost var rules := chain.rules;
    for i := 0 to |commands|
      invariant chain.rules == After(d, rules, numbers, ifaces, i)
    {
      AfterCommand(d, rules, numbers, ifaces, commands, i);
      chain.Run(d, commands[i]);
    }
    AfterAll(d, rules, numbers, ifaces);
  }

  // ---- a second run -----------------------------------------------------------------------

  lemma {:induction false} NoExcess(d: Direction, configured: seq<string>, rules: seq<Rule>)
    requires forall i :: 0 <= i < |rules| ==> !IsExcess(d, configured, rules[i])
    ensures ExcessNumbers(d, configured, rules) == []
  {
    if rules != [] {
      NoExcess(d, configured, rules[..|rules| - 1]);
    }
  }

  lemma {:induction false} AllKept(d: Direction, configured: seq<string>, rules: seq<Rule>)
    requires forall i :: 0 <= i < |rules| ==> !IsExcess(d, configured, rules[i])
    ensures Kept(d, configured, rules) == rules
  {
    if rules != [] {
      AllKept(d, configured, rules[..|rules| - 1]);
    }
  }

  lemma {:induction false} KeptHasNoExcess(d: Direction, configured: seq<string>, rules: seq<Rule>)
    ensures forall i :: 0 <= i < |Kept(d, configured, rules)| ==> !IsExcess(d, configured, Kept(d, configured, rules)[i])
  {
    if rules != [] {
      KeptHasNoExcess(d, configured, rules[..|rules| - 1]);
    }
  }

  lemma {:induction false} NewHasNoExcess(d: Direction, configured: seq<string>, ifaces: seq<string>)
    requires forall x :: x in ifaces ==> x in configured
    ensures forall i :: 0 <= i < |NewRules(d, ifaces)| ==> !IsExcess(d, configured, NewRules(d, ifaces)[i])
  {
    if ifaces != [] {
      assert ifaces[|ifaces| - 1] in ifaces;
      NewHasNoExcess(d, configured, ifaces[..|ifaces| - 1]);
    }
  }

  lemma MissingAreConfigured(configured: seq<string>, active: seq<string>)
    ensures forall x :: x in Missing(configured, active) ==> x in configured
  {
    MissingCounts(configured, active);
    forall x | x in Missing(configured, active) ensures x in configured {
      assert x in multiset(Missing(configured, active));
      assert x in multiset(configured);
    }
  }

  lemma ReconciledHasNoExcess(d: Direction, configured: seq<string>, rules: seq<Rule>)
    ensures var r := Reconciled(d, configured, rules);
            ExcessNumbers(d, configured, r) == [] && Kept(d, configured, r) == r
  {
    var missing := Missing(configured, Active(d, configured, rules));
    MissingAreConfigured(configured, Active(d, configured, rules));
    KeptHasNoExcess(d, configured, rules);
    NewHasNoExcess(d, configured, missing);
    NoExcess(d, configured, Reconciled(d, configured, rules));
    AllKept(d, configured, Reconciled(d, configured, rules));
  }

  lemma ReconciledMissesNothing(d: Direction, configured: seq<string>, rules: seq<Rule>)
    ensures Missing(configured, Active(d, configured, Reconciled(d, configured, rules))) == []
  {
    var r := Reconciled(d, configured, rules);
    var active := Active(d, configured, r);
    var missing := Missing(configured, active);
    MissingCounts(configured, active);
    MissingAreConfigured(configured, active);
    if missing != [] {
      var x := missing[0];
      assert x in missing && x in multiset(missing);
      ReconciledMeaning(d, configured, rules, x);
      ActiveCounts(d, configured, r, x);
    }
  }

  /** Once reconciled, a further run issues no command and changes nothing. */
  lemma SecondRunIsIdle(d: Direction, configured: seq<string>, rules: seq<Rule>)
    ensures var r := Reconciled(d, configured, rules);
            Commands(d, configured, r) == [] && Reconciled(d, configured, r) == r
  {
    ReconciledHasNoExcess(d, configured, rules);
    ReconciledMissesNothing(d, configured, rules);
  }
}
