/**
  Building a certificate chain over a "signed by" relation
  (python/vyos/pki.py, `find_parent` and `find_chain`).
 */
module CertChain {
  import opened Wrappers

  /** Certificates are compared by value; who signed whom is given. */
  type Cert = string
  type Signed = (Cert, Cert) -> bool

  ghost predicate Distinct(l: seq<Cert>) {
    forall i, j :: 0 <= i < |l| && 0 <= j < |l| && i != j ==> l[i] != l[j]
  }

  /** The first certificate that has signed `cert`. */
  method FindParent(signed: Signed, cert: Cert, caCerts: seq<Cert>) returns (parent: Option<Cert>)
    ensures parent == FirstParent(signed, cert, caCerts)
  {
    for i := 0 to |caCerts|
      invariant FirstParent(signed, cert, caCerts) == FirstParent(signed, cert, caCerts[i..])
    {
      if signed(cert, caCerts[i]) {
        return Some(caCerts[i]);
      }
      assert caCerts[i..][1..] == caCerts[i + 1..];
    }
    return None;
  }

  /** `parent` has signed `cert`, and nobody in front of it has. */
  ghost predicate IsFirstSigner(signed: Signed, cert: Cert, caCerts: seq<Cert>, parent: Cert) {
    exists i :: 0 <= i < |caCerts| && caCerts[i] == parent && signed(cert, parent)
             && forall j :: 0 <= j < i ==> !signed(cert, caCerts[j])
  }

  lemma FirstSignerBehind(signed: Signed, cert: Cert, caCerts: seq<Cert>, parent: Cert)
    requires caCerts != [] && !signed(cert, caCerts[0]) && IsFirstSigner(signed, cert, caCerts[1..], parent)
    ensures IsFirstSigner(signed, cert, caCerts, parent)
  {
    var rest := caCerts[1..];
    var i :| 0 <= i < |rest| && rest[i] == parent && signed(cert, parent) && forall j :: 0 <= j < i ==> !signed(cert, rest[j]);
    forall j | 0 <= j < i + 1 ensures !signed(cert, caCerts[j]) {
      if j > 0 { assert caCerts[j] == rest[j - 1]; }
    }
    assert caCerts[i + 1] == parent;
  }

  function FirstParent(signed: Signed, cert: Cert, caCerts: seq<Cert>): (parent: Option<Cert>)
    ensures parent.Some? ==> IsFirstSigner(signed, cert, caCerts, parent.value)
    ensures parent.None? ==> forall c :: c in caCerts ==> !signed(cert, c)
  {
    if caCerts == [] then None
    else if signed(cert, caCerts[0]) then Some(caCerts[0])
    else
      var parent := FirstParent(signed, cert, caCerts[1..]);
      assert parent.Some? ==> IsFirstSigner(signed, cert, caCerts, parent.value) by {
        if parent.Some? { FirstSignerBehind(signed, cert, caCerts, parent.value); }
      }
      parent
  }

  /** `remaining.remove(parent)`. */
  function Removed(l: seq<Cert>, x: Cert): seq<Cert> {
    if l == [] then []
    else if l[0] == x then l[1..]
    else [l[0]] + Removed(l[1..], x)
  }

  lemma {:induction false} RemovedCounts(l: seq<Cert>, x: Cert)
    ensures multiset(Removed(l, x)) == multiset(l) - multiset{x}
    ensures x in l ==> |Removed(l, x)| == |l| - 1
  {
    if l != [] {
      assert l == [l[0]] + l[1..];
      if l[0] != x { RemovedCounts(l[1..], x); }
    }
  }

  /** Each certificate is signed by the next. */
  ghost predicate IsChain(signed: Signed, chain: seq<Cert>) {
    forall i :: 0 <= i < |chain| - 1 ==> signed(chain[i], chain[i + 1])
  }

  /** Why the search stopped at `last` with `remaining` left. */
  ghost predicate Stopped(signed: Signed, last: Cert, remaining: seq<Cert>) {
    || remaining == []
    || (forall c :: c in remaining ==> !signed(last, c))
    || IsFirstSigner(signed, last, remaining, last)
  }

  /** `next` has signed `cert`; who stands in front of it in the set and has signed `cert`, too, is used already. */
  ghost predicate IsFirstUnused(signed: Signed, cert: Cert, caCerts: seq<Cert>, used: seq<Cert>, next: Cert) {
    exists i :: 0 <= i < |caCerts| && caCerts[i] == next && signed(cert, next)
             && forall j :: 0 <= j < i && signed(cert, caCerts[j]) ==> caCerts[j] in used
  }

  /** Every link takes the first unused signer of the set. */
  ghost predicate TakesFirst(signed: Signed, chain: seq<Cert>, caCerts: seq<Cert>) {
    forall k :: 0 < k < |chain| ==> IsFirstUnused(signed, chain[k - 1], caCerts, chain[1..k], chain[k])
  }

  /** `remaining` is the set, in order, without some used certificates. */
  ghost predicate RemainsOf(remaining: seq<Cert>, caCerts: seq<Cert>, used: seq<Cert>) {
    if caCerts == [] then remaining == []
    else
      || (remaining != [] && remaining[0] == caCerts[0] && RemainsOf(remaining[1..], caCerts[1..], used))
      || (caCerts[0] in used && RemainsOf(remaining, caCerts[1..], used))
  }

  lemma {:induction false} AllRemain(caCerts: seq<Cert>, used: seq<Cert>)
    ensures RemainsOf(caCerts, caCerts, used)
  {
    if caCerts != [] {
      AllRemain(caCerts[1..], used);
    }
  }

  lemma {:induction false} RemovedRemains(remaining: seq<Cert>, caCerts: seq<Cert>, used: seq<Cert>, x: Cert)
    requires RemainsOf(remaining, caCerts, used)
    ensures RemainsOf(Removed(remaining, x), caCerts, used + [x])
  {
    if caCerts != [] {
      if remaining != [] && remaining[0] == caCerts[0] && RemainsOf(remaining[1..], caCerts[1..], used) {
        if remaining[0] == x {
          MoreUsed(remaining[1..], caCerts[1..], used, x);
        } else {
          RemovedRemains(remaining[1..], caCerts[1..], used, x);
          assert Removed(remaining, x)[1..] == Removed(remaining[1..], x);
        }
      } else {
        RemovedRemains(remaining, caCerts[1..], used, x);
      }
    }
  }

  lemma {:induction false} MoreUsed(remaining: seq<Cert>, caCerts: seq<Cert>, used: seq<Cert>, x: Cert)
    requires RemainsOf(remaining, caCerts, used)
    ensures RemainsOf(remaining, caCerts, used + [x])
  {
    if caCerts != [] {
      if remaining != [] && remaining[0] == caCerts[0] && RemainsOf(remaining[1..], caCerts[1..], used) {
        MoreUsed(remaining[1..], caCerts[1..], used, x);
      } else {
        MoreUsed(remaining, caCerts[1..], used, x);
      }
    }
  }

  /** The first signer among the remaining is the first unused signer of the set. */
  lemma {:induction false} FirstOfRemaining(signed: Signed, cert: Cert, remaining: seq<Cert>, caCerts: seq<Cert>, used: seq<Cert>)
    requires RemainsOf(remaining, caCerts, used) && FirstParent(signed, cert, remaining).Some?
    ensures IsFirstUnused(signed, cert, caCerts, used, FirstParent(signed, cert, remaining).value)
  {
    var next := FirstParent(signed, cert, remaining).value;
    if remaining != [] && remaining[0] == caCerts[0] && RemainsOf(remaining[1..], caCerts[1..], used) {
      if !signed(cert, remaining[0]) {
        FirstOfRemaining(signed, cert, remaining[1..], caCerts[1..], used);
        UnusedBehind(signed, cert, caCerts, used, next);
      }
    } else {
      FirstOfRemaining(signed, cert, remaining, caCerts[1..], used);
      UnusedBehind(signed, cert, caCerts, used, next);
    }
  }

  lemma UnusedBehind(signed: Signed, cert: Cert, caCerts: seq<Cert>, used: seq<Cert>, next: Cert)
    requires caCerts != [] && (signed(cert, caCerts[0]) ==> caCerts[0] in used)
    requires IsFirstUnused(signed, cert, caCerts[1..], used, next)
    ensures IsFirstUnused(signed, cert, caCerts, used, next)
  {
    var rest := caCerts[1..];
    var i :| 0 <= i < |rest| && rest[i] == next && signed(cert, next)
          && forall j :: 0 <= j < i && signed(cert, rest[j]) ==> rest[j] in used;
    forall j | 0 <= j < i + 1 && signed(cert, caCerts[j]) ensures caCerts[j] in used {
      if j > 0 { assert caCerts[j] == rest[j - 1]; }
    }
    assert caCerts[i + 1] == next;
  }

  lemma TakesFirstSnoc(signed: Signed, chain: seq<Cert>, caCerts: seq<Cert>, next: Cert)
    requires chain != [] && TakesFirst(signed, chain, caCerts)
    requires IsFirstUnused(signed, chain[|chain| - 1], caCerts, chain[1..], next)
    ensures TakesFirst(signed, chain + [next], caCerts)
  {
    var c := chain + [next];
    forall k | 0 < k < |c| ensures IsFirstUnused(signed, c[k - 1], caCerts, c[1..k], c[k]) {
      if k < |chain| {
        assert c[1..k] == chain[1..k];
      } else {
        assert c[1..k] == chain[1..];
      }
    }
  }

  /** The state of the search. */
  ghost predicate Searched(signed: Signed, cert: Cert, caCerts: seq<Cert>, chain: seq<Cert>, remaining: seq<Cert>) {
    && chain != [] && chain[0] == cert && IsChain(signed, chain) && TakesFirst(signed, chain, caCerts)
    && multiset(chain[1..]) + multiset(remaining) == multiset(caCerts)
    && RemainsOf(remaining, caCerts, chain[1..])
  }

  lemma SearchStart(signed: Signed, cert: Cert, caCerts: seq<Cert>)
    ensures Searched(signed, cert, caCerts, [cert], caCerts)
  {
    AllRemain(caCerts, []);
    assert [cert][1..] == [];
  }

  lemma SearchStep(signed: Signed, cert: Cert, caCerts: seq<Cert>, chain: seq<Cert>, remaining: seq<Cert>)
    requires Searched(signed, cert, caCerts, chain, remaining)
    requires FirstParent(signed, chain[|chain| - 1], remaining).Some?
    ensures var parent := FirstParent(signed, chain[|chain| - 1], remaining).value;
            && Searched(signed, cert, caCerts, chain + [parent], Removed(remaining, parent))
            && |Removed(remaining, parent)| < |remaining|
  {
    var last := chain[|chain| - 1];
    var parent := FirstParent(signed, last, remaining).value;
    FirstOfRemaining(signed, last, remaining, caCerts, chain[1..]);
    TakesFirstSnoc(signed, chain, caCerts, parent);
    RemovedRemains(remaining, caCerts, chain[1..], parent);
    StepCounts(caCerts, chain[1..], remaining, parent);
    ChainSnoc(signed, chain, parent);
  }

  lemma StepCounts(caCerts: seq<Cert>, used: seq<Cert>, remaining: seq<Cert>, parent: Cert)
    requires multiset(used) + multiset(remaining) == multiset(caCerts) && parent in remaining
    ensures multiset(used + [parent]) + multiset(Removed(remaining, parent)) == multiset(caCerts)
    ensures |Removed(remaining, parent)| < |remaining|
  {
    RemovedCounts(remaining, parent);
  }

  lemma ChainSnoc(signed: Signed, chain: seq<Cert>, parent: Cert)
    requires chain != [] && IsChain(signed, chain) && signed(chain[|chain| - 1], parent)
    ensures IsChain(signed, chain + [parent]) && (chain + [parent])[1..] == chain[1..] + [parent]
  {
  }

  /**
    Terminates on every relation, cyclic ones too. What follows the first
    certificate is taken from the set, each time the first signer not used yet and
    each certificate as often as it is there at most; and the search ends for one
    of three reasons only.
   */
  method FindChain(signed: Signed, cert: Cert, caCerts: seq<Cert>) returns (chain: seq<Cert>, remaining: seq<Cert>)
    ensures chain != [] && chain[0] == cert && IsChain(signed, chain) && TakesFirst(signed, chain, caCerts)
    ensures multiset(chain[1..]) + multiset(remaining) == multiset(caCerts)
    ensures Distinct(caCerts) ==> Distinct(chain[1..])
    ensures Stopped(signed, chain[|chain| - 1], remaining)
  {
    remaining := caCerts;
    chain := [cert];
    SearchStart(signed, cert, caCerts);
    while remaining != []
      invariant Searched(signed, cert, caCerts, chain, remaining)
      decreases |remaining|
    {
      var parent := FindParent(signed, chain[|chain| - 1], remaining);
      if parent.None? {
        break;
      } else if parent.value == chain[|chain| - 1] {
        break;
      } else {
        SearchStep(signed, cert, caCerts, chain, remaining);
        remaining := Removed(remaining, parent.value);
        chain := chain + [parent.value];
      }
    }
    if Distinct(caCerts) {
      DistinctPart(chain[1..], remaining, caCerts);
    }
  }

  lemma {:induction false} CountDistinct(l: seq<Cert>, x: Cert)
    requires Distinct(l)
    ensures multiset(l)[x] <= 1
  {
    if l != [] {
      assert l == [l[0]] + l[1..];
      CountDistinct(l[1..], x);
      assert forall i :: 0 <= i < |l[1..]| ==> l[1..][i] == l[i + 1] != l[0];
    }
  }

  lemma DistinctPart(a: seq<Cert>, b: seq<Cert>, all: seq<Cert>)
    requires Distinct(all) && multiset(a) + multiset(b) == multiset(all)
    ensures Distinct(a)
  {
    forall i, j | 0 <= i < j < |a| ensures a[i] != a[j] {
      CountDistinct(all, a[i]);
      assert (multiset(a) + multiset(b))[a[i]] <= 1;
      TwiceCounted(a, i, j);
    }
  }

  lemma TwiceCounted(a: seq<Cert>, i: nat, j: nat)
    requires i < j < |a|
    ensures a[i] == a[j] ==> multiset(a)[a[i]] >= 2
  {
    var x := a[i];
    assert a == a[..j] + [a[j]] + a[j + 1..];
    assert x == a[..j][i] && x in multiset(a[..j]);
    assert multiset(a)[x] == multiset(a[..j])[x] + multiset([a[j]])[x] + multiset(a[j + 1..])[x];
  }
}
