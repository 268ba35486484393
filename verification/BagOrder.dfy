/**
  The multiset order on ranks: taking one number out of a bag and putting any
  number of smaller ones in can only be repeated finitely often.
 */
module BagOrder {

  type Bag = multiset<nat>

  ghost predicate AllBelow(b: Bag, r: nat) {
    forall x :: x in b ==> x < r
  }

  /** `next` replaces one `r` of `b` by `added`, all smaller, and may lose more. */
  ghost predicate Replaces(b: Bag, r: nat, added: Bag, next: Bag) {
    r in b && AllBelow(added, r) && next <= b - multiset{r} + added
  }

  ghost predicate Below(next: Bag, b: Bag) {
    exists r, added :: Replaces(b, r, added, next)
  }

  /** Every descending sequence of bags from `b` is finite. */
  least predicate Ends(b: Bag) {
    forall next :: Below(next, b) ==> Ends(next)
  }

  lemma {:induction false} EndsStep(k: ORDINAL, b: Bag, next: Bag) returns (k': ORDINAL)
    requires Ends#[k](b) && Below(next, b)
    ensures k' < k && Ends#[k'](next)
    decreases k
  {
    if k.IsLimit {
      var k0: ORDINAL :| k0 < k && Ends#[k0](b);
      k' := EndsStep(k0, b, next);
    } else {
      k' := k - 1;
    }
  }

  /** The empty bag ends no later than any other. */
  lemma {:induction false} EndsEmpty(k: ORDINAL, b: Bag)
    requires Ends#[k](b)
    ensures Ends#[k](multiset{})
    decreases k
  {
    if k.IsLimit {
      var k0: ORDINAL :| k0 < k && Ends#[k0](b);
      EndsEmpty(k0, b);
    }
  }

  /** Bags of numbers below `r`. */
  lemma {:induction false} EndsBelow(r: nat, b: Bag)
    requires AllBelow(b, r)
    ensures Ends(b)
    decreases r, 0, 0, 0 as ORDINAL
  {
    if r == 0 {
      assert b == multiset{};
    } else {
      var low := b[r - 1 := 0];
      EndsBelow(r - 1, low);
      var k: ORDINAL :| Ends#[k](low);
      EndsWith(r - 1, b[r - 1], k, low);
      assert low[r - 1 := b[r - 1]] == b;
    }
  }

  /** Adding `c` copies of `r` to a bag of smaller numbers. */
  lemma {:induction false} EndsWith(r: nat, c: nat, k: ORDINAL, low: Bag)
    requires AllBelow(low, r) && Ends#[k](low)
    ensures Ends(low[r := c])
    decreases r, 1, c, k
  {
    var b := low[r := c];
    forall next | Below(next, b) ensures Ends(next) {
      var x, added :| Replaces(b, x, added, next);
      var low' := next[r := 0];
      assert AllBelow(low', r);
      assert next == low'[r := next[r]];
      if x == r {
        EndsBelow(r, low');
        var k': ORDINAL :| Ends#[k'](low');
        EndsWith(r, next[r], k', low');
      } else {
        assert Replaces(low, x, added, low');
        var k' := EndsStep(k, low, low');
        EndsWith(r, next[r], k', low');
      }
    }
  }

  ghost function Top(b: Bag): (r: nat)
    ensures AllBelow(b, r)
    decreases |b|
  {
    if b == multiset{} then 0
    else
      var x :| x in b;
      var rest := Top(b - multiset{x});
      assert forall y :: y in b ==> y == x || y in b - multiset{x};
      if rest <= x then x + 1 else rest
  }

  /** The multiset order is well founded. */
  lemma BagsEnd(b: Bag)
    ensures Ends(b)
  {
    EndsBelow(Top(b), b);
  }
}
