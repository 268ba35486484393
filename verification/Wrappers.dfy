/** What several modules share. */
module Wrappers {
  /** A value that may be absent: Python's `None` or a missing dictionary key. */
  datatype Option<+T> = None | Some(value: T)

  /** `a` is what is left of `l` when some entries are dropped. */
  ghost predicate IsSubsequence<T>(a: seq<T>, l: seq<T>) {
    a == [] || (l != [] && (IsSubsequence(a, l[1..]) || (a[0] == l[0] && IsSubsequence(a[1..], l[1..]))))
  }

  lemma {:induction false} SubsequenceSelf<T>(l: seq<T>)
    ensures IsSubsequence(l, l)
  {
    if l != [] {
      SubsequenceSelf(l[1..]);
    }
  }

  lemma {:induction false} SubsequenceSnoc<T>(a: seq<T>, l: seq<T>, x: T)
    requires IsSubsequence(a, l)
    ensures IsSubsequence(a, l + [x]) && IsSubsequence(a + [x], l + [x])
  {
    if l == [] {
      SubsequenceSelf([x]);
      assert a + [x] == [x] == l + [x];
    } else {
      assert (l + [x])[1..] == l[1..] + [x];
      if IsSubsequence(a, l[1..]) {
        SubsequenceSnoc(a, l[1..], x);
      } else {
        SubsequenceSnoc(a[1..], l[1..], x);
        assert (a + [x])[1..] == a[1..] + [x];
      }
    }
  }

  lemma MultisetSnoc<T>(l: seq<T>)
    requires l != []
    ensures multiset(l) == multiset(l[..|l| - 1]) + multiset{l[|l| - 1]}
  {
    assert l == l[..|l| - 1] + [l[|l| - 1]];
  }
}
