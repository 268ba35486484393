/**
  Backslash escaping in quoted, line-ending strings
  (python/vyos/configtree.py).
 */
module Backslash {
  import opened Decimal

  /** `s.replace('\\', '\\\\')`. */
  function Double(s: string): string {
    if s == "" then ""
    else (if s[0] == '\\' then "\\\\" else [s[0]]) + Double(s[1..])
  }

  /** `s.replace('\\\\', '\\')`: pairs are taken from the left. */
  function Halve(s: string): string {
    if s == "" then ""
    else if s[0] == '\\' && |s| > 1 && s[1] == '\\' then "\\" + Halve(s[2..])
    else [s[0]] + Halve(s[1..])
  }

  predicate IsQuote(c: char) {
    c == '"' || c == '\''
  }

  /**
    Whether the text after an opening quote `q` completes a match of the regular
    expression: the next `q` ends the line, and a backslash (or `seen`) precedes it.
   */
  predicate Closes(q: char, t: string, seen: bool) {
    if t == "" then false
    else if t[0] == q then seen && |t| > 1 && t[1] == '\n'
    else Closes(q, t[1..], seen || t[0] == '\\')
  }

  function BodyLength(q: char, t: string): (n: nat)
    ensures n <= |t| && q !in t[..n]
    ensures n < |t| ==> t[n] == q
  {
    if t == "" || t[0] == q then 0
    else
      var n := BodyLength(q, t[1..]);
      assert t[..n + 1] == [t[0]] + t[1..][..n];
      n + 1
  }

  lemma {:induction false} ClosesBody(q: char, t: string, seen: bool)
    requires q != '\n'
    ensures Closes(q, t, seen)
       <==> var n := BodyLength(q, t); n + 1 < |t| && t[n + 1] == '\n' && (seen || '\\' in t[..n])
  {
    if t != "" && t[0] != q {
      var n := BodyLength(q, t[1..]);
      ClosesBody(q, t[1..], seen || t[0] == '\\');
      assert t[..n + 1] == [t[0]] + t[1..][..n];
    }
  }

  /** The two directions of the substitution. */
  datatype Direction = Escape | Unescape

  function Rewritten(d: Direction, s: string): string {
    match d
    case Escape => Double(s)
    case Unescape => Halve(s)
  }

  /** `p.sub(replace_method, s)`: leftmost matches, one after the other. */
  function ReplaceBackslash(d: Direction, s: string): string
    decreases |s|
  {
    if s == "" then ""
    else if IsQuote(s[0]) && Closes(s[0], s[1..], false) then
      ClosesBody(s[0], s[1..], false);
      var end := BodyLength(s[0], s[1..]) + 3;
      Rewritten(d, s[..end]) + ReplaceBackslash(d, s[end..])
    else
      [s[0]] + ReplaceBackslash(d, s[1..])
  }

  function EscapeBackslash(s: string): string {
    ReplaceBackslash(Escape, s)
  }

  function UnescapeBackslash(s: string): string {
    ReplaceBackslash(Unescape, s)
  }

  // ---- doubling and halving ---------------------------------------------------

  lemma {:induction false} HalveDouble(s: string)
    ensures Halve(Double(s)) == s
  {
    if s != "" {
      HalveDouble(s[1..]);
      var rest := Double(s[1..]);
      if s[0] == '\\' {
        assert Double(s) == "\\\\" + rest && Double(s)[2..] == rest;
      } else {
        assert Double(s) == [s[0]] + rest && Double(s)[1..] == rest;
      }
    }
  }

  /** `t'` is `t` with some of its backslashes doubled. */
  ghost predicate Thickened(t: string, t': string) {
    if t == "" then t' == ""
    else
      || (t' != "" && t'[0] == t[0] && Thickened(t[1..], t'[1..]))
      || (t[0] == '\\' && "\\\\" <= t' && Thickened(t[1..], t'[2..]))
  }

  lemma {:induction false} ThickenedDouble(s: string)
    ensures Thickened(s, Double(s))
  {
    if s != "" {
      ThickenedDouble(s[1..]);
      assert Double(s)[if s[0] == '\\' then 2 else 1..] == Double(s[1..]);
    }
  }

  lemma {:induction false} ThickenedConcat(s: string, s': string, t: string, t': string)
    requires Thickened(s, s') && Thickened(t, t')
    ensures Thickened(s + t, s' + t')
  {
    if s == "" {
      assert s + t == t && s' + t' == t';
    } else {
      assert (s + t)[1..] == s[1..] + t;
      if s' != "" && s'[0] == s[0] && Thickened(s[1..], s'[1..]) {
        ThickenedConcat(s[1..], s'[1..], t, t');
        assert (s' + t')[1..] == s'[1..] + t';
      } else {
        ThickenedConcat(s[1..], s'[2..], t, t');
        assert (s' + t')[2..] == s'[2..] + t';
      }
    }
  }

  lemma {:induction false} EscapeThickens(s: string)
    ensures Thickened(s, EscapeBackslash(s))
    decreases |s|
  {
    if s != "" {
      if IsQuote(s[0]) && Closes(s[0], s[1..], false) {
        ClosesBody(s[0], s[1..], false);
        var end := BodyLength(s[0], s[1..]) + 3;
        EscapeThickens(s[end..]);
        ThickenedDouble(s[..end]);
        ThickenedConcat(s[..end], Double(s[..end]), s[end..], EscapeBackslash(s[end..]));
        assert s == s[..end] + s[end..];
      } else {
        EscapeThickens(s[1..]);
        assert EscapeBackslash(s)[1..] == EscapeBackslash(s[1..]);
      }
    }
  }

  /** Doubling backslashes never makes or breaks a match. */
  lemma {:induction false} ClosesThickened(q: char, t: string, t': string, seen: bool)
    requires IsQuote(q) && Thickened(t, t')
    ensures Closes(q, t, seen) == Closes(q, t', seen)
    decreases |t|
  {
    if t != "" {
      if t'[0] == t[0] && Thickened(t[1..], t'[1..]) {
        if t[0] != q {
          ClosesThickened(q, t[1..], t'[1..], seen || t[0] == '\\');
        }
      } else {
        ClosesThickened(q, t[1..], t'[2..], true);
        assert t'[1..][1..] == t'[2..];
        assert Closes(q, t', seen) == Closes(q, t'[1..], true) == Closes(q, t'[2..], true);
      }
    }
  }

  // ---- the round trip -----------------------------------------------------------

  /** A closed quoted string: quote, body with a backslash and without that quote, quote, newline. */
  ghost predicate IsMatch(m: string) {
    && |m| >= 4 && (m[0] == '"' || m[0] == '\'') && m[|m| - 2] == m[0] && m[|m| - 1] == '\n'
    && m[0] !in m[1..|m| - 2] && '\\' in m[1..|m| - 2]
  }

  lemma {:induction false} BodyLengthOf(q: char, body: string, rest: string)
    requires q !in body
    ensures BodyLength(q, body + [q] + rest) == |body|
  {
    var t := body + [q] + rest;
    if body != "" {
      assert body[0] in body;
      assert t[1..] == body[1..] + [q] + rest;
      BodyLengthOf(q, body[1..], rest);
    }
  }

  /** A match at the head is found and rewritten as a whole. */
  lemma ReplaceMatch(d: Direction, m: string, rest: string)
    requires IsMatch(m)
    ensures ReplaceBackslash(d, m + rest) == (if d == Escape then Double(m) else Halve(m)) + ReplaceBackslash(d, rest)
  {
    var s, q, body := m + rest, m[0], m[1..|m| - 2];
    assert s[1..] == body + [q] + (['\n'] + rest);
    BodyLengthOf(q, body, ['\n'] + rest);
    ClosesBody(q, s[1..], false);
    assert s[1..][..|body|] == body;
    assert s[..|body| + 3] == m && s[|body| + 3..] == rest;
  }

  lemma {:induction false} DoubleConcat(s: string, t: string)
    ensures Double(s + t) == Double(s) + Double(t)
  {
    if s == "" {
      assert s + t == t;
    } else {
      assert (s + t)[1..] == s[1..] + t;
      DoubleConcat(s[1..], t);
    }
  }

  lemma {:induction false} DoubleKeeps(s: string, c: char)
    ensures c in Double(s) <==> c in s
  {
    if s != "" {
      DoubleKeeps(s[1..], c);
      assert s == [s[0]] + s[1..];
    }
  }

  lemma DoubledMatch(m: string)
    requires IsMatch(m)
    ensures IsMatch(Double(m))
  {
    var q, body := m[0], m[1..|m| - 2];
    var tail := [q] + ['\n'];
    assert m == [q] + (body + tail);
    DoubleConcat([q], body + tail);
    DoubleConcat(body, tail);
    DoubleConcat([q], ['\n']);
    assert Double([q]) == [q] && Double(['\n']) == ['\n'];
    assert Double(m) == [q] + (Double(body) + tail);
    assert Double(m)[1..|Double(m)| - 2] == Double(body);
    DoubleKeeps(body, q);
    DoubleKeeps(body, '\\');
    assert Double(body) != "";
  }

  lemma MatchAtHead(s: string) returns (end: nat)
    requires s != "" && IsQuote(s[0]) && Closes(s[0], s[1..], false)
    ensures end == BodyLength(s[0], s[1..]) + 3 <= |s|
    ensures IsMatch(s[..end])
  {
    var t := s[1..];
    ClosesBody(s[0], t, false);
    var n := BodyLength(s[0], t);
    end := n + 3;
    var body := s[..end][1..n + 1];
    assert body == t[..n];
    assert s[..end][|s[..end]| - 2] == t[n] && s[..end][|s[..end]| - 1] == t[n + 1];
  }

  lemma RoundTripMatch(m: string, rest: string)
    requires IsMatch(m) && UnescapeBackslash(EscapeBackslash(rest)) == rest
    ensures UnescapeBackslash(EscapeBackslash(m + rest)) == m + rest
  {
    ReplaceMatch(Escape, m, rest);
    DoubledMatch(m);
    ReplaceMatch(Unescape, Double(m), EscapeBackslash(rest));
    HalveDouble(m);
  }

  lemma RoundTripSkip(c: char, rest: string)
    requires !(IsQuote(c) && Closes(c, rest, false))
    requires UnescapeBackslash(EscapeBackslash(rest)) == rest
    ensures UnescapeBackslash(EscapeBackslash([c] + rest)) == [c] + rest
  {
    assert ([c] + rest)[1..] == rest;
    var escaped := EscapeBackslash(rest);
    assert ([c] + escaped)[1..] == escaped;
    EscapeThickens(rest);
    if IsQuote(c) { ClosesThickened(c, rest, escaped, false); }
  }

  lemma RoundTripCut(s: string, end: nat)
    requires end <= |s| && IsMatch(s[..end]) && UnescapeBackslash(EscapeBackslash(s[end..])) == s[end..]
    ensures UnescapeBackslash(EscapeBackslash(s)) == s
  {
    RoundTripMatch(s[..end], s[end..]);
    assert s == s[..end] + s[end..];
  }

  lemma RoundTripStep(s: string)
    requires s != "" && !(IsQuote(s[0]) && Closes(s[0], s[1..], false))
    requires UnescapeBackslash(EscapeBackslash(s[1..])) == s[1..]
    ensures UnescapeBackslash(EscapeBackslash(s)) == s
  {
    RoundTripSkip(s[0], s[1..]);
    assert s == [s[0]] + s[1..];
  }

  /** Unescaping undoes escaping, on every string. */
  lemma {:induction false} RoundTrip(s: string)
    ensures UnescapeBackslash(EscapeBackslash(s)) == s
    decreases |s|
  {
    if s == "" {
    } else if IsQuote(s[0]) && Closes(s[0], s[1..], false) {
      var end := MatchAtHead(s);
      RoundTrip(s[end..]);
      RoundTripCut(s, end);
    } else {
      RoundTrip(s[1..]);
      RoundTripStep(s);
    }
  }

  // ---- where escaping acts ----------------------------------------------------

  ghost predicate StartsMatch(s: string) {
    s != "" && IsQuote(s[0]) && Closes(s[0], s[1..], false)
  }

  lemma {:induction false} DoubleGrows(s: string)
    ensures |Double(s)| >= |s|
    ensures '\\' in s ==> |Double(s)| > |s|
  {
    if s != "" {
      DoubleGrows(s[1..]);
      assert s == [s[0]] + s[1..];
    }
  }

  lemma {:induction false} EscapeGrows(s: string, i: nat)
    requires i < |s|
    ensures |EscapeBackslash(s)| >= |s|
    ensures StartsMatch(s[i..]) ==> |EscapeBackslash(s)| > |s|
    decreases |s|
  {
    if StartsMatch(s) {
      var end := MatchAtHead(s);
      var m := s[..end];
      assert '\\' in m by { var k :| 0 <= k < |m[1..|m| - 2]| && m[1..|m| - 2][k] == '\\'; assert m[k + 1] == '\\'; }
      DoubleGrows(m);
      if end < |s| { EscapeGrows(s[end..], 0); }
    } else if |s| > 1 {
      EscapeGrows(s[1..], if i > 0 then i - 1 else 0);
      if i > 0 { assert s[1..][i - 1..] == s[i..]; } else { assert s[0..] == s; }
    } else {
      assert s[0..] == s;
    }
  }

  lemma {:induction false} EscapeIdle(s: string)
    requires forall i :: 0 <= i < |s| ==> !StartsMatch(s[i..])
    ensures EscapeBackslash(s) == s
  {
    if s != "" {
      assert s[0..] == s;
      assert forall i :: 0 <= i < |s[1..]| ==> s[1..][i..] == s[i + 1..];
      EscapeIdle(s[1..]);
      assert s == [s[0]] + s[1..];
    }
  }

  /** Escaping changes a text exactly when some quoted line ending holds a backslash. */
  lemma EscapeActs(s: string)
    ensures EscapeBackslash(s) != s <==> exists i, j :: 0 <= i <= j <= |s| && IsMatch(s[i..j])
  {
    if i :| 0 <= i < |s| && StartsMatch(s[i..]) {
      var end := MatchAtHead(s[i..]);
      assert s[i..][..end] == s[i..i + end];
      EscapeGrows(s, i);
    } else {
      EscapeIdle(s);
      forall i, j | 0 <= i <= j <= |s| ensures !IsMatch(s[i..j]) {
        if IsMatch(s[i..j]) {
          assert s[i..] == s[i..j] + s[j..];
          MatchStarts(s[i..j], s[j..]);
        }
      }
    }
  }

  /** The scan finds a match where there is one. */
  lemma MatchStarts(m: string, rest: string)
    requires IsMatch(m)
    ensures StartsMatch(m + rest)
  {
    var s, q, body := m + rest, m[0], m[1..|m| - 2];
    assert s[1..] == body + [q] + (['\n'] + rest);
    BodyLengthOf(q, body, ['\n'] + rest);
    ClosesBody(q, s[1..], false);
    assert s[1..][..|body|] == body;
  }

  /** Where no match starts, a character is kept and the scan goes on behind it. */
  lemma ReplaceKeeps(d: Direction, c: char, rest: string)
    requires forall n :: 0 <= n <= |[c] + rest| ==> !IsMatch(([c] + rest)[..n])
    ensures ReplaceBackslash(d, [c] + rest) == [c] + ReplaceBackslash(d, rest)
  {
    var s := [c] + rest;
    assert s[1..] == rest;
    if StartsMatch(s) {
      var end := MatchAtHead(s);
    }
  }

  /** A run of `n` backslashes is doubled, or shortened to the half of it, rounded up. */
  lemma {:induction false} RunRewritten(n: nat, t: string)
    requires t == "" || t[0] != '\\'
    ensures Double(Repeated('\\', n) + t) == Repeated('\\', 2 * n) + Double(t)
    ensures Halve(Repeated('\\', n) + t) == Repeated('\\', (n + 1) / 2) + Halve(t)
    decreases n
  {
    RunDoubled(n, t);
    RunHalved(n, t);
  }

  lemma RepeatedCons(c: char, n: nat)
    requires n > 0
    ensures Repeated(c, n) == [c] + Repeated(c, n - 1)
  {
  }

  lemma {:induction false} RunDoubled(n: nat, t: string)
    ensures Double(Repeated('\\', n) + t) == Repeated('\\', 2 * n) + Double(t)
  {
    if n == 0 {
      assert Repeated('\\', 0) + t == t && Repeated('\\', 0) + Double(t) == Double(t);
    } else {
      RepeatedCons('\\', n);
      RepeatedCons('\\', 2 * n);
      RepeatedCons('\\', 2 * n - 1);
      RunDoubled(n - 1, t);
      var s := Repeated('\\', n) + t;
      assert s[1..] == Repeated('\\', n - 1) + t;
    }
  }

  lemma {:induction false} RunHalved(n: nat, t: string)
    requires t == "" || t[0] != '\\'
    ensures Halve(Repeated('\\', n) + t) == Repeated('\\', (n + 1) / 2) + Halve(t)
    decreases n
  {
    var s := Repeated('\\', n) + t;
    if n == 0 {
      assert s == t && Repeated('\\', 0) + Halve(t) == Halve(t);
    } else if n == 1 {
      assert Repeated('\\', 1) == "\\" && s[1..] == t;
    } else {
      RunHalved(n - 2, t);
      PairAhead(n, t);
      RepeatedCons('\\', (n + 1) / 2);
      assert (n - 2 + 1) / 2 == (n + 1) / 2 - 1;
    }
  }

  lemma PairAhead(n: nat, t: string)
    requires n >= 2
    ensures var s := Repeated('\\', n) + t;
            s[0] == '\\' && s[1] == '\\' && s[2..] == Repeated('\\', n - 2) + t
  {
    RepeatedCons('\\', n);
    RepeatedCons('\\', n - 1);
  }

  /** Any other character is kept. */
  lemma OthersKept(c: char, t: string)
    requires c != '\\'
    ensures Double([c] + t) == [c] + Double(t) && Halve([c] + t) == [c] + Halve(t)
  {
    assert ([c] + t)[1..] == t;
  }

  /** Hence two texts that escape alike are the same text. */
  lemma EscapeInjective(s: string, t: string)
    requires EscapeBackslash(s) == EscapeBackslash(t)
    ensures s == t
  {
    RoundTrip(s);
    RoundTrip(t);
  }
}
