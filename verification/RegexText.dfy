/**
  The meaning of regular-expression text, for the fragment the range compiler
  writes: literal characters, `[a-b]`, `\d`, `\d{n}`, `-?` and `|`.
  `Matches` is Python's `re.fullmatch` on that fragment, over ASCII.
 */
module RegexText {
  import opened Decimal

  /** How often the `\d` just read is repeated, and the text after the count. */
  function Repetition(re: string): (r: (nat, string))
    ensures |r.1| <= |re|
  {
    if re != "" && re[0] == '{' then
      var k := DigitRun(re[1..]);
      if 1 + k < |re| && re[1 + k] == '}' then (Value(re[1..][..k]), re[k + 2..]) else (1, re)
    else
      (1, re)
  }

  function DigitRun(s: string): (k: nat)
    ensures k <= |s| && AllDigits(s[..k])
    ensures k < |s| ==> !IsDigit(s[k])
  {
    if s == "" || !IsDigit(s[0]) then 0
    else
      var k := DigitRun(s[1..]);
      assert s[..k + 1] == [s[0]] + s[1..][..k];
      k + 1
  }

  /** One alternative (no `|`) against a whole string. */
  predicate MatchesAlternative(re: string, s: string)
    decreases |re|
  {
    if re == "" then
      s == ""
    else if "-?" <= re then
      || MatchesAlternative(re[2..], s)
      || (s != "" && s[0] == '-' && MatchesAlternative(re[2..], s[1..]))
    else if "\\d" <= re then
      var (n, rest) := Repetition(re[2..]);
      n <= |s| && AllDigits(s[..n]) && MatchesAlternative(rest, s[n..])
    else if |re| >= 5 && re[0] == '[' && re[2] == '-' && re[4] == ']' then
      s != "" && re[1] <= s[0] <= re[3] && MatchesAlternative(re[5..], s[1..])
    else
      s != "" && s[0] == re[0] && MatchesAlternative(re[1..], s[1..])
  }

  function Alternatives(re: string): (parts: seq<string>)
    ensures |parts| > 0
  {
    if re == "" then [""]
    else
      var rest := Alternatives(re[1..]);
      if re[0] == '|' then [""] + rest else [[re[0]] + rest[0]] + rest[1..]
  }

  predicate Matches(re: string, s: string) {
    exists i :: 0 <= i < |Alternatives(re)| && MatchesAlternative(Alternatives(re)[i], s)
  }

  /** `'|'.join(parts)`. */
  function Join(parts: seq<string>): string {
    if parts == [] then ""
    else if |parts| == 1 then parts[0]
    else parts[0] + "|" + Join(parts[1..])
  }

  lemma {:induction false} AlternativesOfPrefix(w: string, t: string)
    requires '|' !in w
    ensures Alternatives(w + t) == [w + Alternatives(t)[0]] + Alternatives(t)[1..]
  {
    if w == "" {
      assert w + t == t;
      assert w + Alternatives(t)[0] == Alternatives(t)[0];
    } else {
      assert (w + t)[1..] == w[1..] + t;
      AlternativesOfPrefix(w[1..], t);
      assert w[0] in w;
      assert [w[0]] + (w[1..] + Alternatives(t)[0]) == w + Alternatives(t)[0];
    }
  }

  lemma {:induction false} AlternativesOfJoin(parts: seq<string>)
    requires parts != []
    requires forall i :: 0 <= i < |parts| ==> '|' !in parts[i]
    ensures Alternatives(Join(parts)) == parts
  {
    if |parts| == 1 {
      AlternativesOfPrefix(parts[0], "");
      assert parts[0] + "" == parts[0];
      assert parts == [parts[0]];
    } else {
      AlternativesOfJoin(parts[1..]);
      var rest := Join(parts[1..]);
      assert ("|" + rest)[1..] == rest;
      assert Join(parts) == parts[0] + ("|" + rest);
      AlternativesOfPrefix(parts[0], "|" + rest);
      assert Alternatives("|" + rest) == [""] + parts[1..];
      assert parts[0] + "" == parts[0];
      assert parts == [parts[0]] + parts[1..];
    }
  }

  // ---- single steps of the matcher ---------------------------------------------

  lemma AnyDigitsStep(n: nat, suffix: string, s: string)
    requires Repetition(suffix) == (n, "")
    ensures MatchesAlternative("\\d" + suffix, s) <==> |s| == n && AllDigits(s)
  {
    var re := "\\d" + suffix;
    assert re[..2] == "\\d" && re[2..] == suffix;
    assert re[0] == '\\';
    if n <= |s| {
      assert MatchesAlternative("", s[n..]) <==> s[n..] == "";
      assert |s| == n ==> s[..n] == s;
    }
  }

  lemma ClassStep(a: char, b: char, t: string, s: string)
    ensures MatchesAlternative(['[', a, '-', b, ']'] + t, s)
       <==> s != "" && a <= s[0] <= b && MatchesAlternative(t, s[1..])
  {
    var re := ['[', a, '-', b, ']'] + t;
    assert re[5..] == t && re[0] == '[';
  }

  lemma LiteralStep(c: char, t: string, s: string)
    requires IsDigit(c) || (c == '-' && (t == "" || t[0] != '?'))
    ensures MatchesAlternative([c] + t, s) <==> s != "" && s[0] == c && MatchesAlternative(t, s[1..])
  {
    var re := [c] + t;
    assert re[0] == c && re[1..] == t;
  }

  lemma OptionalMinusStep(t: string, s: string)
    ensures MatchesAlternative("-?" + t, s)
       <==> MatchesAlternative(t, s) || (s != "" && s[0] == '-' && MatchesAlternative(t, s[1..]))
  {
    var re := "-?" + t;
    assert re[2..] == t && re[..2] == "-?";
  }

  /** A prefix of digits matches only itself. */
  lemma {:induction false} LiteralPrefix(w: string, t: string, s: string)
    requires AllDigits(w)
    ensures MatchesAlternative(w + t, s) <==> w <= s && MatchesAlternative(t, s[|w|..])
  {
    if w == "" {
      assert w + t == t && s[0..] == s;
    } else {
      var re := w + t;
      assert re[0] == w[0] && re[1..] == w[1..] + t;
      if s != "" {
        LiteralPrefix(w[1..], t, s[1..]);
        if |w| <= |s| {
          assert s[1..][|w| - 1..] == s[|w|..];
          assert w <= s <==> w[0] == s[0] && w[1..] <= s[1..] by {
            if w[0] == s[0] && w[1..] <= s[1..] {
              assert forall i :: 1 <= i < |w| ==> w[i] == w[1..][i - 1] == s[1..][i - 1];
            }
          }
        }
      }
    }
  }

  lemma {:induction false} DigitRunOfDigits(w: string, t: string)
    requires AllDigits(w) && t != "" && !IsDigit(t[0])
    ensures DigitRun(w + t) == |w|
  {
    if w == "" {
      assert w + t == t;
    } else {
      assert (w + t)[1..] == w[1..] + t;
      DigitRunOfDigits(w[1..], t);
    }
  }

  lemma RepetitionOfCount(n: nat)
    ensures Repetition("{" + Text(n) + "}") == (n, "")
  {
    var re := "{" + Text(n) + "}";
    assert re[1..] == Text(n) + "}";
    DigitRunOfDigits(Text(n), "}");
    assert re[1..][..|Text(n)|] == Text(n);
    ValueOfText(n);
  }
}
