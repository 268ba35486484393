/**
  The compiler from an integer range to a regular expression
  (python/vyos/range_regex.py).
 */
module RangeRegex {
  import opened Decimal
  import opened RegexText

  // ---- stops ----------------------------------------------------------------

  /** `int(str(integer)[:-nines_count] + '9' * nines_count)`. */
  function FillByNines(n: nat, count: nat): nat
    requires count > 0
  {
    Value(Cut(Text(n), count) + Repeated('9', count))
  }

  /** `s[:-count]`. */
  function Cut(s: string, count: nat): string {
    if count < |s| then s[..|s| - count] else ""
  }

  function FillByZeros(n: nat, count: nat): int {
    n - n % Pow10(count)
  }

  // The same stops by recursion on the digits: multiples of 10^k.

  predicate IsMultiple(n: nat, k: nat) {
    k == 0 || (n % 10 == 0 && IsMultiple(n / 10, k - 1))
  }

  /** The least multiple of 10^k above `n`. */
  function Above(n: nat, k: nat): (r: nat)
    ensures r > n
  {
    if k == 0 then n + 1 else 10 * Above(n / 10, k - 1)
  }

  /** The greatest multiple of 10^k up to `n`. */
  function Floor(n: nat, k: nat): (r: nat)
    ensures r <= n
  {
    if k == 0 then n else 10 * Floor(n / 10, k - 1)
  }

  lemma TimesTen(m: nat)
    ensures 10 * m / 10 == m && 10 * m % 10 == 0
  {
  }

  lemma {:induction false} AboveIsLeast(n: nat, k: nat, x: nat)
    ensures IsMultiple(Above(n, k), k)
    ensures IsMultiple(x, k) && x > n ==> Above(n, k) <= x
  {
    if k > 0 {
      AboveIsLeast(n / 10, k - 1, x / 10);
      TimesTen(Above(n / 10, k - 1));
    }
  }

  lemma {:induction false} FloorIsGreatest(n: nat, k: nat, x: nat)
    ensures IsMultiple(Floor(n, k), k)
    ensures IsMultiple(x, k) && x <= n ==> x <= Floor(n, k)
  {
    if k > 0 {
      FloorIsGreatest(n / 10, k - 1, x / 10);
      TimesTen(Floor(n / 10, k - 1));
    }
  }

  lemma MultiplesAround(n: nat, k: nat, x: nat)
    ensures IsMultiple(Above(n, k), k) && IsMultiple(Floor(n, k), k)
    ensures IsMultiple(x, k) ==> if x > n then Above(n, k) <= x else x <= Floor(n, k)
  {
    AboveIsLeast(n, k, x);
    FloorIsGreatest(n, k, x);
  }

  lemma {:induction false} MultipleOfSmallerPower(x: nat, i: nat, k: nat)
    requires k <= i && IsMultiple(x, i)
    ensures IsMultiple(x, k)
  {
    if k > 0 {
      MultipleOfSmallerPower(x / 10, i - 1, k - 1);
    }
  }

  lemma StopsMonotone(n: nat, i: nat, k: nat)
    requires i <= k
    ensures Above(n, i) <= Above(n, k) && Floor(n, k) <= Floor(n, i)
  {
    MultiplesAround(n, k, 0);
    MultipleOfSmallerPower(Above(n, k), k, i);
    MultipleOfSmallerPower(Floor(n, k), k, i);
    MultiplesAround(n, i, Above(n, k));
    MultiplesAround(n, i, Floor(n, k));
  }

  lemma {:induction false} FilledText(n: nat, count: nat)
    requires count > 1
    ensures Cut(Text(n), count) + Repeated('9', count)
         == (Cut(Text(n / 10), count - 1) + Repeated('9', count - 1)) + "9"
  {
    assert Repeated('9', count) == Repeated('9', count - 1) + "9";
    assert Cut(Text(n), count) == Cut(Text(n / 10), count - 1) by {
      if n >= 10 && count < |Text(n)| {
        assert Text(n)[..|Text(n)| - count] == Text(n / 10)[..|Text(n / 10)| - (count - 1)];
      }
    }
  }

  lemma ValueSnoc(s: string)
    requires AllDigits(s)
    ensures Value(s + "9") == 10 * Value(s) + 9
  {
    assert (s + "9")[..|s|] == s;
    assert DigitValue('9') == 9;
  }

  lemma OneNine(n: nat)
    ensures FillByNines(n, 1) == 10 * (n / 10) + 9
  {
    var kept := Cut(Text(n), 1);
    assert kept == if n < 10 then "" else Text(n / 10);
    assert Repeated('9', 1) == "9";
    ValueSnoc(kept);
    ValueOfText(n / 10);
  }

  lemma MoreNines(n: nat, count: nat)
    requires count > 1
    ensures FillByNines(n, count) == 10 * FillByNines(n / 10, count - 1) + 9
  {
    var filled := Cut(Text(n / 10), count - 1) + Repeated('9', count - 1);
    FilledText(n, count);
    ValueSnoc(filled);
  }

  /** Printing, cutting, filling with nines and reading back is arithmetic. */
  lemma {:induction false} FillByNinesIsAbove(n: nat, count: nat)
    requires count > 0
    ensures FillByNines(n, count) + 1 == Above(n, count)
  {
    if count == 1 {
      OneNine(n);
      assert Above(n / 10, 0) == n / 10 + 1;
    } else {
      MoreNines(n, count);
      FillByNinesIsAbove(n / 10, count - 1);
    }
  }

  lemma DivMod(n: nat, p: nat) returns (q: nat, r: nat)
    requires p > 0
    ensures n == q * p + r && r < p && r == n % p
  {
    q, r := n / p, n % p;
  }

  lemma RemainderUnique(p: nat, q: nat, r: nat, q': nat, r': nat)
    requires q < q' && r < p
    ensures q * p + r < q' * p
  {
    assert q' * p == (q + 1) * p + (q' - q - 1) * p;
    assert (q' - q - 1) * p >= 0;
  }

  lemma ModTenfold(n: nat, p: nat)
    requires p > 0
    ensures n % (10 * p) == 10 * (n / 10 % p) + n % 10
  {
    var q, r := DivMod(n / 10, p);
    var q', r' := DivMod(n, 10 * p);
    assert q * (10 * p) == 10 * (q * p);
    if q < q' { RemainderUnique(10 * p, q, 10 * r + n % 10, q', r'); }
    if q' < q { RemainderUnique(10 * p, q', r', q, r); }
  }

  lemma {:induction false} FillByZerosIsFloor(n: nat, count: nat)
    ensures FillByZeros(n, count) == Floor(n, count)
  {
    if count > 0 {
      FillByZerosIsFloor(n / 10, count - 1);
      ModTenfold(n, Pow10(count - 1));
    }
  }

  lemma {:induction false} AboveIsScale(n: nat, k: nat)
    ensures Above(n, k) == Scale(Drop(n, k) + 1, k)
  {
    if k > 0 {
      AboveIsScale(n / 10, k - 1);
    }
  }

  lemma {:induction false} MultipleIsScale(n: nat, k: nat)
    requires IsMultiple(n, k)
    ensures n == Scale(Drop(n, k), k)
  {
    if k > 0 {
      MultipleIsScale(n / 10, k - 1);
    }
  }

  lemma {:induction false} AboveBound(n: nat, k: nat)
    ensures Above(n, k) >= Pow10(k)
    ensures n < Pow10(k) ==> Above(n, k) == Pow10(k) && Floor(n, k) == 0
  {
    if k > 0 {
      AboveBound(n / 10, k - 1);
    }
  }

  // ---- segments -------------------------------------------------------------

  function NinesStop(min: nat, k: nat): int {
    Above(min, k) - 1
  }

  function ZerosStop(max: nat, k: nat): int {
    Floor(max + 1, k) - 1
  }

  /** The stops the two loops of `split_to_ranges` collect. */
  ghost predicate AreStops(min: nat, max: nat, stops: set<int>) {
    && max in stops
    && (forall s :: s in stops ==> min <= s <= max)
    && (forall k: nat :: k > 0 && NinesStop(min, k) < max ==> NinesStop(min, k) in stops)
    && (forall k: nat :: k > 0 && ZerosStop(max, k) > min ==> ZerosStop(max, k) in stops)
    && (forall s {:trigger IsNinesStop(min, s)} :: s in stops ==> s == max || IsNinesStop(min, s) || IsZerosStop(max, s))
  }

  ghost predicate IsNinesStop(min: nat, s: int) {
    exists k: nat :: k > 0 && s == NinesStop(min, k)
  }

  ghost predicate IsZerosStop(max: nat, s: int) {
    exists k: nat :: k > 0 && s == ZerosStop(max, k)
  }

  /**
    `start` is `q` followed by digit `x` and `k` zeros; `stop` is `q` followed
    by digit `y` and `k` nines.
   */
  ghost predicate Shape(start: nat, stop: nat, q: nat, x: nat, y: nat, k: nat) {
    && x <= y <= 9
    && start == Scale(10 * q + x, k)
    && stop + 1 == Scale(10 * q + y + 1, k)
    && (q == 0 && x == 0 ==> k == 0)
  }

  ghost predicate IsSegment(start: nat, stop: nat) {
    && |Text(start)| == |Text(stop)|
    && exists q: nat, x: nat, y: nat, k: nat :: Shape(start, stop, q, x, y, k)
  }

  /** `start..stop` lies between two neighbouring stops. */
  ghost predicate Neighbours(min: nat, stops: set<int>, start: nat, stop: nat) {
    && start <= stop && stop in stops
    && (start == min || start - 1 in stops)
    && min <= start
    && forall s :: s in stops ==> s < start || s >= stop
  }

  /** If a multiple of 10^k lies strictly inside, both ends are multiples of 10^k. */
  lemma InsideMultiple(min: nat, max: nat, stops: set<int>, start: nat, stop: nat, k: nat)
    requires min <= max && AreStops(min, max, stops) && Neighbours(min, stops, start, stop)
    requires k > 0 && Above(start, k) <= stop
    ensures IsMultiple(start, k) && IsMultiple(stop + 1, k) && start > 0
  {
    MultiplesAround(start, k, 0);
    MultiplesAround(min, k, Above(start, k));
    MultiplesAround(max + 1, k, Above(start, k));
    assert NinesStop(min, k) in stops;
    assert ZerosStop(max, k) in stops;
    StartIsMultiple(min, max, stops, start, stop, k);
    StopIsMultiple(min, max, stops, start, stop, k);
  }

  lemma StartIsMultiple(min: nat, max: nat, stops: set<int>, start: nat, stop: nat, k: nat)
    requires min <= max && AreStops(min, max, stops) && Neighbours(min, stops, start, stop)
    requires Above(min, k) <= start && stop + 1 <= Floor(max + 1, k)
    ensures IsMultiple(start, k)
  {
    assert start - 1 in stops;
    if IsNinesStop(min, start - 1) {
      var i: nat :| i > 0 && start - 1 == NinesStop(min, i);
      NinesMultiple(min, i, k);
    } else {
      var j: nat :| j > 0 && start - 1 == ZerosStop(max, j);
      ZerosMultiple(max + 1, j, k);
    }
  }

  /** A stop of the nines loop beyond the one of `k` is a multiple of `10^k`, too. */
  lemma NinesMultiple(n: nat, i: nat, k: nat)
    requires Above(n, k) <= Above(n, i)
    ensures IsMultiple(Above(n, i), k)
  {
    MultiplesAround(n, i, 0);
    MultiplesAround(n, k, 0);
    if i >= k { MultipleOfSmallerPower(Above(n, i), i, k); } else { StopsMonotone(n, i, k); }
  }

  lemma ZerosMultiple(n: nat, j: nat, k: nat)
    requires Floor(n, j) <= Floor(n, k)
    ensures IsMultiple(Floor(n, j), k)
  {
    MultiplesAround(n, j, 0);
    MultiplesAround(n, k, 0);
    if j >= k { MultipleOfSmallerPower(Floor(n, j), j, k); } else { StopsMonotone(n, j, k); }
  }

  lemma StopIsMultiple(min: nat, max: nat, stops: set<int>, start: nat, stop: nat, k: nat)
    requires min <= max && AreStops(min, max, stops) && Neighbours(min, stops, start, stop)
    requires Above(min, k) <= start && stop + 1 <= Floor(max + 1, k)
    ensures IsMultiple(stop + 1, k)
  {
    MultiplesAround(max + 1, k, 0);
    if stop == max {
    } else if IsNinesStop(min, stop) {
      var i: nat :| i > 0 && stop == NinesStop(min, i);
      NinesMultiple(min, i, k);
    } else {
      var j: nat :| j > 0 && stop == ZerosStop(max, j);
      ZerosMultiple(max + 1, j, k);
    }
  }

  lemma {:induction false} DropOneMore(n: nat, k: nat, m: nat)
    ensures Drop(n, k + 1) == Drop(n, k) / 10 && Scale(m, k + 1) == Scale(10 * m, k)
  {
    if k > 0 {
      DropOneMore(n / 10, k - 1, m);
    } else {
      assert Drop(n, 1) == Drop(n / 10, 0) && Scale(m, 1) == 10 * Scale(m, 0);
    }
  }

  /** The largest power of ten with a multiple strictly inside, or 0. */
  lemma LargestInside(start: nat, stop: nat, from: nat) returns (k: nat)
    requires from == 0 || Above(start, from) <= stop
    ensures k == 0 || Above(start, k) <= stop
    ensures Above(start, k + 1) > stop
    decreases stop + 1 - from
  {
    if Above(start, from + 1) <= stop {
      AboveBound(start, from + 1);
      Pow10Grows(from + 1);
      k := LargestInside(start, stop, from + 1);
    } else {
      k := from;
    }
  }

  lemma NeighboursShape(min: nat, max: nat, stops: set<int>, start: nat, stop: nat)
    returns (q: nat, x: nat, y: nat, k: nat)
    requires min <= max && AreStops(min, max, stops) && Neighbours(min, stops, start, stop)
    ensures Shape(start, stop, q, x, y, k)
  {
    k := LargestInside(start, stop, 0);
    if k > 0 {
      InsideMultiple(min, max, stops, start, stop, k);
    }
    q, x, y := ShapeOfMultiples(start, stop, k);
  }

  lemma ShapeOfMultiples(start: nat, stop: nat, k: nat) returns (q: nat, x: nat, y: nat)
    requires start <= stop && IsMultiple(start, k) && IsMultiple(stop + 1, k)
    requires stop < Above(start, k + 1) && (k > 0 ==> start > 0)
    ensures Shape(start, stop, q, x, y, k)
  {
    var a, b := Drop(start, k), Drop(stop + 1, k);
    MultipleIsScale(start, k);
    MultipleIsScale(stop + 1, k);
    ScaleOrder(a, b, k);
    AboveIsScale(start, k + 1);
    DropOneMore(start, k, a / 10 + 1);
    ScaleOrder(10 * (a / 10 + 1), b, k);
    ScaleZero(k);
    q, x, y := a / 10, a % 10, b - 1 - 10 * (a / 10);
  }

  lemma {:induction false} ScaleOrder(a: nat, b: nat, k: nat)
    ensures a < b <==> Scale(a, k) < Scale(b, k)
  {
    if k > 0 {
      ScaleOrder(a, b, k - 1);
    }
  }

  lemma {:induction false} ScaleZero(k: nat)
    ensures Scale(0, k) == 0
  {
    if k > 0 {
      ScaleZero(k - 1);
    }
  }

  // ---- texts of a segment ---------------------------------------------------

  /** The digits shared by all members: `q`, or nothing when it is 0. */
  function Head(q: nat): (s: string)
    ensures AllDigits(s)
  {
    if q == 0 then "" else Text(q)
  }

  lemma MemberText(n: nat, q: nat, d: nat, k: nat)
    requires d <= 9 && Drop(n, k) == 10 * q + d && (q == 0 && d == 0 ==> k == 0)
    ensures Text(n) == Head(q) + [DigitChar(d)] + LowDigits(n, k)
  {
    assert (10 * q + d) / 10 == q && (10 * q + d) % 10 == d;
    assert Text(10 * q + d) == Head(q) + [DigitChar(d)];
    TextSplit(n, k);
  }

  lemma StartText(start: nat, q: nat, x: nat, k: nat)
    requires start == Scale(10 * q + x, k) && x <= 9 && (q == 0 && x == 0 ==> k == 0)
    ensures Text(start) == Head(q) + [DigitChar(x)] + Repeated('0', k)
  {
    LowDigitsZeros(10 * q + x, k);
    MemberText(start, q, x, k);
  }

  lemma StopText(stop: nat, q: nat, y: nat, k: nat)
    requires stop + 1 == Scale(10 * q + y + 1, k) && y <= 9 && (q == 0 && y == 0 ==> k == 0)
    ensures Text(stop) == Head(q) + [DigitChar(y)] + Repeated('9', k)
  {
    LowDigitsNines(10 * q + y, k);
    MemberText(stop, q, y, k);
  }

  lemma SegmentTexts(start: nat, stop: nat, q: nat, x: nat, y: nat, k: nat)
    requires Shape(start, stop, q, x, y, k)
    ensures Text(start) == Head(q) + [DigitChar(x)] + Repeated('0', k)
    ensures Text(stop) == Head(q) + [DigitChar(y)] + Repeated('9', k)
    ensures IsSegment(start, stop)
  {
    StartText(start, q, x, k);
    StopText(stop, q, y, k);
  }

  /** The common prefix, one digit of the interval, then any `k` digits. */
  ghost predicate HasForm(s: string, q: nat, x: nat, y: nat, k: nat) {
    var h := Head(q);
    && |s| == |h| + 1 + k
    && h <= s
    && AllDigits(s[|h|..])
    && x <= DigitValue(s[|h|..][0]) <= y
  }

  ghost predicate DecimalIn(s: string, lo: int, hi: int) {
    Canonical(s) && lo <= Value(s) <= hi
  }

  lemma FormMeaning(start: nat, stop: nat, q: nat, x: nat, y: nat, k: nat, s: string)
    requires Shape(start, stop, q, x, y, k)
    ensures HasForm(s, q, x, y, k) <==> DecimalIn(s, start, stop)
  {
    if HasForm(s, q, x, y, k) {
      FormIsDecimal(s, q, x, y, k);
      BetweenScales(start, stop, q, x, y, k, Value(s));
    }
    if DecimalIn(s, start, stop) {
      BetweenScales(start, stop, q, x, y, k, Value(s));
      DecimalHasForm(s, q, x, y, k);
    }
  }

  lemma DecimalHasForm(s: string, q: nat, x: nat, y: nat, k: nat)
    requires Canonical(s) && 10 * q + x <= Drop(Value(s), k) <= 10 * q + y
    requires y <= 9 && (q == 0 && x == 0 ==> k == 0)
    ensures HasForm(s, q, x, y, k)
  {
    TextOfValue(s);
    var d := Drop(Value(s), k) - 10 * q;
    MemberText(Value(s), q, d, k);
    FormOfParts(q, d, LowDigits(Value(s), k), x, y);
  }

  lemma FormOfParts(q: nat, d: nat, low: string, x: nat, y: nat)
    requires x <= d <= y <= 9 && AllDigits(low)
    ensures HasForm(Head(q) + [DigitChar(d)] + low, q, x, y, |low|)
  {
    var s := Head(q) + [DigitChar(d)] + low;
    assert s[|Head(q)|..] == [DigitChar(d)] + low;
  }

  lemma BetweenScales(start: nat, stop: nat, q: nat, x: nat, y: nat, k: nat, n: nat)
    requires Shape(start, stop, q, x, y, k)
    ensures start <= n <= stop <==> 10 * q + x <= Drop(n, k) <= 10 * q + y
  {
    DropScale(n, 10 * q + x, k);
    DropScale(n, 10 * q + y + 1, k);
  }

  lemma FormIsDecimal(s: string, q: nat, x: nat, y: nat, k: nat)
    requires HasForm(s, q, x, y, k) && (q == 0 && x == 0 ==> k == 0)
    ensures Canonical(s) && 10 * q + x <= Drop(Value(s), k) <= 10 * q + y
  {
    FormParts(s, q, x, y, k);
    HeadValue(q, s[|Head(q)|]);
    DropOfValue(s, k);
  }

  lemma FormParts(s: string, q: nat, x: nat, y: nat, k: nat)
    requires HasForm(s, q, x, y, k)
    ensures var h := Head(q);
            && |h| < |s| && AllDigits(s) && s[..|s| - k] == h + [s[|h|]] && (h != "" ==> s[0] == h[0])
            && x <= DigitValue(s[|h|]) <= y
  {
    var h := Head(q);
    assert s == h + s[|h|..];
    assert forall i :: |h| <= i < |s| ==> s[i] == s[|h|..][i - |h|];
  }

  lemma HeadValue(q: nat, c: char)
    requires IsDigit(c)
    ensures Value(Head(q) + [c]) == 10 * q + DigitValue(c)
    ensures q > 0 ==> Head(q) != "" && Head(q)[0] != '0'
  {
    var h := Head(q);
    assert (h + [c])[..|h|] == h;
    ValueOfText(q);
    TextIsCanonical(q);
  }

  // ---- the pattern of a segment -----------------------------------------------

  /** What one pair of digits adds to the pattern; `0` and `9` only add to the count. */
  function Piece(a: char, b: char): string {
    if a == b then [a]
    else if a != '0' || b != '9' then ['[', a, '-', b, ']']
    else ""
  }

  function Pieces(a: string, b: string): string
    requires |a| == |b|
  {
    if a == "" then "" else Pieces(a[..|a| - 1], b[..|b| - 1]) + Piece(a[|a| - 1], b[|b| - 1])
  }

  function AnyCount(a: string, b: string): nat
    requires |a| == |b|
  {
    if a == "" then 0
    else AnyCount(a[..|a| - 1], b[..|b| - 1]) + if Piece(a[|a| - 1], b[|b| - 1]) == "" then 1 else 0
  }

  function AnyText(count: nat): string {
    if count == 0 then "" else if count == 1 then "\\d" else "\\d" + ("{" + Text(count) + "}")
  }

  lemma PiecesSnoc(s: string, t: string, a: char, b: char)
    requires |s| == |t|
    ensures Pieces(s + [a], t + [b]) == Pieces(s, t) + Piece(a, b)
    ensures AnyCount(s + [a], t + [b]) == AnyCount(s, t) + if Piece(a, b) == "" then 1 else 0
  {
    assert (s + [a])[..|s|] == s && (t + [b])[..|t|] == t;
  }

  lemma {:induction false} PiecesOfEqual(h: string)
    ensures Pieces(h, h) == h && AnyCount(h, h) == 0
  {
    if h != "" {
      PiecesOfEqual(h[..|h| - 1]);
      assert h == h[..|h| - 1] + [h[|h| - 1]];
    }
  }

  lemma RepeatedSnoc(p: string, c: char, k: nat)
    requires k > 0
    ensures p + Repeated(c, k) == p + Repeated(c, k - 1) + [c]
  {
  }

  /** Trailing zeros against nines add nothing but to the count. */
  lemma {:induction false} PiecesOfZerosNines(s: string, t: string, k: nat)
    requires |s| == |t|
    ensures Pieces(s + Repeated('0', k), t + Repeated('9', k)) == Pieces(s, t)
    ensures AnyCount(s + Repeated('0', k), t + Repeated('9', k)) == AnyCount(s, t) + k
  {
    if k == 0 {
      assert s + "" == s && t + "" == t;
    } else {
      PiecesOfZerosNines(s, t, k - 1);
      RepeatedSnoc(s, '0', k);
      RepeatedSnoc(t, '9', k);
      PiecesSnoc(s + Repeated('0', k - 1), t + Repeated('9', k - 1), '0', '9');
    }
  }

  lemma PiecesOfSegment(h: string, a: char, b: char, k: nat)
    ensures Pieces(h + [a] + Repeated('0', k), h + [b] + Repeated('9', k)) == h + Piece(a, b)
    ensures AnyCount(h + [a] + Repeated('0', k), h + [b] + Repeated('9', k)) == k + if Piece(a, b) == "" then 1 else 0
  {
    PiecesOfEqual(h);
    PiecesSnoc(h, h, a, b);
    PiecesOfZerosNines(h + [a], h + [b], k);
  }

  lemma AnyTextMeaning(count: nat, s: string)
    ensures MatchesAlternative(AnyText(count), s) <==> |s| == count && AllDigits(s)
  {
    if count == 1 {
      AnyDigitsStep(1, "", s);
      assert AnyText(count) == "\\d" + "";
    } else if count > 1 {
      RepeatedAnyMeaning(count, s);
    }
  }

  lemma RepeatedAnyMeaning(count: nat, s: string)
    requires count > 1
    ensures MatchesAlternative(AnyText(count), s) <==> |s| == count && AllDigits(s)
  {
    RepetitionOfCount(count);
    AnyDigitsStep(count, "{" + Text(count) + "}", s);
  }

  lemma PatternMeaning(start: nat, stop: nat, q: nat, x: nat, y: nat, k: nat, s: string)
    requires Shape(start, stop, q, x, y, k)
    ensures var re := Head(q) + Piece(DigitChar(x), DigitChar(y)) + AnyText(k + if x == 0 && y == 9 then 1 else 0);
            MatchesAlternative(re, s) <==> HasForm(s, q, x, y, k)
  {
    var h := Head(q);
    var piece := Piece(DigitChar(x), DigitChar(y));
    var any := AnyText(k + if x == 0 && y == 9 then 1 else 0);
    assert h + piece + any == h + (piece + any);
    LiteralPrefix(h, piece + any, s);
    if h <= s {
      IntervalMeaning(x, y, k, s[|h|..]);
    }
  }

  lemma IntervalMeaning(x: nat, y: nat, k: nat, t: string)
    requires x <= y <= 9
    ensures MatchesAlternative(Piece(DigitChar(x), DigitChar(y)) + AnyText(k + if x == 0 && y == 9 then 1 else 0), t)
       <==> |t| == 1 + k && AllDigits(t) && x <= DigitValue(t[0]) <= y
  {
    if x == 0 && y == 9 {
      assert Piece(DigitChar(x), DigitChar(y)) + AnyText(k + 1) == AnyText(k + 1);
      AnyTextMeaning(k + 1, t);
    } else {
      PartialIntervalMeaning(x, y, k, t);
    }
  }

  lemma PartialIntervalMeaning(x: nat, y: nat, k: nat, t: string)
    requires x <= y <= 9 && !(x == 0 && y == 9)
    ensures MatchesAlternative(Piece(DigitChar(x), DigitChar(y)) + AnyText(k), t)
       <==> |t| == 1 + k && AllDigits(t) && x <= DigitValue(t[0]) <= y
  {
    FirstDigitMeaning(x, y, AnyText(k), t);
    if t != "" {
      AnyTextMeaning(k, t[1..]);
      AllDigitsCons(t);
    }
  }

  lemma AllDigitsCons(t: string)
    requires t != ""
    ensures AllDigits(t) <==> IsDigit(t[0]) && AllDigits(t[1..])
  {
    assert t == [t[0]] + t[1..];
  }

  lemma FirstDigitMeaning(x: nat, y: nat, rest: string, t: string)
    requires x <= y <= 9 && !(x == 0 && y == 9)
    ensures MatchesAlternative(Piece(DigitChar(x), DigitChar(y)) + rest, t)
       <==> t != "" && IsDigit(t[0]) && x <= DigitValue(t[0]) <= y && MatchesAlternative(rest, t[1..])
  {
    var a, b := DigitChar(x), DigitChar(y);
    if x == y {
      LiteralStep(a, rest, t);
    } else {
      ClassStep(a, b, rest, t);
    }
  }

  /** The text `range_to_pattern` prints. */
  function PatternText(start: nat, stop: nat): string {
    var s, t := Text(start), Text(stop);
    var n := if |s| < |t| then |s| else |t|;
    Pieces(s[..n], t[..n]) + AnyText(AnyCount(s[..n], t[..n]))
  }

  lemma PatternTextOfSegment(start: nat, stop: nat, q: nat, x: nat, y: nat, k: nat)
    requires Shape(start, stop, q, x, y, k)
    ensures PatternText(start, stop)
         == Head(q) + Piece(DigitChar(x), DigitChar(y)) + AnyText(k + if x == 0 && y == 9 then 1 else 0)
  {
    SegmentTexts(start, stop, q, x, y, k);
    PatternTextEqualLength(start, stop);
    PatternOfForm(Head(q), DigitChar(x), DigitChar(y), k);
    PieceIsEmpty(x, y);
  }

  function PatternOf(s: string, t: string): string
    requires |s| == |t|
  {
    Pieces(s, t) + AnyText(AnyCount(s, t))
  }

  lemma PatternOfForm(h: string, a: char, b: char, k: nat)
    ensures PatternOf(h + [a] + Repeated('0', k), h + [b] + Repeated('9', k))
         == h + Piece(a, b) + AnyText(k + if Piece(a, b) == "" then 1 else 0)
  {
    PiecesOfSegment(h, a, b, k);
  }

  lemma PatternTextEqualLength(start: nat, stop: nat)
    requires |Text(start)| == |Text(stop)|
    ensures PatternText(start, stop) == PatternOf(Text(start), Text(stop))
  {
    var s, t := Text(start), Text(stop);
    assert s[..|s|] == s && t[..|t|] == t;
  }

  lemma PieceIsEmpty(x: nat, y: nat)
    requires x <= y <= 9
    ensures Piece(DigitChar(x), DigitChar(y)) == "" <==> x == 0 && y == 9
  {
  }

  /** The pattern of a segment matches exactly the segment's decimals. */
  lemma SegmentPattern(start: nat, stop: nat, s: string)
    requires IsSegment(start, stop)
    ensures MatchesAlternative(PatternText(start, stop), s) <==> DecimalIn(s, start, stop)
  {
    var q: nat, x: nat, y: nat, k: nat :| Shape(start, stop, q, x, y, k);
    PatternTextOfSegment(start, stop, q, x, y, k);
    PatternMeaning(start, stop, q, x, y, k, s);
    FormMeaning(start, stop, q, x, y, k, s);
  }

  // ---- the compiler ------------------------------------------------------------

  ghost predicate Increasing(l: seq<int>) {
    forall i, j :: 0 <= i < j < |l| ==> l[i] < l[j]
  }

  function Inserted(l: seq<int>, x: int): (r: seq<int>)
    requires Increasing(l) && x !in l
    ensures Increasing(r) && |r| == |l| + 1
    ensures forall y :: y in r <==> y == x || y in l
    ensures r != [] && (r[0] == x || (l != [] && r[0] == l[0]))
  {
    if l == [] || x < l[0] then [x] + l else [l[0]] + Inserted(l[1..], x)
  }

  lemma HasMember(s: set<int>)
    requires s != {}
    ensures exists x :: x in s
  {
    if forall x :: x !in s {
      assert false;
    }
  }

  /** `list(stops)` followed by `sort()`. */
  method SortedList(stops: set<int>) returns (l: seq<int>)
    ensures Increasing(l) && |l| == |stops|
    ensures forall x :: x in l <==> x in stops
  {
    l := [];
    var rest := stops;
    while rest != {}
      invariant Increasing(l) && rest <= stops && |l| + |rest| == |stops|
      invariant forall x :: x in l <==> x in stops && x !in rest
    {
      HasMember(rest);
      var x :| x in rest;
      l := Inserted(l, x);
      rest := rest - {x};
    }
  }

  function SegmentStart(min: nat, stops: seq<int>, i: nat): int
    requires i <= |stops|
  {
    if i == 0 then min else stops[i - 1] + 1
  }

  ghost predicate EndsAt(min: nat, max: nat, stops: seq<int>) {
    stops != [] && stops[|stops| - 1] == max && min <= stops[0] && Increasing(stops)
  }

  /** Increasing stops that cut `min..max` into segments. */
  ghost predicate CutsIntoSegments(min: nat, max: nat, stops: seq<int>) {
    && EndsAt(min, max, stops)
    && forall i :: 0 <= i < |stops| ==>
         SegmentStart(min, stops, i) >= 0 && stops[i] >= 0 && IsSegment(SegmentStart(min, stops, i), stops[i])
  }

  lemma SortedStopsCut(min: nat, max: nat, stops: set<int>, l: seq<int>)
    requires min <= max && AreStops(min, max, stops)
    requires Increasing(l) && forall x :: x in l <==> x in stops
    ensures CutsIntoSegments(min, max, l)
  {
    assert max in l;
    assert l[|l| - 1] in stops && l[0] in stops;
    forall i | 0 <= i < |l|
      ensures SegmentStart(min, l, i) >= 0 && l[i] >= 0 && IsSegment(SegmentStart(min, l, i), l[i])
    {
      var start := SegmentStart(min, l, i);
      assert l[i] in stops;
      if i > 0 { assert l[i - 1] in stops; }
      forall s | s in stops ensures s < start || s >= l[i] {
        var j :| 0 <= j < |l| && l[j] == s;
      }
      var q, x, y, k := NeighboursShape(min, max, stops, start, l[i]);
      SegmentTexts(start, l[i], q, x, y, k);
    }
  }

  /** What the loops have collected once they have passed the given counts. */
  ghost predicate Collected(min: nat, max: nat, found: set<int>, nines: nat, zeros: nat) {
    && max as int in found
    && (forall s :: s in found ==> min <= s <= max)
    && (forall k: nat :: 0 < k < nines && NinesStop(min, k) < max ==> NinesStop(min, k) in found)
    && (forall k: nat :: 0 < k < zeros && ZerosStop(max, k) > min ==> ZerosStop(max, k) in found)
    && (forall s {:trigger IsNinesStop(min, s)} :: s in found ==> s == max || IsNinesStop(min, s) || IsZerosStop(max, s))
  }

  lemma CollectNines(min: nat, max: nat, found: set<int>, nines: nat)
    requires Collected(min, max, found, nines, 1) && nines > 0
    requires min <= NinesStop(min, nines) < max
    ensures Collected(min, max, found + {NinesStop(min, nines)}, nines + 1, 1)
    ensures nines < max && nines < |Text(max)|
  {
    TextLength(max);
    AboveBound(min, nines);
    Pow10Grows(nines);
    if nines >= |Text(max)| { Pow10Monotone(|Text(max)|, nines); }
    assert IsNinesStop(min, NinesStop(min, nines));
  }

  lemma CollectZeros(min: nat, max: nat, found: set<int>, nines: nat, zeros: nat)
    requires Collected(min, max, found, nines, zeros) && zeros > 0
    requires min < ZerosStop(max, zeros) <= max
    ensures Collected(min, max, found + {ZerosStop(max, zeros)}, nines, zeros + 1)
    ensures zeros <= max && zeros <= |Text(max)|
    ensures ZerosStop(max, zeros) == max ==> found + {ZerosStop(max, zeros)} == found
    ensures ZerosStop(max, zeros) == max || zeros < |Text(max)|
  {
    TextLength(max);
    if max + 1 < Pow10(zeros) { AboveBound(max + 1, zeros); }
    Pow10Grows(zeros);
    if zeros > |Text(max)| { Pow10Monotone(|Text(max)|, zeros); }
    if zeros == |Text(max)| && max + 1 == Pow10(zeros) { FloorOfPower(zeros); }
    assert IsZerosStop(max, ZerosStop(max, zeros));
  }

  lemma {:induction false} FloorOfPower(k: nat)
    ensures Floor(Pow10(k), k) == Pow10(k)
  {
    if k > 0 {
      FloorOfPower(k - 1);
    }
  }

  /** The stop sequences are monotone, so loops that have left missed nothing. */
  lemma CollectedAll(min: nat, max: nat, found: set<int>, nines: nat, zeros: nat)
    requires Collected(min, max, found, nines, zeros)
    requires NinesStop(min, nines) >= max && ZerosStop(max, zeros) <= min
    ensures AreStops(min, max, found)
  {
    forall k: nat | k > 0
      ensures NinesStop(min, k) < max ==> NinesStop(min, k) in found
      ensures ZerosStop(max, k) > min ==> ZerosStop(max, k) in found
    {
      if k >= nines { StopsMonotone(min, nines, k); }
      if k >= zeros { StopsMonotone(max + 1, zeros, k); }
    }
  }

  lemma CollectedCut(min: nat, max: nat, found: set<int>, nines: nat, zeros: nat, l: seq<int>)
    requires min <= max && Collected(min, max, found, nines, zeros)
    requires NinesStop(min, nines) >= max && ZerosStop(max, zeros) <= min
    requires Increasing(l) && forall x :: x in l <==> x in found
    ensures CutsIntoSegments(min, max, l)
  {
    CollectedAll(min, max, found, nines, zeros);
    SortedStopsCut(min, max, found, l);
  }

  /** The first loop of `split_to_ranges`. */
  method AddNinesStops(min: nat, max: nat) returns (found: set<int>, ghost nines: nat)
    requires min <= max
    ensures Collected(min, max, found, nines, 1) && NinesStop(min, nines) >= max
    ensures |found| <= |Text(max)|
  {
    found := {max as int};
    var ninesCount := 1;
    var stop: int := FillByNines(min, ninesCount);
    FillByNinesIsAbove(min, ninesCount);
    while min <= stop < max
      invariant ninesCount > 0 && stop == NinesStop(min, ninesCount)
      invariant Collected(min, max, found, ninesCount, 1)
      invariant |found| <= ninesCount <= |Text(max)|
      decreases max - ninesCount
    {
      CollectNines(min, max, found, ninesCount);
      found := found + {stop};
      ninesCount := ninesCount + 1;
      stop := FillByNines(min, ninesCount);
      FillByNinesIsAbove(min, ninesCount);
    }
    nines := ninesCount;
  }

  /** The second loop of `split_to_ranges`. */
  method AddZerosStops(min: nat, max: nat, stops: set<int>, ghost nines: nat)
    returns (found: set<int>, ghost zeros: nat)
    requires min <= max && Collected(min, max, stops, nines, 1)
    ensures Collected(min, max, found, nines, zeros) && ZerosStop(max, zeros) <= min
    ensures |found| <= |stops| + |Text(max)| - 1
  {
    found := stops;
    var zerosCount := 1;
    var stop := FillByZeros(max + 1, zerosCount) - 1;
    FillByZerosIsFloor(max + 1, zerosCount);
    while min < stop <= max
      invariant zerosCount > 0 && stop == ZerosStop(max, zerosCount)
      invariant Collected(min, max, found, nines, zerosCount)
      invariant |found| < |stops| + zerosCount && |found| <= |stops| + |Text(max)| - 1
      decreases max + 1 - zerosCount
    {
      CollectZeros(min, max, found, nines, zerosCount);
      found := found + {stop};
      zerosCount := zerosCount + 1;
      stop := FillByZeros(max + 1, zerosCount) - 1;
      FillByZerosIsFloor(max + 1, zerosCount);
    }
    zeros := zerosCount;
  }

  method SplitToRanges(min: nat, max: nat) returns (stops: seq<int>)
    requires min <= max
    ensures CutsIntoSegments(min, max, stops)
    ensures |stops| <= 2 * |Text(max)| - 1
  {
    var found, nines := AddNinesStops(min, max);
    var all, zeros := AddZerosStops(min, max, found, nines);
    stops := SortedList(all);
    CollectedCut(min, max, all, nines, zeros, stops);
  }

  lemma PiecesStep(s: string, t: string, i: nat)
    requires i < |s| && i < |t|
    ensures Pieces(s[..i + 1], t[..i + 1]) == Pieces(s[..i], t[..i]) + Piece(s[i], t[i])
    ensures AnyCount(s[..i + 1], t[..i + 1]) == AnyCount(s[..i], t[..i]) + if Piece(s[i], t[i]) == "" then 1 else 0
  {
    assert s[..i + 1][..i] == s[..i] && t[..i + 1][..i] == t[..i];
  }

  lemma AnyTextAppended(p: string, count: nat)
    ensures p + AnyText(count)
         == if count == 0 then p
            else if count == 1 then p + "\\d"
            else p + "\\d" + ("{" + Text(count) + "}")
  {
  }

  method RangeToPattern(start: nat, stop: nat) returns (pattern: string)
    ensures pattern == PatternText(start, stop)
  {
    var s, t := Text(start), Text(stop);
    var n := if |s| < |t| then |s| else |t|;
    pattern := "";
    var anyDigitCount := 0;
    for i := 0 to n
      invariant pattern == Pieces(s[..i], t[..i]) && anyDigitCount == AnyCount(s[..i], t[..i])
    {
      PiecesStep(s, t, i);
      if s[i] == t[i] {
        pattern := pattern + [s[i]];
      } else if s[i] != '0' || t[i] != '9' {
        pattern := pattern + ['[', s[i], '-', t[i], ']'];
      } else {
        anyDigitCount := anyDigitCount + 1;
      }
    }
    AnyTextAppended(pattern, anyDigitCount);
    if anyDigitCount > 0 {
      pattern := pattern + "\\d";
    }
    if anyDigitCount > 1 {
      pattern := pattern + ("{" + Text(anyDigitCount) + "}");
    }
  }

  ghost predicate MatchedBy(patterns: seq<string>, s: string) {
    exists i :: 0 <= i < |patterns| && MatchesAlternative(patterns[i], s)
  }

  /** A pattern that can follow `-` or `-?` and stand between bars. */
  predicate IsPlain(re: string) {
    re != "" && re[0] != '?' && '|' !in re
  }

  lemma SegmentPatternIsPlain(start: nat, stop: nat)
    requires IsSegment(start, stop)
    ensures IsPlain(PatternText(start, stop))
  {
    var n := |Text(start)|;
    var s, t := Text(start)[..n], Text(stop)[..n];
    PiecesArePlain(s, t);
    AnyTextIsPlain(AnyCount(s, t));
  }

  lemma {:induction false} PiecesArePlain(s: string, t: string)
    requires |s| == |t| && AllDigits(s) && AllDigits(t)
    ensures '|' !in Pieces(s, t)
    ensures Pieces(s, t) != "" ==> Pieces(s, t)[0] != '?'
    ensures s != "" && Pieces(s, t) == "" ==> AnyCount(s, t) > 0
  {
    if s != "" {
      PiecesArePlain(s[..|s| - 1], t[..|t| - 1]);
      var a, b := s[|s| - 1], t[|t| - 1];
      assert IsDigit(a) && IsDigit(b);
      assert '|' !in Piece(a, b);
    }
  }

  lemma AnyTextIsPlain(count: nat)
    ensures '|' !in AnyText(count) && (count > 0 ==> AnyText(count) != "" && AnyText(count)[0] == '\\')
  {
    var digits := Text(count);
    forall i | 0 <= i < |digits| ensures digits[i] != '|' { assert IsDigit(digits[i]); }
  }

  /** The segment a number of the range lies in. */
  lemma SegmentOf(min: nat, max: nat, stops: seq<int>, n: int) returns (i: nat)
    requires EndsAt(min, max, stops) && min <= n <= max
    ensures i < |stops| && SegmentStart(min, stops, i) <= n <= stops[i]
  {
    i := 0;
    while stops[i] < n
      invariant i < |stops| && SegmentStart(min, stops, i) <= n
      decreases |stops| - i
    {
      i := i + 1;
    }
  }

  /** A number lies in at most one segment, and segments stay inside the range. */
  lemma SegmentsDisjoint(min: nat, max: nat, stops: seq<int>, i: nat, j: nat, n: int)
    requires EndsAt(min, max, stops) && i < |stops| && j < |stops|
    requires SegmentStart(min, stops, i) <= n <= stops[i]
    ensures min <= n <= max
    ensures SegmentStart(min, stops, j) <= n <= stops[j] ==> i == j
  {
    assert i < j ==> stops[i] <= stops[j - 1];
    assert j < i ==> stops[j] <= stops[i - 1];
    assert stops[i] <= stops[|stops| - 1];
    assert i > 0 ==> stops[0] <= stops[i - 1];
  }

  /** Each pattern denotes its segment, as far as the string `s` is concerned. */
  ghost predicate DenoteSegments(patterns: seq<string>, min: nat, stops: seq<int>, s: string)
    requires |patterns| <= |stops|
  {
    forall i :: 0 <= i < |patterns| ==>
      (MatchesAlternative(patterns[i], s) <==> DecimalIn(s, SegmentStart(min, stops, i), stops[i]))
  }

  ghost predicate MatchedOnce(patterns: seq<string>, s: string) {
    forall i, j | 0 <= i < |patterns| && 0 <= j < |patterns| ::
      MatchesAlternative(patterns[i], s) && MatchesAlternative(patterns[j], s) ==> i == j
  }

  lemma SegmentsPartition(min: nat, max: nat, stops: seq<int>, patterns: seq<string>, s: string)
    requires EndsAt(min, max, stops)
    requires |patterns| == |stops| && DenoteSegments(patterns, min, stops, s)
    ensures MatchedBy(patterns, s) <==> DecimalIn(s, min, max)
    ensures MatchedOnce(patterns, s)
  {
    if Canonical(s) {
      var n := Value(s);
      if i :| 0 <= i < |patterns| && MatchesAlternative(patterns[i], s) {
        SegmentsDisjoint(min, max, stops, i, i, n);
      }
      if min <= n <= max {
        var i := SegmentOf(min, max, stops, n);
        assert MatchesAlternative(patterns[i], s);
      }
      forall i, j | 0 <= i < |patterns| && 0 <= j < |patterns|
        && MatchesAlternative(patterns[i], s) && MatchesAlternative(patterns[j], s)
        ensures i == j
      {
        SegmentsDisjoint(min, max, stops, i, j, n);
      }
    }
  }

  /** The patterns of the first segments, as `split_to_patterns` builds them. */
  ghost predicate Translated(patterns: seq<string>, min: nat, stops: seq<int>) {
    && |patterns| <= |stops|
    && (forall i :: 0 <= i < |patterns| ==> IsPlain(patterns[i]))
    && forall s :: DenoteSegments(patterns, min, stops, s)
  }

  lemma TranslateNext(patterns: seq<string>, min: nat, stops: seq<int>, start: nat, stop: nat)
    requires IsSegment(start, stop) && Translated(patterns, min, stops)
    requires |patterns| < |stops| && stop == stops[|patterns|] && start == SegmentStart(min, stops, |patterns|)
    ensures Translated(patterns + [PatternText(start, stop)], min, stops)
  {
    SegmentPatternIsPlain(start, stop);
    forall s ensures MatchesAlternative(PatternText(start, stop), s) <==> DecimalIn(s, start, stop) {
      SegmentPattern(start, stop, s);
    }
    AddTranslated(patterns, min, stops, PatternText(start, stop));
  }

  lemma AddTranslated(patterns: seq<string>, min: nat, stops: seq<int>, pattern: string)
    requires Translated(patterns, min, stops) && |patterns| < |stops| && IsPlain(pattern)
    requires forall s :: MatchesAlternative(pattern, s)
                    <==> DecimalIn(s, SegmentStart(min, stops, |patterns|), stops[|patterns|])
    ensures Translated(patterns + [pattern], min, stops)
  {
    forall s ensures DenoteSegments(patterns + [pattern], min, stops, s) {
      assert DenoteSegments(patterns, min, stops, s);
      DenoteNext(patterns, min, stops, pattern, s);
    }
  }

  lemma DenoteNext(patterns: seq<string>, min: nat, stops: seq<int>, pattern: string, s: string)
    requires |patterns| < |stops| && DenoteSegments(patterns, min, stops, s)
    requires MatchesAlternative(pattern, s)
        <==> DecimalIn(s, SegmentStart(min, stops, |patterns|), stops[|patterns|])
    ensures DenoteSegments(patterns + [pattern], min, stops, s)
  {
  }

  /** The patterns match exactly the decimals of the range, each of them once. */
  ghost predicate ArePatternsOf(patterns: seq<string>, min: nat, max: nat) {
    && (forall s :: MatchedBy(patterns, s) <==> DecimalIn(s, min, max))
    && (forall s :: MatchedOnce(patterns, s))
    && (forall i :: 0 <= i < |patterns| ==> IsPlain(patterns[i]))
  }

  lemma TranslatedAll(patterns: seq<string>, min: nat, max: nat, stops: seq<int>)
    requires EndsAt(min, max, stops) && Translated(patterns, min, stops) && |patterns| == |stops|
    ensures ArePatternsOf(patterns, min, max)
  {
    forall s
      ensures (MatchedBy(patterns, s) <==> DecimalIn(s, min, max)) && MatchedOnce(patterns, s)
    {
      assert DenoteSegments(patterns, min, stops, s);
      SegmentsPartition(min, max, stops, patterns, s);
    }
  }

  method SplitToPatterns(min: nat, max: nat) returns (patterns: seq<string>)
    requires min <= max
    ensures ArePatternsOf(patterns, min, max)
    ensures 0 < |patterns| <= 2 * |Text(max)| - 1
  {
    patterns := [];
    var start: int := min;
    var stops := SplitToRanges(min, max);
    for i := 0 to |stops|
      invariant |patterns| == i && start == SegmentStart(min, stops, i)
      invariant Translated(patterns, min, stops)
    {
      var pattern := RangeToPattern(start, stops[i]);
      TranslateNext(patterns, min, stops, start, stops[i]);
      patterns := patterns + [pattern];
      start := stops[i] + 1;
    }
    TranslatedAll(patterns, min, max, stops);
  }

  // ---- signed ranges -------------------------------------------------------------

  /** `str(n)` for an integer of either sign. */
  function SignedText(n: int): string {
    if n < 0 then "-" + Text(-n) else Text(n)
  }

  /** `[prefix + val for val in vals if (val in others) == present]`. */
  function Select(prefix: string, vals: seq<string>, others: seq<string>, present: bool): (r: seq<string>)
    ensures forall v :: v in vals && (v in others) == present ==> prefix + v in r
    ensures forall e :: e in r ==> exists v :: v in vals && (v in others) == present && e == prefix + v
  {
    if vals == [] then []
    else
      var rest := Select(prefix, vals[1..], others, present);
      if (vals[0] in others) == present then [prefix + vals[0]] + rest else rest
  }

  ghost predicate SomeMatches(alternatives: seq<string>, s: string) {
    exists a :: a in alternatives && MatchesAlternative(a, s)
  }

  /** The three groups of alternatives of a signed range. */
  function Merge(negative: seq<string>, positive: seq<string>): seq<string> {
    Select("-", negative, positive, false)
    + Select("-?", negative, positive, true)
    + Select("", positive, negative, false)
  }

  lemma PlainMinus(v: string, s: string)
    requires IsPlain(v)
    ensures MatchesAlternative("-" + v, s) <==> s != "" && s[0] == '-' && MatchesAlternative(v, s[1..])
  {
    LiteralStep('-', v, s);
  }

  lemma MergeMeaning(negative: seq<string>, positive: seq<string>, s: string)
    requires forall v :: v in negative || v in positive ==> IsPlain(v)
    ensures SomeMatches(Merge(negative, positive), s)
       <==> SomeMatches(positive, s) || (s != "" && s[0] == '-' && SomeMatches(negative, s[1..]))
  {
    var merged := Merge(negative, positive);
    if SomeMatches(merged, s) {
      var a :| a in merged && MatchesAlternative(a, s);
      if a in Select("-", negative, positive, false) {
        var v :| v in negative && a == "-" + v;
        PlainMinus(v, s);
      } else if a in Select("-?", negative, positive, true) {
        var v :| v in negative && v in positive && a == "-?" + v;
        OptionalMinusStep(v, s);
      } else {
        var v :| v in positive && a == "" + v;
        assert a == v;
      }
    }
    if SomeMatches(positive, s) {
      var v :| v in positive && MatchesAlternative(v, s);
      if v in negative {
        OptionalMinusStep(v, s);
        assert "-?" + v in merged;
      } else {
        assert "" + v == v && v in merged;
      }
    }
    if s != "" && s[0] == '-' && SomeMatches(negative, s[1..]) {
      var v :| v in negative && MatchesAlternative(v, s[1..]);
      if v in positive {
        OptionalMinusStep(v, s);
        assert "-?" + v in merged;
      } else {
        PlainMinus(v, s);
        assert "-" + v in merged;
      }
    }
  }

  lemma MergeIsBarFree(negative: seq<string>, positive: seq<string>)
    requires forall v :: v in negative || v in positive ==> IsPlain(v)
    ensures forall a :: a in Merge(negative, positive) ==> '|' !in a
    ensures negative != [] || positive != [] ==> Merge(negative, positive) != []
  {
    if negative != [] { var v := negative[0]; assert v in negative; }
    if positive != [] { var v := positive[0]; assert v in positive; }
  }

  lemma SignedMeaning(min: int, max: int, s: string)
    requires min <= max
    ensures (exists n :: min <= n <= max && s == SignedText(n))
       <==> || (max >= 0 && DecimalIn(s, if min < 0 then 0 else min, max))
            || (min < 0 && s != "" && s[0] == '-' && DecimalIn(s[1..], if max < 0 then -max else 1, -min))
  {
    if n :| min <= n <= max && s == SignedText(n) {
      var m := if n < 0 then -n else n;
      ValueOfText(m);
      TextIsCanonical(m);
      if n < 0 { assert s[1..] == Text(m); }
    }
    if max >= 0 && DecimalIn(s, if min < 0 then 0 else min, max) {
      TextOfValue(s);
      assert SignedText(Value(s)) == s;
    }
    if min < 0 && s != "" && s[0] == '-' && DecimalIn(s[1..], if max < 0 then -max else 1, -min) {
      TextOfValue(s[1..]);
      var n: int := Value(s[1..]);
      assert SignedText(0 - n) == s;
    }
  }

  /** The patterns of one sign match the decimals from `low` to `high`. */
  ghost predicate DenoteDecimals(patterns: seq<string>, low: int, high: int) {
    && (forall s :: SomeMatches(patterns, s) <==> DecimalIn(s, low, high))
    && forall v :: v in patterns ==> IsPlain(v)
  }

  lemma ListedPatterns(patterns: seq<string>, low: int, high: int)
    requires forall s :: MatchedBy(patterns, s) <==> DecimalIn(s, low, high)
    requires forall i :: 0 <= i < |patterns| ==> IsPlain(patterns[i])
    ensures DenoteDecimals(patterns, low, high)
  {
    forall s ensures SomeMatches(patterns, s) <==> DecimalIn(s, low, high) {
      assert MatchedBy(patterns, s) <==> SomeMatches(patterns, s);
    }
  }

  lemma MergedRegex(min: int, max: int, negative: seq<string>, positive: seq<string>)
    requires min <= max
    requires if min < 0 then DenoteDecimals(negative, if max < 0 then -max else 1, -min) else negative == []
    requires if max >= 0 then DenoteDecimals(positive, if min < 0 then 0 else min, max) else positive == []
    requires negative != [] || positive != []
    ensures forall s :: Matches(Join(Merge(negative, positive)), s) <==> exists n :: min <= n <= max && s == SignedText(n)
  {
    MergeIsBarFree(negative, positive);
    AlternativesOfJoin(Merge(negative, positive));
    forall s
      ensures Matches(Join(Merge(negative, positive)), s) <==> exists n :: min <= n <= max && s == SignedText(n)
    {
      MergeMeaning(negative, positive, s);
      SignedMeaning(min, max, s);
      assert Matches(Join(Merge(negative, positive)), s) <==> SomeMatches(Merge(negative, positive), s);
    }
  }

  /**
    The regular expression matches exactly the decimal texts of the integers in
    the range: no leading zero, no "-0", every member and nothing else.
   */
  method RegexForRange(min: int, max: int) returns (re: string)
    requires min <= max
    ensures forall s :: Matches(re, s) <==> exists n :: min <= n <= max && s == SignedText(n)
  {
    var positive, negative: seq<string> := [], [];
    var low := min;
    if low < 0 {
      var low' := 1;
      if max < 0 {
        low' := -max;
      }
      negative := SplitToPatterns(low', -min);
      ListedPatterns(negative, low', -min);
      low := 0;
    }
    if max >= 0 {
      positive := SplitToPatterns(low, max);
      ListedPatterns(positive, low, max);
    }
    MergedRegex(min, max, negative, positive);
    var negativeOnly := Select("-", negative, positive, false);
    var positiveOnly := Select("", positive, negative, false);
    var intersected := Select("-?", negative, positive, true);
    assert negativeOnly + intersected + positiveOnly == Merge(negative, positive);
    re := Join(negativeOnly + intersected + positiveOnly);
  }
}
