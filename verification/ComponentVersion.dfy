/**
  The component versions a configuration file carries in its footer: printing
  and parsing (python/vyos/component_version.py).
 */
module ComponentVersion {
  import opened Wrappers
  import opened Decimal

  type Components = map<string, nat>

  // ---- characters ---------------------------------------------------------------

  /** `\w` on ASCII. */
  predicate IsWord(c: char) {
    'a' <= c <= 'z' || 'A' <= c <= 'Z' || IsDigit(c) || c == '_'
  }

  /** `[\w-]`: what component names are made of. */
  predicate IsNameChar(c: char) {
    IsWord(c) || c == '-'
  }

  /** `[\w,-]`: what `component_from_string` takes for a name. */
  predicate IsScannedNameChar(c: char) {
    IsNameChar(c) || c == ','
  }

  /** `[\w@:-]`: the quoted component string. */
  predicate IsComponentChar(c: char) {
    IsNameChar(c) || c == '@' || c == ':'
  }

  /** The characters at which `splitlines` breaks. */
  predicate IsBreak(c: char) {
    c as int in {10, 11, 12, 13, 28, 29, 30}
  }

  /** `\s` on ASCII. */
  predicate IsSpace(c: char) {
    IsBreak(c) || c as int in {9, 31, 32}
  }

  predicate All(p: char -> bool, s: string) {
    forall i :: 0 <= i < |s| ==> p(s[i])
  }

  /** How many characters at the front satisfy `p`. */
  function Run(p: char -> bool, s: string): (n: nat)
    ensures n <= |s| && All(p, s[..n])
    ensures n < |s| ==> !p(s[n])
  {
    if s == "" || !p(s[0]) then 0
    else
      var n := Run(p, s[1..]);
      assert s[..n + 1] == [s[0]] + s[1..][..n];
      n + 1
  }

  lemma {:induction false} RunOf(p: char -> bool, w: string, t: string)
    requires All(p, w) && (t == "" || !p(t[0]))
    ensures Run(p, w + t) == |w|
  {
    if w == "" {
      assert w + t == t;
    } else {
      assert (w + t)[1..] == w[1..] + t;
      RunOf(p, w[1..], t);
    }
  }

  // ---- lines -----------------------------------------------------------------------

  /** `s.splitlines()`. */
  function SplitLines(s: string): seq<string> {
    if s == "" then []
    else
      var n := Run(c => !IsBreak(c), s);
      if n == |s| then [s]
      else
        var skip := if s[n] == '\r' && n + 1 < |s| && s[n + 1] == '\n' then 2 else 1;
        [s[..n]] + SplitLines(s[n + skip..])
  }

  /** `'\n'.join(lines)`. */
  function JoinLines(lines: seq<string>): string {
    if lines == [] then ""
    else if |lines| == 1 then lines[0]
    else lines[0] + "\n" + JoinLines(lines[1..])
  }

  function NonEmpty(lines: seq<string>): seq<string> {
    if lines == [] then []
    else (if lines[0] == "" then [] else [lines[0]]) + NonEmpty(lines[1..])
  }

  /** A line break in front of `t`: a carriage return takes a newline behind it along. */
  ghost predicate IsSeparator(sep: string, t: string) {
    sep == "\r\n" || (|sep| == 1 && IsBreak(sep[0]) && (sep[0] == '\r' && t != "" ==> t[0] != '\n'))
  }

  lemma SplitAt(w: string, sep: string, t: string)
    requires All(c => !IsBreak(c), w) && IsSeparator(sep, t)
    ensures SplitLines(w + sep + t) == [w] + SplitLines(t)
  {
    var s := w + sep + t;
    assert s == w + (sep + t);
    RunOf(c => !IsBreak(c), w, sep + t);
    assert s[|w|] == sep[0] && s[..|w|] == w && s[|w| + |sep|..] == t;
    assert t != "" && |sep| == 1 ==> s[|w| + 1] == t[0];
    assert |sep| == 2 ==> s[|w| + 1] == '\n';
  }

  /** What is left without a line break is the last line. */
  lemma SplitLast(w: string)
    requires All(c => !IsBreak(c), w)
    ensures SplitLines(w) == if w == "" then [] else [w]
  {
    RunOf(c => !IsBreak(c), w, "");
    assert w + "" == w;
  }

  lemma SplitLine(w: string, t: string)
    requires All(c => !IsBreak(c), w)
    ensures SplitLines(w + "\n" + t) == [w] + SplitLines(t)
  {
    SplitAt(w, "\n", t);
  }

  // ---- component strings -------------------------------------------------------------

  /** Python's order on strings. */
  predicate Before(a: string, b: string) {
    b != "" && (a == "" || a[0] < b[0] || (a[0] == b[0] && Before(a[1..], b[1..])))
  }

  /** `b` goes on where `a` ends, or the first character in which they differ is the greater one in `b`. */
  ghost predicate Lexicographic(a: string, b: string) {
    GoesOn(a, b) || exists i :: DiffersAt(a, b, i)
  }

  ghost predicate GoesOn(a: string, b: string) {
    |a| < |b| && a == b[..|a|]
  }

  ghost predicate DiffersAt(a: string, b: string, i: int) {
    0 <= i < |a| && i < |b| && a[..i] == b[..i] && a[i] < b[i]
  }

  lemma DiffersBehind(a: string, b: string, i: nat)
    requires a != "" && b != "" && a[0] == b[0]
    ensures DiffersAt(a, b, i + 1) <==> DiffersAt(a[1..], b[1..], i)
    ensures GoesOn(a, b) <==> GoesOn(a[1..], b[1..])
  {
    HeadTail(a);
    HeadTail(b);
    if i + 1 <= |a| && i + 1 <= |b| {
      assert a[..i + 1] == [a[0]] + a[1..][..i] && b[..i + 1] == [b[0]] + b[1..][..i];
      assert a[..i + 1][1..] == a[1..][..i] && b[..i + 1][1..] == b[1..][..i];
    }
    if |a| <= |b| {
      assert b[..|a|] == [b[0]] + b[1..][..|a| - 1] && b[..|a|][1..] == b[1..][..|a| - 1];
    }
  }

  lemma HeadTail(a: string)
    requires a != ""
    ensures a == [a[0]] + a[1..]
  {
  }

  lemma {:induction false} BeforeMeaning(a: string, b: string)
    ensures Before(a, b) <==> Lexicographic(a, b)
  {
    if a == "" || b == "" {
      assert b != "" ==> a == "" && b[..0] == "";
    } else if a[0] == b[0] {
      BeforeMeaning(a[1..], b[1..]);
      DiffersBehind(a, b, 0);
      if i :| DiffersAt(a, b, i) {
        DiffersBehind(a, b, i - 1);
      }
      if i :| DiffersAt(a[1..], b[1..], i) {
        DiffersBehind(a, b, i);
      }
    } else {
      HeadsDiffer(a, b);
    }
  }

  lemma HeadsDiffer(a: string, b: string)
    requires a != "" && b != "" && a[0] != b[0]
    ensures Lexicographic(a, b) <==> a[0] < b[0]
  {
    assert a[..0] == b[..0];
    assert a[0] < b[0] ==> DiffersAt(a, b, 0);
    GoesOnHead(a, b);
    forall i | DiffersAt(a, b, i) ensures i == 0 {
      DiffersHead(a, b, i);
    }
  }

  lemma GoesOnHead(a: string, b: string)
    requires a != ""
    ensures GoesOn(a, b) ==> a[0] == b[0]
  {
    assert |a| < |b| ==> b[..|a|][0] == b[0];
  }

  lemma DiffersHead(a: string, b: string, i: int)
    requires DiffersAt(a, b, i)
    ensures i > 0 ==> a[0] == b[0]
  {
    assert i > 0 ==> a[..i][0] == a[0] && b[..i][0] == b[0];
  }

  type Item = (string, nat)

  ghost predicate IsSorted(items: seq<Item>) {
    forall i, j :: 0 <= i < j < |items| ==> Before(items[i].0, items[j].0)
  }

  ghost predicate IsListing(items: seq<Item>, m: Components) {
    forall k, v :: (k, v) in items <==> k in m && m[k] == v
  }

  lemma {:induction false} BeforeIrreflexive(a: string)
    ensures !Before(a, a)
  {
    if a != "" {
      BeforeIrreflexive(a[1..]);
    }
  }

  lemma {:induction false} BeforeOrder(a: string, b: string, c: string)
    ensures !(Before(a, b) && Before(b, a)) && !Before(a, a)
    ensures a != b ==> Before(a, b) || Before(b, a)
    ensures Before(a, b) && Before(b, c) ==> Before(a, c)
  {
    BeforeIrreflexive(a);
    if a != "" && b != "" {
      BeforeOrder(a[1..], b[1..], if c == "" then "" else c[1..]);
      assert a == [a[0]] + a[1..] && b == [b[0]] + b[1..];
    }
  }

  function Place(items: seq<Item>, item: Item): seq<Item> {
    if items == [] || Before(item.0, items[0].0) then [item] + items
    else [items[0]] + Place(items[1..], item)
  }

  lemma {:induction false} PlaceSorted(items: seq<Item>, item: Item)
    requires IsSorted(items) && forall i :: 0 <= i < |items| ==> items[i].0 != item.0
    ensures IsSorted(Place(items, item))
    ensures forall x :: x in Place(items, item) <==> x == item || x in items
  {
    if items == [] {
    } else if Before(item.0, items[0].0) {
      forall j | 0 <= j < |items| ensures Before(item.0, items[j].0) {
        BeforeOrder(item.0, items[0].0, items[j].0);
      }
    } else {
      PlaceSorted(items[1..], item);
      BeforeOrder(item.0, items[0].0, "");
      var rest := Place(items[1..], item);
      assert items == [items[0]] + items[1..];
      forall j | 0 <= j < |rest| ensures Before(items[0].0, rest[j].0) {
        assert rest[j] in rest;
        if rest[j] != item { var i :| 0 <= i < |items[1..]| && items[1..][i] == rest[j]; }
      }
    }
  }

  lemma FirstMember(l: seq<Item>)
    ensures l != [] ==> l[0] in l
  {
  }

  /** A map has one sorted listing only. */
  lemma {:induction false} SortedListingUnique(a: seq<Item>, b: seq<Item>)
    requires IsSorted(a) && IsSorted(b) && forall x :: x in a <==> x in b
    ensures a == b
  {
    FirstMember(b);
    if a != [] {
      assert a[0] in b;
      assert b[0] in a;
      var i :| 0 <= i < |b| && b[i] == a[0];
      var j :| 0 <= j < |a| && a[j] == b[0];
      BeforeOrder(a[0].0, b[0].0, "");
      TailListing(a, b);
      TailListing(b, a);
      SortedListingUnique(a[1..], b[1..]);
      assert a == [a[0]] + a[1..] && b == [b[0]] + b[1..];
    }
  }

  lemma TailListing(a: seq<Item>, b: seq<Item>)
    requires a != [] && b != [] && IsSorted(a) && a[0] == b[0] && forall x :: x in a ==> x in b
    ensures forall x :: x in a[1..] ==> x in b[1..]
  {
    forall x | x in a[1..] ensures x in b[1..] {
      var i :| 0 <= i < |a[1..]| && a[1..][i] == x;
      BeforeOrder(a[0].0, a[i + 1].0, "");
      assert a[i + 1] in a;
      assert b == [b[0]] + b[1..];
    }
  }

  ghost function SortedItems(m: Components): (items: seq<Item>)
    ensures IsSorted(items) && IsListing(items, m)
    decreases m.Keys
  {
    if m == map[] then []
    else
      var k :| k in m;
      var rest := m - {k};
      var items := SortedItems(rest);
      assert forall i :: 0 <= i < |items| ==> items[i] in items && (items[i].0, items[i].1) in items;
      PlaceSorted(items, (k, m[k]));
      Place(items, (k, m[k]))
  }

  /** `sorted(component.items())`. */
  method Sorted(m: Components) returns (items: seq<Item>)
    ensures items == SortedItems(m)
  {
    items := [];
    var keys := m.Keys;
    while keys != {}
      invariant keys <= m.Keys && IsSorted(items)
      invariant forall k, v :: (k, v) in items <==> k in m && k !in keys && m[k] == v
    {
      var k :| k in keys;
      keys := keys - {k};
      assert forall i :: 0 <= i < |items| ==> (items[i].0, items[i].1) in items;
      PlaceSorted(items, (k, m[k]));
      items := Place(items, (k, m[k]));
    }
    forall x ensures x in items <==> x in SortedItems(m) {
      assert x == (x.0, x.1);
    }
    SortedListingUnique(items, SortedItems(m));
  }

  function ItemText(item: Item): string {
    item.0 + "@" + Text(item.1)
  }

  function JoinItems(items: seq<Item>): string {
    if items == [] then ""
    else if |items| == 1 then ItemText(items[0])
    else ItemText(items[0]) + ":" + JoinItems(items[1..])
  }

  /** What `component_to_string` prints. */
  ghost function ComponentText(m: Components): string {
    JoinItems(SortedItems(m))
  }

  method ComponentToString(m: Components) returns (s: string)
    ensures s == ComponentText(m)
  {
    var items := Sorted(m);
    s := JoinItems(items);
  }

  /** `re.findall` of names and versions: leftmost matches, greedy runs. */
  function FindItems(s: string): seq<Item>
    decreases |s|
  {
    if s == "" then []
    else
      var n := Run(c => IsScannedNameChar(c), s);
      if n > 0 && n < |s| && s[n] == '@' && DigitRun(s[n + 1..]) > 0 then
        var d := DigitRun(s[n + 1..]);
        [(s[..n], Value(s[n + 1..][..d]))] + FindItems(s[n + 1..][d..])
      else
        FindItems(s[1..])
  }

  function DigitRun(s: string): (n: nat)
    ensures n <= |s| && AllDigits(s[..n]) && (n < |s| ==> !IsDigit(s[n]))
  {
    Run(c => IsDigit(c), s)
  }

  /** The dictionary comprehension: a later entry replaces an earlier one. */
  function ItemsToMap(items: seq<Item>): Components {
    if items == [] then map[]
    else
      var last := items[|items| - 1];
      ItemsToMap(items[..|items| - 1])[last.0 := last.1]
  }

  function ComponentFromString(s: string): Components {
    ItemsToMap(FindItems(s))
  }

  predicate IsName(s: string) {
    s != "" && All(c => IsNameChar(c), s)
  }

  ghost predicate NamesOk(m: Components) {
    forall k :: k in m ==> IsName(k)
  }

  lemma FindFirstItem(item: Item, t: string)
    requires IsName(item.0) && (t == "" || t[0] == ':')
    ensures FindItems(ItemText(item) + t) == [item] + FindItems(t)
  {
    ItemRuns(item, t);
    ValueOfText(item.1);
    FindItemAt(ItemText(item) + t, |item.0|, |Text(item.1)|);
  }

  /** `n` name characters, `@` and a maximal run of `d` digits stand at the front. */
  ghost predicate StartsItem(s: string, n: nat, d: nat) {
    && 0 < n < |s| && All(c => IsScannedNameChar(c), s[..n]) && s[n] == '@'
    && 0 < d <= |s| - n - 1 && AllDigits(s[n + 1..][..d]) && (n + 1 + d < |s| ==> !IsDigit(s[n + 1 + d]))
  }

  /** The scanner takes an item that starts at the front; where none does, it goes on behind the first character. */
  lemma FindItemsMeaning(s: string)
    requires s != ""
    ensures forall n: nat, d: nat | StartsItem(s, n, d) :: FindItems(s) == [(s[..n], Value(s[n + 1..][..d]))] + FindItems(s[n + 1..][d..])
    ensures (forall n: nat, d: nat :: !StartsItem(s, n, d)) ==> FindItems(s) == FindItems(s[1..])
  {
    forall n: nat, d: nat | StartsItem(s, n, d)
      ensures FindItems(s) == [(s[..n], Value(s[n + 1..][..d]))] + FindItems(s[n + 1..][d..])
    {
      ItemStarts(s, n, d);
      FindItemAt(s, n, d);
    }
    var n := Run(c => IsScannedNameChar(c), s);
    if 0 < n < |s| && s[n] == '@' && DigitRun(s[n + 1..]) > 0 {
      var d := DigitRun(s[n + 1..]);
      assert n + 1 + d < |s| ==> s[n + 1..][d] == s[n + 1 + d];
      assert StartsItem(s, n, d);
    }
  }

  lemma ItemStarts(s: string, n: nat, d: nat)
    requires StartsItem(s, n, d)
    ensures n == Run(c => IsScannedNameChar(c), s) && d == DigitRun(s[n + 1..])
  {
    var t := s[n + 1..];
    assert s == s[..n] + s[n..] && t == t[..d] + t[d..];
    RunOf(c => IsScannedNameChar(c), s[..n], s[n..]);
    assert d < |t| ==> t[d] == s[n + 1 + d];
    RunOf(c => IsDigit(c), t[..d], t[d..]);
  }

  /** One match of the scanner. */
  lemma FindItemAt(s: string, n: nat, d: nat)
    requires n < |s|
    ensures 0 < n == Run(c => IsScannedNameChar(c), s) && s[n] == '@' && 0 < d == DigitRun(s[n + 1..]) ==>
              FindItems(s) == [(s[..n], Value(s[n + 1..][..d]))] + FindItems(s[n + 1..][d..])
  {
  }

  /** The runs of an item's name and version end where these do. */
  lemma ItemRuns(item: Item, t: string)
    requires IsName(item.0) && (t == "" || t[0] == ':')
    ensures var s, n, d := ItemText(item) + t, |item.0|, |Text(item.1)|;
            && n == Run(c => IsScannedNameChar(c), s) && n < |s| && s[n] == '@' && s[..n] == item.0
            && d == DigitRun(s[n + 1..]) && s[n + 1..][..d] == Text(item.1) && s[n + 1..][d..] == t
  {
    var name, digits := item.0, Text(item.1);
    var s := ItemText(item) + t;
    assert s == name + ("@" + digits + t);
    RunOf(c => IsScannedNameChar(c), name, "@" + digits + t);
    assert s[|name|] == '@' && s[..|name|] == name && s[|name| + 1..] == digits + t;
    RunOf(c => IsDigit(c), digits, t);
    assert (digits + t)[..|digits|] == digits && (digits + t)[|digits|..] == t;
  }

  lemma {:induction false} FindJoinedItems(items: seq<Item>)
    requires forall i :: 0 <= i < |items| ==> IsName(items[i].0)
    ensures FindItems(JoinItems(items)) == items
  {
    if |items| == 1 {
      FindFirstItem(items[0], "");
      assert ItemText(items[0]) + "" == ItemText(items[0]);
      assert items == [items[0]];
    } else if items != [] {
      var rest := JoinItems(items[1..]);
      assert JoinItems(items) == ItemText(items[0]) + (":" + rest);
      FindFirstItem(items[0], ":" + rest);
      SkipColon(rest);
      FindJoinedItems(items[1..]);
      assert items == [items[0]] + items[1..];
    }
  }

  lemma SkipColon(t: string)
    ensures FindItems(":" + t) == FindItems(t)
  {
    assert (":" + t)[1..] == t;
    assert !IsScannedNameChar((":" + t)[0]);
  }

  ghost predicate DistinctKeys(items: seq<Item>) {
    forall i, j :: 0 <= i < j < |items| ==> items[i].0 != items[j].0
  }

  /** The last item of a key. */
  ghost predicate IsLastOf(items: seq<Item>, i: int, k: string, v: nat) {
    0 <= i < |items| && items[i] == (k, v) && forall j :: i < j < |items| ==> items[j].0 != k
  }

  lemma {:induction false} ItemsToMapMeaning(items: seq<Item>, k: string, v: nat)
    ensures k in ItemsToMap(items) && ItemsToMap(items)[k] == v <==> exists i :: IsLastOf(items, i, k, v)
    decreases |items|
  {
    if items != [] {
      var front, n := items[..|items| - 1], |items| - 1;
      ItemsToMapMeaning(front, k, v);
      if items[n].0 == k {
        assert items[n] == (k, v) ==> IsLastOf(items, n, k, v);
      } else {
        forall i ensures IsLastOf(items, i, k, v) <==> IsLastOf(front, i, k, v) {
        }
      }
    }
  }

  lemma DistinctItemsToMap(items: seq<Item>, k: string, v: nat)
    requires DistinctKeys(items)
    ensures k in ItemsToMap(items) && ItemsToMap(items)[k] == v <==> (k, v) in items
  {
    ItemsToMapMeaning(items, k, v);
    if (k, v) in items {
      var i :| 0 <= i < |items| && items[i] == (k, v);
      assert IsLastOf(items, i, k, v);
    }
  }

  lemma ListedMap(items: seq<Item>, m: Components)
    requires IsSorted(items) && IsListing(items, m)
    ensures ItemsToMap(items) == m
  {
    forall i, j | 0 <= i < j < |items| ensures items[i].0 != items[j].0 {
      BeforeIrreflexive(items[i].0);
    }
    forall k | k in ItemsToMap(items) || k in m
      ensures k in ItemsToMap(items) && k in m && ItemsToMap(items)[k] == m[k]
    {
      var v := if k in m then m[k] else ItemsToMap(items)[k];
      DistinctItemsToMap(items, k, v);
      assert (k, v) in items;
    }
  }

  /** Reading back a printed component string. */
  lemma ComponentRoundTrip(m: Components)
    requires NamesOk(m)
    ensures ComponentFromString(ComponentText(m)) == m
  {
    var items := SortedItems(m);
    forall i | 0 <= i < |items| ensures IsName(items[i].0) {
      assert (items[i].0, items[i].1) in items;
    }
    FindJoinedItems(items);
    ListedMap(items, m);
  }

  // ---- version records -----------------------------------------------------------------

  datatype Vintage = Vyos | Vyatta

  /** The fields of a `VersionInfo`. */
  datatype Version = Version(
    component: Option<Components>, release: string, vintage: Vintage,
    configBody: Option<string>, footerLines: Option<seq<string>>)

  const WARNING := "// Warning: Do not remove the following line"
  const COMPONENT_LINE := "// vyos-config-version:"
  const RELEASE_LINE := "// Release version:"

  /** `CONFIG_FILE_VERSION`, filled in. */
  function FooterText(components: string, release: string): string {
    WarningLine() + "\n" + ComponentLine(components) + "\n" + ReleaseLine(release) + "\n"
  }

  function WarningLine(): string {
    WARNING + "."
  }

  function ComponentLine(components: string): string {
    COMPONENT_LINE + " \"" + components + "\""
  }

  function ReleaseLine(release: string): string {
    RELEASE_LINE + " " + release
  }

  ghost function FooterOf(m: Components, release: string): seq<string> {
    SplitLines(FooterText(ComponentText(m), release))
  }

  /** What `write_string` gives. */
  function Written(v: Version): string {
    (if v.configBody.Some? then v.configBody.value else "") + "\n"
    + JoinLines(if v.footerLines.Some? then v.footerLines.value else []) + "\n"
  }

  class VersionInfo {
    var component: Option<Components>
    var release: string
    var vintage: Vintage
    var configBody: Option<string>
    var footerLines: Option<seq<string>>

    function View(): Version
      reads this
    {
      Version(component, release, vintage, configBody, footerLines)
    }

    constructor (v: Version)
      ensures View() == v
    {
      component, release, vintage := v.component, v.release, v.vintage;
      configBody, footerLines := v.configBody, v.footerLines;
    }

    method UpdateFooter()
      requires component.Some?
      modifies this
      ensures View() == old(View()).(footerLines := Some(FooterOf(old(component).value, old(release))))
    {
      var components := ComponentToString(component.value);
      footerLines := Some(SplitLines(FooterText(components, release)));
    }

    method UpdateSyntax()
      requires component.Some?
      modifies this
      ensures View() == old(View()).(vintage := Vyos, footerLines := Some(FooterOf(old(component).value, old(release))))
    {
      vintage := Vyos;
      UpdateFooter();
    }

    method UpdateRelease(release: string)
      requires component.Some?
      modifies this
      ensures View() == old(View()).(release := release, footerLines := Some(FooterOf(old(component).value, release)))
    {
      this.release := release;
      UpdateFooter();
    }

    method UpdateComponent(key: string, version: nat)
      modifies this
      ensures View() == ComponentUpdated(old(View()), key, version)
      ensures var m := (if old(component).Some? then old(component).value else map[])[key := version];
              View() == old(View()).(component := Some(m), footerLines := Some(FooterOf(m, old(release))))
    {
      if component.None? {
        component := Some(map[]);
      }
      component := Some(component.value[key := version]);
      UpdateFooter();
    }

    method UpdateConfigBody(text: string)
      modifies this
      ensures View() == old(View()).(configBody := Some(text))
    {
      configBody := Some(text);
    }

    method WriteString() returns (s: string)
      ensures s == Written(View())
    {
      var body := if configBody.None? then "" else configBody.value;
      var lines := if footerLines.None? then [] else footerLines.value;
      s := body + "\n" + JoinLines(lines) + "\n";
    }
  }

  ghost function ComponentUpdated(v: Version, key: string, version: nat): Version {
    var m := if v.component.Some? then v.component.value else map[];
    v.(component := Some(m[key := version]), footerLines := Some(FooterOf(m[key := version], v.release)))
  }

  /** `version_info_copy`. */
  method VersionInfoCopy(v: VersionInfo) returns (r: VersionInfo)
    ensures fresh(r) && r.View() == v.View()
  {
    r := new VersionInfo(v.View());
  }

  /** `version_info_prune_component`: only components the other record knows stay. */
  method VersionInfoPruneComponent(x: VersionInfo, y: VersionInfo)
    modifies x
    ensures x.View() == Pruned(old(x.View()), old(y.View()))
    ensures x.View() == old(x.View()).(component := x.component)
    ensures old(x.component).None? || old(y.component).None? ==> x.component == old(x.component)
    ensures old(x.component).Some? && old(y.component).Some? ==>
              && x.component.Some?
              && (forall k :: k in x.component.value <==> k in old(x.component).value && k in old(y.component).value)
              && (forall k :: k in x.component.value ==> x.component.value[k] == old(x.component).value[k])
  {
    if x.component.None? || y.component.None? {
      return;
    }
    x.component := Some(map k | k in x.component.value && k in y.component.value :: x.component.value[k]);
  }

  function Pruned(x: Version, y: Version): Version {
    if x.component.None? || y.component.None? then x
    else x.(component := Some(map k | k in x.component.value && k in y.component.value :: x.component.value[k]))
  }

  // ---- parsing a configuration text ---------------------------------------------------------

  /** The outcome of parsing; a malformed footer raises. */
  datatype Parsed = Parsed(version: Version) | MalformedLines | MalformedComponent | MalformedRelease

  /**
    `w` and one more character of the same line stand at `i`: the dot that ends
    the warning in the regular expression takes any character but a newline.
   */
  predicate LineAt(w: string, s: string, i: nat)
    requires i <= |s|
  {
    w <= s[i..] && i + |w| < |s| && s[i + |w|] != '\n'
  }

  /** Where the first such line starts; the end of the text if there is none. */
  function LineStart(w: string, s: string, from: nat): (i: nat)
    requires from <= |s|
    ensures from <= i <= |s|
    ensures i < |s| ==> LineAt(w, s, i)
    ensures forall j :: from <= j < i ==> !LineAt(w, s, j)
    decreases |s| - from
  {
    if from == |s| || LineAt(w, s, from) then from else LineStart(w, s, from + 1)
  }

  /** `// vyos-config-version:\s+"([\w@:-]+)"\s*`, matched at the start. */
  function MatchComponentLine(line: string): Option<string> {
    if !(COMPONENT_LINE <= line) then None
    else
      var t := line[|COMPONENT_LINE|..];
      var n := Run(c => IsSpace(c), t);
      if n == 0 || n == |t| || t[n] != '"' then None
      else
        var u := t[n + 1..];
        var k := Run(c => IsComponentChar(c), u);
        if k == 0 || k == |u| || u[k] != '"' then None else Some(u[..k])
  }

  /** `// Release version:\s+(\S*)\s*`, matched at the start. */
  function MatchReleaseLine(line: string): Option<string> {
    if !(RELEASE_LINE <= line) then None
    else
      var t := line[|RELEASE_LINE|..];
      var n := Run(c => IsSpace(c), t);
      if n == 0 then None else Some(t[n..][..Run(c => !IsSpace(c), t[n..])])
  }

  /** The parsing body of `version_info_from_file`, for texts without the older footer. */
  function ParseVersion(s: string, defaultRelease: string): Parsed {
    var i := LineStart(WARNING, s, 0);
    if i == |s| then Parsed(Version(None, defaultRelease, Vyos, Some(s), None))
    else
      var lines := NonEmpty(SplitLines(s[i..]));
      if |lines| != 3 then MalformedLines
      else
        var c := MatchComponentLine(lines[1]);
        if c.None? then MalformedComponent
        else
          var r := MatchReleaseLine(lines[2]);
          if r.None? then MalformedRelease
          else Parsed(Version(Some(ComponentFromString(c.value)), r.value, Vyos, Some(s[..i]), Some(lines)))
  }

  // ---- what parsing means ------------------------------------------------------------------------

  /** The component line: the label, white space, and the quoted component string. */
  ghost predicate IsComponentLine(line: string, c: string) {
    c != "" && All(x => IsComponentChar(x), c) &&
    exists ws, rest :: IsSpaces(ws) && line == COMPONENT_LINE + ws + "\"" + c + "\"" + rest
  }

  /** The release line: the label, white space, and the release up to the next white space. */
  ghost predicate IsReleaseLine(line: string, r: string) {
    All(x => !IsSpace(x), r) &&
    exists ws, rest :: IsSpaces(ws) && EndsRelease(r, rest) && line == RELEASE_LINE + ws + r + rest
  }

  predicate IsSpaces(ws: string) {
    ws != "" && All(x => IsSpace(x), ws)
  }

  /** A release is only empty at the end of the line. */
  predicate EndsRelease(r: string, rest: string) {
    rest == "" || (IsSpace(rest[0]) && r != "")
  }

  lemma ComponentLineMeaning(line: string, c: string)
    ensures MatchComponentLine(line) == Some(c) <==> IsComponentLine(line, c)
  {
    if MatchComponentLine(line) == Some(c) {
      ComponentLineParts(line, c);
    }
    if IsComponentLine(line, c) {
      var ws, rest :| IsSpaces(ws) && line == COMPONENT_LINE + ws + "\"" + c + "\"" + rest;
      ComponentLineFound(ws, c, rest);
    }
  }

  lemma LabelSplit(w: string, line: string)
    requires w <= line
    ensures line == w + line[|w|..]
  {
  }

  /** The text behind the label, taken apart. */
  lemma QuotedParts(t: string, n: nat, k: nat)
    requires n < |t| && t[n] == '"' && k < |t[n + 1..]| && t[n + 1..][k] == '"'
    ensures t == t[..n] + "\"" + t[n + 1..][..k] + "\"" + t[n + 1..][k + 1..]
  {
  }

  lemma ComponentLineParts(line: string, c: string)
    requires MatchComponentLine(line) == Some(c)
    ensures IsComponentLine(line, c)
  {
    var t := line[|COMPONENT_LINE|..];
    var n := Run(c => IsSpace(c), t);
    var k := Run(c => IsComponentChar(c), t[n + 1..]);
    LabelSplit(COMPONENT_LINE, line);
    QuotedParts(t, n, k);
    Regrouped(COMPONENT_LINE, t[..n], "\"", c, "\"", t[n + 1..][k + 1..]);
    assert IsSpaces(t[..n]);
  }

  lemma Regrouped(a: string, b: string, c: string, d: string, e: string, f: string)
    ensures a + (b + c + d + e + f) == a + b + c + d + e + f
    ensures a + b + c + d + e + f == a + b + (c + (d + (e + f)))
  {
  }

  lemma ComponentLineFound(ws: string, c: string, rest: string)
    requires IsSpaces(ws) && c != "" && All(x => IsComponentChar(x), c)
    ensures MatchComponentLine(COMPONENT_LINE + ws + "\"" + c + "\"" + rest) == Some(c)
  {
    Regrouped(COMPONENT_LINE, ws, "\"", c, "\"", rest);
    AfterPrefix(COMPONENT_LINE, ws, "\"" + (c + ("\"" + rest)));
    QuotedRuns(ws, c, rest);
  }

  lemma QuotedRuns(ws: string, c: string, rest: string)
    requires IsSpaces(ws) && All(x => IsComponentChar(x), c)
    ensures var t, n, k := ws + ("\"" + (c + ("\"" + rest))), |ws|, |c|;
            && Run(x => IsSpace(x), t) == n < |t| && t[n] == '"'
            && Run(x => IsComponentChar(x), t[n + 1..]) == k < |t[n + 1..]| && t[n + 1..][k] == '"'
            && t[n + 1..][..k] == c
  {
    var quoted := c + ("\"" + rest);
    var t := ws + ("\"" + quoted);
    RunOf(x => IsSpace(x), ws, "\"" + quoted);
    assert t[|ws|] == '"' && t[|ws| + 1..] == quoted;
    RunOf(x => IsComponentChar(x), c, "\"" + rest);
    assert quoted[|c|] == '"' && quoted[..|c|] == c;
  }

  lemma ReleaseLineMeaning(line: string, r: string)
    ensures MatchReleaseLine(line) == Some(r) <==> IsReleaseLine(line, r)
  {
    if MatchReleaseLine(line) == Some(r) {
      ReleaseLineParts(line, r);
    }
    if IsReleaseLine(line, r) {
      var ws, rest :| IsSpaces(ws) && EndsRelease(r, rest) && line == RELEASE_LINE + ws + r + rest;
      ReleaseLineFound(ws, r, rest);
    }
  }

  lemma ReleaseLineParts(line: string, r: string)
    requires MatchReleaseLine(line) == Some(r)
    ensures IsReleaseLine(line, r)
  {
    var t := line[|RELEASE_LINE|..];
    var n := Run(c => IsSpace(c), t);
    var u := t[n..];
    var k := Run(c => !IsSpace(c), u);
    assert IsSpaces(t[..n]) && r == u[..k];
    assert u != "" ==> u[0] == t[n];
    assert EndsRelease(r, u[k..]);
    assert line == RELEASE_LINE + t[..n] + r + u[k..];
  }

  lemma ReleaseLineFound(ws: string, r: string, rest: string)
    requires IsSpaces(ws) && EndsRelease(r, rest) && All(x => !IsSpace(x), r)
    ensures MatchReleaseLine(RELEASE_LINE + ws + r + rest) == Some(r)
  {
    var line := RELEASE_LINE + ws + r + rest;
    var u := r + rest;
    var t := ws + u;
    assert line == RELEASE_LINE + t && line[|RELEASE_LINE|..] == t;
    assert RELEASE_LINE <= line;
    RunOf(x => IsSpace(x), ws, u);
    assert t[|ws|..] == u;
    RunOf(x => !IsSpace(x), r, rest);
    assert u[..|r|] == r;
  }

  /** The text with the warning line first at `i`: three lines from there on, else one of three errors. */
  ghost predicate IsParsedFrom(s: string, i: nat, p: Parsed)
    requires i <= |s|
  {
    var lines := NonEmpty(SplitLines(s[i..]));
    match p
    case MalformedLines => |lines| != 3
    case MalformedComponent => |lines| == 3 && forall c :: !IsComponentLine(lines[1], c)
    case MalformedRelease => |lines| == 3 && (exists c :: IsComponentLine(lines[1], c)) && forall r :: !IsReleaseLine(lines[2], r)
    case Parsed(v) =>
      && |lines| == 3 && v.configBody == Some(s[..i]) && v.footerLines == Some(lines) && v.vintage == Vyos
      && IsReleaseLine(lines[2], v.release)
      && exists c :: IsComponentLine(lines[1], c) && v.component == Some(ComponentFromString(c))
  }

  /**
    Parsing any text: without a warning line the whole text is the body and the
    release is the default; else the body is what precedes the first one.
   */
  lemma ParseMeaning(s: string, defaultRelease: string)
    ensures var p := ParseVersion(s, defaultRelease);
            if NoLineIn(WARNING, s) then p == Parsed(Version(None, defaultRelease, Vyos, Some(s), None))
            else exists i :: 0 <= i < |s| && LineAt(WARNING, s, i) && NoLineBefore(WARNING, s, i) && IsParsedFrom(s, i, p)
  {
    var i := LineStart(WARNING, s, 0);
    if i < |s| {
      ParsedFrom(s, i, defaultRelease);
    }
  }

  ghost predicate NoLineBefore(w: string, s: string, i: nat)
    requires i <= |s|
  {
    forall j :: 0 <= j < i ==> !LineAt(w, s, j)
  }

  lemma ParsedFrom(s: string, i: nat, defaultRelease: string)
    requires i < |s| && i == LineStart(WARNING, s, 0)
    ensures IsParsedFrom(s, i, ParseVersion(s, defaultRelease))
  {
    var lines := NonEmpty(SplitLines(s[i..]));
    if |lines| == 3 {
      forall c ensures MatchComponentLine(lines[1]) == Some(c) <==> IsComponentLine(lines[1], c) {
        ComponentLineMeaning(lines[1], c);
      }
      forall r ensures MatchReleaseLine(lines[2]) == Some(r) <==> IsReleaseLine(lines[2], r) {
        ReleaseLineMeaning(lines[2], r);
      }
      var c, r := MatchComponentLine(lines[1]), MatchReleaseLine(lines[2]);
      assert c.Some? ==> IsComponentLine(lines[1], c.value);
      assert r.Some? ==> IsReleaseLine(lines[2], r.value);
    }
  }

  // ---- the round trip ----------------------------------------------------------------------------

  lemma ThreeLines(l0: string, l1: string, l2: string)
    requires All(c => !IsBreak(c), l0) && All(c => !IsBreak(c), l1) && All(c => !IsBreak(c), l2)
    requires l0 != "" && l1 != "" && l2 != ""
    ensures SplitLines(l0 + "\n" + l1 + "\n" + l2 + "\n") == [l0, l1, l2]
    ensures NonEmpty([l0, l1, l2]) == [l0, l1, l2]
    ensures JoinLines([l0, l1, l2]) + "\n" == l0 + "\n" + l1 + "\n" + l2 + "\n"
  {
    assert l0 + "\n" + l1 + "\n" + l2 + "\n" == l0 + "\n" + (l1 + "\n" + (l2 + "\n" + ""));
    SplitLine(l0, l1 + "\n" + (l2 + "\n" + ""));
    SplitLine(l1, l2 + "\n" + "");
    SplitLine(l2, "");
    JoinThree(l0, l1, l2);
    KeepThree(l0, l1, l2);
  }

  lemma KeepThree(l0: string, l1: string, l2: string)
    requires l0 != "" && l1 != "" && l2 != ""
    ensures NonEmpty([l0, l1, l2]) == [l0, l1, l2]
  {
    assert [l0, l1, l2][1..] == [l1, l2] && [l1, l2][1..] == [l2] && [l2][1..] == [];
    assert NonEmpty([l2]) == [l2];
    assert NonEmpty([l1, l2]) == [l1, l2];
  }

  lemma JoinThree(l0: string, l1: string, l2: string)
    ensures JoinLines([l0, l1, l2]) + "\n" == l0 + "\n" + l1 + "\n" + l2 + "\n"
  {
    assert [l1, l2][1..] == [l2];
    assert JoinLines([l1, l2]) == l1 + "\n" + l2;
    assert [l0, l1, l2][1..] == [l1, l2];
    assert JoinLines([l0, l1, l2]) == l0 + "\n" + JoinLines([l1, l2]);
  }

  lemma AllConcat(p: char -> bool, a: string, b: string)
    requires All(p, a) && All(p, b)
    ensures All(p, a + b)
  {
  }

  lemma WarningIsPlain()
    ensures All(c => !IsBreak(c), WARNING)
  {
  }

  lemma LabelsArePlain()
    ensures All(c => !IsBreak(c), COMPONENT_LINE) && All(c => !IsBreak(c), RELEASE_LINE)
  {
  }

  lemma FooterLinesOf(components: string, release: string)
    requires All(c => !IsBreak(c), components) && All(c => !IsBreak(c), release)
    ensures var lines := [WarningLine(), ComponentLine(components), ReleaseLine(release)];
            && SplitLines(FooterText(components, release)) == lines == NonEmpty(lines)
            && JoinLines(lines) + "\n" == FooterText(components, release)
  {
    var plain := (c: char) => !IsBreak(c);
    WarningIsPlain();
    LabelsArePlain();
    AllConcat(c => !IsBreak(c), WARNING, ".");
    AllConcat(c => !IsBreak(c), COMPONENT_LINE, " \"");
    AllConcat(c => !IsBreak(c), COMPONENT_LINE + " \"", components);
    AllConcat(c => !IsBreak(c), COMPONENT_LINE + " \"" + components, "\"");
    AllConcat(c => !IsBreak(c), RELEASE_LINE, " ");
    AllConcat(c => !IsBreak(c), RELEASE_LINE + " ", release);
    ThreeLines(WarningLine(), ComponentLine(components), ReleaseLine(release));
  }

  lemma AfterPrefix(w: string, a: string, b: string)
    ensures w <= w + a + b && (w + a + b)[|w|..] == a + b
  {
  }

  lemma ComponentLineMatches(components: string)
    requires All(c => IsComponentChar(c), components)
    ensures MatchComponentLine(ComponentLine(components)) == if components == "" then None else Some(components)
  {
    var quoted := components + "\"";
    var t := " " + ("\"" + quoted);
    AfterPrefix(COMPONENT_LINE, " \"", quoted);
    assert ComponentLine(components) == COMPONENT_LINE + " \"" + quoted;
    assert " \"" + quoted == t;
    RunOf(c => IsSpace(c), " ", "\"" + quoted);
    assert t[1] == '"' && t[2..] == quoted;
    RunOf(c => IsComponentChar(c), components, "\"");
    assert quoted[..|components|] == components;
  }

  lemma ReleaseLineMatches(release: string)
    requires All(c => !IsSpace(c), release)
    ensures MatchReleaseLine(ReleaseLine(release)) == Some(release)
  {
    AfterPrefix(RELEASE_LINE, " ", release);
    var t := " " + release;
    RunOf(c => IsSpace(c), " ", release);
    assert t[1..] == release && release + "" == release;
    RunOf(c => !IsSpace(c), release, "");
    assert release[..|release|] == release;
  }

  lemma {:induction false} JoinedItemsPlain(items: seq<Item>)
    requires forall i :: 0 <= i < |items| ==> IsName(items[i].0)
    ensures All(c => IsComponentChar(c), JoinItems(items))
    ensures items != [] ==> JoinItems(items) != ""
  {
    if items != [] {
      JoinedItemsPlain(items[1..]);
      assert All(c => IsDigit(c), Text(items[0].1));
      assert All(c => IsComponentChar(c), ItemText(items[0]));
    }
  }

  ghost predicate NoLineIn(w: string, s: string) {
    forall i :: 0 <= i < |s| ==> !LineAt(w, s, i)
  }

  /** A one-line text does not reach across the newline behind the body. */
  lemma NotInBody(w: string, body: string, rest: string, i: nat)
    requires w != "" && '\n' !in w && i <= |body| && (i < |body| ==> !LineAt(w, body, i))
    ensures !LineAt(w, body + "\n" + rest, i)
  {
    if LineAt(w, body + "\n" + rest, i) {
      LineCut(w, body, rest, i);
    }
  }

  /** A line of the text lies in the body or holds the newline behind it. */
  lemma LineCut(w: string, body: string, rest: string, i: nat)
    requires w != "" && i <= |body| && LineAt(w, body + "\n" + rest, i)
    ensures '\n' in w || (i < |body| && LineAt(w, body, i))
  {
    var s := body + "\n" + rest;
    assert s[|body|] == '\n';
    assert forall k :: 0 <= k < |w| ==> w[k] == s[i..][k] == s[i + k];
    if i + |w| <= |body| {
      assert forall k :: 0 <= k < |w| ==> w[k] == body[i..][k];
    } else {
      assert w[|body| - i] == '\n';
    }
  }

  lemma {:induction false} FirstLine(w: string, s: string, from: nat, i: nat)
    requires from <= i < |s| && LineAt(w, s, i) && forall j :: from <= j < i ==> !LineAt(w, s, j)
    ensures LineStart(w, s, from) == i
    decreases i - from
  {
    if from < i {
      FirstLine(w, s, from + 1, i);
    }
  }

  /** The footer of a written record starts right behind the body and its newline. */
  lemma FooterFound(w: string, body: string, rest: string)
    requires w != "" && '\n' !in w && NoLineIn(w, body) && LineAt(w, rest, 0)
    ensures LineStart(w, body + "\n" + rest, 0) == |body| + 1
    ensures (body + "\n" + rest)[|body| + 1..] == rest && (body + "\n" + rest)[..|body| + 1] == body + "\n"
  {
    var s := body + "\n" + rest;
    assert s[|body| + 1..] == rest && rest[0..] == rest;
    forall i | 0 <= i <= |body| ensures !LineAt(w, s, i) {
      NotInBody(w, body, rest, i);
    }
    FirstLine(w, s, 0, |body| + 1);
  }

  lemma WarningIsOneLine()
    ensures WARNING != "" && '\n' !in WARNING
  {
  }

  lemma LineHeads(w: string, t: string)
    ensures LineAt(w, (w + ".") + t, 0)
  {
    var s := (w + ".") + t;
    assert s[0..] == s && s[..|w|] == w;
  }

  lemma FooterHeads(components: string, release: string)
    ensures LineAt(WARNING, FooterText(components, release), 0)
  {
    var t := "\n" + ComponentLine(components) + "\n" + ReleaseLine(release) + "\n";
    LineHeads(WARNING, t);
    FooterSplit(WarningLine(), ComponentLine(components), ReleaseLine(release));
  }

  lemma FooterSplit(a: string, b: string, c: string)
    ensures a + "\n" + b + "\n" + c + "\n" == a + ("\n" + b + "\n" + c + "\n")
  {
  }

  /**
    Writing a record and parsing the text gives the components, the release and
    the body plus one newline back; without any component the text is refused.
   */
  lemma WrittenRoundTrip(v: Version, m: Components, body: string, defaultRelease: string)
    requires v.configBody == Some(body) && NoLineIn(WARNING, body)
    requires v.footerLines == Some(FooterOf(m, v.release))
    requires NamesOk(m) && All(c => !IsSpace(c), v.release)
    ensures ParseVersion(Written(v), defaultRelease)
         == if m == map[] then MalformedComponent
            else Parsed(Version(Some(m), v.release, Vyos, Some(body + "\n"), v.footerLines))
  {
    var components := ComponentText(m);
    ComponentTextIsPlain(m);
    var rest := FooterText(components, v.release);
    FooterLinesOf(components, v.release);
    FooterHeads(components, v.release);
    assert Written(v) == body + "\n" + rest by {
      Regroup(body, JoinLines(v.footerLines.value));
    }
    WarningIsOneLine();
    FooterFound(WARNING, body, rest);
    ComponentLineMatches(components);
    ReleaseLineMatches(v.release);
    ComponentRoundTrip(m);
  }

  lemma Regroup(body: string, lines: string)
    ensures body + "\n" + lines + "\n" == body + "\n" + (lines + "\n")
  {
  }

  lemma ComponentTextIsPlain(m: Components)
    requires NamesOk(m)
    ensures All(c => IsComponentChar(c), ComponentText(m)) && All(c => !IsBreak(c), ComponentText(m))
    ensures ComponentText(m) == "" <==> m == map[]
  {
    var items := SortedItems(m);
    forall i | 0 <= i < |items| ensures IsName(items[i].0) {
      assert (items[i].0, items[i].1) in items;
    }
    JoinedItemsPlain(items);
    forall k | k in m ensures items != [] {
      assert (k, m[k]) in items;
    }
  }
}
