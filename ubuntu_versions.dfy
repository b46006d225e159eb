/**
 * The build-time generator of the list of Ubuntu releases worth building
 * images for.  The series records that the release-metadata service returns
 * and the current time are parameters; what the model computes is the text
 * the script prints: a filter over the records, a sort of the surviving
 * (version, name) pairs and four Makefile blocks.
 */
module UbuntuVersions {
  import opened Wrappers
  import opened LibC

  /** One series record; the release date is in whole seconds since the epoch. */
  datatype Series = Series(version: string, name: string, dateReleased: Option<int>, supported: bool)

  /** A (version, name) pair, the tuple the script collects. */
  type Pair = (string, string)

  const SECONDS_PER_DAY: int := 86400
  /** The recency window: an unsupported release younger than this many days is still listed. */
  const RECENT_DAYS: int := 365 * 4
  const GENERATOR: string := "get_supported_ubuntu_versions.py"

  // ---------------------------------------------------------------------
  // The keep predicate
  // ---------------------------------------------------------------------

  /** timedelta.days of now - released: the difference in days, rounded down. */
  function DaysOld(now: int, released: int): (days: int)
    ensures days * SECONDS_PER_DAY <= now - released < (days + 1) * SECONDS_PER_DAY
  {
    (now - released) / SECONDS_PER_DAY
  }

  predicate Keep(s: Series, now: int) {
    s.dateReleased.Some? && (s.supported || DaysOld(now, s.dateReleased.value) < RECENT_DAYS)
  }

  /** The window in days is a window of exactly 1460 * 86400 seconds. */
  lemma KeepWindow(s: Series, now: int)
    ensures Keep(s, now) <==>
      s.dateReleased.Some? && (s.supported || now - s.dateReleased.value < RECENT_DAYS * SECONDS_PER_DAY)
  {
    if s.dateReleased.Some? {
      var days := DaysOld(now, s.dateReleased.value);
      if days < RECENT_DAYS {
        assert (days + 1) * SECONDS_PER_DAY <= RECENT_DAYS * SECONDS_PER_DAY;
      } else {
        assert RECENT_DAYS * SECONDS_PER_DAY <= days * SECONDS_PER_DAY;
      }
    }
  }

  /** A release date in the future gives a negative age, so the series is kept. */
  lemma FutureReleaseKept(s: Series, now: int)
    requires s.dateReleased.Some? && s.dateReleased.value > now
    ensures Keep(s, now)
  {
    KeepWindow(s, now);
  }

  function PairOf(s: Series): Pair { (s.version, s.name) }

  /** The pairs the collection loop appends, in record order. */
  function KeptPairs(series: seq<Series>, now: int): seq<Pair>
    decreases |series|
  {
    if series == [] then []
    else (if Keep(series[0], now) then [PairOf(series[0])] else []) + KeptPairs(series[1..], now)
  }

  /** Records contribute independently: the pairs of a concatenation are the concatenated pairs. */
  lemma {:induction false} KeptPairsAppend(a: seq<Series>, b: seq<Series>, now: int)
    ensures KeptPairs(a + b, now) == KeptPairs(a, now) + KeptPairs(b, now)
    decreases |a|
  {
    if a == [] {
      assert a + b == b;
    } else {
      var head := if Keep(a[0], now) then [PairOf(a[0])] else [];
      assert (a + b)[0] == a[0] && (a + b)[1..] == a[1..] + b;
      assert KeptPairs(a + b, now) == head + KeptPairs(a[1..] + b, now);
      KeptPairsAppend(a[1..], b, now);
      assert KeptPairs(a, now) == head + KeptPairs(a[1..], now);
    }
  }

  /** Each record contributes exactly one pair when kept and none otherwise. */
  lemma KeptPairsSingle(s: Series, now: int)
    ensures KeptPairs([s], now) == if Keep(s, now) then [PairOf(s)] else []
  {
  }

  /** A pair is emitted exactly when some kept record carries it. */
  lemma {:induction false} KeptPairsMember(series: seq<Series>, now: int, p: Pair)
    ensures p in KeptPairs(series, now) <==>
      exists i :: 0 <= i < |series| && Keep(series[i], now) && PairOf(series[i]) == p
    decreases |series|
  {
    if series != [] {
      KeptPairsMember(series[1..], now, p);
      if p in KeptPairs(series[1..], now) {
        var i :| 0 <= i < |series[1..]| && Keep(series[1..][i], now) && PairOf(series[1..][i]) == p;
        assert series[i + 1] == series[1..][i];
      }
      if exists i :: 0 <= i < |series| && Keep(series[i], now) && PairOf(series[i]) == p {
        var i :| 0 <= i < |series| && Keep(series[i], now) && PairOf(series[i]) == p;
        if i > 0 {
          assert series[1..][i - 1] == series[i];
        }
      }
    }
  }

  /** An undated series is never emitted, whether or not it is supported. */
  lemma UndatedIgnored(a: seq<Series>, s: Series, b: seq<Series>, now: int)
    requires s.dateReleased.None?
    ensures KeptPairs(a + [s] + b, now) == KeptPairs(a, now) + KeptPairs(b, now)
  {
    KeptPairsAppend(a + [s], b, now);
    KeptPairsAppend(a, [s], now);
  }

  /** A dated supported series is always emitted, however old it is. */
  lemma SupportedKept(a: seq<Series>, s: Series, b: seq<Series>, now: int)
    requires s.dateReleased.Some? && s.supported
    ensures KeptPairs(a + [s] + b, now) == KeptPairs(a, now) + [PairOf(s)] + KeptPairs(b, now)
  {
    KeptPairsAppend(a + [s], b, now);
    KeptPairsAppend(a, [s], now);
  }

  /** The series loop: skip undated records, append the pair of every recent or supported one. */
  method CollectRecent(series: seq<Series>, now: int) returns (ubus: seq<Pair>)
    ensures ubus == KeptPairs(series, now)
  {
    ubus := [];
    for i := 0 to |series|
      invariant ubus == KeptPairs(series[..i], now)
    {
      var s := series[i];
      assert series[..i + 1] == series[..i] + [s];
      KeptPairsAppend(series[..i], [s], now);
      if s.dateReleased.None? {
        continue;
      }
      var daysOld := DaysOld(now, s.dateReleased.value);
      if s.supported || daysOld < RECENT_DAYS {
        ubus := ubus + [PairOf(s)];
      }
    }
    assert series[..|series|] == series;
  }

  // ---------------------------------------------------------------------
  // The order of Python's list.sort on (version, name) tuples
  // ---------------------------------------------------------------------

  /** Python's string order: code point by code point, a proper prefix first. */
  predicate StrLe(a: string, b: string)
    decreases |a|
  {
    a == [] || (b != [] && (a[0] < b[0] || (a[0] == b[0] && StrLe(a[1..], b[1..]))))
  }

  /** Tuple order: by version, ties broken by name. */
  predicate PairLe(p: Pair, q: Pair) {
    if p.0 == q.0 then StrLe(p.1, q.1) else StrLe(p.0, q.0)
  }

  lemma {:induction false} StrLeReflexive(a: string)
    ensures StrLe(a, a)
    decreases |a|
  {
    if a != [] {
      StrLeReflexive(a[1..]);
    }
  }

  lemma {:induction false} StrLeTotal(a: string, b: string)
    ensures StrLe(a, b) || StrLe(b, a)
    decreases |a|
  {
    if a != [] && b != [] && a[0] == b[0] {
      StrLeTotal(a[1..], b[1..]);
    }
  }

  lemma {:induction false} StrLeAntisymmetric(a: string, b: string)
    requires StrLe(a, b) && StrLe(b, a)
    ensures a == b
    decreases |a|
  {
    if a != [] {
      StrLeAntisymmetric(a[1..], b[1..]);
      assert a == [a[0]] + a[1..] && b == [b[0]] + b[1..];
    }
  }

  lemma {:induction false} StrLeTransitive(a: string, b: string, c: string)
    requires StrLe(a, b) && StrLe(b, c)
    ensures StrLe(a, c)
    decreases |a|
  {
    if a != [] && a[0] == b[0] && b[0] == c[0] {
      StrLeTransitive(a[1..], b[1..], c[1..]);
    }
  }

  lemma PairLeTotal(p: Pair, q: Pair)
    ensures PairLe(p, q) || PairLe(q, p)
  {
    StrLeTotal(p.0, q.0);
    StrLeTotal(p.1, q.1);
  }

  lemma PairLeAntisymmetric(p: Pair, q: Pair)
    requires PairLe(p, q) && PairLe(q, p)
    ensures p == q
  {
    if p.0 == q.0 {
      StrLeAntisymmetric(p.1, q.1);
    } else {
      StrLeAntisymmetric(p.0, q.0);
    }
  }

  lemma PairLeTransitive(p: Pair, q: Pair, r: Pair)
    requires PairLe(p, q) && PairLe(q, r)
    ensures PairLe(p, r)
  {
    if p.0 == q.0 && q.0 == r.0 {
      StrLeTransitive(p.1, q.1, r.1);
    } else if p.0 == q.0 {
      assert StrLe(q.0, r.0);
    } else if q.0 == r.0 {
      assert StrLe(p.0, q.0);
    } else {
      StrLeTransitive(p.0, q.0, r.0);
      if p.0 == r.0 {
        StrLeAntisymmetric(p.0, q.0);
      }
    }
  }

  /** The order compares version strings as text, so "10.04" sorts before "9.10". */
  lemma TextualVersionOrder()
    ensures PairLe(("10.04", "lucid"), ("9.10", "karmic"))
    ensures !PairLe(("9.10", "karmic"), ("10.04", "lucid"))
    ensures PairLe(("18.04", "bionic"), ("20.04", "focal")) && PairLe(("20.04", "focal"), ("22.04", "jammy"))
  {
  }

  predicate Sorted(s: seq<Pair>) {
    forall i, j :: 0 <= i < j < |s| ==> PairLe(s[i], s[j])
  }

  /** Putting x after every element not above it keeps a sorted sequence sorted. */
  lemma InsertKeepsSorted(s: seq<Pair>, j: nat, x: Pair)
    requires Sorted(s) && j <= |s|
    requires forall k :: 0 <= k < j ==> PairLe(s[k], x)
    requires j < |s| ==> !PairLe(s[j], x)
    ensures Sorted(s[..j] + [x] + s[j..])
  {
    var t := s[..j] + [x] + s[j..];
    if j < |s| {
      PairLeTotal(s[j], x);
      forall k | j < k < |s|
        ensures PairLe(x, s[k])
      {
        PairLeTransitive(x, s[j], s[k]);
      }
    }
    forall a, b | 0 <= a < b < |t|
      ensures PairLe(t[a], t[b])
    {
      if a < j && b == j {
        assert t[b] == x;
      } else if a == j {
        assert t[a] == x && t[b] == s[b - 1];
      } else if b < j {
        assert t[a] == s[a] && t[b] == s[b];
      } else {
        assert t[b] == s[b - 1];
        assert a < j ==> t[a] == s[a];
        assert a > j ==> t[a] == s[a - 1];
      }
    }
  }

  /** Inserting x anywhere adds one copy of x to the multiset. */
  lemma InsertAddsOne(s: seq<Pair>, j: nat, x: Pair)
    requires j <= |s|
    ensures multiset(s[..j] + [x] + s[j..]) == multiset(s) + multiset{x}
  {
    assert s == s[..j] + s[j..];
  }

  /** ubus.sort(): the pairs in ascending tuple order, as a permutation of the input. */
  method SortPairs(ubus: seq<Pair>) returns (sorted: seq<Pair>)
    ensures Sorted(sorted)
    ensures multiset(sorted) == multiset(ubus)
  {
    sorted := [];
    for i := 0 to |ubus|
      invariant Sorted(sorted)
      invariant multiset(sorted) == multiset(ubus[..i])
    {
      var x := ubus[i];
      var j := 0;
      while j < |sorted| && PairLe(sorted[j], x)
        invariant 0 <= j <= |sorted|
        invariant forall k :: 0 <= k < j ==> PairLe(sorted[k], x)
      {
        j := j + 1;
      }
      InsertKeepsSorted(sorted, j, x);
      InsertAddsOne(sorted, j, x);
      sorted := sorted[..j] + [x] + sorted[j..];
      assert ubus[..i + 1] == ubus[..i] + [x];
    }
    assert ubus[..|ubus|] == ubus;
  }

  /** There is only one sorted arrangement of a collection, so the sort's result is determined. */
  lemma {:induction false} SortedUnique(a: seq<Pair>, b: seq<Pair>)
    requires Sorted(a) && Sorted(b) && multiset(a) == multiset(b)
    ensures a == b
    decreases |a|
  {
    if a == [] {
      assert |multiset(b)| == 0;
    } else {
      assert |b| == |multiset(b)| == |multiset(a)| == |a|;
      SortedHeadsAgree(a, b);
      MultisetTail(a);
      MultisetTail(b);
      SortedUnique(a[1..], b[1..]);
      assert a == [a[0]] + a[1..] && b == [b[0]] + b[1..];
    }
  }

  /** Two sorted arrangements of one collection start with the same element: its least one. */
  lemma SortedHeadsAgree(a: seq<Pair>, b: seq<Pair>)
    requires Sorted(a) && Sorted(b) && multiset(a) == multiset(b) && a != [] && b != []
    ensures a[0] == b[0]
  {
    assert a[0] in multiset(b);
    var j :| 0 <= j < |b| && b[j] == a[0];
    assert b[0] in multiset(a);
    var k :| 0 <= k < |a| && a[k] == b[0];
    assert PairLe(b[0], a[0]) by {
      if j == 0 { StrLeReflexive(b[0].1); }
    }
    assert PairLe(a[0], b[0]) by {
      if k == 0 { StrLeReflexive(a[0].1); }
    }
    PairLeAntisymmetric(a[0], b[0]);
  }

  /** Removing the head of a sequence removes one copy of it from its multiset. */
  lemma MultisetTail(a: seq<Pair>)
    requires a != []
    ensures multiset(a[1..]) == multiset(a) - multiset{a[0]}
  {
    assert a == [a[0]] + a[1..];
    assert multiset(a) == multiset{a[0]} + multiset(a[1..]);
  }

  // ---------------------------------------------------------------------
  // The four Makefile blocks
  // ---------------------------------------------------------------------

  const COMMENT: string := "# Autogenerated by " + GENERATOR
  const VERSIONS_HEADER: string := "UBUNTU_VERSIONS := \\"
  const ALIASES_HEADER: string := "UBUNTU_ALIASES := \\"
  const VERSION_TO_ALIAS: string := "UBUNTU_VERSION_TO_ALIAS"
  const ALIAS_TO_VERSION: string := "UBUNTU_ALIAS_TO_VERSION"
  /** print("\n"): the separator that ends every block with a blank line. */
  const SEPARATOR: string := "\n"
  /** What the dead exception branch would have printed. */
  const EXCEPTION_PREFIX: string := "# Exception"

  /** A backslash-continued list entry. */
  function ListLine(item: string): string { "\t" + item + " \\" }

  /** One indexed assignment, table[key] := value. */
  function IndexLine(table: string, key: string, value: string): string {
    table + "[" + key + "] := " + value
  }

  datatype Block = VersionList | AliasList | VersionToAlias | AliasToVersion

  function EntryLine(block: Block, p: Pair): string {
    match block
    case VersionList => ListLine(p.0)
    case AliasList => ListLine(p.1)
    case VersionToAlias => IndexLine(VERSION_TO_ALIAS, p.0, p.1)
    case AliasToVersion => IndexLine(ALIAS_TO_VERSION, p.1, p.0)
  }

  /** The lines one print loop emits, one per pair in order. */
  function Entries(block: Block, u: seq<Pair>): seq<string> {
    seq(|u|, i requires 0 <= i < |u| => EntryLine(block, u[i]))
  }

  /** The arguments of the script's print calls, in order. */
  function Document(u: seq<Pair>): seq<string> {
    [COMMENT, VERSIONS_HEADER] + Entries(VersionList, u) + [SEPARATOR, ALIASES_HEADER]
    + Entries(AliasList, u) + [SEPARATOR] + Entries(VersionToAlias, u) + [SEPARATOR]
    + Entries(AliasToVersion, u) + [SEPARATOR]
  }

  /** The text on standard output: print ends every argument with a newline. */
  function Printed(lines: seq<string>): string
    decreases |lines|
  {
    if lines == [] then [] else lines[0] + "\n" + Printed(lines[1..])
  }

  lemma EntriesSnoc(block: Block, u: seq<Pair>, i: nat)
    requires i < |u|
    ensures Entries(block, u[..i + 1]) == Entries(block, u[..i]) + [EntryLine(block, u[i])]
  {
  }

  /** One print loop: appends the entry line of every pair to out. */
  method PrintEntries(out: seq<string>, block: Block, u: seq<Pair>) returns (out': seq<string>)
    ensures out' == out + Entries(block, u)
  {
    out' := out;
    for i := 0 to |u|
      invariant out' == out + Entries(block, u[..i])
    {
      EntriesSnoc(block, u, i);
      out' := out' + [EntryLine(block, u[i])];
    }
    assert u[..|u|] == u;
  }

  /** The rendering part of the script (the print calls after the sort). */
  method Render(u: seq<Pair>) returns (out: seq<string>)
    ensures out == Document(u)
  {
    out := [COMMENT];
    out := out + [VERSIONS_HEADER];
    out := PrintEntries(out, VersionList, u);
    out := out + [SEPARATOR];
    out := out + [ALIASES_HEADER];
    out := PrintEntries(out, AliasList, u);
    out := out + [SEPARATOR];
    out := PrintEntries(out, VersionToAlias, u);
    out := out + [SEPARATOR];
    out := PrintEntries(out, AliasToVersion, u);
    out := out + [SEPARATOR];
  }

  /** The whole script once the records are fetched: filter, sort, render. */
  method Generate(series: seq<Series>, now: int) returns (ubus: seq<Pair>, out: seq<string>)
    ensures Sorted(ubus) && multiset(ubus) == multiset(KeptPairs(series, now))
    ensures out == Document(ubus)
  {
    var collected := CollectRecent(series, now);
    ubus := SortPairs(collected);
    out := Render(ubus);
  }

  /** The output is a function of the records and the time alone: any two runs print the same text. */
  lemma GenerateDeterministic(series: seq<Series>, now: int, u1: seq<Pair>, u2: seq<Pair>)
    requires Sorted(u1) && multiset(u1) == multiset(KeptPairs(series, now))
    requires Sorted(u2) && multiset(u2) == multiset(KeptPairs(series, now))
    ensures Printed(Document(u1)) == Printed(Document(u2))
  {
    SortedUnique(u1, u2);
  }

  // ---------------------------------------------------------------------
  // Reading the blocks back
  // ---------------------------------------------------------------------

  /** The item of a backslash-continued list entry. */
  function ParseListLine(line: string): Option<string> {
    if |line| >= 3 && line[0] == '\t' && line[|line| - 2..] == " \\" then Some(line[1..|line| - 2])
    else None
  }

  /** The key and value of table[key] := value, the key ending at the first ']'. */
  function ParseIndexLine(table: string, line: string): Option<Pair> {
    var start := |table| + 1;
    if |line| >= start && line[..start] == table + "[" then ParseSubscript(line[start..]) else None
  }

  /** What follows "table[": the key up to the first ']', then " := " and the value. */
  function ParseSubscript(tail: string): Option<Pair> {
    match Strchr(tail, ']')
    case None => None
    case Some(k) =>
      var after := tail[k + 1..];
      if |after| >= 4 && after[..4] == " := " then Some((tail[..k], after[4..])) else None
  }

  lemma ListLineRoundTrip(item: string)
    ensures ParseListLine(ListLine(item)) == Some(item)
  {
    var line := ListLine(item);
    assert line[1..|line| - 2] == item;
  }

  lemma SubscriptRoundTrip(key: string, value: string)
    requires ']' !in key
    ensures ParseSubscript(key + ("] := " + value)) == Some((key, value))
  {
    var rest := "] := " + value;
    var tail := key + rest;
    StrchrAt(key, rest, ']');
    var after := tail[|key| + 1..];
    assert after == rest[1..] == " := " + value;
    assert |after| >= 4 && after[..4] == " := " && after[4..] == value;
    assert tail[..|key|] == key;
  }

  lemma IndexLineRoundTrip(table: string, key: string, value: string)
    requires ']' !in key
    ensures ParseIndexLine(table, IndexLine(table, key, value)) == Some((key, value))
  {
    var line := IndexLine(table, key, value);
    var start := |table| + 1;
    var tail := key + ("] := " + value);
    assert line == (table + "[") + tail;
    assert line[..start] == table + "[";
    assert line[start..] == tail;
    SubscriptRoundTrip(key, value);
  }

  /** Where each line of the output sits: the header, four blocks of |u| entries, four separators. */
  lemma DocumentLayout(u: seq<Pair>)
    ensures var d := Document(u); var n := |u|;
      && |d| == 4 * n + 7
      && d[0] == COMMENT && d[1] == VERSIONS_HEADER
      && d[n + 2] == SEPARATOR && d[n + 3] == ALIASES_HEADER && d[2 * n + 4] == SEPARATOR
      && d[3 * n + 5] == SEPARATOR && d[4 * n + 6] == SEPARATOR
      && (forall i :: 0 <= i < n ==> d[2 + i] == ListLine(u[i].0))
      && (forall i :: 0 <= i < n ==> d[n + 4 + i] == ListLine(u[i].1))
      && (forall i :: 0 <= i < n ==> d[2 * n + 5 + i] == IndexLine(VERSION_TO_ALIAS, u[i].0, u[i].1))
      && (forall i :: 0 <= i < n ==> d[3 * n + 6 + i] == IndexLine(ALIAS_TO_VERSION, u[i].1, u[i].0))
  {
    DocumentShape(u);
    forall i | 0 <= i < |u|
      ensures Document(u)[2 + i] == ListLine(u[i].0)
    {
      VersionEntryAt(u, i);
    }
    forall i | 0 <= i < |u|
      ensures Document(u)[|u| + 4 + i] == ListLine(u[i].1)
    {
      AliasEntryAt(u, i);
    }
    forall i | 0 <= i < |u|
      ensures Document(u)[2 * |u| + 5 + i] == IndexLine(VERSION_TO_ALIAS, u[i].0, u[i].1)
    {
      VersionToAliasEntryAt(u, i);
    }
    forall i | 0 <= i < |u|
      ensures Document(u)[3 * |u| + 6 + i] == IndexLine(ALIAS_TO_VERSION, u[i].1, u[i].0)
    {
      AliasToVersionEntryAt(u, i);
    }
  }

  /** The length of the output and where its fixed lines sit. */
  lemma DocumentShape(u: seq<Pair>)
    ensures var d := Document(u); var n := |u|;
      && |d| == 4 * n + 7
      && d[0] == COMMENT && d[1] == VERSIONS_HEADER
      && d[n + 2] == SEPARATOR && d[n + 3] == ALIASES_HEADER && d[2 * n + 4] == SEPARATOR
      && d[3 * n + 5] == SEPARATOR && d[4 * n + 6] == SEPARATOR
  {
    var n := |u|;
    var l2 := [COMMENT, VERSIONS_HEADER] + Entries(VersionList, u) + [SEPARATOR, ALIASES_HEADER];
    var l4 := l2 + Entries(AliasList, u) + [SEPARATOR];
    var l6 := l4 + Entries(VersionToAlias, u) + [SEPARATOR];
    var d := l6 + Entries(AliasToVersion, u) + [SEPARATOR];
    assert d == Document(u);
    assert d[0] == l6[0] == l4[0] == l2[0];
    assert d[1] == l6[1] == l4[1] == l2[1];
    assert d[n + 2] == l6[n + 2] == l4[n + 2] == l2[n + 2];
    assert d[n + 3] == l6[n + 3] == l4[n + 3] == l2[n + 3];
    assert d[2 * n + 4] == l6[2 * n + 4] == l4[2 * n + 4];
    assert d[3 * n + 5] == l6[3 * n + 5];
  }

  /** Where the four blocks of nine concatenated parts start. */
  lemma BlocksAt<T>(a: seq<T>, e1: seq<T>, b: seq<T>, e2: seq<T>, c: seq<T>, e3: seq<T>, d: seq<T>, e4: seq<T>,
                    e: seq<T>, i: nat)
    ensures var s := a + e1 + b + e2 + c + e3 + d + e4 + e;
      && (i < |e1| ==> s[|a| + i] == e1[i])
      && (i < |e2| ==> s[|a| + |e1| + |b| + i] == e2[i])
      && (i < |e3| ==> s[|a| + |e1| + |b| + |e2| + |c| + i] == e3[i])
      && (i < |e4| ==> s[|a| + |e1| + |b| + |e2| + |c| + |e3| + |d| + i] == e4[i])
  {
  }

  lemma VersionEntryAt(u: seq<Pair>, i: nat)
    requires i < |u|
    ensures Document(u)[2 + i] == ListLine(u[i].0)
  {
    BlocksAt([COMMENT, VERSIONS_HEADER], Entries(VersionList, u), [SEPARATOR, ALIASES_HEADER], Entries(AliasList, u),
             [SEPARATOR], Entries(VersionToAlias, u), [SEPARATOR], Entries(AliasToVersion, u), [SEPARATOR], i);
  }

  lemma AliasEntryAt(u: seq<Pair>, i: nat)
    requires i < |u|
    ensures Document(u)[|u| + 4 + i] == ListLine(u[i].1)
  {
    BlocksAt([COMMENT, VERSIONS_HEADER], Entries(VersionList, u), [SEPARATOR, ALIASES_HEADER], Entries(AliasList, u),
             [SEPARATOR], Entries(VersionToAlias, u), [SEPARATOR], Entries(AliasToVersion, u), [SEPARATOR], i);
  }

  lemma VersionToAliasEntryAt(u: seq<Pair>, i: nat)
    requires i < |u|
    ensures Document(u)[2 * |u| + 5 + i] == IndexLine(VERSION_TO_ALIAS, u[i].0, u[i].1)
  {
    BlocksAt([COMMENT, VERSIONS_HEADER], Entries(VersionList, u), [SEPARATOR, ALIASES_HEADER], Entries(AliasList, u),
             [SEPARATOR], Entries(VersionToAlias, u), [SEPARATOR], Entries(AliasToVersion, u), [SEPARATOR], i);
  }

  lemma AliasToVersionEntryAt(u: seq<Pair>, i: nat)
    requires i < |u|
    ensures Document(u)[3 * |u| + 6 + i] == IndexLine(ALIAS_TO_VERSION, u[i].1, u[i].0)
  {
    BlocksAt([COMMENT, VERSIONS_HEADER], Entries(VersionList, u), [SEPARATOR, ALIASES_HEADER], Entries(AliasList, u),
             [SEPARATOR], Entries(VersionToAlias, u), [SEPARATOR], Entries(AliasToVersion, u), [SEPARATOR], i);
  }

  /**
   * The i-th entry of every block reads back as the i-th pair: its version
   * in the first list, its name in the second, and the alias-to-version
   * assignment is the key/value swap of the version-to-alias one.
   */
  lemma BlocksAgree(u: seq<Pair>, i: nat)
    requires i < |u|
    ensures var d := Document(u); var n := |u|;
      && ParseListLine(d[2 + i]) == Some(u[i].0)
      && ParseListLine(d[n + 4 + i]) == Some(u[i].1)
      && (']' !in u[i].0 ==> ParseIndexLine(VERSION_TO_ALIAS, d[2 * n + 5 + i]) == Some((u[i].0, u[i].1)))
      && (']' !in u[i].1 ==> ParseIndexLine(ALIAS_TO_VERSION, d[3 * n + 6 + i]) == Some((u[i].1, u[i].0)))
  {
    DocumentLayout(u);
    ListLineRoundTrip(u[i].0);
    ListLineRoundTrip(u[i].1);
    if ']' !in u[i].0 {
      IndexLineRoundTrip(VERSION_TO_ALIAS, u[i].0, u[i].1);
    }
    if ']' !in u[i].1 {
      IndexLineRoundTrip(ALIAS_TO_VERSION, u[i].1, u[i].0);
    }
  }

  /**
   * With nothing kept, only the comment, the two list headers and the four
   * blank-line separators remain: the two lists have no entries and the two
   * tables no assignments.
   */
  lemma EmptyDocument()
    ensures Document([]) == [COMMENT, VERSIONS_HEADER, SEPARATOR, ALIASES_HEADER, SEPARATOR, SEPARATOR, SEPARATOR]
    ensures var blank := "\n\n";
      Printed(Document([])) ==
        (COMMENT + "\n") + (VERSIONS_HEADER + "\n") + blank + (ALIASES_HEADER + "\n") + blank + blank + blank
  {
    var d := [COMMENT, VERSIONS_HEADER, SEPARATOR, ALIASES_HEADER, SEPARATOR, SEPARATOR, SEPARATOR];
    assert Document([]) == d;
    PrintedSkeleton(COMMENT, VERSIONS_HEADER, ALIASES_HEADER, SEPARATOR);
    assert SEPARATOR + "\n" == "\n\n";
  }

  /** Printing two runs of lines prints the first run, then the second. */
  lemma {:induction false} PrintedAppend(xs: seq<string>, ys: seq<string>)
    ensures Printed(xs + ys) == Printed(xs) + Printed(ys)
    decreases |xs|
  {
    if xs == [] {
      assert xs + ys == ys;
    } else {
      assert (xs + ys)[0] == xs[0] && (xs + ys)[1..] == xs[1..] + ys;
      PrintedAppend(xs[1..], ys);
    }
  }

  lemma PrintedOne(x: string)
    ensures Printed([x]) == x + "\n"
  {
    assert [x][1..] == [];
  }

  /** The text of the comment, the two headers and four separators, line by line, for any strings. */
  lemma PrintedSkeleton(c: string, v: string, a: string, sep: string)
    ensures var blank := sep + "\n";
      Printed([c, v, sep, a, sep, sep, sep]) == (c + "\n") + (v + "\n") + blank + (a + "\n") + blank + blank + blank
  {
    PrintedOne(c);
    PrintedOne(v);
    PrintedOne(a);
    PrintedOne(sep);
    PrintedAppend([c], [v]);
    assert [c] + [v] == [c, v];
    PrintedAppend([c, v], [sep]);
    assert [c, v] + [sep] == [c, v, sep];
    PrintedAppend([c, v, sep], [a]);
    assert [c, v, sep] + [a] == [c, v, sep, a];
    PrintedAppend([c, v, sep, a], [sep]);
    assert [c, v, sep, a] + [sep] == [c, v, sep, a, sep];
    PrintedAppend([c, v, sep, a, sep], [sep]);
    assert [c, v, sep, a, sep] + [sep] == [c, v, sep, a, sep, sep];
    PrintedAppend([c, v, sep, a, sep, sep], [sep]);
    assert [c, v, sep, a, sep, sep] + [sep] == [c, v, sep, a, sep, sep, sep];
  }

  /** Every entry line starts with a tab or with the name of its table, never with '#'. */
  lemma EntriesStart(block: Block, u: seq<Pair>)
    ensures forall line :: line in Entries(block, u) ==> line != [] && line[0] != '#'
  {
    forall line | line in Entries(block, u)
      ensures line != [] && line[0] != '#'
    {
      var i :| 0 <= i < |u| && Entries(block, u)[i] == line;
      assert line == EntryLine(block, u[i]);
    }
  }

  /** The exception comment is never printed: no line of the output starts with "# Exception". */
  lemma NoExceptionLine(u: seq<Pair>)
    ensures forall line :: line in Document(u) ==> !(EXCEPTION_PREFIX <= line)
  {
    EntriesStart(VersionList, u);
    EntriesStart(AliasList, u);
    EntriesStart(VersionToAlias, u);
    EntriesStart(AliasToVersion, u);
    assert COMMENT[2] != EXCEPTION_PREFIX[2];
    forall line | line in Document(u)
      ensures !(EXCEPTION_PREFIX <= line)
    {
      if line != COMMENT {
        assert line != [] && line[0] != '#';
      }
    }
  }
}
