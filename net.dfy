/**
 * The IPv4 address split both harness versions use when they log a
 * connection: four octets taken with shifts and masks, printed with %u and
 * separated by dots.
 */
module Net {
  import opened Wrappers
  import opened LibC

  datatype Octets = Octets(a: bv32, b: bv32, c: bv32, d: bv32)

  /** ip>>24, (ip>>16)&255, (ip>>8)&255, ip&255: four bytes that put back together give ip. */
  function SplitIp(ip: bv32): (o: Octets)
    ensures o.a <= 255 && o.b <= 255 && o.c <= 255 && o.d <= 255
    ensures (o.a << 24) | (o.b << 16) | (o.c << 8) | o.d == ip
  {
    Octets(ip >> 24, (ip >> 16) & 255, (ip >> 8) & 255, ip & 255)
  }

  /** Different addresses never log the same octets. */
  lemma SplitIpInjective(ip1: bv32, ip2: bv32)
    requires SplitIp(ip1) == SplitIp(ip2)
    ensures ip1 == ip2
  {
  }

  /** The "%u.%u.%u.%u" text of an address. */
  function DottedQuad(ip: bv32): string {
    var o := SplitIp(ip);
    Dec(o.a as nat) + "." + Dec(o.b as nat) + "." + Dec(o.c as nat) + "." + Dec(o.d as nat)
  }

  /** The four decimal fields of a dotted quad. */
  function ParseDottedQuad(s: string): Option<(nat, nat, nat, nat)> {
    var q := SplitFields(s);
    if q.None? then None else FieldValues(q.value.0, q.value.1, q.value.2, q.value.3)
  }

  /** The values of four fields that are all decimal numbers. */
  function FieldValues(f1: string, f2: string, f3: string, f4: string): Option<(nat, nat, nat, nat)> {
    if IsNumber(f1) && IsNumber(f2) && IsNumber(f3) && IsNumber(f4) then
      Some((DigitsValue(f1), DigitsValue(f2), DigitsValue(f3), DigitsValue(f4)))
    else None
  }

  /** The text split at its first three dots. */
  function SplitFields(s: string): Option<(string, string, string, string)> {
    var p1 := SplitAtDot(s);
    if p1.None? then None else
    var p2 := SplitAtDot(p1.value.1);
    if p2.None? then None else
    var p3 := SplitAtDot(p2.value.1);
    if p3.None? then None else
    Some((p1.value.0, p2.value.0, p3.value.0, p3.value.1))
  }

  predicate IsNumber(s: string) { s != [] && AllDigits(s) }

  /** The text before and after the first '.'. */
  function SplitAtDot(s: string): Option<(string, string)> {
    match Strchr(s, '.')
    case None => None
    case Some(k) => Some((s[..k], s[k + 1..]))
  }

  lemma SplitAtDotOf(field: string, rest: string)
    requires AllDigits(field)
    ensures SplitAtDot(field + "." + rest) == Some((field, rest))
  {
    var s := field + "." + rest;
    assert '.' !in field;
    StrchrAt(field, "." + rest, '.');
    assert s == field + ("." + rest);
    assert s[..|field|] == field;
    assert s[|field| + 1..] == rest;
  }

  lemma ParseFields(f1: string, f2: string, f3: string, f4: string)
    requires IsNumber(f1) && IsNumber(f2) && IsNumber(f3) && IsNumber(f4)
    ensures ParseDottedQuad(f1 + "." + (f2 + "." + (f3 + "." + f4))) ==
      Some((DigitsValue(f1), DigitsValue(f2), DigitsValue(f3), DigitsValue(f4)))
  {
    var r2 := f3 + "." + f4;
    var r1 := f2 + "." + r2;
    var s := f1 + "." + r1;
    SplitAtDotOf(f1, r1);
    SplitAtDotOf(f2, r2);
    SplitAtDotOf(f3, f4);
    SplitsGiveFields(s, f1, r1, f2, r2, f3, f4);
    ParseOfFields(s, f1, f2, f3, f4);
    NumbersGiveValues(f1, f2, f3, f4);
  }

  lemma SplitsGiveFields(s: string, f1: string, r1: string, f2: string, r2: string, f3: string, f4: string)
    requires SplitAtDot(s) == Some((f1, r1)) && SplitAtDot(r1) == Some((f2, r2)) && SplitAtDot(r2) == Some((f3, f4))
    ensures SplitFields(s) == Some((f1, f2, f3, f4))
  {
  }

  lemma ParseOfFields(s: string, f1: string, f2: string, f3: string, f4: string)
    requires SplitFields(s) == Some((f1, f2, f3, f4))
    ensures ParseDottedQuad(s) == FieldValues(f1, f2, f3, f4)
  {
  }

  lemma NumbersGiveValues(f1: string, f2: string, f3: string, f4: string)
    requires IsNumber(f1) && IsNumber(f2) && IsNumber(f3) && IsNumber(f4)
    ensures FieldValues(f1, f2, f3, f4) == Some((DigitsValue(f1), DigitsValue(f2), DigitsValue(f3), DigitsValue(f4)))
  {
  }

  lemma DecimalsRoundTrip(n1: nat, n2: nat, n3: nat, n4: nat)
    ensures ParseDottedQuad(Dec(n1) + "." + Dec(n2) + "." + Dec(n3) + "." + Dec(n4)) == Some((n1, n2, n3, n4))
  {
    var f1, f2, f3, f4 := Dec(n1), Dec(n2), Dec(n3), Dec(n4);
    assert f1 + "." + f2 + "." + f3 + "." + f4 == f1 + "." + (f2 + "." + (f3 + "." + f4));
    ParseFields(f1, f2, f3, f4);
    DecValue(n1);
    DecValue(n2);
    DecValue(n3);
    DecValue(n4);
  }

  /** The logged text gives back the four octets, and so the address. */
  lemma DottedQuadRoundTrip(ip: bv32)
    ensures var o := SplitIp(ip);
      ParseDottedQuad(DottedQuad(ip)) == Some((o.a as nat, o.b as nat, o.c as nat, o.d as nat))
  {
    var o := SplitIp(ip);
    DecimalsRoundTrip(o.a as nat, o.b as nat, o.c as nat, o.d as nat);
  }

  /** "[<time>] Received connection from ", the part of the connection line before the address. */
  function ReceivedPrefix(timestamp: string): string {
    "[" + timestamp + "] Received connection from "
  }

  /** "[<time>] Received connection from a.b.c.d.", the line both harness versions log for a connection. */
  function ReceivedLine(timestamp: string, ip: bv32): string {
    ReceivedPrefix(timestamp) + DottedQuad(ip) + ".\n"
  }

  /** A line made of some text, the dotted quad and ".\n": the field before ".\n" reads back to the four octets. */
  lemma DottedQuadField(prefix: string, ip: bv32)
    ensures var line := prefix + DottedQuad(ip) + ".\n";
      var o := SplitIp(ip);
      |line| == |prefix| + |DottedQuad(ip)| + 2 && line[|line| - 2..] == ".\n" &&
      ParseDottedQuad(line[|prefix|..|line| - 2]) == Some((o.a as nat, o.b as nat, o.c as nat, o.d as nat))
  {
    var line := prefix + DottedQuad(ip) + ".\n";
    assert line[|prefix|..|line| - 2] == DottedQuad(ip);
    DottedQuadRoundTrip(ip);
  }

  /** The connection line starts with '[' and ends with the peer's address, which reads back to its four octets. */
  lemma ReceivedLineFields(timestamp: string, ip: bv32)
    ensures var line := ReceivedLine(timestamp, ip);
      var o := SplitIp(ip);
      var k := |line| - |DottedQuad(ip)| - 2;
      line[0] == '[' && 0 <= k && line[|line| - 2..] == ".\n" &&
      ParseDottedQuad(line[k..|line| - 2]) == Some((o.a as nat, o.b as nat, o.c as nat, o.d as nat))
  {
    DottedQuadField(ReceivedPrefix(timestamp), ip);
  }
}
