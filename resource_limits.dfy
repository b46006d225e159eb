/**
 * The example challenge that lets a client pick a punishment for the
 * resource limits (busy loop, memory leak, fork bomb): its menu prompt,
 * its line flushing and its human-readable byte counts.  The punishments
 * themselves are not part of this model.
 */
module ResourceLimits {
  import opened Wrappers
  import opened LibC

  // ---------------------------------------------------------------------
  // get_bytes_unit and format_byte_count
  // ---------------------------------------------------------------------

  const UNIT_NAMES: seq<string> := ["B", "KiB", "MiB", "GiB", "TiB", "PiB", "EiB"]

  /** The binary unit with the given power of 1024, as get_bytes_unit names it. */
  function BytesUnit(unit: nat): (r: string)
    ensures r == "?iB" <==> unit >= |UNIT_NAMES|
    ensures r != [] && r[|r| - 1] == 'B' && |r| <= 3
  {
    if unit < |UNIT_NAMES| then UNIT_NAMES[unit] else "?iB"
  }

  /** Every known unit has its own name, so the printed unit tells the power of 1024. */
  lemma BytesUnitInjective(u: nat, v: nat)
    requires u < |UNIT_NAMES| && v < |UNIT_NAMES| && BytesUnit(u) == BytesUnit(v)
    ensures u == v
  {
  }

  function Pow1024(k: nat): (p: nat)
    ensures p >= 1
  {
    if k == 0 then 1 else 1024 * Pow1024(k - 1)
  }

  lemma {:induction false} MulAtLeast(k: nat, d: nat)
    requires k >= 1
    ensures k * d >= d
    decreases k
  {
    if k > 1 {
      MulAtLeast(k - 1, d);
      assert k * d == (k - 1) * d + d;
    }
  }
  /** Euclidean division has one quotient. */
  lemma DivUnique(n: int, d: int, q: int, r: int)
    requires d > 0 && 0 <= r < d && n == q * d + r
    ensures n / d == q && n % d == r
  {
    var q' := n / d;
    var r' := n % d;
    assert n == q' * d + r';
    assert (q - q') * d == r' - r;
    if q > q' {
      MulAtLeast(q - q', d);
    } else if q < q' {
      MulAtLeast(q' - q, d);
    }
  }
  lemma MulDistributes(x: int, y: int, z: int)
    ensures (x + y) * z == x * z + y * z
  {
  }

  lemma MulCommutesInside(x: int, y: int, z: int)
    ensures x * y * z == x * (z * y)
  {
  }

  lemma MulMonotone(x: nat, y: nat, z: nat)
    requires x <= y
    ensures x * z <= y * z
  {
    MulDistributes(x, y - x, z);
  }

  /** Dividing by a and then by b is dividing by a * b. */
  lemma DivDiv(n: nat, a: nat, b: nat)
    requires a > 0 && b > 0
    ensures n / a / b == n / (a * b)
  {
    var q, r := n / a, n % a;
    var q2, r2 := q / b, q % b;
    assert n == q * a + r;
    assert q == q2 * b + r2;
    MulDistributes(q2 * b, r2, a);
    MulCommutesInside(q2, b, a);
    assert n == q2 * (a * b) + (r2 * a + r);
    MulMonotone(r2, b - 1, a);
    MulDistributes(b - 1, 1, a);
    assert r2 * a + r < a * b;
    DivUnique(n, a * b, q2, r2 * a + r);
  }

  /** How many times format_byte_count divides by 1024: until the count is at most 1024. */
  function UnitOf(n: nat): nat
    decreases n
  {
    if n <= 1024 then 0 else 1 + UnitOf(n / 1024)
  }

  /**
   * The unit is the least power of 1024 that brings the count to 1024 or
   * less: at that unit it is at most 1024, and at the unit below it is
   * more than 1024.
   */
  lemma {:induction false} UnitOfLeast(n: nat)
    ensures n / Pow1024(UnitOf(n)) <= 1024
    ensures UnitOf(n) > 0 ==> n / Pow1024(UnitOf(n) - 1) > 1024
    decreases n
  {
    if n > 1024 {
      var k := UnitOf(n / 1024);
      UnitOfLeast(n / 1024);
      DivDiv(n, 1024, Pow1024(k));
      if k > 0 {
        DivDiv(n, 1024, Pow1024(k - 1));
        assert 1024 * Pow1024(k - 1) == Pow1024(k);
      }
    }
  }

  /** Counts up to 1024 * 1024^k need at most k divisions. */
  lemma {:induction false} UnitOfBelow(n: nat, k: nat)
    requires n <= 1024 * Pow1024(k)
    ensures UnitOf(n) <= k
    decreases k
  {
    if n > 1024 {
      assert k > 0;
      assert n / 1024 <= Pow1024(k) by {
        DivUnique(1024 * Pow1024(k), 1024, Pow1024(k), 0);
      }
      UnitOfBelow(n / 1024, k - 1);
    }
  }

  /** A size_t never reaches the "?iB" fallback: the largest unit it needs is EiB. */
  lemma SizeUnitKnown(n: SizeT)
    ensures UnitOf(n) < |UNIT_NAMES|
  {
    assert Pow1024(6) == 0x1000_0000_0000_0000;
    UnitOfBelow(n, 6);
  }

  /** The whole part, the unit and the remainder format_byte_count prints. */
  datatype Scaled = Scaled(whole: nat, unit: nat, rem: nat)

  /**
   * The count in its unit, rounded down, and the remainder of the last
   * division, which is what the two decimals are computed from.
   */
  function Scale(n: nat): Scaled {
    var u := UnitOf(n);
    Scaled(n / Pow1024(u), u, if u == 0 then 0 else n / Pow1024(u - 1) % 1024)
  }

  /**
   * The whole part is the count in its unit rounded down, at most 1024, and
   * at least 1 once a division happened; the remainder is below 1024.
   */
  lemma ScaleBounds(n: nat)
    ensures var s := Scale(n);
      s.whole <= 1024 && (s.unit > 0 ==> s.whole >= 1) && s.rem < 1024 &&
      s.whole * Pow1024(s.unit) <= n < (s.whole + 1) * Pow1024(s.unit)
  {
    var u := UnitOf(n);
    var p := Pow1024(u);
    UnitOfLeast(n);
    if u > 0 {
      var q := Pow1024(u - 1);
      DivDiv(n, q, 1024);
      assert q * 1024 == p;
      assert n / p == n / q / 1024;
    }
    DivBounds(n, p);
  }

  /** The quotient brackets the dividend between two multiples of the divisor. */
  lemma DivBounds(n: nat, p: nat)
    requires p > 0
    ensures (n / p) * p <= n < (n / p + 1) * p
  {
    var q := n / p;
    assert n == q * p + n % p;
    MulDistributes(q, 1, p);
  }

  /** The two decimals: the last remainder in hundredths of 1024, rounded down. */
  function Hundredths(rem: nat): (h: nat)
    ensures rem < 1024 ==> h < 100
  {
    rem * 100 / 1024
  }

  /** "%zu.%02u%s" of the scaled count, before snprintf's truncation. */
  function ByteCountText(n: nat): string {
    var s := Scale(n);
    Dec(s.whole) + "." + LeftPad(Dec(Hundredths(s.rem)), 2, '0') + BytesUnit(s.unit)
  }

  /** The text always fits the 11-byte buffer with its NUL, so snprintf never cuts it. */
  lemma ByteCountFits(n: nat)
    ensures |ByteCountText(n)| <= 10
    ensures Snprintf(ByteCountText(n), 11) == ByteCountText(n)
  {
    var s := Scale(n);
    ScaleBounds(n);
    assert Pow10(4) == 10000 && Pow10(2) == 100;
    DecLength(s.whole, 4);
    DecLength(Hundredths(s.rem), 2);
  }

  /**
   * The count stays in bytes exactly up to and including 1024, since the
   * loop divides only while it is over 1024; in bytes it prints with ".00B".
   */
  lemma ByteCountInBytes(n: nat)
    ensures Scale(n).unit == 0 <==> n <= 1024
    ensures n <= 1024 ==> ByteCountText(n) == Dec(n) + ".00B"
  {
    if n <= 1024 {
      assert Scale(n) == Scaled(n, 0, 0);
      assert LeftPad(Dec(0), 2, '0') == "00";
    }
  }

  /** One more division by 1024 moves to the next unit. */
  lemma DivideStep(n: nat, unit: nat, m: nat)
    requires m == n / Pow1024(unit)
    ensures m / 1024 == n / Pow1024(unit + 1)
    ensures m > 1024 ==> UnitOf(m) == 1 + UnitOf(m / 1024)
  {
    DivDiv(n, Pow1024(unit), 1024);
    assert Pow1024(unit) * 1024 == Pow1024(unit + 1);
  }

  /** format_byte_count: divide while the count is over 1024, then format into fmtbuf[11]. */
  method FormatByteCount(n: SizeT) returns (text: string)
    ensures text == ByteCountText(n)
  {
    var m: nat := n;
    var unit: nat := 0;
    var d: nat := 0;
    while m > 1024
      invariant m == n / Pow1024(unit)
      invariant UnitOf(n) == unit + UnitOf(m)
      invariant unit == 0 ==> d == 0
      invariant unit > 0 ==> d == n / Pow1024(unit - 1) % 1024
      decreases m
    {
      d := m % 1024;
      DivideStep(n, unit, m);
      m := m / 1024;
      unit := unit + 1;
    }
    assert Scale(n) == Scaled(m, unit, d);
    ByteCountFits(n);
    text := Snprintf(Dec(m) + "." + LeftPad(Dec(d * 100 / 1024), 2, '0') + BytesUnit(unit), 11);
  }

  // ---------------------------------------------------------------------
  // Standard input: flush_line and scanf("%d")
  // ---------------------------------------------------------------------

  /** What flush_line does to the pending input: whether a newline ended it, and what is left. */
  function SkipLine(s: string): (r: (bool, string))
    ensures r.0 <==> '\n' in s
    ensures r.0 ==> |r.1| < |s| && r.1 == s[|s| - |r.1|..] && s[|s| - |r.1| - 1] == '\n'
    ensures r.0 ==> '\n' !in s[..|s| - |r.1| - 1]
    ensures !r.0 ==> r.1 == []
  {
    match Strchr(s, '\n')
    case None => (false, [])
    case Some(k) => (true, s[k + 1..])
  }

  /** Reading one character and going on: how SkipLine unfolds. */
  lemma SkipLineStep(s: string)
    requires s != []
    ensures SkipLine(s) == if s[0] == '\n' then (true, s[1..]) else SkipLine(s[1..])
  {
  }

  /** A line without a newline, then a newline: flush_line stops right after it. */
  lemma SkipLineOf(line: string, rest: string)
    requires '\n' !in line
    ensures SkipLine(line + "\n" + rest) == (true, rest)
  {
    assert line + "\n" + rest == line + ("\n" + rest);
    StrchrAt(line, "\n" + rest, '\n');
    assert (line + "\n" + rest)[|line| + 1..] == rest;
  }

  datatype ScanOutcome = ScanEof | NoMatch(rest: string) | Matched(value: int, rest: string)

  /** The digits of a %d conversion after its optional sign; none is a matching failure. */
  function ScanDigits(body: string, negative: bool): (r: ScanOutcome)
    ensures !r.ScanEof?
    ensures r.NoMatch? ==> r.rest == body && (body == [] || !IsDigit(body[0]))
    ensures r.Matched? ==> |r.rest| < |body| && (r.rest == [] || !IsDigit(r.rest[0]))
  {
    var digits := DigitPrefix(body);
    if digits == [] then NoMatch(body)
    else
      var v := DigitsValue(digits) as int;
      Matched(if negative then -v else v, body[|digits|..])
  }

  /**
   * scanf("%d"): white space is skipped; end of input there is EOF; then an
   * optional sign and at least one digit, else a matching failure that
   * leaves the offending character unread.
   */
  function ScanDecimal(input: string): (r: ScanOutcome)
    ensures r.ScanEof? <==> SkipSpace(input) == []
    ensures r.NoMatch? ==> |r.rest| <= |input| && (r.rest == [] || !IsDigit(r.rest[0]))
    ensures r.Matched? ==> |r.rest| < |input| && (r.rest == [] || !IsDigit(r.rest[0]))
  {
    var t := SkipSpace(input);
    if t == [] then ScanEof
    else if t[0] == '-' then ScanDigits(t[1..], true)
    else if t[0] == '+' then ScanDigits(t[1..], false)
    else ScanDigits(t, false)
  }

  /** The digits of Dec(n) followed by a non-digit are read as n. */
  lemma ScanDigitsOfDec(n: nat, rest: string, negative: bool)
    requires rest == [] || !IsDigit(rest[0])
    ensures ScanDigits(Dec(n) + rest, negative) == Matched(if negative then -(n as int) else n, rest)
  {
    DigitPrefixAppend(Dec(n), rest);
    DecValue(n);
    assert (Dec(n) + rest)[|Dec(n)|..] == rest;
  }

  /** scanf("%d") reads back what printf("%d") prints, and stops right after it. */
  lemma ScanDecimalReadsDecInt(i: int, rest: string)
    requires rest == [] || !IsDigit(rest[0])
    ensures ScanDecimal(DecInt(i) + rest) == Matched(i, rest)
  {
    if i < 0 {
      ScanDecimalReadsNegative(i, rest);
    } else {
      assert DecInt(i) == Dec(i);
      ScanDecimalReadsDec(i, rest);
    }
  }

  /** A minus sign and the digits of -i, followed by a non-digit, are read as i. */
  lemma ScanDecimalReadsNegative(i: int, rest: string)
    requires i < 0
    requires rest == [] || !IsDigit(rest[0])
    ensures ScanDecimal(DecInt(i) + rest) == Matched(i, rest)
  {
    var n: nat := -i;
    var d := Dec(n);
    var s := DecInt(i) + rest;
    assert s == "-" + (d + rest);
    ScanDecimalAtSign(s);
    assert s[1..] == d + rest;
    ScanDigitsOfDec(n, rest, true);
    assert -(n as int) == i;
  }

  /** The digits of n, followed by a non-digit, are read as n. */
  lemma ScanDecimalReadsDec(n: nat, rest: string)
    requires rest == [] || !IsDigit(rest[0])
    ensures ScanDecimal(Dec(n) + rest) == Matched(n, rest)
  {
    var s := Dec(n) + rest;
    assert s[0] == Dec(n)[0];
    ScanDecimalAtDigit(s);
    ScanDigitsOfDec(n, rest, false);
  }

  /** Input that starts with a digit is read as digits, with no sign. */
  lemma ScanDecimalAtDigit(s: string)
    requires s != [] && IsDigit(s[0])
    ensures ScanDecimal(s) == ScanDigits(s, false)
  {
    assert !IsSpace(s[0]) && s[0] != '-' && s[0] != '+';
    SkipSpaceAtNonSpace(s);
  }

  /** Input that starts with a minus sign is read as the digits after it, negated. */
  lemma ScanDecimalAtSign(s: string)
    requires s != [] && s[0] == '-'
    ensures ScanDecimal(s) == ScanDigits(s[1..], true)
  {
    SkipSpaceAtNonSpace(s);
  }

  /** stdin as the characters not yet read. */
  class Stdin {
    var pending: string

    constructor (input: string)
      ensures pending == input
    {
      pending := input;
    }

    /** getchar: the next character, or None for EOF. */
    method Getchar() returns (c: Option<char>)
      modifies this
      ensures c == if old(pending) == [] then None else Some(old(pending)[0])
      ensures pending == if old(pending) == [] then [] else old(pending)[1..]
    {
      if pending == [] {
        return None;
      }
      c := Some(pending[0]);
      pending := pending[1..];
    }

    /** scanf("%d", &v): its return value (1, 0 or EOF as -1) and the value when it is 1. */
    method ScanfInt() returns (count: int, value: int)
      modifies this
      ensures var r := ScanDecimal(old(pending));
        (count == 1 <==> r.Matched?) && (count == -1 <==> r.ScanEof?) && (count == 0 <==> r.NoMatch?) &&
        (r.Matched? ==> value == r.value) &&
        pending == Unread(r)
    {
      var r := ScanDecimal(pending);
      match r
      case ScanEof =>
        count, value := -1, 0;
        pending := [];
      case NoMatch(rest) =>
        count, value := 0, 0;
        pending := rest;
      case Matched(v, rest) =>
        count, value := 1, v;
        pending := rest;
    }

    /** flush_line: read until a newline or EOF; true when a newline was read. */
    method FlushLine() returns (found: bool)
      modifies this
      ensures (found, pending) == SkipLine(old(pending))
    {
      var c := Getchar();
      while c.Some? && c.value != '\n'
        invariant c.None? ==> pending == [] && SkipLine(old(pending)) == (false, [])
        invariant c.Some? && c.value == '\n' ==> SkipLine(old(pending)) == (true, pending)
        invariant c.Some? && c.value != '\n' ==> SkipLine(old(pending)) == SkipLine(pending)
        decreases |pending| + (if c.Some? then 1 else 0)
      {
        if pending != [] {
          SkipLineStep(pending);
        }
        c := Getchar();
      }
      found := c.Some?;
    }
  }

  // ---------------------------------------------------------------------
  // The menu loop of main
  // ---------------------------------------------------------------------

  /** The loop condition fails: scanf converted one number and it is from 1 to 3. */
  predicate Accepted(s: ScanOutcome) { s.Matched? && 1 <= s.value <= 3 }

  /** What scanf leaves unread: nothing after EOF, else everything after the stop. */
  function Unread(s: ScanOutcome): string { if s.ScanEof? then [] else s.rest }

  /**
   * Chosen: a choice from 1 to 3 was read after some "Invalid choice"
   * prompts, with the rest of the input left unread.  GaveUp: input ran out
   * first, and main prints a newline and exits with EXIT_FAILURE.
   */
  datatype MenuResult = Chosen(choice: int, retries: nat, rest: string) | GaveUp(retries: nat)

  function WithRetries(r: MenuResult, k: nat): MenuResult {
    match r
    case Chosen(c, n, rest) => Chosen(c, n + k, rest)
    case GaveUp(n) => GaveUp(n + k)
  }

  lemma WithRetriesAdd(r: MenuResult, j: nat, k: nat)
    ensures WithRetries(WithRetries(r, j), k) == WithRetries(r, j + k)
  {
  }

  /** Re-prompt until scanf reads a number from 1 to 3, flushing the rest of each rejected line. */
  function MenuChoice(input: string): (r: MenuResult)
    ensures r.Chosen? ==> 1 <= r.choice <= 3 && |r.rest| <= |input|
    decreases |input|
  {
    var s := ScanDecimal(input);
    if Accepted(s) then Chosen(s.value, 0, s.rest)
    else
      var flushed := SkipLine(Unread(s));
      if !flushed.0 then GaveUp(0) else WithRetries(MenuChoice(flushed.1), 1)
  }

  /** A round that reads a choice from 1 to 3 ends the loop with it. */
  lemma MenuAccepts(input: string)
    requires Accepted(ScanDecimal(input))
    ensures MenuChoice(input) == Chosen(ScanDecimal(input).value, 0, ScanDecimal(input).rest)
  {
  }

  /** Any other round flushes the line: at EOF the loop gives up, else one more prompt follows. */
  lemma MenuRejects(input: string)
    requires !Accepted(ScanDecimal(input))
    ensures var flushed := SkipLine(Unread(ScanDecimal(input)));
      MenuChoice(input) == if flushed.0 then WithRetries(MenuChoice(flushed.1), 1) else GaveUp(0)
  {
  }

  /** A line starting with a valid choice is taken at once; the rest of the line stays unread. */
  lemma ValidChoiceTaken(c: int, rest: string)
    requires 1 <= c <= 3 && (rest == [] || !IsDigit(rest[0]))
    ensures MenuChoice(DecInt(c) + rest) == Chosen(c, 0, rest)
  {
    ScanDecimalReadsDecInt(c, rest);
  }

  /**
   * A number out of range costs one prompt and discards the rest of its
   * line, even when that rest holds a valid choice.
   */
  lemma OutOfRangeSkipsLine(n: int, tail: string, rest: string)
    requires !(1 <= n <= 3) && '\n' !in tail && (tail == [] || !IsDigit(tail[0]))
    ensures MenuChoice(DecInt(n) + tail + "\n" + rest) == WithRetries(MenuChoice(rest), 1)
  {
    var line := tail + "\n" + rest;
    assert DecInt(n) + tail + "\n" + rest == DecInt(n) + line;
    ScanDecimalReadsDecInt(n, line);
    SkipLineOf(tail, rest);
  }

  /** A line that does not start like a number costs one prompt. */
  lemma GarbageLineSkipped(line: string, rest: string)
    requires line != [] && !IsSpace(line[0]) && !IsDigit(line[0]) && line[0] != '-' && line[0] != '+'
    requires '\n' !in line
    ensures MenuChoice(line + "\n" + rest) == WithRetries(MenuChoice(rest), 1)
  {
    var input := line + "\n" + rest;
    assert input[0] == line[0];
    assert SkipSpace(input) == input;
    SkipLineOf(line, rest);
  }

  /** Input that holds only white space ends the program without a choice. */
  lemma BlankInputGivesUp(input: string)
    requires forall i :: 0 <= i < |input| ==> IsSpace(input[i])
    ensures MenuChoice(input) == GaveUp(0)
  {
    assert SkipSpace(input) == [];
  }

  /** main's loop: scanf, then flush_line and a new prompt until a choice from 1 to 3 is read. */
  method ReadChoice(stdin: Stdin) returns (r: MenuResult)
    modifies stdin
    ensures r == MenuChoice(old(stdin.pending))
    ensures r.Chosen? ==> stdin.pending == r.rest
    ensures r.GaveUp? ==> stdin.pending == []
  {
    var retries: nat := 0;
    while true
      invariant MenuChoice(old(stdin.pending)) == WithRetries(MenuChoice(stdin.pending), retries)
      decreases |stdin.pending|
    {
      ghost var before := stdin.pending;
      var count, choice := stdin.ScanfInt();
      if count == 1 && 1 <= choice <= 3 {
        MenuAccepts(before);
        return Chosen(choice, retries, stdin.pending);
      }
      MenuRejects(before);
      var found := stdin.FlushLine();
      if !found {
        return GaveUp(retries);
      }
      WithRetriesAdd(MenuChoice(stdin.pending), 1, retries);
      retries := retries + 1;
    }
  }
}
