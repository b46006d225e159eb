/**
 * The few C library behaviours the harness code relies on: decimal text as
 * printf's %u / %d print it, atoi, strchr, C string termination, the
 * conversions to unsigned short / unsigned, and the process environment.
 */
module LibC {
  import opened Wrappers

  const USHORT_LIMIT: int := 0x1_0000
  const UINT_LIMIT: int := 0x1_0000_0000
  const INT_LIMIT: int := 0x8000_0000

  const SIZE_LIMIT: int := 0x1_0000_0000_0000_0000

  type UShort = x: int | 0 <= x < USHORT_LIMIT
  type UInt = x: int | 0 <= x < UINT_LIMIT
  /** size_t on a 64-bit target. */
  type SizeT = x: int | 0 <= x < SIZE_LIMIT

  predicate IsDigit(c: char) { '0' <= c <= '9' }

  /** isspace() in the C locale. */
  predicate IsSpace(c: char) {
    c == ' ' || c == '\t' || c == '\n' || c == '\r' || c == '\U{000B}' || c == '\U{000C}'
  }

  predicate AllDigits(s: string) { forall i :: 0 <= i < |s| ==> IsDigit(s[i]) }

  function DigitChar(d: nat): (c: char)
    requires d < 10
    ensures IsDigit(c)
  {
    ('0' as int + d) as char
  }

  function DigitValue(c: char): (d: nat)
    requires IsDigit(c)
    ensures d < 10 && DigitChar(d) == c
  {
    (c as int) - ('0' as int)
  }

  function Pow10(k: nat): (p: nat)
    ensures p >= 1
  {
    if k == 0 then 1 else 10 * Pow10(k - 1)
  }

  /** The decimal digits of a natural number, most significant first, as %u prints it. */
  function Dec(n: nat): (s: string)
    ensures |s| >= 1 && AllDigits(s)
    ensures |s| > 1 ==> s[0] != '0'
    decreases n
  {
    if n < 10 then [DigitChar(n)] else Dec(n / 10) + [DigitChar(n % 10)]
  }

  /** The value of a string of decimal digits. */
  function DigitsValue(s: string): nat
    requires AllDigits(s)
    decreases |s|
  {
    if s == [] then 0 else DigitsValue(s[..|s| - 1]) * 10 + DigitValue(s[|s| - 1])
  }

  lemma {:induction false} DecValue(n: nat)
    ensures DigitsValue(Dec(n)) == n
    decreases n
  {
    if n >= 10 {
      var s := Dec(n);
      assert s[..|s| - 1] == Dec(n / 10);
      DecValue(n / 10);
    }
  }

  /** Dec(n) has at most k digits exactly when n < 10^k. */
  lemma {:induction false} DecLength(n: nat, k: nat)
    requires k >= 1
    ensures |Dec(n)| <= k <==> n < Pow10(k)
    decreases n
  {
    if n >= 10 {
      if k == 1 {
        assert |Dec(n)| == |Dec(n / 10)| + 1;
      } else {
        DecLength(n / 10, k - 1);
        assert Pow10(k) == 10 * Pow10(k - 1);
      }
    } else {
      assert Pow10(k) == 10 * Pow10(k - 1);
    }
  }

  /** The text printf's %d prints for a (signed) int. */
  function DecInt(i: int): (s: string)
    ensures |s| >= 1
    ensures (s[0] == '-') <==> i < 0
  {
    if i < 0 then "-" + Dec(-i) else Dec(i)
  }

  /** The leading run of decimal digits of s. */
  function DigitPrefix(s: string): (p: string)
    ensures p <= s && AllDigits(p)
    ensures |p| < |s| ==> !IsDigit(s[|p|])
  {
    if s != [] && IsDigit(s[0]) then [s[0]] + DigitPrefix(s[1..]) else []
  }

  /** s with its leading white space removed. */
  function SkipSpace(s: string): (t: string)
    ensures |t| <= |s| && t == s[|s| - |t|..]
    ensures t != [] ==> !IsSpace(t[0])
    ensures forall i :: 0 <= i < |s| - |t| ==> IsSpace(s[i])
  {
    if s != [] && IsSpace(s[0]) then
      var t := SkipSpace(s[1..]);
      assert s[1..][|s| - 1 - |t|..] == s[|s| - |t|..];
      assert forall i :: 1 <= i < |s| - |t| ==> s[i] == s[1..][i - 1];
      t
    else s
  }

  /** Input that does not start with white space is left as it is. */
  lemma SkipSpaceAtNonSpace(s: string)
    requires s != [] && !IsSpace(s[0])
    ensures SkipSpace(s) == s
  {
  }

  /**
   * atoi: leading white space, an optional sign, then the longest run of
   * digits; no digits gives 0.  Values outside the range of int are
   * undefined behaviour in C and are given their mathematical value here.
   */
  function Atoi(s: string): int {
    var t := SkipSpace(s);
    if t != [] && t[0] == '-' then -(DigitsValue(DigitPrefix(t[1..])) as int)
    else if t != [] && t[0] == '+' then DigitsValue(DigitPrefix(t[1..]))
    else DigitsValue(DigitPrefix(t))
  }

  lemma DigitPrefixOfDigits(s: string)
    requires AllDigits(s)
    ensures DigitPrefix(s) == s
  {
    if s != [] {
      DigitPrefixOfDigits(s[1..]);
    }
  }

  /** The digit run at the front of s + rest is s when rest does not start with a digit. */
  lemma {:induction false} DigitPrefixAppend(s: string, rest: string)
    requires AllDigits(s) && (rest == [] || !IsDigit(rest[0]))
    ensures DigitPrefix(s + rest) == s
    decreases |s|
  {
    if s == [] {
      assert s + rest == rest;
    } else {
      assert (s + rest)[0] == s[0] && (s + rest)[1..] == s[1..] + rest;
      DigitPrefixAppend(s[1..], rest);
    }
  }

  /** atoi reads back what %d prints. */
  lemma AtoiDecInt(i: int)
    ensures Atoi(DecInt(i)) == i
  {
    if i < 0 {
      AtoiNegative(-i);
    } else {
      assert Dec(i) + [] == Dec(i);
      AtoiDecPrefix(i, []);
    }
  }

  /** atoi of a minus sign and the digits of n reads -n. */
  lemma AtoiNegative(n: nat)
    ensures Atoi("-" + Dec(n)) == -(n as int)
  {
    var s := "-" + Dec(n);
    assert s[0] == '-';
    assert SkipSpace(s) == s;
    assert s[1..] == Dec(n);
    DigitPrefixOfDigits(Dec(n));
    DecValue(n);
  }

  /** atoi of a number followed by text that does not continue it reads the number. */
  lemma AtoiDecPrefix(n: nat, rest: string)
    requires rest == [] || !IsDigit(rest[0])
    ensures Atoi(Dec(n) + rest) == n
  {
    var s := Dec(n) + rest;
    assert s[0] == Dec(n)[0];
    assert SkipSpace(s) == s;
    DigitPrefixAppend(Dec(n), rest);
    DecValue(n);
  }

  /** The conversion of an int to unsigned short: reduction modulo 2^16. */
  function ToUShort(x: int): (r: UShort)
    ensures (x - r) % USHORT_LIMIT == 0
    ensures 0 <= x < USHORT_LIMIT ==> r == x
  {
    x % USHORT_LIMIT
  }

  /** The conversion of an int to unsigned: reduction modulo 2^32. */
  function ToUInt(x: int): (r: UInt)
    ensures (x - r) % UINT_LIMIT == 0
    ensures 0 <= x < UINT_LIMIT ==> r == x
  {
    x % UINT_LIMIT
  }

  /** An unsigned value read back as int, as %d does with an unsigned argument. */
  function AsInt(v: UInt): (i: int)
    ensures -INT_LIMIT <= i < INT_LIMIT
    ensures ToUInt(i) == v
  {
    if v < INT_LIMIT then v else v - UINT_LIMIT
  }

  /**
   * strchr: the index of the first occurrence of c in s, if any.  The whole
   * sequence is searched, so s is taken to be the characters of a C string
   * without its terminating NUL; CString uses it to find that NUL itself.
   */
  function Strchr(s: string, c: char): (r: Option<nat>)
    ensures r.None? <==> c !in s
    ensures r.Some? ==> r.value < |s| && s[r.value] == c && c !in s[..r.value]
  {
    if s == [] then None
    else if s[0] == c then Some(0)
    else match Strchr(s[1..], c)
      case None => None
      case Some(k) => assert s[..k + 1] == [s[0]] + s[1..][..k]; Some(k + 1)
  }

  /** The first c in prefix + rest is the first character of rest when prefix has none. */
  lemma {:induction false} StrchrAt(prefix: string, rest: string, c: char)
    requires c !in prefix && rest != [] && rest[0] == c
    ensures Strchr(prefix + rest, c) == Some(|prefix|)
    decreases |prefix|
  {
    if prefix == [] {
      assert prefix + rest == rest;
    } else {
      assert (prefix + rest)[0] == prefix[0] && (prefix + rest)[1..] == prefix[1..] + rest;
      StrchrAt(prefix[1..], rest, c);
    }
  }

  /** The C string a buffer holds: everything before its first NUL. */
  function CString(s: string): (r: string)
    ensures r <= s && '\0' !in r
    ensures |r| < |s| ==> s[|r|] == '\0'
  {
    match Strchr(s, '\0')
    case None => s
    case Some(k) => s[..k]
  }

  /** strcmp(a, b) == 0. */
  predicate StrEq(a: string, b: string) { CString(a) == CString(b) }

  /** n copies of a character. */
  function Repeat(c: char, n: nat): (s: string)
    ensures |s| == n && forall i :: 0 <= i < n ==> s[i] == c
  {
    if n == 0 then [] else [c] + Repeat(c, n - 1)
  }

  /** A right-aligned printf field of the given width, filled on the left with c (%3d, %05hu). */
  function LeftPad(s: string, width: nat, c: char): (r: string)
    ensures |r| == if |s| >= width then |s| else width
    ensures r[|r| - |s|..] == s
    ensures forall i :: 0 <= i < |r| - |s| ==> r[i] == c
  {
    if |s| >= width then s else Repeat(c, width - |s|) + s
  }

  /**
   * snprintf into a buffer of the given size: the longest prefix of the
   * text that leaves room for the NUL, that is all of it when it fits and
   * exactly size - 1 characters when it does not.
   */
  function Snprintf(s: string, size: nat): (r: string)
    requires size >= 1
    ensures r <= s && |r| <= size - 1
    ensures |s| < size ==> r == s
    ensures |s| >= size ==> |r| == size - 1
  {
    if |s| < size then s else s[..size - 1]
  }

  /** The process environment, which getenv, setenv and unsetenv read and change in place. */
  class Environment {
    var vars: map<string, string>

    constructor (initial: map<string, string>)
      ensures vars == initial
    {
      vars := initial;
    }

    method Getenv(name: string) returns (r: Option<string>)
      ensures r.Some? <==> name in vars
      ensures r.Some? ==> r.value == vars[name]
    {
      r := if name in vars then Some(vars[name]) else None;
    }

    /** setenv(name, value, overwrite): an existing variable is replaced only when overwrite is non-zero. */
    method Setenv(name: string, value: string, overwrite: bool)
      modifies this
      ensures name in vars
      ensures vars == if name in old(vars) && !overwrite then old(vars) else old(vars)[name := value]
    {
      if !(name in vars && !overwrite) {
        vars := vars[name := value];
      }
    }

    method Unsetenv(name: string)
      modifies this
      ensures vars == old(vars) - {name}
    {
      vars := vars - {name};
    }
  }
}
