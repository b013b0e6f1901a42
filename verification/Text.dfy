/**
 * Printing and parsing of numbers and byte strings as text: Go's `%x`, `%d`,
 * `hex.DecodeString`, `strconv.ParseUint` and `strconv.ParseInt` (base 10, 64 bits).
 */
module Text {
  import opened Wrappers

  type Byte = x: int | 0 <= x < 256
  type Bytes = seq<Byte>

  type Int64 = x: int | -0x8000_0000_0000_0000 <= x < 0x8000_0000_0000_0000

  const UINT64_LIMIT: nat := 0x1_0000_0000_0000_0000

  function Max(a: int, b: int): (m: int)
    ensures a <= m && b <= m && m in {a, b}
  {
    if a >= b then a else b
  }

  function Min(a: int, b: int): (m: int)
    ensures m <= a && m <= b && m in {a, b}
  {
    if a <= b then a else b
  }

  function Pow(b: nat, e: nat): (p: nat)
    ensures b >= 1 ==> p >= 1
  {
    if e == 0 then 1 else b * Pow(b, e - 1)
  }

  /* ---------- decimal ---------- */

  predicate IsDigit(c: char) {
    '0' <= c <= '9'
  }

  predicate AllDigits(s: string) {
    forall i | 0 <= i < |s| :: IsDigit(s[i])
  }

  function Digit(d: nat): (c: char)
    requires d < 10
    ensures IsDigit(c) && DigitValue(c) == d
  {
    '0' + d as char
  }

  function DigitValue(c: char): (d: nat)
    requires IsDigit(c)
    ensures d < 10 && c == '0' + d as char
  {
    (c - '0') as nat
  }

  /** `%d` of a non-negative number. */
  function Dec(n: nat): (s: string)
    ensures |s| >= 1 && AllDigits(s)
  {
    if n < 10 then [Digit(n)] else Dec(n / 10) + [Digit(n % 10)]
  }

  /** `%d` of a signed number. */
  function DecInt(n: int): string {
    if n < 0 then "-" + Dec(-n) else Dec(n)
  }

  /** The number a run of decimal digits stands for. */
  function Value(s: string): nat
    requires AllDigits(s)
  {
    if s == "" then 0 else Value(s[..|s| - 1]) * 10 + DigitValue(s[|s| - 1])
  }

  function ParseUint64(s: string): Option<nat> {
    if s != "" && AllDigits(s) && Value(s) < UINT64_LIMIT then Some(Value(s)) else None
  }

  function ParseInt64(s: string): Option<int> {
    var negative := s != "" && s[0] == '-';
    var digits := if s != "" && (s[0] == '-' || s[0] == '+') then s[1..] else s;
    if digits == "" || !AllDigits(digits) then None
    else
      var v := if negative then -(Value(digits) as int) else Value(digits);
      if -0x8000_0000_0000_0000 <= v < 0x8000_0000_0000_0000 then Some(v) else None
  }

  lemma {:induction false} ValueOfDec(n: nat)
    ensures Value(Dec(n)) == n
  {
    if n < 10 {
      assert Dec(n)[..0] == "";
    } else {
      ValueOfDec(n / 10);
      assert Dec(n)[..|Dec(n)| - 1] == Dec(n / 10);
    }
  }

  lemma DecInjective(m: nat, n: nat)
    requires Dec(m) == Dec(n)
    ensures m == n
  {
    ValueOfDec(m);
    ValueOfDec(n);
  }

  lemma ParseUint64OfDec(n: nat)
    requires n < UINT64_LIMIT
    ensures ParseUint64(Dec(n)) == Some(n)
  {
    ValueOfDec(n);
  }

  lemma ParseInt64OfDecInt(n: Int64)
    ensures ParseInt64(DecInt(n)) == Some(n)
  {
    hide Dec, Value;
    var k: int := n;
    if k < 0 {
      var m: nat := -k;
      ValueOfDec(m);
      assert DecInt(n)[1..] == Dec(m);
    } else {
      ValueOfDec(n);
      assert IsDigit(DecInt(n)[0]);
    }
  }

  lemma DecIntHasNoSlash(n: int)
    ensures '/' !in DecInt(n)
  {
    var s := if n < 0 then Dec(-n) else Dec(n);
    assert forall i | 0 <= i < |s| :: IsDigit(s[i]);
  }

  /** Cutting m digits off the end of a decimal number divides it by 10^m, and leaves at least 1. */
  lemma {:induction false} DropDigits(n: nat, m: nat)
    requires 1 <= m < |Dec(n)|
    ensures Dec(n)[..|Dec(n)| - m] == Dec(n / Pow(10, m))
    ensures n >= Pow(10, m)
  {
    assert n >= 10;
    assert Dec(n)[..|Dec(n)| - 1] == Dec(n / 10);
    assert Pow(10, m) == 10 * Pow(10, m - 1);
    if m > 1 {
      DropDigits(n / 10, m - 1);
      assert Dec(n)[..|Dec(n)| - m] == Dec(n / 10)[..|Dec(n / 10)| - (m - 1)];
      DivTwice(n, Pow(10, m - 1));
    }
  }

  lemma {:induction false} DivTwice(n: nat, p: nat)
    requires p >= 1
    ensures n / 10 / p == n / (10 * p)
    ensures n / 10 >= p ==> n >= 10 * p
  {
    var q, r := n / 10 / p, (n / 10) % p;
    assert n == 10 * (p * q + r) + n % 10;
    assert n == (10 * p) * q + (10 * r + n % 10);
    assert 0 <= 10 * r + n % 10 < 10 * p;
    QuotientUnique(n, 10 * p, q, 10 * r + n % 10);
  }

  lemma {:induction false} QuotientUnique(n: int, d: int, q: int, r: int)
    requires d > 0 && n == d * q + r && 0 <= r < d
    ensures n / d == q
  {
    var q', r' := n / d, n % d;
    assert n == d * q' + r';
    assert d * (q - q') == r' - r;
    SmallMultiple(d, q - q');
  }

  lemma SmallMultiple(d: int, x: int)
    requires d > 0
    ensures x >= 1 ==> d * x >= d
    ensures x <= -1 ==> d * x <= -d
  {
  }

  /** A number of at least 10^m has more than m digits. */
  lemma {:induction false} ManyDigits(n: nat, m: nat)
    requires n >= Pow(10, m)
    ensures |Dec(n)| > m
  {
    if m > 0 {
      assert Pow(10, m) == 10 * Pow(10, m - 1);
      ManyDigits(n / 10, m - 1);
    }
  }

  /* ---------- hexadecimal ---------- */

  predicate IsLowerHex(c: char) {
    '0' <= c <= '9' || 'a' <= c <= 'f'
  }

  function HexDigit(n: nat): (c: char)
    requires n < 16
    ensures IsLowerHex(c)
  {
    if n < 10 then '0' + n as char else 'a' + (n - 10) as char
  }

  function HexValue(c: char): (v: Option<nat>)
    ensures v.Some? ==> v.value < 16
    ensures IsLowerHex(c) ==> v.Some? && HexDigit(v.value) == c
    ensures forall n: nat | n < 16 :: c == HexDigit(n) ==> v == Some(n)
  {
    if '0' <= c <= '9' then Some((c - '0') as nat)
    else if 'a' <= c <= 'f' then Some((c - 'a') as nat + 10)
    else if 'A' <= c <= 'F' then Some((c - 'A') as nat + 10)
    else None
  }

  /** `%x` of a byte string. */
  function Hex(b: Bytes): (s: string)
    ensures |s| == 2 * |b|
    ensures forall i | 0 <= i < |s| :: IsLowerHex(s[i])
  {
    if b == [] then "" else [HexDigit(b[0] / 16), HexDigit(b[0] % 16)] + Hex(b[1..])
  }

  /** `hex.DecodeString`: both letter cases are accepted, odd lengths are not. */
  function DecodeHex(s: string): (b: Option<Bytes>)
    ensures b.Some? ==> |s| == 2 * |b.value|
  {
    if s == "" then Some([])
    else if |s| == 1 || HexValue(s[0]).None? || HexValue(s[1]).None? then None
    else
      match DecodeHex(s[2..])
      case None => None
      case Some(rest) => Some([HexValue(s[0]).value * 16 + HexValue(s[1]).value] + rest)
  }

  lemma {:induction false} DecodeHexOfHex(b: Bytes)
    ensures DecodeHex(Hex(b)) == Some(b)
  {
    if b != [] {
      var hi, lo := b[0] / 16, b[0] % 16;
      assert HexValue(Hex(b)[0]) == Some(hi) && HexValue(Hex(b)[1]) == Some(lo);
      assert Hex(b)[2..] == Hex(b[1..]);
      DecodeHexOfHex(b[1..]);
      assert b == [hi * 16 + lo] + b[1..];
    }
  }

  lemma HexInjective(a: Bytes, b: Bytes)
    requires Hex(a) == Hex(b)
    ensures a == b
  {
    DecodeHexOfHex(a);
    DecodeHexOfHex(b);
  }

  /** Every even-length run of lower-case hex digits is the print of some bytes. */
  lemma {:induction false} HexOfDecodeHex(s: string)
    requires |s| % 2 == 0
    requires forall i | 0 <= i < |s| :: IsLowerHex(s[i])
    ensures DecodeHex(s).Some? && Hex(DecodeHex(s).value) == s
  {
    if s != "" {
      hide Hex, DecodeHex, IsLowerHex;
      HexOfDecodeHex(s[2..]);
      HexOfDecodeStep(s, s[2..]);
    }
  }

  lemma HexOfDecodeStep(s: string, rest: string)
    requires |s| >= 2 && rest == s[2..] && IsLowerHex(s[0]) && IsLowerHex(s[1])
    requires DecodeHex(rest).Some? && Hex(DecodeHex(rest).value) == rest
    ensures DecodeHex(s).Some? && Hex(DecodeHex(s).value) == s
  {
    DecodeHexStep(s, rest);
    var hi, lo := HexValue(s[0]).value, HexValue(s[1]).value;
    HexOfPair(hi, lo, DecodeHex(rest).value);
    hide Hex, DecodeHex, HexDigit, HexValue, IsLowerHex;
    assert s == [s[0], s[1]] + rest;
  }

  lemma DecodeHexStep(s: string, rest: string)
    requires |s| >= 2 && rest == s[2..] && IsLowerHex(s[0]) && IsLowerHex(s[1]) && DecodeHex(rest).Some?
    ensures DecodeHex(s) == Some([HexValue(s[0]).value * 16 + HexValue(s[1]).value] + DecodeHex(rest).value)
  {
  }

  lemma HexOfPair(hi: nat, lo: nat, rest: Bytes)
    requires hi < 16 && lo < 16
    ensures Hex([hi * 16 + lo] + rest) == [HexDigit(hi), HexDigit(lo)] + Hex(rest)
  {
    var b: Bytes := [hi * 16 + lo] + rest;
    assert b[1..] == rest && b[0] / 16 == hi && b[0] % 16 == lo;
  }

  lemma HexStep(b: Bytes, rest: Bytes)
    requires b != [] && rest == b[1..]
    ensures Hex(b) == [HexDigit(b[0] / 16), HexDigit(b[0] % 16)] + Hex(rest)
  {
  }

  lemma {:induction false} HexOfConcat(a: Bytes, b: Bytes)
    ensures Hex(a + b) == Hex(a) + Hex(b)
  {
    if a == [] {
      assert a + b == b;
    } else {
      HexOfConcat(a[1..], b);
      HexStepConcat(a, b);
    }
  }

  lemma HexStepConcat(a: Bytes, b: Bytes)
    requires a != [] && Hex(a[1..] + b) == Hex(a[1..]) + Hex(b)
    ensures Hex(a + b) == Hex(a) + Hex(b)
  {
    hide Hex, HexDigit;
    var pair, rest := [HexDigit(a[0] / 16), HexDigit(a[0] % 16)], a[1..];
    HexStep(a, rest);
    HexStep(a + b, rest + b);
    ConcatAssociative(pair, Hex(rest), Hex(b));
  }

  lemma ConcatAssociative(x: string, y: string, z: string)
    ensures (x + y) + z == x + (y + z)
  {
  }

  /* ---------- splitting and searching ---------- */

  /** `strings.Split(s, "/")`. */
  function Split(s: string): (parts: seq<string>)
    ensures |parts| >= 1
  {
    if s == "" then [""]
    else if s[0] == '/' then [""] + Split(s[1..])
    else
      var rest := Split(s[1..]);
      [[s[0]] + rest[0]] + rest[1..]
  }

  lemma {:induction false} SplitAtSlash(a: string, b: string)
    requires '/' !in a
    ensures Split(a + "/" + b) == [a] + Split(b)
  {
    var s := a + "/" + b;
    if a == "" {
      assert s[1..] == b;
    } else {
      SplitAtSlash(a[1..], b);
      assert a == [a[0]] + a[1..];
      assert s[1..] == a[1..] + "/" + b;
    }
  }

  lemma {:induction false} SplitWithoutSlash(a: string)
    requires '/' !in a
    ensures Split(a) == [a]
  {
    if a != "" {
      SplitWithoutSlash(a[1..]);
      assert a == [a[0]] + a[1..];
    }
  }

  /** `strings.Contains(s, part)`. */
  predicate Contains(s: string, part: string) {
    part <= s || (s != "" && Contains(s[1..], part))
  }

  lemma {:induction false} ContainedIsShorter(s: string, part: string)
    requires Contains(s, part)
    ensures |part| <= |s|
  {
    if !(part <= s) {
      ContainedIsShorter(s[1..], part);
    }
  }
}
