/** What the printers and parsers of Text write and accept, character by character. */
module TextLaws {
  import opened Wrappers
  import opened Text

  /* ---------- decimal ---------- */

  /** The digits of a number, from the last one on, and no zero in front of several. */
  lemma {:induction false} DecAt(n: nat, k: nat)
    ensures k < |Dec(n)| ==> Dec(n)[|Dec(n)| - 1 - k] == "0123456789"[n / Pow(10, k) % 10]
    ensures |Dec(n)| > 1 ==> Dec(n)[0] != '0'
    ensures n > 0 ==> Dec(n)[0] != '0'
    decreases n
  {
    DigitIs(n % 10);
    assert n < 10 ==> n % 10 == n;
    if n >= 10 {
      DecAt(n / 10, if k > 0 then k - 1 else 0);
      hide Digit;
      if 0 < k < |Dec(n)| {
        LaterDigit(n, k);
      }
    }
  }

  lemma DigitIs(d: nat)
    requires d < 10
    ensures Digit(d) == "0123456789"[d]
  {
  }

  lemma LaterDigit(n: nat, k: nat)
    requires n >= 10 && 0 < k < |Dec(n)|
    ensures Dec(n)[|Dec(n)| - 1 - k] == Dec(n / 10)[|Dec(n / 10)| - 1 - (k - 1)]
    ensures n / 10 / Pow(10, k - 1) == n / Pow(10, k)
  {
    assert Pow(10, k) == 10 * Pow(10, k - 1);
    DivTwice(n, Pow(10, k - 1));
  }

  lemma DecOfTwo(n: nat)
    requires 10 <= n < 100
    ensures Dec(n) == ["0123456789"[n / 10], "0123456789"[n % 10]]
  {
    DigitIs(n / 10);
    DigitIs(n % 10);
    assert Dec(n / 10) == [Digit(n / 10)];
  }

  lemma {:induction false} DecIntIs(n: int)
    ensures n >= 0 ==> DecInt(n) == Dec(n)
    ensures n < 0 ==> DecInt(n)[0] == '-' && DecInt(n)[1..] == Dec(-n)
  {
    assert n < 0 ==> ("-" + Dec(-n))[1..] == Dec(-n);
  }

  function ZeroChars(n: nat): string {
    seq(n, _ => '0')
  }

  /** A number, printed after some zeros. */
  function Padded(z: nat, n: nat): string {
    ZeroChars(z) + Dec(n)
  }

  lemma PaddedStep(z: nat, n: nat)
    ensures AllDigits(Padded(z, n)) && Padded(z, n) != ""
    ensures n < 10 ==> Padded(z, n) == ZeroChars(z) + [Digit(n)]
    ensures n >= 10 ==> Padded(z, n) == Padded(z, n / 10) + [Digit(n % 10)]
    ensures Padded(z + 1, n) == ['0'] + Padded(z, n)
    ensures ZeroChars(z + 1) == ZeroChars(z) + ['0']
  {
    assert forall i | 0 <= i < |Padded(z, n)| :: IsDigit(Padded(z, n)[i]);
    assert ZeroChars(z + 1) == ['0'] + ZeroChars(z);
  }

  lemma ValueOfLonger(init: string, last: char)
    requires AllDigits(init) && IsDigit(last)
    ensures AllDigits(init + [last]) && Value(init + [last]) == Value(init) * 10 + DigitValue(last)
  {
    assert (init + [last])[..|init|] == init;
  }

  /** A run of digits is the number it stands for, printed after some zeros. */
  lemma {:induction false} DigitsAreNumber(s: string) returns (z: nat)
    requires s != "" && AllDigits(s)
    ensures s == Padded(z, Value(s))
  {
    var init, last := s[..|s| - 1], s[|s| - 1];
    assert s == init + [last];
    ValueOfLonger(init, last);
    if init == "" {
      z := 0;
      PaddedStep(0, DigitValue(last));
      assert Digit(DigitValue(last)) == last;
    } else {
      var y := DigitsAreNumber(init);
      hide Value, Padded;
      z := PaddedLonger(y, Value(init), DigitValue(last));
      assert Digit(DigitValue(last)) == last;
    }
  }

  lemma PaddedLonger(y: nat, v: nat, d: nat) returns (z: nat)
    requires d < 10
    ensures Padded(y, v) + [Digit(d)] == Padded(z, v * 10 + d)
  {
    var n := v * 10 + d;
    assert n / 10 == v && n % 10 == d;
    z := if v == 0 then y + 1 else y;
    PaddedStep(y, n);
    PaddedStep(z, n);
    PaddedStep(y, v);
    assert Digit(0) == '0';
    hide Padded;
  }

  lemma {:induction false} ValueOfPadded(z: nat, n: nat)
    ensures AllDigits(Padded(z, n)) && Value(Padded(z, n)) == n
    decreases n
  {
    PaddedStep(z, n);
    if n < 10 {
      ValueOfZeros(z);
      ValueOfLonger(ZeroChars(z), Digit(n));
    } else {
      ValueOfPadded(z, n / 10);
      ValueOfLonger(Padded(z, n / 10), Digit(n % 10));
    }
  }

  lemma {:induction false} ValueOfZeros(z: nat)
    ensures AllDigits(ZeroChars(z)) && Value(ZeroChars(z)) == 0
  {
    if z > 0 {
      PaddedStep(z - 1, 0);
      ValueOfZeros(z - 1);
      ValueOfLonger(ZeroChars(z - 1), '0');
    }
  }

  /** A 64-bit number is parsed from its decimal print after any zeros, and from nothing else. */
  lemma {:induction false} ParseUint64Iff(s: string, v: nat)
    ensures ParseUint64(s) == Some(v) <==> v < 0x1_0000_0000_0000_0000 && exists z: nat :: s == Padded(z, v)
  {
    if ParseUint64(s) == Some(v) {
      var z := DigitsAreNumber(s);
    }
    if z: nat :| s == Padded(z, v) {
      ValueOfPadded(z, v);
      PaddedStep(z, v);
    }
  }

  /** A plus may stand in front of a signed number, and a minus must in front of a negative one. */
  predicate Spells(s: string, z: nat, v: int) {
    || (v >= 0 && s in {Padded(z, v), "+" + Padded(z, v)})
    || (v <= 0 && s == "-" + Padded(z, -v))
  }

  lemma {:induction false} ParseInt64Iff(s: string, v: int)
    ensures ParseInt64(s) == Some(v) <==>
            -0x8000_0000_0000_0000 <= v < 0x8000_0000_0000_0000 && exists z: nat :: Spells(s, z, v)
  {
    hide ParseInt64, Spells;
    if ParseInt64(s) == Some(v) {
      var z := ParsedIsSpelled(s, v);
    }
    if -0x8000_0000_0000_0000 <= v < 0x8000_0000_0000_0000 {
      if z: nat :| Spells(s, z, v) {
        SpelledIsParsed(s, z, v);
      }
    }
  }

  lemma SpelledIsParsed(s: string, z: nat, v: int)
    requires -0x8000_0000_0000_0000 <= v < 0x8000_0000_0000_0000 && Spells(s, z, v)
    ensures ParseInt64(s) == Some(v)
  {
    hide ParseInt64, Padded, Value;
    var n: nat := if v >= 0 then v else -v;
    ValueOfPadded(z, n);
    PaddedStep(z, n);
    SpellingParses(Padded(z, n));
  }

  lemma ParsedIsSpelled(s: string, v: int) returns (z: nat)
    requires ParseInt64(s) == Some(v)
    ensures -0x8000_0000_0000_0000 <= v < 0x8000_0000_0000_0000 && Spells(s, z, v)
  {
    var signed := s[0] == '-' || s[0] == '+';
    var digits := if signed then s[1..] else s;
    z := DigitsAreNumber(digits);
    hide Padded, Value;
    assert signed ==> s == [s[0]] + digits;
    assert s[0] == '-' ==> [s[0]] == "-";
    assert s[0] == '+' ==> [s[0]] == "+";
  }

  lemma SpellingParses(p: string)
    requires p != "" && AllDigits(p)
    ensures Value(p) < 0x8000_0000_0000_0000 ==> ParseInt64(p) == ParseInt64("+" + p) == Some(Value(p))
    ensures Value(p) <= 0x8000_0000_0000_0000 ==> ParseInt64("-" + p) == Some(-(Value(p) as int))
  {
    hide Value;
    assert IsDigit(p[0]);
    assert ("+" + p)[1..] == p && ("-" + p)[1..] == p;
  }

  /* ---------- hexadecimal ---------- */

  /** Each byte prints as its two lower-case hex digits, the high one first. */
  lemma {:induction false} HexAt(b: Bytes, i: nat)
    requires i < |b|
    ensures Hex(b)[2 * i] == "0123456789abcdef"[b[i] / 16]
    ensures Hex(b)[2 * i + 1] == "0123456789abcdef"[b[i] % 16]
  {
    if i > 0 {
      HexAt(b[1..], i - 1);
      assert Hex(b)[2..] == Hex(b[1..]);
    } else {
      HexDigitIs(b[0] / 16);
      HexDigitIs(b[0] % 16);
    }
  }

  lemma HexOfTwo(a: Byte, b: Byte)
    ensures Hex([a, b]) == ["0123456789abcdef"[a / 16], "0123456789abcdef"[a % 16],
                            "0123456789abcdef"[b / 16], "0123456789abcdef"[b % 16]]
  {
    HexAt([a, b], 0);
    HexAt([a, b], 1);
    assert |Hex([a, b])| == 4;
  }

  lemma HexDigitIs(n: nat)
    requires n < 16
    ensures HexDigit(n) == "0123456789abcdef"[n]
  {
  }

  /** Two hex digits of either case, the high one first, that stand for a byte. */
  predicate IsHexPair(hi: char, lo: char, b: Byte) {
    IsHexOf(hi, b / 16) && IsHexOf(lo, b % 16)
  }

  predicate IsHexOf(c: char, v: nat) {
    v < 16 && (c == "0123456789abcdef"[v] || c == "0123456789ABCDEF"[v])
  }

  predicate PairAt(s: string, b: Bytes, i: nat) {
    i < |b| && 2 * i + 1 < |s| && IsHexPair(s[2 * i], s[2 * i + 1], b[i])
  }

  /** Hex decodes exactly if it is pairs of hex digits of either case, to the bytes they stand for. */
  lemma {:induction false} DecodeHexIff(s: string, b: Bytes)
    ensures DecodeHex(s) == Some(b) <==> |s| == 2 * |b| && forall i: nat | i < |b| :: PairAt(s, b, i)
    decreases |s|
  {
    if |s| >= 2 && b != [] {
      hide DecodeHex, PairAt, IsHexPair;
      DecodeHexIff(s[2..], b[1..]);
      DecodeFirst(s, b);
      PairsFromFirst(s, b);
    }
  }

  lemma DecodeFirst(s: string, b: Bytes)
    requires |s| >= 2 && b != []
    ensures DecodeHex(s) == Some(b) <==> IsHexPair(s[0], s[1], b[0]) && DecodeHex(s[2..]) == Some(b[1..])
  {
    HexPairIff(s[0], s[1], b[0]);
    hide IsHexPair, HexValue;
    assert b == [b[0]] + b[1..];
  }

  lemma PairsFromFirst(s: string, b: Bytes)
    requires |s| >= 2 && b != []
    ensures (forall i: nat | i < |b| :: PairAt(s, b, i)) <==>
            IsHexPair(s[0], s[1], b[0]) && forall i: nat | i < |b[1..]| :: PairAt(s[2..], b[1..], i)
  {
    hide IsHexPair;
    assert forall i: nat | i < |b[1..]| :: PairAt(s[2..], b[1..], i) <==> PairAt(s, b, i + 1);
    assert PairAt(s, b, 0) <==> IsHexPair(s[0], s[1], b[0]);
    assert forall i: nat | 0 < i < |b| :: PairAt(s, b, i) <==> PairAt(s[2..], b[1..], i - 1);
  }

  lemma HexValueIs(c: char, v: nat)
    ensures HexValue(c) == Some(v) <==> IsHexOf(c, v)
  {
  }

  lemma HexPairIff(hi: char, lo: char, b: Byte)
    ensures IsHexPair(hi, lo, b) <==>
            HexValue(hi).Some? && HexValue(lo).Some? && HexValue(hi).value * 16 + HexValue(lo).value == b
  {
    HexValueIs(hi, b / 16);
    HexValueIs(lo, b % 16);
    hide HexValue, IsHexOf;
    if HexValue(hi).Some? && HexValue(lo).Some? {
      Nibbles(HexValue(hi).value, HexValue(lo).value, b);
    }
  }

  lemma Nibbles(hi: nat, lo: nat, b: nat)
    requires hi < 16 && lo < 16
    ensures hi * 16 + lo == b <==> hi == b / 16 && lo == b % 16
  {
  }

  /* ---------- searching ---------- */

  predicate OccursAt(s: string, part: string, i: nat) {
    i + |part| <= |s| && s[i..i + |part|] == part
  }

  lemma {:induction false} ContainsIff(s: string, part: string)
    ensures Contains(s, part) <==> exists i: nat :: OccursAt(s, part, i)
  {
    if part <= s {
      assert OccursAt(s, part, 0);
    } else if s != "" {
      ContainsIff(s[1..], part);
      if i: nat :| OccursAt(s[1..], part, i) {
        assert OccursAt(s, part, i + 1);
      }
      if i: nat :| OccursAt(s, part, i) {
        assert i > 0 ==> OccursAt(s[1..], part, i - 1);
      }
    }
  }
}
