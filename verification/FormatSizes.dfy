/** formatSize of api/gateway/folderView.go. */
module FormatSizes {
  import opened Text

  const UNIT := 1024
  const UNITS := "KMGTPE"

  /** What is printed: a byte count, or size/div with one decimal and a unit letter. */
  datatype Display = InBytes(size: nat) | Scaled(size: nat, div: nat, unit: char)

  /**
   * For every 64-bit size of at least one unit the divisor is the power of 1024 that the letter
   * stands for and the largest one not above the size; it never exceeds 64 bits.
   */
  method FormatSize(size: nat) returns (d: Display)
    requires size < UINT64_LIMIT
    ensures size < 1024 ==> d == InBytes(size)
    ensures size >= 1024 ==>
              && d.Scaled? && d.size == size
              && d.div <= size < 1024 * d.div && d.div < UINT64_LIMIT
              && exists exp: nat :: exp < 6 && d.unit == "KMGTPE"[exp] && d.div == Pow(1024, exp + 1)
  {
    if size == 0 {
      return InBytes(0);
    }
    if size < UNIT {
      return InBytes(size);
    }
    var div, exp := UNIT, 0;
    var n := size / UNIT;
    assert Pow(UNIT, 1) == UNIT * Pow(UNIT, 0);
    while n >= UNIT
      invariant div == Pow(UNIT, exp + 1)
      invariant n >= 1 && div * n <= size < div * (n + 1)
      invariant exp <= 5
      decreases n
    {
      NextUnit(size, div, n);
      PowLimits(exp + 1, div);
      div := div * UNIT;
      exp := exp + 1;
      n := n / UNIT;
    }
    assert div * n >= div by { SmallMultiple(div, n); }
    assert div * (n + 1) <= div * UNIT by { SmallMultiple(div, UNIT - n); assert div * (UNIT - n - 1) >= 0; }
    return Scaled(size, div, UNITS[exp]);
  }

  lemma {:induction false} NextUnit(size: nat, div: nat, n: nat)
    requires div >= 1 && n >= UNIT && div * n <= size < div * (n + 1)
    ensures (div * UNIT) * (n / UNIT) <= size < (div * UNIT) * (n / UNIT + 1)
    ensures div * UNIT <= size
  {
    var q, r := n / UNIT, n % UNIT;
    assert n == UNIT * q + r;
    assert div * n == (div * UNIT) * q + div * r;
    assert div * (n + 1) == (div * UNIT) * q + div * (r + 1);
    assert div * (r + 1) <= div * UNIT by { assert div * (UNIT - (r + 1)) >= 0; }
    assert div * n >= div * UNIT by { assert div * (n - UNIT) >= 0; }
  }

  /** A power of 1024 that is still a unit below 2^64 has an exponent of at most five. */
  lemma PowLimits(e: nat, p: nat)
    requires p == Pow(UNIT, e) && e <= 6 && p * UNIT < UINT64_LIMIT
    ensures e <= 5
  {
    assert Pow(UNIT, 6) == UNIT * (UNIT * (UNIT * (UNIT * (UNIT * (UNIT * Pow(UNIT, 0))))));
  }
}
