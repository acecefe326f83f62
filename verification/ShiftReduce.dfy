/** Reduction by doubling the modulus past the operand and subtracting on the way back. */
module ShiftReduce {
  import opened Arith

  /** MCL_FF_mod and MCL_BIG_mod: r = b mod c; c is shifted up, down again, and ends as it was. */
  method Mod(b: int, c: int) returns (r: int, c': int)
    requires b >= 0 && c > 0
    ensures r == b % c && c' == c
  {
    hide Pow;
    r, c' := b, c;
    if r < c' { SmallMod(b, c); return; }
    var k: nat := 1;
    c' := 2 * c';
    PowTwo(0);
    while r >= c'
      invariant k >= 1 && c' == c * Pow(2, k) && c' > 0
      decreases r - c'
    {
      PowTwo(k);
      Doubled(c, Pow(2, k));
      c', k := 2 * c', k + 1;
    }
    CongFrom(b, b, 0, c);
    while k > 0
      invariant c' == c * Pow(2, k) && c' > 0 && 0 <= r < c' && Cong(r, b, c)
    {
      PowTwo(k - 1);
      Doubled(c, Pow(2, k - 1));
      c' := c' / 2;
      if r >= c' {
        SubtractMultiple(r, c, Pow(2, k - 1));
        r := r - c';
      }
      k := k - 1;
    }
    SmallMod(r, c);
  }

  lemma PowTwo(k: nat)
    ensures Pow(2, 0) == 1 && Pow(2, k + 1) == 2 * Pow(2, k) && Pow(2, k) >= 1
  {
    PowPos(2, k);
  }

  lemma Doubled(c: int, p: int)
    requires c > 0 && p >= 1
    ensures c * (2 * p) == 2 * (c * p) && c * p >= 1 && (2 * (c * p)) / 2 == c * p
  {
    MulMono(1, c, p);
  }

  lemma SubtractMultiple(r: int, c: int, p: int)
    requires c > 0
    ensures Cong(r - c * p, r, c)
  {
    assert (-p) * c == -(c * p);
    CongFrom(r - c * p, r, -p, c);
  }
}
