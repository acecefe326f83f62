/** Little-endian digit sequences. Digits may be negative or oversized; Norm says when they are not. */
module Digits {
  import opened Arith

  /** The number that the digits s denote in base b, least significant digit first. */
  ghost function Val(s: seq<int>, b: int): int
    decreases |s|
  {
    if |s| == 0 then 0 else Val(s[..|s| - 1], b) + s[|s| - 1] * Pow(b, |s| - 1)
  }

  /** Every digit lies in [0, b). */
  ghost predicate Norm(s: seq<int>, b: int) {
    forall i :: 0 <= i < |s| ==> 0 <= s[i] < b
  }

  lemma ValEmpty(b: int)
    ensures Val([], b) == 0 && Pow(b, 0) == 1
  {}

  lemma ValPrefix(s: seq<int>, i: nat, b: int)
    requires i < |s|
    ensures Val(s[..i + 1], b) == Val(s[..i], b) + s[i] * Pow(b, i)
  {
    assert s[..i + 1][..i] == s[..i];
  }

  lemma ValSnoc(s: seq<int>, d: int, b: int)
    ensures Val(s + [d], b) == Val(s, b) + d * Pow(b, |s|)
  {
    assert (s + [d])[..|s|] == s;
  }

  lemma {:induction false} ValConcat(s: seq<int>, t: seq<int>, b: int)
    ensures Val(s + t, b) == Val(s, b) + Pow(b, |s|) * Val(t, b)
    decreases |t|
  {
    if |t| == 0 {
      assert s + t == s;
    } else {
      var t' := t[..|t| - 1];
      assert (s + t)[..|s + t| - 1] == s + t';
      ValConcat(s, t', b);
      PowAdd(b, |s|, |t'|);
      Regroup(t[|t| - 1], Pow(b, |s|), Pow(b, |t'|), Val(t', b));
    }
  }

  lemma Regroup(d: int, p: int, q: int, v: int)
    ensures p * (v + d * q) == p * v + d * (p * q)
  {
    assert p * (d * q) == d * (p * q);
  }

  /** Splitting the digits of s after the first i of them. */
  lemma ValSplit(s: seq<int>, i: nat, b: int)
    requires i <= |s|
    ensures Val(s, b) == Val(s[..i], b) + Pow(b, i) * Val(s[i..], b)
  {
    assert s == s[..i] + s[i..];
    ValConcat(s[..i], s[i..], b);
  }

  lemma {:induction false} ValBound(s: seq<int>, b: int)
    requires b >= 1 && Norm(s, b)
    ensures 0 <= Val(s, b) < Pow(b, |s|)
    decreases |s|
  {
    if |s| > 0 {
      var s', p := s[..|s| - 1], Pow(b, |s| - 1);
      ValBound(s', b);
      MulMono(0, s[|s| - 1], p);
      MulMono(s[|s| - 1], b - 1, p);
      assert (b - 1) * p + p == b * p;
    }
  }

  lemma {:induction false} ValZero(s: seq<int>, b: int)
    requires forall i :: 0 <= i < |s| ==> s[i] == 0
    ensures Val(s, b) == 0
    decreases |s|
  {
    if |s| > 0 { ValZero(s[..|s| - 1], b); }
  }

  lemma {:induction false} ValAdd(s: seq<int>, t: seq<int>, u: seq<int>, b: int)
    requires |s| == |t| == |u| && forall i :: 0 <= i < |s| ==> u[i] == s[i] + t[i]
    ensures Val(u, b) == Val(s, b) + Val(t, b)
    decreases |s|
  {
    if |s| > 0 {
      var k := |s| - 1;
      ValAdd(s[..k], t[..k], u[..k], b);
      assert u[k] * Pow(b, k) == s[k] * Pow(b, k) + t[k] * Pow(b, k);
    }
  }

  lemma ValSub(s: seq<int>, t: seq<int>, u: seq<int>, b: int)
    requires |s| == |t| == |u| && forall i :: 0 <= i < |s| ==> u[i] == s[i] - t[i]
    ensures Val(u, b) == Val(s, b) - Val(t, b)
  {
    ValAdd(u, t, s, b);
  }

  /** Extra zero digits on top change nothing. */
  lemma ValPad(s: seq<int>, i: nat, b: int)
    requires i <= |s| && forall k :: i <= k < |s| ==> s[k] == 0
    ensures Val(s, b) == Val(s[..i], b)
  {
    ValSplit(s, i, b);
    ValZero(s[i..], b);
    assert Pow(b, i) * 0 == 0;
  }

  /** The value seen from digit m, when the digits from e up are zero. */
  lemma ValWindow(s: seq<int>, m: nat, e: nat, b: int)
    requires m <= e <= |s| && forall k :: e <= k < |s| ==> s[k] == 0
    ensures Val(s, b) == Val(s[..m], b) + Pow(b, m) * Val(s[m..e], b)
  {
    hide Val;
    hide Pow;
    ValPad(s, e, b);
    ValSplit(s[..e], m, b);
    assert s[..e][..m] == s[..m] && s[..e][m..] == s[m..e];
  }

  lemma ValSingle(d: int, b: int)
    ensures Val([d], b) == d
  {
    assert [d][..0] == [];
    assert Pow(b, 0) == 1;
  }

  /** Normalised digits of a given length are determined by their value. */
  lemma {:induction false} ValInjective(s: seq<int>, t: seq<int>, b: int)
    requires b >= 1 && |s| == |t| && Norm(s, b) && Norm(t, b) && Val(s, b) == Val(t, b)
    ensures s == t
    decreases |s|
  {
    if |s| > 0 {
      var k := |s| - 1;
      var p := Pow(b, k);
      ValBound(s[..k], b);
      ValBound(t[..k], b);
      DivModUnique(Val(s, b), s[k], Val(s[..k], b), p);
      DivModUnique(Val(t, b), t[k], Val(t[..k], b), p);
      ValInjective(s[..k], t[..k], b);
      assert s == s[..k] + [s[k]] && t == t[..k] + [t[k]];
    }
  }

  /** The low digits are the remainder and the high digits the quotient. */
  lemma ValDivMod(s: seq<int>, i: nat, b: int)
    requires b >= 1 && i <= |s| && Norm(s[..i], b)
    ensures Pow(b, i) >= 1
    ensures Val(s, b) % Pow(b, i) == Val(s[..i], b) && Val(s, b) / Pow(b, i) == Val(s[i..], b)
  {
    PowPos(b, i);
    ValSplit(s, i, b);
    ValBound(s[..i], b);
    DivModOf(Val(s, b), Val(s[i..], b), Val(s[..i], b), Pow(b, i));
  }

  lemma DivModOf(a: int, q: int, r: int, m: int)
    requires a == r + m * q && 0 <= r < m
    ensures a / m == q && a % m == r
  {
    DivModUnique(a, q, r, m);
  }
}
