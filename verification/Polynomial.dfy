// The algebra behind the Mode S parity code (ICAO Annex 10 Volume IV, section
// 3.1.2.3.3): polynomials over GF(2), written as sequences of coefficients with
// the highest power first, and their remainders modulo
//   G(x) = x^24 + 0xfff409.
module Polynomial {
  import opened BitStrings

  /** G below x^24: the terms of 0xfff409 are x^23 to x^12, x^10, x^3 and 1. */
  function GeneratorLow(): (r: Bits)
    ensures |r| == 24
  {
    seq(24, i => i <= 11 || i == 13 || i == 20 || i == 23)
  }

  /** A remainder modulo G: a polynomial of degree below 24. */
  type Residue = c: Bits | |c| == 24 witness GeneratorLow()

  /** Multiplication by x modulo G: one step of the 24-bit shift register. */
  function TimesX(c: Residue): Residue {
    var shifted := c[1..] + [false];
    if c[0] then Xor(shifted, GeneratorLow()) else shifted
  }

  function TimesXPow(c: Residue, k: nat): Residue {
    if k == 0 then c else TimesX(TimesXPow(c, k - 1))
  }

  /** Adds a constant coefficient to a remainder. */
  function AddConstant(c: Residue, b: bool): Residue {
    c[23 := c[23] != b]
  }

  /** The remainder of a polynomial modulo G, by Horner's rule. */
  function Remainder(p: Bits): Residue {
    if p == [] then Zeros(24)
    else AddConstant(TimesX(Remainder(p[..|p| - 1])), p[|p| - 1])
  }

  // ----- multiplication by x is linear and invertible

  lemma TimesXLinear(a: Residue, b: Residue)
    ensures TimesX(Xor(a, b)) == Xor(TimesX(a), TimesX(b))
  {}

  /** G has a constant term, so no two remainders become equal in a step. */
  lemma TimesXInjective(a: Residue, b: Residue)
    requires TimesX(a) == TimesX(b)
    ensures a == b
  {
    assert TimesX(a)[23] == a[0] && TimesX(b)[23] == b[0];
    forall i | 1 <= i < 24 ensures a[i] == b[i] {
      assert TimesX(a)[i - 1] == (a[i] != (a[0] && GeneratorLow()[i - 1]));
      assert TimesX(b)[i - 1] == (b[i] != (b[0] && GeneratorLow()[i - 1]));
    }
  }

  lemma {:induction false} TimesXPowLinear(a: Residue, b: Residue, k: nat)
    ensures TimesXPow(Xor(a, b), k) == Xor(TimesXPow(a, k), TimesXPow(b, k))
  {
    if k > 0 {
      TimesXPowLinear(a, b, k - 1);
      TimesXLinear(TimesXPow(a, k - 1), TimesXPow(b, k - 1));
    }
  }

  lemma {:induction false} TimesXPowInjective(a: Residue, b: Residue, k: nat)
    requires TimesXPow(a, k) == TimesXPow(b, k)
    ensures a == b
  {
    if k > 0 {
      TimesXInjective(TimesXPow(a, k - 1), TimesXPow(b, k - 1));
      TimesXPowInjective(a, b, k - 1);
    }
  }

  lemma {:induction false} TimesXPowAdds(c: Residue, j: nat, k: nat)
    ensures TimesXPow(TimesXPow(c, j), k) == TimesXPow(c, j + k)
  {
    if k > 0 { TimesXPowAdds(c, j, k - 1); }
  }

  lemma {:induction false} TimesXPowZero(k: nat)
    ensures TimesXPow(Zeros(24), k) == Zeros(24)
  {
    if k > 0 { TimesXPowZero(k - 1); }
  }

  /** As long as only zeros leave the register, multiplication is a plain shift. */
  lemma {:induction false} TimesXPowShifts(low: Bits, k: nat)
    requires |low| + k == 24
    ensures TimesXPow(Zeros(k) + low, k) == low + Zeros(k)
  {
    ShiftsBy(Zeros(k) + low, k, k);
  }

  lemma {:induction false} ShiftsBy(c: Residue, k: nat, j: nat)
    requires j <= k <= 24 && c[..k] == Zeros(k)
    ensures TimesXPow(c, j) == c[j..] + Zeros(j)
  {
    if j > 0 {
      ShiftsBy(c, k, j - 1);
      assert c[j - 1] == c[..k][j - 1];
    }
  }

  // ----- remainders

  lemma {:induction false} RemainderConcat(p: Bits, q: Bits)
    ensures Remainder(p + q) == Xor(TimesXPow(Remainder(p), |q|), Remainder(q))
  {
    if q == [] {
      assert p + q == p;
    } else {
      var n := |q| - 1;
      assert (p + q)[..|p + q| - 1] == p + q[..n];
      RemainderConcat(p, q[..n]);
      TimesXLinear(TimesXPow(Remainder(p), n), Remainder(q[..n]));
    }
  }

  /** Remainders are linear: an error changes the remainder in the same way whatever the frame. */
  lemma {:induction false} RemainderXor(p: Bits, q: Bits)
    requires |p| == |q|
    ensures Remainder(Xor(p, q)) == Xor(Remainder(p), Remainder(q))
  {
    if p != [] {
      var n := |p| - 1;
      assert Xor(p, q)[..n] == Xor(p[..n], q[..n]);
      RemainderXor(p[..n], q[..n]);
      TimesXLinear(Remainder(p[..n]), Remainder(q[..n]));
    }
  }

  lemma {:induction false} RemainderZeros(n: nat)
    ensures Remainder(Zeros(n)) == Zeros(24)
  {
    if n > 0 {
      assert Zeros(n)[..n - 1] == Zeros(n - 1);
      RemainderZeros(n - 1);
    }
  }

  lemma RemainderLeadingZeros(n: nat, p: Bits)
    ensures Remainder(Zeros(n) + p) == Remainder(p)
  {
    RemainderConcat(Zeros(n), p);
    RemainderZeros(n);
    TimesXPowZero(|p|);
  }

  lemma RemainderTrailingZeros(p: Bits, n: nat)
    ensures Remainder(p + Zeros(n)) == TimesXPow(Remainder(p), n)
  {
    RemainderConcat(p, Zeros(n));
    RemainderZeros(n);
  }

  /** A polynomial of degree below 24 is its own remainder. */
  lemma {:induction false} RemainderShort(p: Bits)
    requires |p| <= 24
    ensures Remainder(p) == Zeros(24 - |p|) + p
  {
    if p != [] { RemainderShort(p[..|p| - 1]); }
  }

  lemma RemainderOfResidue(n: nat, r: Residue)
    ensures Remainder(Zeros(n) + r) == r
  {
    RemainderLeadingZeros(n, r);
    RemainderShort(r);
  }

  /** A single one at position i of n stands for x^(n - 1 - i). */
  lemma RemainderUnit(n: nat, i: nat)
    requires i < n
    ensures Remainder(Unit(n, i)) == TimesXPow(Unit(24, 23), n - 1 - i)
  {
    assert Unit(n, i) == Zeros(i) + ([true] + Zeros(n - 1 - i));
    RemainderLeadingZeros(i, [true] + Zeros(n - 1 - i));
    RemainderTrailingZeros([true], n - 1 - i);
    RemainderShort([true]);
    assert Zeros(23) + [true] == Unit(24, 23);
  }

  // ----- the remainder is what long division leaves

  /** q times G, by schoolbook multiplication: shift, and add G for each coefficient. */
  function TimesG(q: Bits): (r: Bits)
    ensures |r| == |q| + 24
  {
    if q == [] then Zeros(24)
    else
      var n := |q| - 1;
      var shifted := TimesG(q[..n]) + [false];
      if q[n] then Xor(shifted, Zeros(n) + [true] + GeneratorLow()) else shifted
  }


  /** Every p is q * G + Remainder(p) for some quotient q. */
  lemma {:induction false} LongDivision(p: Bits) returns (q: Bits)
    requires |p| >= 24
    ensures |q| == |p| - 24
    ensures p == Xor(TimesG(q), Zeros(|q|) + Remainder(p))
  {
    hide *;
    if |p| == 24 {
      q := [];
      DivisionBase(p);
    } else {
      var init, b := p[..|p| - 1], p[|p| - 1];
      var q' := LongDivision(init);
      q := q' + [Remainder(init)[0]];
      DivisionStep(init, b, q');
      assert init + [b] == p;
    }
  }

  lemma DivisionBase(p: Bits)
    requires |p| == 24
    ensures p == Xor(TimesG([]), Zeros(0) + Remainder(p))
  {
    RemainderShort(p);
    hide Remainder;
    assert Zeros(0) + (Zeros(0) + p) == p;
    XorZeros(p);
  }

  lemma DivisionStep(p: Bits, b: bool, q: Bits)
    requires |p| == |q| + 24 && p == Xor(TimesG(q), Zeros(|q|) + Remainder(p))
    ensures p + [b] == Xor(TimesG(q + [Remainder(p)[0]]), Zeros(|q| + 1) + Remainder(p + [b]))
  {
    hide *;
    var r := Remainder(p);
    TimesGSnoc(q, r[0]);
    RemainderSnoc(p, b);
    ShiftedRemainder(r, b, |q|);
    Regroup(TimesG(q), Zeros(|q|) + r, b, Carry(|q|, r[0]), Zeros(|q| + 1) + Remainder(p + [b]));
  }

  /** What the quotient's new coefficient adds to the product. */
  function Carry(n: nat, b: bool): (r: Bits)
    ensures |r| == n + 25
  {
    if b then Zeros(n) + [true] + GeneratorLow() else Zeros(n + 25)
  }

  lemma RemainderSnoc(p: Bits, b: bool)
    ensures Remainder(p + [b]) == AddConstant(TimesX(Remainder(p)), b)
  {
    assert (p + [b])[..|p|] == p;
  }

  lemma Regroup(m: Bits, low: Bits, b: bool, carry: Bits, rest: Bits)
    requires |low| == |m| && |carry| == |rest| == |m| + 1
    requires low + [b] == Xor(carry, rest)
    ensures Xor(m, low) + [b] == Xor(Xor(m + [false], carry), rest)
  {
    XorConcat(m, [false], low, [b]);
    assert Xor([false], [b]) == [b];
    XorAssociates(m + [false], carry, rest);
  }

  lemma TimesGSnoc(q: Bits, b: bool)
    ensures TimesG(q + [b]) ==
      Xor(TimesG(q) + [false], Carry(|q|, b))
  {
    assert (q + [b])[..|q|] == q;
    XorZeros(TimesG(q) + [false]);
  }

  /** Shifting r may push a term into the quotient; G then brings the rest below x^24 again. */
  lemma ShiftedRemainder(r: Residue, b: bool, n: nat)
    ensures (Zeros(n) + r) + [b]
         == Xor(Carry(n, r[0]), Zeros(n + 1) + AddConstant(TimesX(r), b))
  {}

  lemma {:induction false} MultiplesOfG(q: Bits)
    ensures Remainder(TimesG(q)) == Zeros(24)
  {
    if q == [] {
      RemainderZeros(24);
    } else {
      var n := |q| - 1;
      var shifted := TimesG(q[..n]) + [false];
      MultiplesOfG(q[..n]);
      assert shifted[..|shifted| - 1] == TimesG(q[..n]);
      TimesXPowZero(1);
      assert TimesXPow(Zeros(24), 0) == Zeros(24);
      assert Remainder(shifted) == Zeros(24);
      if q[n] {
        var g := Zeros(n) + [true] + GeneratorLow();
        RemainderXor(shifted, g);
        GeneratorVanishes(n);
      }
    }
  }

  lemma GeneratorVanishes(n: nat)
    ensures Remainder(Zeros(n) + [true] + GeneratorLow()) == Zeros(24)
  {
    var g := [true] + GeneratorLow();
    assert Zeros(n) + [true] + GeneratorLow() == Zeros(n) + g;
    RemainderLeadingZeros(n, g);
    RemainderShort(g[..24]);
    assert g[..24][0] && g[..24][1..] == GeneratorLow()[..23];
    assert TimesX(g[..24]) == Unit(24, 23);
    assert Remainder(g) == AddConstant(TimesX(g[..24]), g[24]);
  }

  /** The other half: no other remainder of degree below 24 fits any quotient. */
  lemma RemainderIsUnique(p: Bits, q: Bits, r: Residue)
    requires |p| == |q| + 24
    requires p == Xor(TimesG(q), Zeros(|q|) + r)
    ensures Remainder(p) == r
  {
    var low := Zeros(|q|) + r;
    RemainderXor(TimesG(q), low);
    MultiplesOfG(q);
    RemainderOfResidue(|q|, r);
    XorZeros(r);
  }

  // ----- parity of the number of ones

  predicate Odd(p: Bits) {
    p != [] && (Odd(p[..|p| - 1]) != p[|p| - 1])
  }

  lemma {:induction false} OddXor(p: Bits, q: Bits)
    requires |p| == |q|
    ensures Odd(Xor(p, q)) == (Odd(p) != Odd(q))
  {
    if p != [] {
      var n := |p| - 1;
      assert Xor(p, q)[..n] == Xor(p[..n], q[..n]);
      OddXor(p[..n], q[..n]);
    }
  }

  lemma {:induction false} OddConcat(p: Bits, q: Bits)
    ensures Odd(p + q) == (Odd(p) != Odd(q))
  {
    if q == [] {
      assert p + q == p;
    } else {
      assert (p + q)[..|p + q| - 1] == p + q[..|q| - 1];
      OddConcat(p, q[..|q| - 1]);
    }
  }

  lemma {:induction false} ZerosNotOdd(n: nat)
    ensures !Odd(Zeros(n))
  {
    if n > 0 {
      assert Zeros(n)[..n - 1] == Zeros(n - 1);
      ZerosNotOdd(n - 1);
    }
  }

  lemma UnitOdd(n: nat, i: nat)
    requires i < n
    ensures Odd(Unit(n, i))
  {
    assert Unit(n, i) == (Zeros(i) + [true]) + Zeros(n - 1 - i);
    ZerosNotOdd(i);
    ZerosNotOdd(n - 1 - i);
    OddConcat(Zeros(i) + [true], Zeros(n - 1 - i));
    assert (Zeros(i) + [true])[..i] == Zeros(i);
  }

  lemma GeneratorLowOdd()
    ensures Odd(GeneratorLow())
  {
    var ones := [true, true, true, true];
    assert GeneratorLow() ==
           ones + ones + ones + [false, true, false, false] + Zeros(4) + [true, false, false, true];
    OddConcat(ones, ones);
    OddConcat(ones + ones, ones);
    OddConcat(ones + ones + ones, [false, true, false, false]);
    OddConcat(ones + ones + ones + [false, true, false, false], Zeros(4));
    OddConcat(ones + ones + ones + [false, true, false, false] + Zeros(4), [true, false, false, true]);
    ZerosNotOdd(4);
    OddOfFour(true, true, true, true);
    OddOfFour(false, true, false, false);
    OddOfFour(true, false, false, true);
  }

  lemma OddOfFour(a: bool, b: bool, c: bool, d: bool)
    ensures Odd([a, b, c, d]) == (((a != b) != c) != d)
  {
    assert Odd([a, b, c, d]) == (Odd([a, b, c]) != d) by { assert [a, b, c, d][..3] == [a, b, c]; }
    assert Odd([a, b, c]) == (Odd([a, b]) != c) by { assert [a, b, c][..2] == [a, b]; }
    assert Odd([a, b]) == (Odd([a]) != b) by { assert [a, b][..1] == [a]; }
    assert Odd([a]) == a by { assert [a][..0] == []; }
  }

  /** G has evenly many terms, so x + 1 divides it and every step keeps parity. */
  lemma TimesXKeepsParity(c: Residue)
    ensures Odd(TimesX(c)) == Odd(c)
  {
    assert c == [c[0]] + c[1..];
    OddConcat([c[0]], c[1..]);
    OddConcat(c[1..], [false]);
    assert [c[0]][..0] == [] && [false][..0] == [];
    OddXor(c[1..] + [false], GeneratorLow());
    GeneratorLowOdd();
  }

  /** A frame and its remainder have the same parity of ones. */
  lemma {:induction false} RemainderKeepsParity(p: Bits)
    ensures Odd(Remainder(p)) == Odd(p)
  {
    if p == [] {
      ZerosNotOdd(24);
    } else {
      var r := TimesX(Remainder(p[..|p| - 1]));
      RemainderKeepsParity(p[..|p| - 1]);
      TimesXKeepsParity(Remainder(p[..|p| - 1]));
      assert AddConstant(r, p[|p| - 1])[..23] == r[..23];
    }
  }

  // ----- bursts

  /** All ones of the error pattern lie in a window of 24 consecutive positions. */
  predicate Burst(e: Bits, before: nat, window: Bits, after: nat) {
    |window| <= 24 && e == Zeros(before) + (window + Zeros(after))
  }

  /** No nonzero burst is a multiple of G, because x is invertible modulo G. */
  lemma BurstDetected(e: Bits, before: nat, window: Bits, after: nat)
    requires Burst(e, before, window, after) && window != Zeros(|window|)
    ensures Remainder(e) != Zeros(24)
  {
    hide Remainder, TimesXPow;
    RemainderLeadingZeros(before, window + Zeros(after));
    RemainderTrailingZeros(window, after);
    NonzeroStaysNonzero(Remainder(window), after) by {
      RemainderShort(window);
      NonzeroPadded(window, 24 - |window|);
    }
  }

  lemma NonzeroPadded(p: Bits, n: nat)
    requires p != Zeros(|p|)
    ensures Zeros(n) + p != Zeros(n + |p|)
  {
    assert p == (Zeros(n) + p)[n..];
  }

  lemma NonzeroStaysNonzero(c: Residue, k: nat)
    requires c != Zeros(24)
    ensures TimesXPow(c, k) != Zeros(24)
  {
    if TimesXPow(c, k) == Zeros(24) {
      TimesXPowZero(k);
      TimesXPowInjective(c, Zeros(24), k);
    }
  }
}
