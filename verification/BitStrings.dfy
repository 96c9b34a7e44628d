// Machine words as sequences of bits, most significant first. The source's
// uint8_t values are modelled by integers below 256 and its uint32_t
// accumulators by their 32 bits, so that exclusive-or, shifts and masks are
// operations on positions and no solver bit-vectors are needed.
module BitStrings {
  type Bits = seq<bool>

  type Byte = b: int | 0 <= b < 256
  type Bytes = seq<Byte>

  function Xor(a: Bits, b: Bits): (r: Bits)
    requires |a| == |b|
    ensures |r| == |a|
    ensures forall i :: 0 <= i < |a| ==> r[i] == (a[i] != b[i])
  {
    seq(|a|, i requires 0 <= i < |a| => a[i] != b[i])
  }

  function Zeros(n: nat): (r: Bits)
    ensures |r| == n
    ensures forall i :: 0 <= i < n ==> !r[i]
  {
    seq(n, _ => false)
  }

  function Ones(n: nat): (r: Bits)
    ensures |r| == n
    ensures forall i :: 0 <= i < n ==> r[i]
  {
    seq(n, _ => true)
  }

  /** The pattern with a single one, at position i of n. */
  function Unit(n: nat, i: nat): (r: Bits)
    requires i < n
    ensures |r| == n
    ensures forall k :: 0 <= k < n ==> r[k] == (k == i)
  {
    seq(n, k => k == i)
  }

  function Pow2(k: nat): (r: nat)
    ensures r > 0
  {
    if k == 0 then 1 else 2 * Pow2(k - 1)
  }

  /** The k low bits of n. */
  function ToBits(n: nat, k: nat): (r: Bits)
    ensures |r| == k
  {
    if k == 0 then [] else ToBits(n / 2, k - 1) + [n % 2 == 1]
  }

  function FromBits(p: Bits): nat {
    if p == [] then 0 else 2 * FromBits(p[..|p| - 1]) + (if p[|p| - 1] then 1 else 0)
  }

  function ByteBits(b: Byte): (r: Bits)
    ensures |r| == 8
  {
    ToBits(b, 8)
  }

  /** The uint8_t with the given bits. */
  function ByteOf(p: Bits): (b: Byte)
    requires |p| == 8
    ensures ByteBits(b) == p
  {
    FromBitsRange(p);
    ToFrom(p);
    FromBits(p)
  }

  /** The bits of a message, most significant bit of the first byte first. */
  function MessageBits(m: Bytes): (r: Bits)
    ensures |r| == 8 * |m|
  {
    if m == [] then [] else MessageBits(m[..|m| - 1]) + ByteBits(m[|m| - 1])
  }

  lemma {:induction false} FromBitsRange(p: Bits)
    ensures FromBits(p) < Pow2(|p|)
    ensures |p| == 8 ==> FromBits(p) < 256
  {
    if p != [] { FromBitsRange(p[..|p| - 1]); }
    assert Pow2(8) == 256;
  }

  lemma {:induction false} ToFrom(p: Bits)
    ensures ToBits(FromBits(p), |p|) == p
  {
    if p != [] { ToFrom(p[..|p| - 1]); }
  }

  lemma {:induction false} FromTo(n: nat, k: nat)
    requires n < Pow2(k)
    ensures FromBits(ToBits(n, k)) == n
  {
    if k > 0 {
      FromTo(n / 2, k - 1);
      assert ToBits(n, k)[..k - 1] == ToBits(n / 2, k - 1);
    }
  }

  lemma ByteBitsInjective(a: Byte, b: Byte)
    requires ByteBits(a) == ByteBits(b)
    ensures a == b
  {
    assert Pow2(8) == 256;
    FromTo(a, 8);
    FromTo(b, 8);
  }

  lemma {:induction false} MessageBitsInjective(a: Bytes, b: Bytes)
    requires |a| == |b| && MessageBits(a) == MessageBits(b)
    ensures a == b
  {
    if a != [] {
      var n := |a| - 1;
      assert MessageBits(a)[..8 * n] == MessageBits(a[..n]) && MessageBits(b)[..8 * n] == MessageBits(b[..n]);
      assert MessageBits(a)[8 * n..] == ByteBits(a[n]) && MessageBits(b)[8 * n..] == ByteBits(b[n]);
      MessageBitsInjective(a[..n], b[..n]);
      ByteBitsInjective(a[n], b[n]);
    }
  }

  lemma XorZeros(p: Bits)
    ensures Xor(Zeros(|p|), p) == p && Xor(p, Zeros(|p|)) == p
  {}

  lemma XorSelf(p: Bits)
    ensures Xor(p, p) == Zeros(|p|)
  {}

  lemma XorConcat(a: Bits, b: Bits, c: Bits, d: Bits)
    requires |a| == |c| && |b| == |d|
    ensures Xor(a + b, c + d) == Xor(a, c) + Xor(b, d)
  {}

  lemma XorAssociates(p: Bits, q: Bits, r: Bits)
    requires |p| == |q| == |r|
    ensures Xor(Xor(p, q), r) == Xor(p, Xor(q, r))
  {}

  lemma XorTwice(p: Bits, q: Bits)
    requires |p| == |q|
    ensures Xor(Xor(p, q), q) == p
  {}

  lemma {:induction false} ToBitsZero(k: nat)
    ensures ToBits(0, k) == Zeros(k)
  {
    if k > 0 { ToBitsZero(k - 1); }
  }

  /** n times 2^k. */
  function Scale(n: nat, k: nat): nat {
    if k == 0 then n else 2 * Scale(n, k - 1)
  }

  lemma {:induction false} ScaleAdds(n: nat, j: nat, k: nat)
    ensures Scale(Scale(n, j), k) == Scale(n, j + k)
  {
    if k > 0 { ScaleAdds(n, j, k - 1); }
  }

  lemma {:induction false} FromBitsConcat(p: Bits, q: Bits)
    ensures FromBits(p + q) == Scale(FromBits(p), |q|) + FromBits(q)
  {
    if q == [] {
      assert p + q == p;
    } else {
      assert (p + q)[..|p + q| - 1] == p + q[..|q| - 1];
      FromBitsConcat(p, q[..|q| - 1]);
    }
  }

  lemma {:induction false} FromBitsZeros(k: nat)
    ensures FromBits(Zeros(k)) == 0
  {
    if k > 0 {
      assert Zeros(k)[..k - 1] == Zeros(k - 1);
      FromBitsZeros(k - 1);
    }
  }

  lemma {:induction false} FromBitsComplement(p: Bits)
    ensures FromBits(Xor(p, Ones(|p|))) == Pow2(|p|) - 1 - FromBits(p)
  {
    if p != [] {
      var n := |p| - 1;
      assert Xor(p, Ones(|p|))[..n] == Xor(p[..n], Ones(n));
      FromBitsComplement(p[..n]);
    }
  }

  /** The value with one bit of n inverted, where p is the power of two of that bit. */
  function Flip(n: nat, p: nat): nat
    requires p > 0
  {
    if (n / p) % 2 == 1 then FlipRange(n, p); n - p else n + p
  }

  lemma FlipRange(n: nat, p: nat)
    requires p > 0 && (n / p) % 2 == 1
    ensures n >= p
  {
    assert n == p * (n / p) + n % p;
  }

  lemma DivDiv(n: nat, j: nat)
    ensures (n / 2) / Pow2(j) == n / Pow2(j + 1)
  {
    var p := Pow2(j);
    var q, r := n / Pow2(j + 1), n % Pow2(j + 1);
    assert n == (2 * p) * q + r;
    assert n / 2 == p * q + r / 2;
    DivUnique(n / 2, p, q, r / 2);
  }

  lemma DivUnique(n: nat, p: nat, q: nat, r: nat)
    requires p > 0 && r < p && n == p * q + r
    ensures n / p == q
  {
    MulAway(p, n / p - q);
    assert p * (n / p - q) == r - n % p;
  }

  lemma MulAway(p: int, k: int)
    requires p > 0
    ensures k >= 1 ==> p * k >= p
    ensures k <= -1 ==> p * k <= -p
  {}

  lemma {:induction false} FromBitsFlip(p: Bits, j: nat)
    requires j < |p|
    ensures FromBits(Xor(p, Unit(|p|, |p| - 1 - j))) == Flip(FromBits(p), Pow2(j))
  {
    var n := |p| - 1;
    var u := Unit(|p|, n - j);
    if j == 0 {
      assert Xor(p, u)[..n] == p[..n];
    } else {
      assert Xor(p, u)[..n] == Xor(p[..n], Unit(n, n - j));
      FromBitsFlip(p[..n], j - 1);
      DivDiv(FromBits(p), j - 1);
    }
  }

  lemma {:induction false} FromBitsUnit(k: nat, i: nat)
    requires i < k
    ensures FromBits(Unit(k, i)) == Pow2(k - 1 - i)
  {
    if i == k - 1 {
      assert Unit(k, i)[..k - 1] == Zeros(k - 1);
      FromBitsZeros(k - 1);
    } else {
      assert Unit(k, i)[..k - 1] == Unit(k - 1, i);
      FromBitsUnit(k - 1, i);
    }
  }
}
