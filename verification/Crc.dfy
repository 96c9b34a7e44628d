// crc.h and crc.cc: the table-driven CRC, the residual of a message, and the
// syndrome tables behind single-bit correction.
module Crc {
  import opened BitStrings
  import opened Polynomial
  import opened Powers

  /** A uint32_t. */
  type Word = w: Bits | |w| == 32 witness Zeros(32)

  function Shl(w: Word, k: nat): Word
    requires k <= 32
  {
    w[k..] + Zeros(k)
  }

  /** A uint32_t below 2^24 with the given bits. */
  function WordOf(c: Residue): Word {
    Zeros(8) + c
  }

  function CrcPolynomial(): Word {
    WordOf(GeneratorLow())
  }

  /** crcgen: k shift steps, unrolled at compile time in the source. */
  function CrcGen(c: Word, k: nat): Word
    decreases k
  {
    if k == 0 then Zeros(8) + c[8..]
    else CrcGen(Xor(if c[8] then CrcPolynomial() else Zeros(32), Shl(c, 1)), k - 1)
  }

  function CrcTable(n: Byte): Word {
    CrcGen(Shl(Zeros(24) + ByteBits(n), 16), 8)
  }

  /** The CRC of data: the remainder of data times x^24. */
  function CrcValue(data: Bytes): Residue {
    TimesXPow(Remainder(MessageBits(data)), 24)
  }

  /** The residual of a message: the remainder of the whole frame, parity included. */
  function Residual(m: Bytes): Residue {
    if |m| <= 3 then Zeros(24) else Remainder(MessageBits(m))
  }

  method ComputeCrc(data: Bytes) returns (r: Word)
    ensures r == WordOf(CrcValue(data))
  {
    hide CrcTable, CrcValue, ByteBits, MessageBits;
    var c: Word := Zeros(32);
    MessageBitsEmpty();
    assert data[..0] == [];
    for i := 0 to |data|
      invariant c[8..] == CrcValue(data[..i])
    {
      var index := ByteOf(Xor(ByteBits(data[i]), c[8..16]));
      CrcStep(data[..i], data[i], c, index);
      assert data[..i + 1] == data[..i] + [data[i]];
      c := Xor(Shl(c, 8), CrcTable(index));
    }
    assert data[..|data|] == data;
    return Zeros(8) + c[8..];
  }

  method MessageResidual(message: Bytes) returns (r: Word)
    ensures r == WordOf(Residual(message))
  {
    var len := |message|;
    if len <= 3 {
      r := Zeros(32);
      assert Zeros(32) == Zeros(8) + Zeros(24);
    } else {
      var residual := ComputeCrc(message[..len - 3]);
      residual := Xor(residual, Shl(Zeros(24) + ByteBits(message[len - 3]), 16));
      residual := Xor(residual, Shl(Zeros(24) + ByteBits(message[len - 2]), 8));
      residual := Xor(residual, Zeros(24) + ByteBits(message[len - 1]));
      ResidualParts(message);
      r := residual;
    }
  }

  // ----- the table realises eight shift steps at once

  lemma GenStep(c: Word)
    ensures Xor(if c[8] then CrcPolynomial() else Zeros(32), Shl(c, 1))[8..] == TimesX(c[8..])
  {}

  lemma {:induction false} CrcGenShifts(c: Word, k: nat)
    ensures CrcGen(c, k) == WordOf(TimesXPow(c[8..], k))
    decreases k
  {
    if k > 0 {
      var next := Xor(if c[8] then CrcPolynomial() else Zeros(32), Shl(c, 1));
      GenStep(c);
      CrcGenShifts(next, k - 1);
      TimesXPowAdds(c[8..], 1, k - 1);
      assert TimesXPow(c[8..], 1) == TimesX(TimesXPow(c[8..], 0));
    }
  }

  lemma TableEntry(n: Byte)
    ensures CrcTable(n) == WordOf(TimesXPow(ByteBits(n) + Zeros(16), 8))
  {
    var w := Shl(Zeros(24) + ByteBits(n), 16);
    assert w[8..] == ByteBits(n) + Zeros(16);
    CrcGenShifts(w, 8);
  }

  /** The top byte of the 32-bit accumulator never matters. */
  lemma TableStep(c: Word, b: Byte, index: Byte)
    requires ByteBits(index) == Xor(ByteBits(b), c[8..16])
    ensures Xor(Shl(c, 8), CrcTable(index))[8..] == TimesXPow(Xor(c[8..], ByteBits(b) + Zeros(16)), 8)
  {
    hide TimesXPow, CrcTable, ToBits;
    TableEntry(index);
    var high, low := ByteBits(index), c[16..];
    TimesXPowShifts(low, 8);
    TimesXPowLinear(Zeros(8) + low, high + Zeros(16), 8);
    assert Xor(Zeros(8) + low, high + Zeros(16)) == Xor(c[8..], ByteBits(b) + Zeros(16));
    assert Shl(c, 8)[8..] == low + Zeros(8);
  }

  lemma MessageBitsEmpty()
    ensures MessageBits([]) == [] && CrcValue([]) == Zeros(24)
  {
    TimesXPowZero(24);
  }

  lemma MessageBitsSnoc(m: Bytes, b: Byte)
    ensures MessageBits(m + [b]) == MessageBits(m) + ByteBits(b)
  {
    assert (m + [b])[..|m|] == m;
  }

  lemma CrcValueSnoc(m: Bytes, b: Byte)
    ensures CrcValue(m + [b]) == TimesXPow(Xor(CrcValue(m), ByteBits(b) + Zeros(16)), 8)
  {
    hide TimesXPow, Remainder, ToBits;
    var r, bits := Remainder(MessageBits(m)), ByteBits(b);
    MessageBitsSnoc(m, b);
    RemainderConcat(MessageBits(m), bits);
    RemainderShort(bits);
    TimesXPowLinear(TimesXPow(r, 8), Zeros(16) + bits, 24);
    TimesXPowAdds(r, 8, 24);
    TimesXPowAdds(r, 24, 8);
    TimesXPowAdds(Zeros(16) + bits, 16, 8);
    TimesXPowShifts(bits + Zeros(0), 16);
    assert bits + Zeros(0) == bits;
    TimesXPowLinear(TimesXPow(r, 24), bits + Zeros(16), 8);
  }

  lemma CrcStep(m: Bytes, b: Byte, c: Word, index: Byte)
    requires c[8..] == CrcValue(m) && ByteBits(index) == Xor(ByteBits(b), c[8..16])
    ensures Xor(Shl(c, 8), CrcTable(index))[8..] == CrcValue(m + [b])
  {
    TableStep(c, b, index);
    CrcValueSnoc(m, b);
  }

  lemma ResidualParts(m: Bytes)
    requires |m| > 3
    ensures WordOf(Residual(m)) ==
      Xor(Xor(Xor(WordOf(CrcValue(m[..|m| - 3])),
                  Shl(Zeros(24) + ByteBits(m[|m| - 3]), 16)),
              Shl(Zeros(24) + ByteBits(m[|m| - 2]), 8)),
          Zeros(24) + ByteBits(m[|m| - 1]))
  {
    hide TimesXPow, Remainder, ByteBits, MessageBits;
    var n := |m|;
    var a, b, c := ByteBits(m[n - 3]), ByteBits(m[n - 2]), ByteBits(m[n - 1]);
    var parity := a + b + c;
    ParityBits(m);
    RemainderConcat(MessageBits(m[..n - 3]), parity);
    RemainderShort(parity);
    assert Zeros(0) + parity == parity;
    FoldParity(CrcValue(m[..n - 3]), a, b, c);
  }

  lemma FoldParity(r: Residue, a: Bits, b: Bits, c: Bits)
    requires |a| == 8 && |b| == 8 && |c| == 8
    ensures WordOf(Xor(r, a + b + c)) ==
      Xor(Xor(Xor(WordOf(r), Shl(Zeros(24) + a, 16)), Shl(Zeros(24) + b, 8)), Zeros(24) + c)
  {}

  lemma ParityBits(m: Bytes)
    requires |m| > 3
    ensures MessageBits(m) == MessageBits(m[..|m| - 3]) +
      (ByteBits(m[|m| - 3]) + ByteBits(m[|m| - 2]) + ByteBits(m[|m| - 1]))
  {
    hide ByteBits, MessageBits;
    var n := |m|;
    var start, a, b, c := m[..n - 3], m[n - 3], m[n - 2], m[n - 1];
    assert m == start + [a] + [b] + [c];
    MessageBitsSnoc(start + [a] + [b], c);
    MessageBitsSnoc(start + [a], b);
    MessageBitsSnoc(start, a);
    ConcatAssociates(MessageBits(start), ByteBits(a), ByteBits(b), ByteBits(c));
  }

  lemma ConcatAssociates(p: Bits, a: Bits, b: Bits, c: Bits)
    ensures p + a + b + c == p + (a + b + c)
  {}

  // ----- what the residual says about a frame

  /** A frame is a multiple of G plus its residual, and no other residual fits. */
  lemma ResidualIsDivisionRemainder(m: Bytes, r: Residue)
    requires |m| > 3
    ensures r == Residual(m) <==>
      exists q: Bits :: |q| == 8 * |m| - 24 && MessageBits(m) == Xor(TimesG(q), Zeros(|q|) + r)
  {
    hide Remainder, TimesG, MessageBits;
    var p := MessageBits(m);
    if r == Residual(m) {
      var q := LongDivision(p);
    }
    forall q: Bits | |q| == 8 * |m| - 24 && p == Xor(TimesG(q), Zeros(|q|) + r)
      ensures r == Residual(m)
    {
      RemainderIsUnique(p, q, r);
    }
  }

  /** Three parity bytes make a valid frame exactly when they are the CRC of what precedes them. */
  lemma AppendedParity(data: Bytes, parity: Bytes)
    requires data != [] && |parity| == 3
    ensures Residual(data + parity) == Zeros(24) <==> MessageBits(parity) == CrcValue(data)
  {
    hide MessageBits, TimesXPow, Remainder;
    var p := MessageBits(parity);
    MessageBitsConcat(data, parity);
    RemainderConcat(MessageBits(data), p);
    RemainderShort(p);
    assert Zeros(0) + p == p;
    XorSelf(p);
    XorCancels(CrcValue(data), p);
  }

  lemma XorCancels(p: Bits, q: Bits)
    requires |p| == |q|
    ensures Xor(p, q) == Zeros(|p|) <==> p == q
  {
    if Xor(p, q) == Zeros(|p|) {
      forall i | 0 <= i < |p| ensures p[i] == q[i] {
        assert !Xor(p, q)[i];
      }
    } else if p == q {
      XorSelf(p);
    }
  }

  lemma {:induction false} MessageBitsConcat(a: Bytes, b: Bytes)
    ensures MessageBits(a + b) == MessageBits(a) + MessageBits(b)
  {
    if b == [] {
      assert a + b == a;
    } else {
      var n := |b| - 1;
      assert (a + b)[..|a + b| - 1] == a + b[..n];
      MessageBitsConcat(a, b[..n]);
    }
  }

  // ----- errors

  function ByteXor(a: Byte, b: Byte): Byte {
    ByteOf(Xor(ByteBits(a), ByteBits(b)))
  }

  /** The byte with only bit k set, counting from the most significant one. */
  function BitMask(k: nat): Byte
    requires k < 8
  {
    ByteOf(Unit(8, k))
  }

  /** The message with bit i inverted, counting from the most significant bit of the first byte. */
  function FlipBit(m: Bytes, i: nat): Bytes
    requires i < 8 * |m|
  {
    m[i / 8 := ByteXor(m[i / 8], BitMask(i % 8))]
  }

  lemma {:induction false} FlipBitBits(m: Bytes, i: nat)
    requires i < 8 * |m|
    ensures MessageBits(FlipBit(m, i)) == Xor(MessageBits(m), Unit(8 * |m|, i))
  {
    hide ByteBits;
    var n := |m| - 1;
    var init, bits := MessageBits(m[..n]), ByteBits(m[n]);
    var f := FlipBit(m, i);
    if i / 8 == n {
      assert f[..n] == m[..n];
      assert Unit(8 * |m|, i) == Zeros(8 * n) + Unit(8, i % 8);
      XorConcat(init, bits, Zeros(8 * n), Unit(8, i % 8));
      XorZeros(init);
    } else {
      assert f[..n] == FlipBit(m[..n], i);
      FlipBitBits(m[..n], i);
      assert Unit(8 * |m|, i) == Unit(8 * n, i) + Zeros(8);
      XorConcat(init, bits, Unit(8 * n, i), Zeros(8));
      XorZeros(bits);
    }
  }

  lemma FlipTwice(m: Bytes, i: nat)
    requires i < 8 * |m|
    ensures FlipBit(FlipBit(m, i), i) == m
  {
    hide MessageBits;
    FlipBitBits(m, i);
    FlipBitBits(FlipBit(m, i), i);
    XorTwice(MessageBits(m), Unit(8 * |m|, i));
    MessageBitsInjective(FlipBit(FlipBit(m, i), i), m);
  }

  /** What an error pattern adds to the residual, whatever the frame. */
  lemma ResidualUnderError(m: Bytes, m': Bytes, e: Bits)
    requires |m| == |m'| > 3 && |e| == 8 * |m| && MessageBits(m') == Xor(MessageBits(m), e)
    ensures Residual(m') == Xor(Residual(m), Remainder(e))
  {
    RemainderXor(MessageBits(m), e);
  }

  /** The syndrome of a single error at bit i of n. */
  function Syndrome(n: nat, i: nat): Residue
    requires i < n
  {
    Remainder(Unit(n, i))
  }

  lemma SyndromesDiffer(n: nat, i: nat, j: nat)
    requires i < j < n <= 112
    ensures Syndrome(n, i) != Syndrome(n, j)
  {
    RemainderUnit(n, i);
    RemainderUnit(n, j);
    PowersDiffer(n - 1 - j, n - 1 - i);
  }

  lemma SyndromeNonzero(n: nat, i: nat)
    requires i < n
    ensures Syndrome(n, i) != Zeros(24)
  {
    RemainderUnit(n, i);
    assert Unit(24, 23)[23];
    NonzeroStaysNonzero(Unit(24, 23), n - 1 - i);
  }

  lemma SyndromeOdd(n: nat, i: nat)
    requires i < n
    ensures Odd(Syndrome(n, i))
  {
    UnitOdd(n, i);
    RemainderKeepsParity(Unit(n, i));
  }

  /** The bit whose error explains a residual, among the bits after the DF field; -1 if there is none. */
  ghost function ErrorPosition(n: nat, c: Residue): (r: int)
    ensures r == -1 || (5 <= r < n && Syndrome(n, r) == c)
    ensures r == -1 ==> forall i :: 5 <= i < n ==> Syndrome(n, i) != c
  {
    if exists i :: 5 <= i < n && Syndrome(n, i) == c then
      var i: nat :| 5 <= i < n && Syndrome(n, i) == c;
      i
    else -1
  }

  lemma PositionOfSyndrome(n: nat, i: nat)
    requires 5 <= i < n <= 112
    ensures ErrorPosition(n, Syndrome(n, i)) == i
  {
    hide Syndrome;
    var j := ErrorPosition(n, Syndrome(n, i));
    if 0 <= j < i { SyndromesDiffer(n, j, i); }
    if i < j { SyndromesDiffer(n, i, j); }
  }

  /** The last 56 bits of a long frame have the syndromes of the bits of a short one. */
  lemma SyndromeShift(i: nat)
    requires i < 56
    ensures Syndrome(112, i + 56) == Syndrome(56, i)
  {
    RemainderUnit(112, i + 56);
    RemainderUnit(56, i);
  }

  // ----- the syndrome tables

  lemma WordOfInjective(c: Residue, d: Residue)
    requires WordOf(c) == WordOf(d)
    ensures c == d
  {
    assert c == WordOf(c)[8..] && d == WordOf(d)[8..];
  }

  /** A table that maps the syndromes of bits 5 to stop - 1 to these bits. */
  ghost predicate TableUpTo(t: map<Word, nat>, n: nat, stop: nat)
    requires stop <= n
  {
    && (forall s :: s in t ==> 5 <= t[s] < stop && s == WordOf(Syndrome(n, t[s])))
    && (forall i :: 5 <= i < stop ==> WordOf(Syndrome(n, i)) in t)
  }

  ghost predicate TableFor(t: map<Word, nat>, n: nat) {
    TableUpTo(t, n, n)
  }

  lemma TableExtends(t: map<Word, nat>, n: nat, i: nat)
    requires 5 <= i < n && TableUpTo(t, n, i)
    ensures TableUpTo(t[WordOf(Syndrome(n, i)) := i], n, i + 1)
  {}

  lemma TableLookup(t: map<Word, nat>, n: nat, c: Residue)
    requires n <= 112 && TableFor(t, n)
    ensures WordOf(c) in t <==> ErrorPosition(n, c) >= 0
    ensures WordOf(c) in t ==> t[WordOf(c)] == ErrorPosition(n, c)
  {
    hide Syndrome, WordOf;
    var w, e := WordOf(c), ErrorPosition(n, c);
    if w in t {
      WordOfInjective(c, Syndrome(n, t[w]));
      if e < t[w] { SyndromesDiffer(n, e, t[w]); }
      if t[w] < e { SyndromesDiffer(n, t[w], e); }
    }
  }

  lemma {:induction false} MessageBitsZero(m: Bytes)
    requires forall i :: 0 <= i < |m| ==> m[i] == 0
    ensures MessageBits(m) == Zeros(8 * |m|)
  {
    if m != [] {
      MessageBitsZero(m[..|m| - 1]);
      ToBitsZero(8);
    }
  }

  lemma SingleBitResidual(m: Bytes, i: nat)
    requires |m| > 3 && i < 8 * |m| && forall j :: 0 <= j < |m| ==> m[j] == 0
    ensures Residual(FlipBit(m, i)) == Syndrome(8 * |m|, i)
  {
    MessageBitsZero(m);
    FlipBitBits(m, i);
    XorZeros(Unit(8 * |m|, i));
  }

  /** The two lazily filled maps of namespace crc::detail. */
  class SyndromeTables {
    var short: map<Word, nat>
    var long: map<Word, nat>

    ghost predicate Valid()
      reads this
    {
      && (short == map[] || TableFor(short, 56))
      && (long == map[] || TableFor(long, 112))
    }

    constructor ()
      ensures Valid()
    {
      short, long := map[], map[];
    }

    method InitSyndromes()
      modifies this
      ensures TableFor(short, 56) && TableFor(long, 112)
    {
      var s := FillTable(7);
      var l := FillTable(14);
      short, long := s, l;
    }

    method CorrectableBitShort(syndrome: Word) returns (bit: int)
      requires Valid()
      requires syndrome[..8] == Zeros(8)
      modifies this
      ensures Valid()
      ensures bit == ErrorPosition(56, syndrome[8..])
    {
      if short == map[] {
        InitSyndromes();
      }
      TableLookup(short, 56, syndrome[8..]);
      assert syndrome == WordOf(syndrome[8..]);
      bit := if syndrome in short then short[syndrome] else -1;
    }

    method CorrectableBitLong(syndrome: Word) returns (bit: int)
      requires Valid()
      requires syndrome[..8] == Zeros(8)
      modifies this
      ensures Valid()
      ensures bit == ErrorPosition(112, syndrome[8..])
    {
      if long == map[] {
        InitSyndromes();
      }
      TableLookup(long, 112, syndrome[8..]);
      assert syndrome == WordOf(syndrome[8..]);
      bit := if syndrome in long then long[syndrome] else -1;
    }
  }

  method FlipInPlace(message: array<Byte>, i: nat)
    requires i < 8 * message.Length
    modifies message
    ensures message[..] == FlipBit(old(message[..]), i)
  {
    message[i / 8] := ByteXor(message[i / 8], BitMask(i % 8));
  }

  /** One loop of init_syndromes: flip each bit of a zero message, record its residual, flip it back. */
  method FillTable(length: nat) returns (t: map<Word, nat>)
    requires length == 7 || length == 14
    ensures TableFor(t, 8 * length)
  {
    hide *;
    t := map[];
    var message := new Byte[length](_ => 0);
    ghost var zero := message[..];
    assert TableUpTo(t, 8 * length, 5) by { EmptyTable(8 * length); }
    for i := 5 to 8 * length
      invariant message[..] == zero
      invariant TableUpTo(t, 8 * length, i)
    {
      hide *;
      SingleBitResidual(zero, i);
      FlipInPlace(message, i);
      var residual := MessageResidual(message[..]);
      TableExtends(t, 8 * length, i);
      t := t[residual := i];
      FlipTwice(zero, i);
      FlipInPlace(message, i);
    }
    CompleteTable(t, 8 * length);
  }

  lemma EmptyTable(n: nat)
    requires n >= 5
    ensures TableUpTo(map[], n, 5)
  {}

  lemma CompleteTable(t: map<Word, nat>, n: nat)
    requires TableUpTo(t, n, n)
    ensures TableFor(t, n)
  {}
}
