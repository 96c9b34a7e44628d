// The powers of x modulo G that single-bit errors produce, computed on
// integers. Only every eighth power is needed: multiplying by x^b with b < 24
// turns the others into these or into single ones.
module Powers {
  import opened BitStrings
  import opened Polynomial

  /** Exclusive-or with 0xfff409, on the two halves of a 24-bit value. */
  function XorG(high: nat, low: nat): nat {
    if high < 4096 then (4095 - high) * 4096 + XorLow(low) else 0
  }

  /** Exclusive-or with 0x409. */
  function XorLow(low: nat): nat {
    Flip(Flip(Flip(low, 1024), 8), 1)
  }

  /** TimesX on the value of the 24 coefficients. */
  function StepNat(n: nat): nat {
    if n < 0x800000 then 2 * n
    else
      var e := 2 * n - 0x1000000;
      XorG(e / 4096, e % 4096)
  }

  lemma ScaleBy12(n: nat)
    ensures Scale(n, 12) == 4096 * n
  {
    ScaleAdds(n, 4, 4);
    ScaleAdds(n, 8, 4);
    ScaleBy4(n);
    ScaleBy4(16 * n);
    ScaleBy4(256 * n);
  }

  lemma ScaleBy4(n: nat)
    ensures Scale(n, 4) == 16 * n
  {
    ScaleAdds(n, 2, 2);
    ScaleBy2(n);
    ScaleBy2(4 * n);
  }

  lemma ScaleBy2(n: nat)
    ensures Scale(n, 2) == 4 * n
  {
    assert Scale(n, 1) == 2 * n;
  }

  lemma Pow2Values()
    ensures Pow2(0) == 1 && Pow2(3) == 8 && Pow2(10) == 1024 && Pow2(12) == 4096
    ensures Pow2(23) == 0x800000 && Pow2(24) == 0x1000000
  {
    assert Pow2(8) == 256;
    assert Pow2(16) == 65536;
  }

  lemma GeneratorHalves()
    ensures GeneratorLow()[..12] == Ones(12)
    ensures GeneratorLow()[12..] == Xor(Xor(Unit(12, 1), Unit(12, 8)), Unit(12, 11))
  {}

  lemma XorThree(low: Bits)
    requires |low| == 12
    ensures Xor(low, GeneratorLow()[12..]) == Xor(Xor(Xor(low, Unit(12, 1)), Unit(12, 8)), Unit(12, 11))
  {
    GeneratorHalves();
  }

  lemma FlipThree(low: Bits)
    requires |low| == 12
    ensures FromBits(Xor(low, GeneratorLow()[12..])) == XorLow(FromBits(low))
  {
    XorThree(low);
    Pow2Values();
    var a := Xor(low, Unit(12, 1));
    FromBitsFlip(low, 10);
    FromBitsFlip(a, 3);
    FromBitsFlip(Xor(a, Unit(12, 8)), 0);
  }

  lemma XorGIsXor(high: Bits, low: Bits)
    requires |high| == 12 && |low| == 12
    ensures FromBits(Xor(high + low, GeneratorLow())) == XorG(FromBits(high), FromBits(low))
  {
    GeneratorHalves();
    var g := GeneratorLow();
    assert g == Ones(12) + g[12..];
    hide *;
    XorConcat(high, low, Ones(12), g[12..]);
    FlipThree(low);
    FromBitsComplement(high);
    JoinHalves(Xor(high, Ones(12)), Xor(low, g[12..]));
    JoinHalves(high, low);
    Pow2Values();
    XorGAt(FromBits(high), FromBits(low));
  }

  /** The constant of the source. */
  lemma GeneratorValue()
    ensures FromBits(GeneratorLow()) == 0xfff409
  {
    XorGIsXor(Zeros(12), Zeros(12));
    FromBitsZeros(12);
    assert Zeros(12) + Zeros(12) == Zeros(24);
    hide FromBits, GeneratorLow;
    XorZeros(GeneratorLow());
    assert Flip(Flip(Flip(0, 1024), 8), 1) == 0x409;
  }

  lemma XorGAt(high: nat, low: nat)
    requires high < 4096
    ensures XorG(high, low) == (4095 - high) * 4096 + XorLow(low)
  {}

  lemma JoinHalves(high: Bits, low: Bits)
    requires |high| == 12 && |low| == 12
    ensures FromBits(high + low) == FromBits(high) * 4096 + FromBits(low)
    ensures FromBits(high) < 4096 && FromBits(low) < 4096
  {
    FromBitsConcat(high, low);
    ScaleBy12(FromBits(high));
    FromBitsRange(high);
    FromBitsRange(low);
    Pow2Values();
  }

  lemma StepNatIsTimesX(c: Residue)
    ensures FromBits(TimesX(c)) == StepNat(FromBits(c))
  {
    hide FromBits, XorG, XorLow;
    var shifted := c[1..] + [false];
    ShiftNat(c);
    assert shifted == shifted[..12] + shifted[12..];
    JoinHalves(shifted[..12], shifted[12..]);
    XorGIsXor(shifted[..12], shifted[12..]);
  }

  lemma ShiftNat(c: Residue)
    ensures c[0] == (FromBits(c) >= 0x800000) && FromBits(c) < 0x1000000
    ensures FromBits(c[1..] + [false]) == 2 * FromBits(c) - if c[0] then 0x1000000 else 0
  {
    Pow2Values();
    assert c == [c[0]] + c[1..];
    FromBitsConcat([c[0]], c[1..]);
    FromBitsConcat(c[1..], [false]);
    FromBitsRange(c[1..]);
    ScaleZero(23);
  }

  lemma {:induction false} ScaleZero(k: nat)
    ensures Scale(0, k) == 0 && Scale(1, k) == Pow2(k)
  {
    if k > 0 { ScaleZero(k - 1); }
  }

  function Steps(n: nat, k: nat): nat
    decreases k
  {
    if k == 0 then n else Steps(StepNat(n), k - 1)
  }

  lemma {:induction false} StepsAdd(n: nat, j: nat, k: nat)
    ensures Steps(n, j + k) == Steps(Steps(n, j), k)
    decreases j
  {
    if j > 0 { StepsAdd(StepNat(n), j - 1, k); }
  }

  lemma {:induction false} PowerSteps(c: Residue, k: nat)
    ensures FromBits(TimesXPow(c, k)) == Steps(FromBits(c), k)
    decreases k
  {
    if k > 0 {
      StepNatIsTimesX(c);
      PowerSteps(TimesX(c), k - 1);
      TimesXPowAdds(c, 1, k - 1);
      assert TimesXPow(c, 1) == TimesX(TimesXPow(c, 0));
    }
  }

  lemma Doubled(n: nat)
    requires n < 0x800000
    ensures StepNat(n) == 2 * n
  {}

  /** One reducing step, on the parts of the 24 bits that 0xfff409 touches; bits 9 and 2 are q and s. */
  lemma Reduced(h: nat, p: nat, q: nat, r: nat, s: nat, t: nat)
    requires h < 4096 && p < 2 && q < 2 && r < 64 && s < 2 && t < 4
    ensures StepNat(0x800000 + 2048 * h + 1024 * p + 512 * q + 8 * r + 4 * s + t)
         == (4095 - h) * 4096 + 2048 * p + 1024 * (1 - q) + 16 * r + 8 * (1 - s) + 2 * t + 1
  {
    var low := 2048 * p + 1024 * q + 16 * r + 8 * s + 2 * t;
    var n := 0x800000 + 2048 * h + 1024 * p + 512 * q + 8 * r + 4 * s + t;
    assert 2 * n - 0x1000000 == 4096 * h + low;
    assert (4096 * h + low) / 4096 == h && (4096 * h + low) % 4096 == low;
    LowReduced(p, q, r, s, t);
  }

  lemma LowReduced(p: nat, q: nat, r: nat, s: nat, t: nat)
    requires p < 2 && q < 2 && r < 64 && s < 2 && t < 4
    ensures XorLow(2048 * p + 1024 * q + 16 * r + 8 * s + 2 * t)
         == 2048 * p + 1024 * (1 - q) + 16 * r + 8 * (1 - s) + 2 * t + 1
  {
    FlipBit10(p, q, 16 * r + 8 * s + 2 * t);
    FlipBit3(2048 * p + 1024 * (1 - q) + 16 * r, s, 2 * t);
  }

  lemma FlipBit10(p: nat, q: nat, rest: nat)
    requires q < 2 && rest < 1024
    ensures Flip(2048 * p + 1024 * q + rest, 1024) == 2048 * p + 1024 * (1 - q) + rest
  {
    assert (2048 * p + 1024 * q + rest) / 1024 == 2 * p + q;
  }

  lemma FlipBit3(high: nat, s: nat, rest: nat)
    requires high % 16 == 0 && s < 2 && rest < 8
    ensures Flip(high + 8 * s + rest, 8) == high + 8 * (1 - s) + rest
  {
    assert (high + 8 * s + rest) / 8 == 2 * (high / 16) + s;
  }

  lemma EightSteps(a: nat, b: nat, c: nat, d: nat, e: nat, f: nat, g: nat, h: nat, i: nat)
    requires StepNat(a) == b && StepNat(b) == c && StepNat(c) == d && StepNat(d) == e
    requires StepNat(e) == f && StepNat(f) == g && StepNat(g) == h && StepNat(h) == i
    ensures Steps(a, 1) == b && Steps(a, 2) == c && Steps(a, 3) == d && Steps(a, 4) == e
    ensures Steps(a, 5) == f && Steps(a, 6) == g && Steps(a, 7) == h && Steps(a, 8) == i
  {
    hide StepNat;
    assert Steps(a, 4) == e;
    StepsAdd(a, 4, 1);
    StepsAdd(a, 4, 2);
    StepsAdd(a, 4, 3);
    StepsAdd(a, 4, 4);
  }

  lemma From0To8()
    ensures Steps(0x000001, 8) == 0x000100
  {
    hide StepNat, Steps;
    Doubled(0x000001);
    Doubled(0x000002);
    Doubled(0x000004);
    Doubled(0x000008);
    Doubled(0x000010);
    Doubled(0x000020);
    Doubled(0x000040);
    Doubled(0x000080);
    EightSteps(0x000001, 0x000002, 0x000004, 0x000008, 0x000010, 0x000020, 0x000040, 0x000080, 0x000100);
  }

  lemma From8To16()
    ensures Steps(0x000100, 8) == 0x010000
  {
    hide StepNat, Steps;
    Doubled(0x000100);
    Doubled(0x000200);
    Doubled(0x000400);
    Doubled(0x000800);
    Doubled(0x001000);
    Doubled(0x002000);
    Doubled(0x004000);
    Doubled(0x008000);
    EightSteps(0x000100, 0x000200, 0x000400, 0x000800, 0x001000, 0x002000, 0x004000, 0x008000, 0x010000);
  }

  lemma From16To24()
    ensures Steps(0x010000, 8) == 0xfff409
  {
    hide StepNat, Steps;
    Doubled(0x010000);
    Doubled(0x020000);
    Doubled(0x040000);
    Doubled(0x080000);
    Doubled(0x100000);
    Doubled(0x200000);
    Doubled(0x400000);
    Reduced(0x000, 0, 0, 0, 0, 0);
    EightSteps(0x010000, 0x020000, 0x040000, 0x080000, 0x100000, 0x200000, 0x400000, 0x800000, 0xfff409);
  }

  lemma From24To32()
    ensures Steps(0xfff409, 1) == 0x001c1b && Steps(0xfff409, 2) == 0x003836 && Steps(0xfff409, 3) == 0x00706c
    ensures Steps(0xfff409, 4) == 0x00e0d8 && Steps(0xfff409, 5) == 0x01c1b0 && Steps(0xfff409, 6) == 0x038360
    ensures Steps(0xfff409, 7) == 0x0706c0
    ensures Steps(0xfff409, 8) == 0x0e0d80
  {
    hide StepNat, Steps;
    Reduced(0xffe, 1, 0, 1, 0, 1);
    Doubled(0x001c1b);
    Doubled(0x003836);
    Doubled(0x00706c);
    Doubled(0x00e0d8);
    Doubled(0x01c1b0);
    Doubled(0x038360);
    Doubled(0x0706c0);
    EightSteps(0xfff409, 0x001c1b, 0x003836, 0x00706c, 0x00e0d8, 0x01c1b0, 0x038360, 0x0706c0, 0x0e0d80);
  }

  lemma From32To40()
    ensures Steps(0x0e0d80, 1) == 0x1c1b00 && Steps(0x0e0d80, 2) == 0x383600 && Steps(0x0e0d80, 3) == 0x706c00
    ensures Steps(0x0e0d80, 4) == 0xe0d800 && Steps(0x0e0d80, 5) == 0x3e4409 && Steps(0x0e0d80, 6) == 0x7c8812
    ensures Steps(0x0e0d80, 7) == 0xf91024
    ensures Steps(0x0e0d80, 8) == 0x0dd441
  {
    hide StepNat, Steps;
    Doubled(0x0e0d80);
    Doubled(0x1c1b00);
    Doubled(0x383600);
    Doubled(0x706c00);
    Reduced(0xc1b, 0, 0, 0, 0, 0);
    Doubled(0x3e4409);
    Doubled(0x7c8812);
    Reduced(0xf22, 0, 0, 4, 1, 0);
    EightSteps(0x0e0d80, 0x1c1b00, 0x383600, 0x706c00, 0xe0d800, 0x3e4409, 0x7c8812, 0xf91024, 0x0dd441);
  }

  lemma From40To48()
    ensures Steps(0x0dd441, 1) == 0x1ba882 && Steps(0x0dd441, 2) == 0x375104 && Steps(0x0dd441, 3) == 0x6ea208
    ensures Steps(0x0dd441, 4) == 0xdd4410 && Steps(0x0dd441, 5) == 0x457c29 && Steps(0x0dd441, 6) == 0x8af852
    ensures Steps(0x0dd441, 7) == 0xea04ad
    ensures Steps(0x0dd441, 8) == 0x2bfd53
  {
    hide StepNat, Steps;
    Doubled(0x0dd441);
    Doubled(0x1ba882);
    Doubled(0x375104);
    Doubled(0x6ea208);
    Reduced(0xba8, 1, 0, 2, 0, 0);
    Doubled(0x457c29);
    Reduced(0x15f, 0, 0, 10, 0, 2);
    Reduced(0xd40, 1, 0, 21, 1, 1);
    EightSteps(0x0dd441, 0x1ba882, 0x375104, 0x6ea208, 0xdd4410, 0x457c29, 0x8af852, 0xea04ad, 0x2bfd53);
  }

  lemma From48To56()
    ensures Steps(0x2bfd53, 1) == 0x57faa6 && Steps(0x2bfd53, 2) == 0xaff54c && Steps(0x2bfd53, 3) == 0xa01e91
    ensures Steps(0x2bfd53, 8) == 0x030ace
  {
    hide StepNat, Steps;
    Doubled(0x2bfd53);
    Doubled(0x57faa6);
    Reduced(0x5fe, 1, 0, 41, 1, 0);
    Reduced(0x403, 1, 1, 18, 0, 1);
    Reduced(0x7f9, 0, 0, 37, 0, 3);
    Reduced(0x00c, 1, 1, 11, 1, 3);
    Reduced(0xfe7, 0, 0, 22, 1, 3);
    Doubled(0x018567);
    EightSteps(0x2bfd53, 0x57faa6, 0xaff54c, 0xa01e91, 0xbfc92b, 0x80665f, 0xff38b7, 0x018567, 0x030ace);
  }

  lemma From56To64()
    ensures Steps(0x030ace, 8) == 0xf52612
  {
    hide StepNat, Steps;
    Doubled(0x030ace);
    Doubled(0x06159c);
    Doubled(0x0c2b38);
    Doubled(0x185670);
    Doubled(0x30ace0);
    Doubled(0x6159c0);
    Reduced(0x856, 0, 1, 48, 0, 0);
    Doubled(0x7a9309);
    EightSteps(0x030ace, 0x06159c, 0x0c2b38, 0x185670, 0x30ace0, 0x6159c0, 0xc2b380, 0x7a9309, 0xf52612);
  }

  lemma From64To72()
    ensures Steps(0xf52612, 8) == 0xdc7af7
  {
    hide StepNat, Steps;
    Reduced(0xea4, 1, 1, 2, 0, 2);
    Doubled(0x15b82d);
    Doubled(0x2b705a);
    Doubled(0x56e0b4);
    Reduced(0x5b8, 0, 0, 45, 0, 0);
    Reduced(0x48e, 1, 1, 27, 0, 1);
    Reduced(0x6e3, 0, 0, 55, 0, 3);
    Reduced(0x238, 1, 1, 47, 1, 3);
    EightSteps(0xf52612, 0x15b82d, 0x2b705a, 0x56e0b4, 0xadc168, 0xa476d9, 0xb719bb, 0x91c77f, 0xdc7af7);
  }

  lemma From72To80()
    ensures Steps(0xdc7af7, 8) == 0x7eda22
  {
    hide StepNat, Steps;
    Reduced(0xb8f, 0, 1, 30, 1, 3);
    Doubled(0x4701e7);
    Reduced(0x1c0, 0, 1, 57, 1, 2);
    Reduced(0xc7e, 0, 1, 50, 1, 1);
    Doubled(0x381323);
    Doubled(0x702646);
    Reduced(0xc09, 1, 0, 17, 1, 0);
    Doubled(0x3f6d11);
    EightSteps(0xdc7af7, 0x4701e7, 0x8e03ce, 0xe3f395, 0x381323, 0x702646, 0xe04c8c, 0x3f6d11, 0x7eda22);
  }

  lemma From80To88()
    ensures Steps(0x7eda22, 8) == 0xd8d449
  {
    hide StepNat, Steps;
    Doubled(0x7eda22);
    Reduced(0xfb6, 1, 0, 8, 1, 0);
    Doubled(0x049c81);
    Doubled(0x093902);
    Doubled(0x127204);
    Doubled(0x24e408);
    Doubled(0x49c810);
    Reduced(0x272, 0, 0, 4, 0, 0);
    EightSteps(0x7eda22, 0xfdb444, 0x049c81, 0x093902, 0x127204, 0x24e408, 0x49c810, 0x939020, 0xd8d449);
  }

  lemma From88To96()
    ensures Steps(0xd8d449, 8) == 0xd05c14
  {
    hide StepNat, Steps;
    Reduced(0xb1a, 1, 0, 9, 0, 1);
    Doubled(0x4e5c9b);
    Reduced(0x397, 0, 0, 38, 1, 2);
    Reduced(0x8d0, 1, 1, 12, 1, 1);
    Doubled(0x72f8c3);
    Reduced(0xcbe, 0, 0, 48, 1, 2);
    Doubled(0x341705);
    Doubled(0x682e0a);
    EightSteps(0xd8d449, 0x4e5c9b, 0x9cb936, 0xc68665, 0x72f8c3, 0xe5f186, 0x341705, 0x682e0a, 0xd05c14);
  }

  lemma From96To104()
    ensures Steps(0xd05c14, 8) == 0x587178
  {
    hide StepNat, Steps;
    Reduced(0xa0b, 1, 0, 2, 1, 0);
    Doubled(0x5f4c21);
    Reduced(0x7d3, 0, 0, 8, 0, 2);
    Reduced(0x058, 1, 0, 17, 1, 1);
    Reduced(0xf4f, 1, 0, 34, 0, 3);
    Doubled(0x0b0e2f);
    Doubled(0x161c5e);
    Doubled(0x2c38bc);
    EightSteps(0xd05c14, 0x5f4c21, 0xbe9842, 0x82c48d, 0xfa7d13, 0x0b0e2f, 0x161c5e, 0x2c38bc, 0x587178);
  }

  lemma From104To112()
    ensures Steps(0x587178, 8) == 0x726bd4
  {
    hide StepNat, Steps;
    Doubled(0x587178);
    Reduced(0x61c, 0, 1, 30, 0, 0);
    Reduced(0x3c6, 0, 0, 61, 0, 1);
    Reduced(0x872, 1, 1, 59, 0, 3);
    Doubled(0x78dbbf);
    Reduced(0xe36, 1, 1, 47, 1, 2);
    Doubled(0x1c9af5);
    Doubled(0x3935ea);
    EightSteps(0x587178, 0xb0e2f0, 0x9e31e9, 0xc397db, 0x78dbbf, 0xf1b77e, 0x1c9af5, 0x3935ea, 0x726bd4);
  }

  lemma From112To120()
    ensures Steps(0x726bd4, 8) == 0x696a13
  {
    hide StepNat, Steps;
    Doubled(0x726bd4);
    Reduced(0xc9a, 1, 1, 53, 0, 0);
    Doubled(0x365b59);
    Doubled(0x6cb6b2);
    Reduced(0xb2d, 1, 0, 44, 1, 0);
    Doubled(0x4d2ec1);
    Reduced(0x34b, 1, 0, 48, 0, 2);
    Reduced(0x969, 1, 1, 33, 1, 1);
    EightSteps(0x726bd4, 0xe4d7a8, 0x365b59, 0x6cb6b2, 0xd96d64, 0x4d2ec1, 0x9a5d82, 0xcb4f0d, 0x696a13);
  }

  /** The integer value of x^k modulo G. */
  function Power(k: nat): nat {
    Steps(1, k)
  }

  lemma Checkpoints()
    ensures Power(24) == 0xfff409
    ensures Power(32) == 0x0e0d80
    ensures Power(40) == 0x0dd441
    ensures Power(48) == 0x2bfd53
    ensures Power(56) == 0x030ace
    ensures Power(64) == 0xf52612
    ensures Power(72) == 0xdc7af7
    ensures Power(88) == 0xd8d449
    ensures Power(96) == 0xd05c14
    ensures Power(104) == 0x587178
    ensures Power(120) == 0x696a13
  {
    hide Steps;
    From0To8();
    From8To16();
    From16To24();
    From24To32();
    From32To40();
    From40To48();
    From48To56();
    From56To64();
    From64To72();
    From72To80();
    From80To88();
    From88To96();
    From96To104();
    From104To112();
    From112To120();
    StepsAdd(1, 8, 8);
    StepsAdd(1, 16, 8);
    StepsAdd(1, 24, 8);
    StepsAdd(1, 32, 8);
    StepsAdd(1, 40, 8);
    StepsAdd(1, 48, 8);
    StepsAdd(1, 56, 8);
    StepsAdd(1, 64, 8);
    StepsAdd(1, 72, 8);
    StepsAdd(1, 80, 8);
    StepsAdd(1, 88, 8);
    StepsAdd(1, 96, 8);
    StepsAdd(1, 104, 8);
    StepsAdd(1, 112, 8);
  }

  lemma PowerOfX(k: nat)
    ensures FromBits(TimesXPow(Unit(24, 23), k)) == Power(k)
  {
    FromBitsUnit(24, 23);
    PowerSteps(Unit(24, 23), k);
  }

  lemma {:induction false} SmallPower(k: nat)
    requires k < 24
    ensures TimesXPow(Unit(24, 23), k) == Unit(24, 23 - k)
    ensures Power(k) == Pow2(k)
  {
    assert Unit(24, 23)[..k] == Zeros(k);
    ShiftsBy(Unit(24, 23), k, k);
    assert Unit(24, 23)[k..] + Zeros(k) == Unit(24, 23 - k);
    FromBitsUnit(24, 23 - k);
    PowerOfX(k);
  }

  lemma Pow2Shape(k: nat)
    ensures Pow2(k) in {1, 2, 4} || Pow2(k) % 8 == 0
  {
    if k >= 3 {
      assert Pow2(k - 1) == 4 * Pow2(k - 3);
    } else {
      assert Pow2(1) == 2;
    }
  }

  /** The order of x modulo G is above 111: no two single-bit errors of a frame look alike. */
  lemma PowersDiffer(i: nat, j: nat)
    requires i < j <= 111
    ensures TimesXPow(Unit(24, 23), i) != TimesXPow(Unit(24, 23), j)
  {
    hide TimesXPow, FromBits, Steps, TimesX;
    var one := Unit(24, 23);
    var d := j - i;
    if TimesXPow(one, i) == TimesXPow(one, j) {
      var m := (d + 23) / 24;
      var b := 24 * m - d;
      assert m == 1 || m == 2 || m == 3 || m == 4 || m == 5;
      // x^i = x^j gives x^(b + i) = x^(24 m + i), and x^i cancels
      TimesXPowAdds(one, i, b);
      TimesXPowAdds(one, j, b);
      TimesXPowAdds(one, b, i);
      TimesXPowAdds(one, 24 * m, i);
      assert i + b == b + i && j + b == 24 * m + i;
      TimesXPowInjective(TimesXPow(one, b), TimesXPow(one, 24 * m), i);
      PowerOfX(b);
      PowerOfX(24 * m);
      SmallPower(b);
      Checkpoints();
      Pow2Shape(b);
    }
  }

  /** Errors outside the last seven bits of a short frame show above the interrogator code. */
  lemma PowerAboveLastSeven(j: nat)
    requires 7 <= j <= 50
    ensures TimesXPow(Unit(24, 23), j)[..17] != Zeros(17)
  {
    hide *;
    var c := TimesXPow(Unit(24, 23), j);
    if j < 24 {
      SmallPower(j);
      assert c[..17][23 - j];
    } else {
      var t := if j <= 40 then 40 - j else 56 - j;
      TimesXPowAdds(Unit(24, 23), j, t);
      PowerOfX(j + t);
      Checkpoints();
      if c[..17] == Zeros(17) { LowSevenShifted(c, t); }
    }
  }

  /** Seven low bits, shifted by t, are 2^t times a value below 128. */
  lemma LowSevenShifted(c: Residue, t: nat)
    requires c[..17] == Zeros(17) && t <= 17
    ensures t == 0 ==> FromBits(TimesXPow(c, t)) < 128
    ensures t == 1 ==> FromBits(TimesXPow(c, t)) < 256
    ensures t >= 2 ==> FromBits(TimesXPow(c, t)) % 4 == 0
  {
    var low := c[17..];
    hide *;
    LowSevenBits(c, t);
    FromBitsConcat(Zeros(17 - t), low + Zeros(t));
    FromBitsConcat(low, Zeros(t));
    FromBitsZeros(17 - t);
    FromBitsZeros(t);
    ScaleZero(7 + t);
    FromBitsRange(low);
    ScaleShape(FromBits(low), t);
  }

  lemma LowSevenBits(c: Residue, t: nat)
    requires c[..17] == Zeros(17) && t <= 17
    ensures TimesXPow(c, t) == Zeros(17 - t) + (c[17..] + Zeros(t))
  {
    hide TimesXPow;
    assert c == Zeros(17) + c[17..];
    assert c[..t] == Zeros(t);
    ShiftsBy(c, t, t);
  }

  lemma ScaleShape(n: nat, t: nat)
    ensures Pow2(7) == 128
    ensures t == 0 ==> Scale(n, t) == n
    ensures t == 1 ==> Scale(n, t) == 2 * n
    ensures t >= 2 ==> Scale(n, t) % 4 == 0
  {
    if t >= 2 { assert Scale(n, t) == 4 * Scale(n, t - 2); }
  }

  // ----- sums of two powers, above the interrogator code

  /** The exponent from 7 to 50 of the power of x whose 17 high bits have the given value. */
  function ExponentOf(high: nat): nat {
    if high == 0x00001 then 7
    else if high == 0x00002 then 8
    else if high == 0x00004 then 9
    else if high == 0x00008 then 10
    else if high == 0x00010 then 11
    else if high == 0x00020 then 12
    else if high == 0x00040 then 13
    else if high == 0x00080 then 14
    else if high == 0x00100 then 15
    else if high == 0x00200 then 16
    else if high == 0x00400 then 17
    else if high == 0x00800 then 18
    else if high == 0x01000 then 19
    else if high == 0x02000 then 20
    else if high == 0x04000 then 21
    else if high == 0x08000 then 22
    else if high == 0x10000 then 23
    else if high == 0x1ffe8 then 24
    else if high == 0x00038 then 25
    else if high == 0x00070 then 26
    else if high == 0x000e0 then 27
    else if high == 0x001c1 then 28
    else if high == 0x00383 then 29
    else if high == 0x00706 then 30
    else if high == 0x00e0d then 31
    else if high == 0x01c1b then 32
    else if high == 0x03836 then 33
    else if high == 0x0706c then 34
    else if high == 0x0e0d8 then 35
    else if high == 0x1c1b0 then 36
    else if high == 0x07c88 then 37
    else if high == 0x0f910 then 38
    else if high == 0x1f220 then 39
    else if high == 0x01ba8 then 40
    else if high == 0x03751 then 41
    else if high == 0x06ea2 then 42
    else if high == 0x0dd44 then 43
    else if high == 0x1ba88 then 44
    else if high == 0x08af8 then 45
    else if high == 0x115f0 then 46
    else if high == 0x1d409 then 47
    else if high == 0x057fa then 48
    else if high == 0x0aff5 then 49
    else if high == 0x15fea then 50
    else 0
  }

  lemma HighBits(k: nat)
    requires 7 <= k <= 50
    ensures ExponentOf(Power(k) / 128) == k
  {
    if k < 13 {
      HighBitsBelow13(k);
    } else if k < 19 {
      HighBitsBelow19(k);
    } else if k < 24 {
      HighBitsBelow24(k);
    } else {
      HighBitsReduced(k);
    }
  }

  lemma HighBitsBelow13(k: nat)
    requires 7 <= k < 13
    ensures ExponentOf(Power(k) / 128) == k
  {
    SmallPower(k);
    hide Power, Pow2;
    Pow2Table();
  }

  lemma HighBitsBelow19(k: nat)
    requires 13 <= k < 19
    ensures ExponentOf(Power(k) / 128) == k
  {
    SmallPower(k);
    hide Power, Pow2;
    Pow2Table();
  }

  lemma HighBitsBelow24(k: nat)
    requires 19 <= k < 24
    ensures ExponentOf(Power(k) / 128) == k
  {
    SmallPower(k);
    hide Power, Pow2;
    Pow2Table();
  }

  lemma Pow2Table()
    ensures Pow2(6) == 0x40 && Pow2(7) == 0x80 && Pow2(8) == 0x100
    ensures Pow2(9) == 0x200 && Pow2(10) == 0x400 && Pow2(11) == 0x800
    ensures Pow2(12) == 0x1000 && Pow2(13) == 0x2000 && Pow2(14) == 0x4000
    ensures Pow2(15) == 0x8000 && Pow2(16) == 0x10000 && Pow2(17) == 0x20000
    ensures Pow2(18) == 0x40000 && Pow2(19) == 0x80000 && Pow2(20) == 0x100000
    ensures Pow2(21) == 0x200000 && Pow2(22) == 0x400000 && Pow2(23) == 0x800000
  {
    Pow2Values();
  }

  lemma HighBitsReduced(k: nat)
    requires 24 <= k <= 50
    ensures ExponentOf(Power(k) / 128) == k
  {
    hide Steps;
    Checkpoints();
    var a := k - k % 8;
    StepsAdd(1, a, k - a);
    if a == 24 {
      From24To32();
    } else if a == 32 {
      From32To40();
    } else if a == 40 {
      From40To48();
    } else {
      From48To56();
    }
    StepsNone(Power(a));
  }

  lemma StepsNone(n: nat)
    ensures Steps(n, 0) == n
  {}

  /** The value of the 17 high bits. */
  lemma HighValue(c: Residue)
    ensures FromBits(c) / 128 == FromBits(c[..17])
  {
    assert c == c[..17] + c[17..];
    FromBitsConcat(c[..17], c[17..]);
    FromBitsRange(c[17..]);
    ScaleBy7(FromBits(c[..17]));
    DivUnique(FromBits(c), 128, FromBits(c[..17]), FromBits(c[17..]));
  }

  lemma ScaleBy7(n: nat)
    ensures Pow2(7) == 128 && Scale(n, 7) == 128 * n
  {
    ScaleAdds(n, 4, 3);
    ScaleBy4(n);
    ScaleBy2(16 * n);
    ScaleAdds(16 * n, 2, 1);
    assert Scale(64 * n, 1) == 128 * n;
  }

  lemma EqualHighBits(c: Residue, d: Residue)
    requires Xor(c, d)[..17] == Zeros(17)
    ensures c[..17] == d[..17]
  {
    forall i | 0 <= i < 17 ensures c[i] == d[i] {
      assert !Xor(c, d)[..17][i];
    }
  }

  /** Two errors in a short frame show above the interrogator code unless both are below it. */
  lemma TwoPowersAboveLastSeven(a: nat, b: nat)
    requires b < a <= 50
    ensures Xor(TimesXPow(Unit(24, 23), a), TimesXPow(Unit(24, 23), b))[..17] == Zeros(17) <==> a < 7
  {
    hide TimesXPow, FromBits, ExponentOf, Power;
    var c, d := TimesXPow(Unit(24, 23), a), TimesXPow(Unit(24, 23), b);
    if a < 7 {
      SmallPower(a);
      SmallPower(b);
    } else if Xor(c, d)[..17] == Zeros(17) {
      EqualHighBits(c, d);
      if b < 7 {
        SmallPower(b);
        assert d[..17] == Zeros(17);
        PowerAboveLastSeven(a);
      } else {
        PowerOfX(a);
        PowerOfX(b);
        HighValue(c);
        HighValue(d);
        HighBits(a);
        HighBits(b);
      }
    }
  }

  // ----- the difference that 56 bits of length make

  lemma LastBit(c: Residue)
    ensures c[23] <==> FromBits(c) % 2 == 1
  {}

  /** x^j and x^(j + 56) differ above the last seven bits. */
  lemma ShortAndLongDiffer(j: nat)
    requires j <= 50
    ensures Xor(TimesXPow(Unit(24, 23), j), TimesXPow(Unit(24, 23), j + 56))[..17] != Zeros(17)
  {
    hide *;
    var one := Unit(24, 23);
    var c, d := TimesXPow(one, j), TimesXPow(one, j + 56);
    var m := if j < 16 then 16 else if j < 32 then 32 else if j < 48 then 48 else 64;
    var t := m - j;
    if Xor(c, d)[..17] == Zeros(17) {
      LowSevenBits(Xor(c, d), t);
      TimesXPowLinear(c, d, t);
      TimesXPowAdds(one, j, t);
      TimesXPowAdds(one, j + 56, t);
      Checkpoints();
      SmallPower(16);
      Pow2Table();
      PowerOfX(m);
      PowerOfX(m + 56);
      LastBit(TimesXPow(one, m));
      LastBit(TimesXPow(one, m + 56));
    }
  }
}
