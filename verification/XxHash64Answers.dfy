/** What the reference definitions give on a few inputs, as numbers: together they
    use every constant, rotation and shift. */
module XxHash64Answers {
  import opened Format
  import opened XxHash64
  import X = XxHash32
  import A = XxHash32Answers

  lemma BothHalves(s: seq<byte>, a: seq<byte>, b: seq<byte>)
    requires |a| == |b| == 4 && s == a + b
    ensures Read64(s) == (X.Read32(a) as bv64) | ((X.Read32(b) as bv64) << 32)
  {
    hide X.Read32;
    assert s[0..4] == a && s[4..8] == b;
  }

  lemma StripeIs(v: Lanes, s: seq<byte>, a: seq<byte>, b: seq<byte>, c: seq<byte>, d: seq<byte>)
    requires |a| == |b| == |c| == |d| == 8 && s == a + b + c + d
    ensures Stripe(v, s) == Lanes(Round(v.v1, Read64(a)), Round(v.v2, Read64(b)), Round(v.v3, Read64(c)), Round(v.v4, Read64(d)))
  {
    hide Round, Read64;
    assert s[0..8] == a && s[8..16] == b && s[16..24] == c && s[24..32] == d;
  }

  lemma LongParts(seed: bv64, s: seq<byte>, w: seq<byte>, t: seq<byte>)
    requires |w| % 32 == 0 && |w| > 0 && |t| < 32 && s == w + t
    ensures Hash(seed, s) == Avalanche(Tail(AddLength(Converge(Stripes(Init(seed), w)), |s|), t))
  {
    hide *;
    ModDown(|s|, |w|);
    HashParts(seed, s);
    BeginParts(seed, Stripes(Init(seed), s), true);
    StripesWhole(Init(seed), s);
    RestFrom(s, |w|);
    assert s[..|w|] == w && s[|w|..] == t;
  }

  lemma ShortParts(seed: bv64, s: seq<byte>)
    requires |s| < 32
    ensures Hash(seed, s) == Avalanche(Tail(AddLength(Small(seed), |s|), s))
  {
    hide *;
    HashParts(seed, s);
    BeginParts(seed, Stripes(Init(seed), s), false);
    RestFrom(s, 0);
    assert s[0..] == s;
  }

  lemma ConvergeIs(v: Lanes)
    ensures Converge(v) == MergeRound(MergeRound(MergeRound(MergeRound(Merge(v), v.v1), v.v2), v.v3), v.v4)
  {
    hide Merge, MergeRound;
  }

  function Double(h: bv64, w: bv64): bv64 {
    Rotl(h ^ Round(0, w), 27) * PRIME1 + PRIME4
  }

  function Single(h: bv64, w: bv32): bv64 {
    Rotl(h ^ ((w as bv64) * PRIME1), 23) * PRIME2 + PRIME3
  }

  lemma DoubleIs(h: bv64, s: seq<byte>)
    requires |s| == 8
    ensures Process8(h, s) == Double(h, Read64(s))
  {
    hide Rotl, Read64, Round;
  }

  lemma SingleIs(h: bv64, s: seq<byte>)
    requires |s| == 4
    ensures Process4(h, s) == Single(h, X.Read32(s))
  {
    hide Rotl, X.Read32;
  }

  lemma TailDouble(h: bv64, s: seq<byte>, a: seq<byte>, t: seq<byte>)
    requires |a| == 8 && s == a + t
    ensures Tail(h, s) == Tail(Double(h, Read64(a)), t)
  {
    hide Read64, Double, Process8, Process4, Process1;
    DoubleIs(h, a);
    assert s[..8] == a && s[8..] == t;
  }

  lemma TailWord(h: bv64, s: seq<byte>, a: seq<byte>, t: seq<byte>)
    requires |a| == 4 && |t| < 4 && s == a + t
    ensures Tail(h, s) == Tail(Single(h, X.Read32(a)), t)
  {
    hide X.Read32, Single, Process8, Process4, Process1;
    SingleIs(h, a);
    assert s[..4] == a && s[4..] == t;
  }

  lemma TailByte(h: bv64, s: seq<byte>, b: byte, t: seq<byte>)
    requires |t| < 3 && s == [b] + t
    ensures Tail(h, s) == Tail(Process1(h, b), t)
  {
    hide Process1;
    assert s[1..] == t;
  }

  lemma TailNothing(h: bv64)
    ensures Tail(h, []) == h
  {
  }

  lemma EmptySteps()
    ensures Small(0) == 0x27d4eb2f165667c5
    ensures AddLength(0x27d4eb2f165667c5, 0) == 0x27d4eb2f165667c5
    ensures Avalanche(0x27d4eb2f165667c5) == 0xef46db3751d8e999
  {
  }

  /** Nothing. */
  lemma Empty()
    ensures Hash(0, []) == 0xef46db3751d8e999
  {
    hide *;
    EmptySteps();
    ShortParts(0, []);
    TailNothing(0x27d4eb2f165667c5);
  }

  lemma AbcSteps1()
    ensures Small(0) == 0x27d4eb2f165667c5
    ensures AddLength(0x27d4eb2f165667c5, 3) == 0x27d4eb2f165667c8
    ensures Process1(0x27d4eb2f165667c8, 97) == 0xe6d11bdc91f0215
  {
  }

  lemma AbcSteps2()
    ensures Process1(0xe6d11bdc91f0215, 98) == 0x791983e9ab307069
    ensures Process1(0x791983e9ab307069, 99) == 0xe87a46f8b9a4c39e
    ensures Avalanche(0xe87a46f8b9a4c39e) == 0x44bc2cf5ad770999
  {
  }

  /** The bytes "abc". */
  lemma Abc()
    ensures Hash(0, [97, 98, 99]) == 0x44bc2cf5ad770999
  {
    hide *;
    AbcSteps1();
    AbcSteps2();
    ShortParts(0, [97, 98, 99]);
    TailByte(0x27d4eb2f165667c8, [97, 98, 99], 97, [98, 99]);
    TailByte(0xe6d11bdc91f0215, [98, 99], 98, [99]);
    TailByte(0x791983e9ab307069, [99], 99, []);
    TailNothing(0xe87a46f8b9a4c39e);
  }

  lemma AbcSeed1Steps1()
    ensures Small(1) == 0x27d4eb2f165667c6
    ensures AddLength(0x27d4eb2f165667c6, 3) == 0x27d4eb2f165667c9
    ensures Process1(0x27d4eb2f165667c9, 97) == 0x529f858e6acaca15
  {
  }

  lemma AbcSeed1Steps2()
    ensures Process1(0x529f858e6acaca15, 98) == 0xd7c30b7b4419a3d8
    ensures Process1(0xd7c30b7b4419a3d8, 99) == 0xe1cbf51e983b189c
    ensures Avalanche(0xe1cbf51e983b189c) == 0xbea9ca8199328908
  {
  }

  /** The same, with another seed. */
  lemma AbcSeed1()
    ensures Hash(1, [97, 98, 99]) == 0xbea9ca8199328908
  {
    hide *;
    AbcSeed1Steps1();
    AbcSeed1Steps2();
    ShortParts(1, [97, 98, 99]);
    TailByte(0x27d4eb2f165667c9, [97, 98, 99], 97, [98, 99]);
    TailByte(0x529f858e6acaca15, [98, 99], 98, [99]);
    TailByte(0xd7c30b7b4419a3d8, [99], 99, []);
    TailNothing(0xe1cbf51e983b189c);
  }

  lemma ZerosWords()
    ensures Read64([0, 0, 0, 0, 0, 0, 0, 0]) == 0x0
  {
    A.ReadIs(0, 0, 0, 0, 0x0);
    A.ReadIs(0, 0, 0, 0, 0x0);
    BothHalves([0, 0, 0, 0, 0, 0, 0, 0], [0, 0, 0, 0], [0, 0, 0, 0]);
  }

  lemma ZerosRounds()
    ensures Init(0) == Lanes(0x60ea27eeadc0b5d6, 0xc2b2ae3d27d4eb4f, 0x0, 0x61c8864e7a143579)
    ensures Round(0x60ea27eeadc0b5d6, 0x0) == 0x119361e2963b6d41
    ensures Round(0xc2b2ae3d27d4eb4f, 0x0) == 0x7f0e345be3649cd2
    ensures Round(0x0, 0x0) == 0x0
    ensures Round(0x61c8864e7a143579, 0x0) == 0x6d7ad2794d292f91
  {
  }

  lemma ZerosSteps1()
    ensures Merge(Lanes(0x119361e2963b6d41, 0x7f0e345be3649cd2, 0x0, 0x6d7ad2794d292f91)) == 0xf426265b9d0af9ac
    ensures MergeRound(0xf426265b9d0af9ac, 0x119361e2963b6d41) == 0xb5b565ee46e817dd
    ensures MergeRound(0xb5b565ee46e817dd, 0x7f0e345be3649cd2) == 0x8e979dd727b1a3c2
  {
  }

  lemma ZerosSteps2()
    ensures MergeRound(0x8e979dd727b1a3c2, 0x0) == 0x59737186f9ad1db1
    ensures MergeRound(0x59737186f9ad1db1, 0x6d7ad2794d292f91) == 0xcbbfd1653baacd51
    ensures AddLength(0xcbbfd1653baacd51, 32) == 0xcbbfd1653baacd71
  {
  }

  lemma ZerosSteps3()
    ensures Avalanche(0xcbbfd1653baacd71) == 0xf6e9be5d70632cf5
  {
  }

  function ZerosFirst(): seq<byte> {
    [0, 0, 0, 0, 0, 0, 0, 0, 0, 0, 0, 0, 0, 0, 0, 0, 0, 0, 0, 0, 0, 0, 0, 0, 0, 0, 0, 0, 0, 0, 0, 0]
  }

  lemma ZerosStripes()
    ensures |ZerosFirst()| == 32 && Stripes(Init(0), ZerosFirst()) == Lanes(0x119361e2963b6d41, 0x7f0e345be3649cd2, 0x0, 0x6d7ad2794d292f91)
  {
    hide Round, Init, Read64, Stripe;
    ZerosRounds();
    ZerosWords();
    OneStripe(Init(0), ZerosFirst());
    StripeIs(Lanes(0x60ea27eeadc0b5d6, 0xc2b2ae3d27d4eb4f, 0x0, 0x61c8864e7a143579), ZerosFirst(), [0, 0, 0, 0, 0, 0, 0, 0], [0, 0, 0, 0, 0, 0, 0, 0], [0, 0, 0, 0, 0, 0, 0, 0], [0, 0, 0, 0, 0, 0, 0, 0]);
  }

  /** One stripe of zeros. */
  lemma Zeros()
    ensures Hash(0, ZerosFirst()) == 0xf6e9be5d70632cf5
  {
    hide *;
    ZerosStripes();
    ZerosSteps1();
    ZerosSteps2();
    ZerosSteps3();
    ZerosWords();
    LongParts(0, ZerosFirst(), ZerosFirst(), []);
    ConvergeIs(Lanes(0x119361e2963b6d41, 0x7f0e345be3649cd2, 0x0, 0x6d7ad2794d292f91));
    TailNothing(0xcbbfd1653baacd71);
  }

  lemma LongWords1()
    ensures Read64([1, 2, 3, 4, 5, 6, 7, 8]) == 0x807060504030201
    ensures Read64([9, 10, 11, 12, 13, 14, 15, 16]) == 0x100f0e0d0c0b0a09
  {
    A.ReadIs(1, 2, 3, 4, 0x4030201);
    A.ReadIs(5, 6, 7, 8, 0x8070605);
    BothHalves([1, 2, 3, 4, 5, 6, 7, 8], [1, 2, 3, 4], [5, 6, 7, 8]);
    A.ReadIs(9, 10, 11, 12, 0xc0b0a09);
    A.ReadIs(13, 14, 15, 16, 0x100f0e0d);
    BothHalves([9, 10, 11, 12, 13, 14, 15, 16], [9, 10, 11, 12], [13, 14, 15, 16]);
  }

  lemma LongWords2()
    ensures Read64([17, 18, 19, 20, 21, 22, 23, 24]) == 0x1817161514131211
    ensures Read64([25, 26, 27, 28, 29, 30, 31, 32]) == 0x201f1e1d1c1b1a19
  {
    A.ReadIs(17, 18, 19, 20, 0x14131211);
    A.ReadIs(21, 22, 23, 24, 0x18171615);
    BothHalves([17, 18, 19, 20, 21, 22, 23, 24], [17, 18, 19, 20], [21, 22, 23, 24]);
    A.ReadIs(25, 26, 27, 28, 0x1c1b1a19);
    A.ReadIs(29, 30, 31, 32, 0x201f1e1d);
    BothHalves([25, 26, 27, 28, 29, 30, 31, 32], [25, 26, 27, 28], [29, 30, 31, 32]);
  }

  lemma LongWords3()
    ensures Read64([33, 34, 35, 36, 37, 38, 39, 40]) == 0x2827262524232221
    ensures X.Read32([41, 42, 43, 44]) == 0x2c2b2a29
  {
    A.ReadIs(33, 34, 35, 36, 0x24232221);
    A.ReadIs(37, 38, 39, 40, 0x28272625);
    BothHalves([33, 34, 35, 36, 37, 38, 39, 40], [33, 34, 35, 36], [37, 38, 39, 40]);
    A.ReadIs(41, 42, 43, 44, 0x2c2b2a29);
  }

  lemma LongRounds()
    ensures Init(0) == Lanes(0x60ea27eeadc0b5d6, 0xc2b2ae3d27d4eb4f, 0x0, 0x61c8864e7a143579)
    ensures Round(0x60ea27eeadc0b5d6, 0x807060504030201) == 0x84067dd7d1f3b82f
    ensures Round(0xc2b2ae3d27d4eb4f, 0x100f0e0d0c0b0a09) == 0x53248dd1b14b7ef7
    ensures Round(0x0, 0x1817161514131211) == 0x5a7802885a29aed5
    ensures Round(0x61c8864e7a143579, 0x201f1e1d1c1b1a19) == 0x299612823981759d
  {
  }

  lemma LongSteps1()
    ensures Merge(Lanes(0x84067dd7d1f3b82f, 0x53248dd1b14b7ef7, 0x5a7802885a29aed5, 0x299612823981759d)) == 0x64855030bb08e807
    ensures MergeRound(0x64855030bb08e807, 0x84067dd7d1f3b82f) == 0x9082247b9887558f
    ensures MergeRound(0x9082247b9887558f, 0x53248dd1b14b7ef7) == 0xe1e28931b3ab79f6
  {
  }

  lemma LongSteps2()
    ensures MergeRound(0xe1e28931b3ab79f6, 0x5a7802885a29aed5) == 0x2d3d1941d028f63d
    ensures MergeRound(0x2d3d1941d028f63d, 0x299612823981759d) == 0xda9d5e4f6f766b39
    ensures AddLength(0xda9d5e4f6f766b39, 47) == 0xda9d5e4f6f766b68
  {
  }

  lemma LongSteps3()
    ensures Double(0xda9d5e4f6f766b68, 0x2827262524232221) == 0x502d45038caa8d9f
    ensures Single(0x502d45038caa8d9f, 0x2c2b2a29) == 0xbc0e479b78a23d76
    ensures Process1(0xbc0e479b78a23d76, 45) == 0xf951446f83c440b5
  {
  }

  lemma LongSteps4()
    ensures Process1(0xf951446f83c440b5, 46) == 0x2e0d9f953184e9b8
    ensures Process1(0x2e0d9f953184e9b8, 47) == 0xf4404e3cf4a99b90
    ensures Avalanche(0xf4404e3cf4a99b90) == 0x2dff9dbce0ef0447
  {
  }

  function LongFirst(): seq<byte> {
    [1, 2, 3, 4, 5, 6, 7, 8, 9, 10, 11, 12, 13, 14, 15, 16, 17, 18, 19, 20, 21, 22, 23, 24, 25, 26, 27, 28, 29, 30, 31, 32]
  }

  lemma LongStripes()
    ensures |LongFirst()| == 32 && Stripes(Init(0), LongFirst()) == Lanes(0x84067dd7d1f3b82f, 0x53248dd1b14b7ef7, 0x5a7802885a29aed5, 0x299612823981759d)
  {
    hide Round, Init, Read64, Stripe;
    LongRounds();
    LongWords1();
    LongWords2();
    LongWords3();
    OneStripe(Init(0), LongFirst());
    StripeIs(Lanes(0x60ea27eeadc0b5d6, 0xc2b2ae3d27d4eb4f, 0x0, 0x61c8864e7a143579), LongFirst(), [1, 2, 3, 4, 5, 6, 7, 8], [9, 10, 11, 12, 13, 14, 15, 16], [17, 18, 19, 20, 21, 22, 23, 24], [25, 26, 27, 28, 29, 30, 31, 32]);
  }

  /** A stripe, a double word, a word and three bytes. */
  lemma Long()
    ensures Hash(0, LongFirst() + [33, 34, 35, 36, 37, 38, 39, 40, 41, 42, 43, 44, 45, 46, 47]) == 0x2dff9dbce0ef0447
  {
    hide *;
    LongStripes();
    LongSteps1();
    LongSteps2();
    LongSteps3();
    LongSteps4();
    LongWords1();
    LongWords2();
    LongWords3();
    LongParts(0, LongFirst() + [33, 34, 35, 36, 37, 38, 39, 40, 41, 42, 43, 44, 45, 46, 47], LongFirst(), [33, 34, 35, 36, 37, 38, 39, 40, 41, 42, 43, 44, 45, 46, 47]);
    ConvergeIs(Lanes(0x84067dd7d1f3b82f, 0x53248dd1b14b7ef7, 0x5a7802885a29aed5, 0x299612823981759d));
    TailDouble(0xda9d5e4f6f766b68, [33, 34, 35, 36, 37, 38, 39, 40, 41, 42, 43, 44, 45, 46, 47], [33, 34, 35, 36, 37, 38, 39, 40], [41, 42, 43, 44, 45, 46, 47]);
    TailWord(0x502d45038caa8d9f, [41, 42, 43, 44, 45, 46, 47], [41, 42, 43, 44], [45, 46, 47]);
    TailByte(0xbc0e479b78a23d76, [45, 46, 47], 45, [46, 47]);
    TailByte(0xf951446f83c440b5, [46, 47], 46, [47]);
    TailByte(0x2e0d9f953184e9b8, [47], 47, []);
    TailNothing(0xf4404e3cf4a99b90);
  }
}
