/** What the reference definitions give on a few inputs, as numbers: together they
    use every constant, rotation and shift. */
module XxHash32Answers {
  import opened Format
  import opened XxHash32

  lemma ReadIs(b0: byte, b1: byte, b2: byte, b3: byte, w: bv32)
    requires Word(b0) | (Word(b1) << 8) | (Word(b2) << 16) | (Word(b3) << 24) == w
    ensures Read32([b0, b1, b2, b3]) == w
  {
  }

  lemma StripeIs(v: Lanes, s: seq<byte>, a: seq<byte>, b: seq<byte>, c: seq<byte>, d: seq<byte>)
    requires |a| == |b| == |c| == |d| == 4 && s == a + b + c + d
    ensures Stripe(v, s) == Lanes(Round(v.v1, Read32(a)), Round(v.v2, Read32(b)), Round(v.v3, Read32(c)), Round(v.v4, Read32(d)))
  {
    hide Round, Read32;
    assert s[0..4] == a && s[4..8] == b && s[8..12] == c && s[12..16] == d;
  }

  lemma TwoStripes(v: Lanes, a: seq<byte>, b: seq<byte>)
    requires |a| == |b| == 16
    ensures Stripes(v, a + b) == Stripe(Stripe(v, a), b)
  {
    StripesAppend(v, a, b);
    OneStripe(v, a);
    OneStripe(Stripe(v, a), b);
  }

  lemma LongParts(seed: bv32, s: seq<byte>, w: seq<byte>, t: seq<byte>)
    requires |w| % 16 == 0 && |w| > 0 && |t| < 16 && s == w + t
    ensures Hash(seed, s) == Avalanche(Tail(AddLength(Converge(Stripes(Init(seed), w)), |s|), t))
  {
    hide *;
    ModDown(|s|, |w|);
    HashParts(seed, s);
    BeginParts(seed, Stripes(Init(seed), s), true);
    StripesWhole(Init(seed), s);
    RestFrom(s, |w|);
    assert s[..|w|] == w && s[|w|..] == t;
  }

  lemma ShortParts(seed: bv32, s: seq<byte>)
    requires |s| < 16
    ensures Hash(seed, s) == Avalanche(Tail(AddLength(Small(seed), |s|), s))
  {
    hide *;
    HashParts(seed, s);
    BeginParts(seed, Stripes(Init(seed), s), false);
    RestFrom(s, 0);
    assert s[0..] == s;
  }

  function Single(h: bv32, w: bv32): bv32 {
    Rotl(h + w * PRIME3, 17) * PRIME4
  }

  lemma SingleIs(h: bv32, s: seq<byte>)
    requires |s| == 4
    ensures Process4(h, s) == Single(h, Read32(s))
  {
    hide Rotl, Read32;
  }

  lemma TailWord(h: bv32, s: seq<byte>, a: seq<byte>, t: seq<byte>)
    requires |a| == 4 && s == a + t
    ensures Tail(h, s) == Tail(Single(h, Read32(a)), t)
  {
    hide Read32, Single, Process4;
    SingleIs(h, a);
    assert s[..4] == a && s[4..] == t;
  }

  lemma TailByte(h: bv32, s: seq<byte>, b: byte, t: seq<byte>)
    requires |t| < 3 && s == [b] + t
    ensures Tail(h, s) == Tail(Process1(h, b), t)
  {
    hide Process1;
    assert s[1..] == t;
  }

  lemma TailNothing(h: bv32)
    ensures Tail(h, []) == h
  {
  }

  lemma EmptySteps()
    ensures Small(0) == 0x165667b1
    ensures AddLength(0x165667b1, 0) == 0x165667b1
    ensures Avalanche(0x165667b1) == 0x2cc5d05
  {
  }

  /** Nothing. */
  lemma Empty()
    ensures Hash(0, []) == 0x2cc5d05
  {
    hide *;
    EmptySteps();
    ShortParts(0, []);
    TailNothing(0x165667b1);
  }

  lemma AbcSteps()
    ensures Small(0) == 0x165667b1
    ensures AddLength(0x165667b1, 3) == 0x165667b4
    ensures Process1(0x165667b4, 97) == 0xdca1dbe8
    ensures Process1(0xdca1dbe8, 98) == 0x4f80fd3d
    ensures Process1(0x4f80fd3d, 99) == 0x760a1e67
    ensures Avalanche(0x760a1e67) == 0x32d153ff
  {
  }

  /** The bytes "abc". */
  lemma Abc()
    ensures Hash(0, [97, 98, 99]) == 0x32d153ff
  {
    hide *;
    AbcSteps();
    ShortParts(0, [97, 98, 99]);
    TailByte(0x165667b4, [97, 98, 99], 97, [98, 99]);
    TailByte(0xdca1dbe8, [98, 99], 98, [99]);
    TailByte(0x4f80fd3d, [99], 99, []);
    TailNothing(0x760a1e67);
  }

  lemma AbcSeed1Steps()
    ensures Small(1) == 0x165667b2
    ensures AddLength(0x165667b2, 3) == 0x165667b5
    ensures Process1(0x165667b5, 97) == 0x986f63e8
    ensures Process1(0x986f63e8, 98) == 0x93a6eb6c
    ensures Process1(0x93a6eb6c, 99) == 0xc582a038
    ensures Avalanche(0xc582a038) == 0xaa3da8ff
  {
  }

  /** The same, with another seed. */
  lemma AbcSeed1()
    ensures Hash(1, [97, 98, 99]) == 0xaa3da8ff
  {
    hide *;
    AbcSeed1Steps();
    ShortParts(1, [97, 98, 99]);
    TailByte(0x165667b5, [97, 98, 99], 97, [98, 99]);
    TailByte(0x986f63e8, [98, 99], 98, [99]);
    TailByte(0x93a6eb6c, [99], 99, []);
    TailNothing(0xc582a038);
  }

  lemma TwoBytesSteps()
    ensures Small(0) == 0x165667b1
    ensures AddLength(0x165667b1, 2) == 0x165667b3
    ensures Process1(0x165667b3, 100) == 0x15743680
    ensures Process1(0x15743680, 64) == 0xea849d8
    ensures Avalanche(0xea849d8) == 0x95c0a77c
  {
  }

  /** The smallest descriptor of a frame with a content checksum. */
  lemma TwoBytes()
    ensures Hash(0, [100, 64]) == 0x95c0a77c
  {
    hide *;
    TwoBytesSteps();
    ShortParts(0, [100, 64]);
    TailByte(0x165667b3, [100, 64], 100, [64]);
    TailByte(0x15743680, [64], 64, []);
    TailNothing(0xea849d8);
  }

  lemma FourteenBytesWords()
    ensures Read32([93, 112, 8, 7]) == 0x708705d
    ensures Read32([6, 5, 4, 3]) == 0x3040506
    ensures Read32([2, 1, 13, 12]) == 0xc0d0102
  {
    ReadIs(93, 112, 8, 7, 0x708705d);
    ReadIs(6, 5, 4, 3, 0x3040506);
    ReadIs(2, 1, 13, 12, 0xc0d0102);
  }

  lemma FourteenBytesSteps()
    ensures Small(0) == 0x165667b1
    ensures AddLength(0x165667b1, 14) == 0x165667bf
    ensures Single(0x165667bf, 0x708705d) == 0x5df99bfc
    ensures Single(0x5df99bfc, 0x3040506) == 0x44b5dda7
    ensures Single(0x44b5dda7, 0xc0d0102) == 0x2a153cfc
    ensures Process1(0x2a153cfc, 11) == 0xb44df59e
    ensures Process1(0xb44df59e, 10) == 0xb62ca58d
    ensures Avalanche(0xb62ca58d) == 0xf0a26c6e
  {
  }

  /** A descriptor with all its fields. */
  lemma FourteenBytes()
    ensures Hash(0, [93, 112, 8, 7, 6, 5, 4, 3, 2, 1, 13, 12, 11, 10]) == 0xf0a26c6e
  {
    hide *;
    FourteenBytesSteps();
    FourteenBytesWords();
    ShortParts(0, [93, 112, 8, 7, 6, 5, 4, 3, 2, 1, 13, 12, 11, 10]);
    TailWord(0x165667bf, [93, 112, 8, 7, 6, 5, 4, 3, 2, 1, 13, 12, 11, 10], [93, 112, 8, 7], [6, 5, 4, 3, 2, 1, 13, 12, 11, 10]);
    TailWord(0x5df99bfc, [6, 5, 4, 3, 2, 1, 13, 12, 11, 10], [6, 5, 4, 3], [2, 1, 13, 12, 11, 10]);
    TailWord(0x44b5dda7, [2, 1, 13, 12, 11, 10], [2, 1, 13, 12], [11, 10]);
    TailByte(0x2a153cfc, [11, 10], 11, [10]);
    TailByte(0xb44df59e, [10], 10, []);
    TailNothing(0xb62ca58d);
  }

  lemma ZerosWords()
    ensures Read32([0, 0, 0, 0]) == 0x0
  {
    ReadIs(0, 0, 0, 0, 0x0);
  }

  lemma ZerosRounds()
    ensures Init(0) == Lanes(0x24234428, 0x85ebca77, 0x0, 0x61c8864f)
    ensures Round(0x24234428, 0x0) == 0x93768344
    ensures Round(0x85ebca77, 0x0) == 0x8df8c7ad
    ensures Round(0x0, 0x0) == 0x0
    ensures Round(0x61c8864f, 0x0) == 0xfa824469
  {
  }

  lemma ZerosSteps()
    ensures Converge(Lanes(0x93768344, 0x8df8c7ad, 0x0, 0xfa824469)) == 0x34f8c758
    ensures AddLength(0x34f8c758, 16) == 0x34f8c768
    ensures Avalanche(0x34f8c768) == 0x8e022b3a
  {
  }

  function ZerosFirst(): seq<byte> {
    [0, 0, 0, 0, 0, 0, 0, 0, 0, 0, 0, 0, 0, 0, 0, 0]
  }

  lemma ZerosStripes()
    ensures |ZerosFirst()| == 16 && Stripes(Init(0), ZerosFirst()) == Lanes(0x93768344, 0x8df8c7ad, 0x0, 0xfa824469)
  {
    hide Round, Init, Read32, Stripe;
    ZerosRounds();
    ZerosWords();
    OneStripe(Init(0), ZerosFirst());
    StripeIs(Lanes(0x24234428, 0x85ebca77, 0x0, 0x61c8864f), ZerosFirst(), [0, 0, 0, 0], [0, 0, 0, 0], [0, 0, 0, 0], [0, 0, 0, 0]);
  }

  /** One stripe of zeros. */
  lemma Zeros()
    ensures Hash(0, ZerosFirst()) == 0x8e022b3a
  {
    hide *;
    ZerosStripes();
    ZerosSteps();
    ZerosWords();
    LongParts(0, ZerosFirst(), ZerosFirst(), []);
    TailNothing(0x34f8c768);
  }

  lemma LongWords()
    ensures Read32([1, 2, 3, 4]) == 0x4030201
    ensures Read32([5, 6, 7, 8]) == 0x8070605
    ensures Read32([9, 10, 11, 12]) == 0xc0b0a09
    ensures Read32([13, 14, 15, 16]) == 0x100f0e0d
    ensures Read32([17, 18, 19, 20]) == 0x14131211
    ensures Read32([21, 22, 23, 24]) == 0x18171615
    ensures Read32([25, 26, 27, 28]) == 0x1c1b1a19
    ensures Read32([29, 30, 31, 32]) == 0x201f1e1d
    ensures Read32([33, 34, 35, 36]) == 0x24232221
  {
    ReadIs(1, 2, 3, 4, 0x4030201);
    ReadIs(5, 6, 7, 8, 0x8070605);
    ReadIs(9, 10, 11, 12, 0xc0b0a09);
    ReadIs(13, 14, 15, 16, 0x100f0e0d);
    ReadIs(17, 18, 19, 20, 0x14131211);
    ReadIs(21, 22, 23, 24, 0x18171615);
    ReadIs(25, 26, 27, 28, 0x1c1b1a19);
    ReadIs(29, 30, 31, 32, 0x201f1e1d);
    ReadIs(33, 34, 35, 36, 0x24232221);
  }

  lemma LongRounds()
    ensures Init(0) == Lanes(0x24234428, 0x85ebca77, 0x0, 0x61c8864f)
    ensures Round(0x24234428, 0x4030201) == 0x56f04f51
    ensures Round(0x85ebca77, 0x8070605) == 0xc2c38a70
    ensures Round(0x0, 0xc0b0a09) == 0xa61bb979
    ensures Round(0x61c8864f, 0x100f0e0d) == 0xb0266e49
    ensures Round(0x56f04f51, 0x14131211) == 0x88092bc5
    ensures Round(0xc2c38a70, 0x18171615) == 0xa01d7786
    ensures Round(0xa61bb979, 0x1c1b1a19) == 0xad7ea737
    ensures Round(0xb0266e49, 0x201f1e1d) == 0xba46ce8f
  {
  }

  lemma LongSteps()
    ensures Converge(Lanes(0x88092bc5, 0xa01d7786, 0xad7ea737, 0xba46ce8f)) == 0x43807ecd
    ensures AddLength(0x43807ecd, 39) == 0x43807ef4
    ensures Single(0x43807ef4, 0x24232221) == 0xfce79d78
    ensures Process1(0xfce79d78, 37) == 0x173f7d4b
    ensures Process1(0x173f7d4b, 38) == 0xc83d8740
    ensures Process1(0xc83d8740, 39) == 0xf061610b
    ensures Avalanche(0xf061610b) == 0xd1c5f2d5
  {
  }

  function LongFirst(): seq<byte> {
    [1, 2, 3, 4, 5, 6, 7, 8, 9, 10, 11, 12, 13, 14, 15, 16]
  }

  function LongSecond(): seq<byte> {
    [17, 18, 19, 20, 21, 22, 23, 24, 25, 26, 27, 28, 29, 30, 31, 32]
  }

  lemma LongStripes()
    ensures |LongFirst()| == 16 && |LongSecond()| == 16 && Stripes(Init(0), LongFirst() + LongSecond()) == Lanes(0x88092bc5, 0xa01d7786, 0xad7ea737, 0xba46ce8f)
  {
    hide Round, Init, Read32, Stripe;
    LongRounds();
    LongWords();
    TwoStripes(Init(0), LongFirst(), LongSecond());
    StripeIs(Lanes(0x24234428, 0x85ebca77, 0x0, 0x61c8864f), LongFirst(), [1, 2, 3, 4], [5, 6, 7, 8], [9, 10, 11, 12], [13, 14, 15, 16]);
    StripeIs(Lanes(0x56f04f51, 0xc2c38a70, 0xa61bb979, 0xb0266e49), LongSecond(), [17, 18, 19, 20], [21, 22, 23, 24], [25, 26, 27, 28], [29, 30, 31, 32]);
  }

  /** Two stripes, a word and three bytes. */
  lemma Long()
    ensures Hash(0, LongFirst() + LongSecond() + [33, 34, 35, 36, 37, 38, 39]) == 0xd1c5f2d5
  {
    hide *;
    LongStripes();
    LongSteps();
    LongWords();
    LongParts(0, LongFirst() + LongSecond() + [33, 34, 35, 36, 37, 38, 39], LongFirst() + LongSecond(), [33, 34, 35, 36, 37, 38, 39]);
    TailWord(0x43807ef4, [33, 34, 35, 36, 37, 38, 39], [33, 34, 35, 36], [37, 38, 39]);
    TailByte(0xfce79d78, [37, 38, 39], 37, [38, 39]);
    TailByte(0x173f7d4b, [38, 39], 38, [39]);
    TailByte(0xc83d8740, [39], 39, []);
    TailNothing(0xf061610b);
  }
}
