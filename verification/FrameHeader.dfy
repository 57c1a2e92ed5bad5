/** What LZ4F_decodeHeader accepts: the headers that can be written, and nothing
    else. */
module FrameHeader {
  import opened Format
  import opened Common
  import opened FrameFormat
  import A = XxHash32Answers
  import X = XxHash32

  /** The bytes of a number are determined by it. */
  lemma {:induction false} BytesOf(s: seq<byte>)
    ensures FromLE(s) < Power256(|s|) && LE(FromLE(s), |s|) == s
    decreases |s|
  {
    if s != [] {
      BytesOf(s[1..]);
      var n := FromLE(s[1..]);
      assert (s[0] as int + 256 * n) / 256 == n && (s[0] as int + 256 * n) % 256 == s[0];
      assert s == [s[0]] + s[1..];
    }
  }

  lemma FlagBit(b: byte, bit: nat)
    requires bit > 0
    ensures Bit(Flag(b, bit)) == (b as int) / bit % 2
  {
  }

  lemma BinaryDigits(v: nat)
    ensures v % 64 == 32 * (v / 32 % 2) + 16 * (v / 16 % 2) + 8 * (v / 8 % 2) + 4 * (v / 4 % 2) + 2 * (v / 2 % 2) + v % 2
  {
    var a, b, c, d, e := v / 2, v / 4, v / 8, v / 16, v / 32;
    assert b == a / 2 && c == b / 2 && d == c / 2 && e == d / 2 && v / 64 == e / 2;
  }

  /** A byte with the version 1 and the reserved bit clear is the FLG byte of its flags. */
  lemma FlagsMakeByte(b: byte, f: Info)
    requires (b as int) / 64 == 1 && !Flag(b, 2)
    requires f.linked == !Flag(b, 32) && f.blockChecksum == Flag(b, 16) && f.contentChecksum == Flag(b, 4)
    ensures FlgWith(f, Flag(b, 8), Flag(b, 1)) == b
  {
    hide Flag;
    FlagBit(b, 32); FlagBit(b, 16); FlagBit(b, 8); FlagBit(b, 4); FlagBit(b, 2); FlagBit(b, 1);
    BinaryDigits(b);
    assert b as int == 64 + (b as int) % 64;
  }

  lemma MagicBytes(s: seq<byte>)
    requires |s| >= 4 && FromLE(s[0..4]) == MAGIC
    ensures s[0..4] == LE32(MAGIC)
  {
    BytesOf(s[0..4]);
  }

  /** The number fields of a header that is accepted. */
  lemma FieldBytes(s: seq<byte>)
    requires |s| == 8 || |s| == 4
    ensures |s| == 8 ==> FromLE(s) < U64_RANGE && LE64(FromLE(s)) == s
    ensures |s| == 4 ==> FromLE(s) < U32_RANGE && LE32(FromLE(s)) == s
  {
    BytesOf(s);
    Eight256();
    assert Power256(4) == U32_RANGE;
  }

  /** What a successful parse says of its input. */
  lemma ParsedParts(s: seq<byte>)
    requires ParseHeader(s).Parsed?
    ensures var f, n := ParseHeader(s).info, ParseHeader(s).size;
            && MIN_FH_SIZE <= n == HeaderSize(s[4]) <= |s|
            && FromLE(s[0..4]) == MAGIC && (s[4] as int) / 64 == 1 && !Flag(s[4], 2)
            && f.linked == !Flag(s[4], 32) && f.blockChecksum == Flag(s[4], 16) && f.contentChecksum == Flag(s[4], 4)
            && 4 <= f.blockSizeID <= 7 && s[5] == 16 * f.blockSizeID && s[n - 1] == HeaderCrc(s[4..n - 1])
            && f.contentSize == (if Flag(s[4], 8) then FromLE(s[6..14]) else 0)
            && f.dictID == (if Flag(s[4], 1) then FromLE(s[n - 5..n - 1]) else 0)
  {
    hide FromLE, HeaderCrc, Flag;
  }

  lemma Slices(s: seq<byte>, n: nat, size: bool, dict: bool)
    requires n == MIN_FH_SIZE + (if size then 8 else 0) + (if dict then 4 else 0) <= |s|
    ensures s[..n] == s[0..4] + s[4..n - 1] + [s[n - 1]]
    ensures s[4..n - 1] == [s[4], s[5]] + (if size then s[6..14] else []) + (if dict then s[n - 5..n - 1] else [])
  {
    var k := if size then 14 else 6;
    assert s[4..n - 1] == s[4..k] + s[k..n - 1];
    assert s[4..k] == [s[4], s[5]] + s[6..k];
  }

  /** The bytes of an accepted header are those of its description. */
  lemma ParsedBytes(s: seq<byte>)
    requires ParseHeader(s).Parsed?
    ensures var f, size, dict := ParseHeader(s).info, Flag(s[4], 8), Flag(s[4], 1);
            && Fields(f, size, dict) && HeaderWith(f, size, dict) <= s && ParseHeader(s).size == |HeaderWith(f, size, dict)|
  {
    hide FromLE, HeaderCrc, Flag, LE32, LE64, ParseHeader, FlgWith;
    ParsedParts(s);
    var f, n, size, dict := ParseHeader(s).info, ParseHeader(s).size, Flag(s[4], 8), Flag(s[4], 1);
    FlagsMakeByte(s[4], f);
    MagicBytes(s);
    if size { FieldBytes(s[6..14]); }
    if dict { FieldBytes(s[n - 5..n - 1]); }
    Slices(s, n, size, dict);
    assert DescriptorWith(f, size, dict) == s[4..n - 1];
    assert s[..n] == HeaderWith(f, size, dict);
  }

  /** s begins with a header that describes f. */
  ghost predicate BeginsWith(s: seq<byte>, f: Info, n: nat) {
    exists size, dict :: Fields(f, size, dict) && HeaderWith(f, size, dict) <= s && n == |HeaderWith(f, size, dict)|
  }

  /** s is a beginning of at least seven bytes of what may become a header of n. */
  ghost predicate MayBegin(s: seq<byte>, n: nat) {
    && MIN_FH_SIZE <= |s| < n
    && exists f: Info, size, dict :: ValidInfo(f) && n == |HeaderWith(f, size, dict)| && s[..5] == HeaderWith(f, size, dict)[..5]
  }

  /** A header is accepted exactly when the bytes are those of a header. */
  lemma AcceptsExactly(s: seq<byte>, f: Info, n: nat)
    ensures ParseHeader(s) == Parsed(f, n) <==> BeginsWith(s, f, n)
  {
    hide ParseHeader, HeaderWith;
    if ParseHeader(s) == Parsed(f, n) {
      ParsedBytes(s);
    }
    if BeginsWith(s, f, n) {
      var size, dict :| Fields(f, size, dict) && HeaderWith(f, size, dict) <= s && n == |HeaderWith(f, size, dict)|;
      HeaderWithRoundTrip(f, size, dict, s);
    }
  }

  lemma IncompleteParts(s: seq<byte>)
    requires ParseHeader(s).Incomplete?
    ensures MIN_FH_SIZE <= |s| < HeaderSize(s[4]) == ParseHeader(s).needed
    ensures FromLE(s[0..4]) == MAGIC && (s[4] as int) / 64 == 1 && !Flag(s[4], 2)
  {
    hide FromLE, HeaderCrc, Flag;
  }

  /** More bytes are asked for exactly when five good ones promise a longer header. */
  lemma AsksExactly(s: seq<byte>, n: nat)
    ensures ParseHeader(s) == Incomplete(n) <==> MayBegin(s, n)
  {
    hide ParseHeader, HeaderWith, Flag, FlgWith, FromLE;
    if ParseHeader(s) == Incomplete(n) {
      IncompleteParts(s);
      var size, dict := Flag(s[4], 8), Flag(s[4], 1);
      var f := Info(4, !Flag(s[4], 32), Flag(s[4], 16), 0, Flag(s[4], 4), 0);
      FlagsMakeByte(s[4], f);
      MagicBytes(s);
      HeaderHead(f, size, dict);
      assert s[..5] == s[0..4] + [s[4]];
    }
    if MayBegin(s, n) {
      var f: Info, size, dict :| ValidInfo(f) && n == |HeaderWith(f, size, dict)| && s[..5] == HeaderWith(f, size, dict)[..5];
      HeaderWithBegun(f, size, dict, s);
    }
  }

  lemma HeaderHead(f: Info, size: bool, dict: bool)
    requires ValidInfo(f)
    ensures HeaderWith(f, size, dict)[..5] == LE32(MAGIC) + [FlgWith(f, size, dict)]
  {
    hide LE32, LE64, HeaderCrc, FlgWith;
    var h, d := HeaderWith(f, size, dict), DescriptorWith(f, size, dict);
    assert h[4] == d[0] == FlgWith(f, size, dict);
    assert h[..5] == h[..4] + [h[4]];
  }

  /** Everything else is refused: magic number, version, reserved bits, block size
      and checksum must all be those of a header. */
  lemma RefusesExactly(s: seq<byte>)
    ensures ParseHeader(s) == BadHeader <==> !(exists f, n :: BeginsWith(s, f, n)) && !(exists n :: MayBegin(s, n))
  {
    hide ParseHeader, BeginsWith, MayBegin;
    forall f, n ensures ParseHeader(s) == Parsed(f, n) <==> BeginsWith(s, f, n) {
      AcceptsExactly(s, f, n);
    }
    forall n ensures ParseHeader(s) == Incomplete(n) <==> MayBegin(s, n) {
      AsksExactly(s, n);
    }
  }

  /** An accepted header is the one an encoder writes for its description, but
      where a field is there to say zero; then it is longer by that field. */
  lemma AcceptedIsWritten(s: seq<byte>, f: Info, n: nat)
    requires ParseHeader(s) == Parsed(f, n)
    ensures ValidInfo(f) && MIN_FH_SIZE <= n <= |s|
    ensures n == |Header(f)| + (if Flag(s[4], 8) && f.contentSize == 0 then 8 else 0) + (if Flag(s[4], 1) && f.dictID == 0 then 4 else 0)
    ensures s[..n] == Header(f) <==> (Flag(s[4], 8) ==> f.contentSize > 0) && (Flag(s[4], 1) ==> f.dictID > 0)
  {
    hide ParseHeader, HeaderWith, Flag;
    ParsedBytes(s);
    assert s[..n] == HeaderWith(f, Flag(s[4], 8), Flag(s[4], 1));
    assert Header(f) == HeaderWith(f, f.contentSize > 0, f.dictID > 0) by {
      hide HeaderWith;
    }
  }

  /** A header with any other byte in the place of its checksum is refused. */
  lemma DamagedChecksum(f: Info, size: bool, dict: bool, s: seq<byte>)
    requires ValidInfo(f)
    requires var h := HeaderWith(f, size, dict); |s| >= |h| && s[..|h| - 1] == h[..|h| - 1] && s[|h| - 1] != h[|h| - 1]
    ensures ParseHeader(s) == BadHeader
  {
    hide Flag, LE32, LE64, HeaderCrc, HeaderWith, FlgWith, FromLE;
    var h := HeaderWith(f, size, dict);
    var n := |h|;
    HeaderParts(f, size, dict, h);
    FlagsOf(f, size, dict);
    assert s[0..4] == s[..n - 1][0..4] == h[..n - 1][0..4] == h[0..4];
    assert s[4] == s[..n - 1][4] == h[..n - 1][4] == h[4];
    assert s[4..n - 1] == s[..n - 1][4..] == h[..n - 1][4..] == h[4..n - 1];
  }

  // ---------------------------------------------------------------------
  // A header in full
  // ---------------------------------------------------------------------

  lemma SmallestChecksum()
    ensures HeaderCrc([0x64, 0x40]) == 0xA7
  {
    hide X.Hash;
    A.TwoBytes();
    assert X.Hash(0, [100, 64]) as int / 256 % 256 == 0xA7;
  }

  /** The magic number, the two bytes of the smallest descriptor, its checksum. */
  lemma SmallestHeader()
    ensures Header(Info(4, false, false, 0, true, 0)) == [0x04, 0x22, 0x4D, 0x18, 0x64, 0x40, 0xA7]
  {
    hide HeaderCrc, LE64;
    SmallestChecksum();
    var f := Info(4, false, false, 0, true, 0);
    assert DescriptorWith(f, false, false) == [0x64, 0x40];
    assert LE32(MAGIC) == [0x04, 0x22, 0x4D, 0x18];
  }

  lemma FullChecksum()
    ensures HeaderCrc([0x5D, 0x70, 8, 7, 6, 5, 4, 3, 2, 1, 0x0D, 0x0C, 0x0B, 0x0A]) == 0x6C
  {
    hide X.Hash;
    A.FourteenBytes();
    assert X.Hash(0, [93, 112, 8, 7, 6, 5, 4, 3, 2, 1, 13, 12, 11, 10]) as int / 256 % 256 == 0x6C;
  }

  /** A header with both fields, for linked blocks of 4 MB, with all checksums. */
  lemma FullHeader()
    ensures Header(Info(7, true, true, 0x0102_0304_0506_0708, true, 0x0A0B_0C0D))
            == [0x04, 0x22, 0x4D, 0x18, 0x5D, 0x70, 8, 7, 6, 5, 4, 3, 2, 1, 0x0D, 0x0C, 0x0B, 0x0A, 0x6C]
  {
    hide HeaderCrc, LE32, LE64, FlgWith;
    FullChecksum();
    var f := Info(7, true, true, 0x0102_0304_0506_0708, true, 0x0A0B_0C0D);
    SizeField();
    WordFields(f);
    var d := DescriptorWith(f, true, true);
    assert d == [0x5D, 0x70] + [8, 7, 6, 5, 4, 3, 2, 1] + [0x0D, 0x0C, 0x0B, 0x0A];
    assert d == [0x5D, 0x70, 8, 7, 6, 5, 4, 3, 2, 1, 0x0D, 0x0C, 0x0B, 0x0A];
  }

  lemma WordFields(f: Info)
    requires f.linked && f.blockChecksum && f.contentChecksum
    ensures LE32(0x0A0B_0C0D) == [0x0D, 0x0C, 0x0B, 0x0A] && LE32(MAGIC) == [0x04, 0x22, 0x4D, 0x18]
    ensures FlgWith(f, true, true) == 0x5D
  {
  }

  lemma SizeField()
    ensures LE64(0x0102_0304_0506_0708) == [8, 7, 6, 5, 4, 3, 2, 1]
  {
    assert LE(0x0102_0304, 4) == [4, 3, 2, 1];
    assert LE(0x0102_0304_05, 5) == [5] + LE(0x0102_0304, 4);
    assert LE(0x0102_0304_0506, 6) == [6] + LE(0x0102_0304_05, 5);
    assert LE(0x0102_0304_0506_07, 7) == [7] + LE(0x0102_0304_0506, 6);
  }

  /** A raw block of one byte, a compressed one of two, and the end mark. */
  lemma SmallestBlocks(f: Info, sum: nat, crc: nat)
    requires !f.blockChecksum && !f.contentChecksum
    ensures BlockBytes(f, FrameFormat.Block([65], [65], true, sum)) == [0x01, 0x00, 0x00, 0x80, 65]
    ensures BlockBytes(f, FrameFormat.Block([65], [0x10, 65], false, sum)) == [0x02, 0x00, 0x00, 0x00, 0x10, 65]
    ensures Trailer(f, crc) == [0x00, 0x00, 0x00, 0x00]
  {
    assert LE32(0x8000_0001) == [0x01, 0x00, 0x00, 0x80] && LE32(2) == [2, 0, 0, 0] && LE32(0) == [0, 0, 0, 0];
  }

  /** Each identifier stands for a block four times as large as the one below it. */
  lemma BlockSizes(id: nat)
    requires 4 <= id <= 7
    ensures BlockSize(4) == 0x1_0000 && BlockSize(0) == BlockSize(4)
    ensures id < 7 ==> BlockSize(id + 1) == 4 * BlockSize(id)
  {
  }
}
