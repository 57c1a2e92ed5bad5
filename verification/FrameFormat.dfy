/** The LZ4 frame format: descriptor, blocks, end mark and checksums, as
    functions from a description to bytes and back. */
module FrameFormat {
  import opened Format
  import opened Common
  import opened Emit
  import opened History
  import X = XxHash32

  const MAGIC: nat := 0x184D_2204
  const UNCOMPRESSED_FLAG: nat := 0x8000_0000
  const MIN_FH_SIZE: nat := 7
  const MAX_FH_SIZE: nat := 19
  const BH_SIZE: nat := 4
  const BF_SIZE: nat := 4

  // ---------------------------------------------------------------------
  // Little-endian numbers
  // ---------------------------------------------------------------------

  function LE(n: nat, size: nat): (s: seq<byte>)
    ensures |s| == size
    decreases size
  {
    if size == 0 then [] else [n % 256] + LE(n / 256, size - 1)
  }

  function FromLE(s: seq<byte>): (n: nat)
    decreases |s|
  {
    if s == [] then 0 else (s[0] as int) + 256 * FromLE(s[1..])
  }

  function Power256(k: nat): (p: nat)
    ensures p >= 1
  {
    if k == 0 then 1 else 256 * Power256(k - 1)
  }

  lemma {:induction false} LittleEndian(n: nat, size: nat)
    requires n < Power256(size)
    ensures FromLE(LE(n, size)) == n
    decreases size
  {
    if size > 0 {
      LittleEndian(n / 256, size - 1);
      assert LE(n, size)[1..] == LE(n / 256, size - 1);
    }
  }

  function LE32(n: nat): (s: seq<byte>)
    ensures |s| == 4
  {
    LE(n, 4)
  }

  function LE64(n: nat): (s: seq<byte>)
    ensures |s| == 8
  {
    LE(n, 8)
  }

  lemma LE32RoundTrip(n: nat)
    requires n < U32_RANGE
    ensures FromLE(LE32(n)) == n
  {
    assert Power256(4) == U32_RANGE;
    LittleEndian(n, 4);
  }

  lemma LE64RoundTrip(n: nat)
    requires n < U64_RANGE
    ensures FromLE(LE64(n)) == n
  {
    Eight256();
    LittleEndian(n, 8);
  }

  lemma Eight256()
    ensures Power256(8) == U64_RANGE
  {
    assert Power256(4) == U32_RANGE;
    assert Power256(8) == 256 * Power256(7) && Power256(7) == 256 * Power256(6);
    assert Power256(6) == 256 * Power256(5) && Power256(5) == 256 * Power256(4);
  }

  function Number(h: bv32): (n: nat)
    ensures n < U32_RANGE
  {
    h as int
  }

  /** XXH32 with seed 0. */
  function Crc(s: seq<byte>): (c: nat)
    ensures c < U32_RANGE
  {
    Number(X.Hash(0, s))
  }

  /** LZ4F_headerChecksum: the second byte. */
  function HeaderCrc(s: seq<byte>): byte {
    Crc(s) / 256 % 256
  }

  // ---------------------------------------------------------------------
  // Frame descriptor
  // ---------------------------------------------------------------------

  /** LZ4F_frameInfo_t; contentSize 0 and dictID 0 stand for none. */
  datatype Info = Info(blockSizeID: nat, linked: bool, blockChecksum: bool, contentSize: nat, contentChecksum: bool, dictID: nat)

  predicate ValidInfo(f: Info) {
    4 <= f.blockSizeID <= 7 && f.contentSize < U64_RANGE && f.dictID < U32_RANGE
  }

  /** LZ4F_getBlockSize. */
  function BlockSize(id: nat): (size: nat)
    requires id == 0 || 4 <= id <= 7
    ensures KB64 <= size <= 0x40_0000
  {
    if id == 0 || id == 4 then 64 * KB
    else if id == 5 then 256 * KB
    else if id == 6 then 1024 * KB
    else 4096 * KB
  }

  function Bit(b: bool): nat {
    if b then 1 else 0
  }

  /** The FLG byte of a descriptor in which the two optional fields are there or not. */
  function FlgWith(f: Info, size: bool, dict: bool): byte {
    64 + 32 * Bit(!f.linked) + 16 * Bit(f.blockChecksum) + 8 * Bit(size) + 4 * Bit(f.contentChecksum) + Bit(dict)
  }

  function Flg(f: Info): byte {
    FlgWith(f, f.contentSize > 0, f.dictID > 0)
  }

  function DescriptorWith(f: Info, size: bool, dict: bool): (s: seq<byte>)
    requires ValidInfo(f)
    ensures |s| == 2 + (if size then 8 else 0) + (if dict then 4 else 0)
  {
    [FlgWith(f, size, dict), 16 * f.blockSizeID]
    + (if size then LE64(f.contentSize) else [])
    + (if dict then LE32(f.dictID) else [])
  }

  function Descriptor(f: Info): (s: seq<byte>)
    requires ValidInfo(f)
    ensures |s| == 2 + (if f.contentSize > 0 then 8 else 0) + (if f.dictID > 0 then 4 else 0)
  {
    DescriptorWith(f, f.contentSize > 0, f.dictID > 0)
  }

  /** A header with the fields that size and dict say, even where they hold zero. */
  function HeaderWith(f: Info, size: bool, dict: bool): (s: seq<byte>)
    requires ValidInfo(f)
    ensures |s| == MIN_FH_SIZE + (if size then 8 else 0) + (if dict then 4 else 0)
  {
    LE32(MAGIC) + DescriptorWith(f, size, dict) + [HeaderCrc(DescriptorWith(f, size, dict))]
  }

  /** What an encoder writes: a field for every number that is not zero. */
  function Header(f: Info): (s: seq<byte>)
    requires ValidInfo(f)
    ensures MIN_FH_SIZE <= |s| <= MAX_FH_SIZE
  {
    HeaderWith(f, f.contentSize > 0, f.dictID > 0)
  }

  // ---------------------------------------------------------------------
  // Data blocks
  // ---------------------------------------------------------------------

  /** piece is stored as payload, compressed or raw; sum is the checksum that is
      stored with it, in frames that have them. */
  datatype Block = Block(piece: seq<byte>, payload: seq<byte>, raw: bool, sum: nat)

  function BlockHeader(b: Block): nat {
    |b.payload| + if b.raw then UNCOMPRESSED_FLAG else 0
  }

  function BlockFooter(f: Info, b: Block): seq<byte> {
    if f.blockChecksum then LE32(b.sum) else []
  }

  function BlockBytes(f: Info, b: Block): seq<byte> {
    LE32(BlockHeader(b)) + (b.payload + BlockFooter(f, b))
  }

  function Body(f: Info, bs: seq<Block>): seq<byte> {
    if bs == [] then [] else BlockBytes(f, bs[0]) + Body(f, bs[1..])
  }

  function Content(bs: seq<Block>): seq<byte> {
    if bs == [] then [] else bs[0].piece + Content(bs[1..])
  }

  /** The end mark, and the content checksum that is stored. */
  function Trailer(f: Info, crc: nat): seq<byte> {
    LE32(0) + if f.contentChecksum then LE32(crc) else []
  }

  function Footer(f: Info, content: seq<byte>): seq<byte> {
    Trailer(f, Crc(content))
  }

  function FrameBytes(f: Info, bs: seq<Block>): seq<byte>
    requires ValidInfo(f)
  {
    Header(f) + (Body(f, bs) + Footer(f, Content(bs)))
  }

  /** A decoder that holds `before`, all the content so far (or nothing, when
      blocks are independent), restores piece from the block. */
  ghost predicate GoodBlock(f: Info, before: seq<byte>, b: Block) {
    && 0 < |b.piece| <= BlockLimit(f) && 0 < |b.payload| <= BlockLimit(f)
    && (if b.raw then b.payload == b.piece
        else |b.payload| < |b.piece| && Decodes(b.payload, if f.linked then before else [], b.piece))
    && b.sum == Crc(b.payload)
  }

  function BlockLimit(f: Info): nat {
    if 4 <= f.blockSizeID <= 7 then BlockSize(f.blockSizeID) else KB64
  }

  ghost predicate GoodBlocks(f: Info, before: seq<byte>, bs: seq<Block>)
    decreases |bs|
  {
    bs == [] || (GoodBlock(f, before, bs[0]) && GoodBlocks(f, before + bs[0].piece, bs[1..]))
  }

  /** A frame as LZ4F_compressBegin, Update, Flush and End write it. */
  ghost predicate GoodFrame(f: Info, bs: seq<Block>) {
    && ValidInfo(f) && GoodBlocks(f, [], bs)
    && (f.contentSize > 0 ==> f.contentSize == |Content(bs)|)
  }

  // ---------------------------------------------------------------------
  // Frames as they may arrive
  // ---------------------------------------------------------------------

  function StoredFrame(f: Info, bs: seq<Block>, crc: nat): seq<byte>
    requires ValidInfo(f)
  {
    Header(f) + (Body(f, bs) + Trailer(f, crc))
  }

  /** The block is not too large, and its checksum is right. */
  predicate Intact(f: Info, b: Block) {
    |b.payload| <= BlockLimit(f) && (f.blockChecksum ==> b.sum == Crc(b.payload))
  }

  predicate AllIntact(f: Info, bs: seq<Block>) {
    forall i :: 0 <= i < |bs| ==> Intact(f, bs[i])
  }

  /** The size and the checksum in the frame are those of the content. */
  predicate Sealed(f: Info, crc: nat, content: seq<byte>) {
    (f.contentSize > 0 ==> |content| % U64_RANGE == f.contentSize) && (f.contentChecksum ==> crc == Crc(content))
  }

  predicate Undamaged(f: Info, bs: seq<Block>, crc: nat) {
    AllIntact(f, bs) && Sealed(f, crc, Content(bs))
  }

  /** A block with any checksum: raw, or compressed so that it can be decoded
      unless it is seen to be damaged. */
  ghost predicate Readable(f: Info, before: seq<byte>, b: Block) {
    && 0 < |b.piece| && 0 < |b.payload| < UNCOMPRESSED_FLAG && b.sum < U32_RANGE
    && (if b.raw then b.payload == b.piece
        else Intact(f, b) ==> |b.piece| <= BlockLimit(f) && Decodes(b.payload, if f.linked then before else [], b.piece))
  }

  ghost predicate ReadableBlocks(f: Info, before: seq<byte>, bs: seq<Block>)
    decreases |bs|
  {
    bs == [] || (Readable(f, before, bs[0]) && ReadableBlocks(f, before + bs[0].piece, bs[1..]))
  }

  ghost predicate ReadableFrame(f: Info, bs: seq<Block>, crc: nat) {
    ValidInfo(f) && ReadableBlocks(f, [], bs) && crc < U32_RANGE
  }

  lemma {:induction false} GoodIsReadable(f: Info, before: seq<byte>, bs: seq<Block>)
    requires GoodBlocks(f, before, bs)
    ensures ReadableBlocks(f, before, bs) && AllIntact(f, bs)
    decreases |bs|
  {
    hide Decodes, Crc;
    if bs != [] {
      GoodIsReadable(f, before + bs[0].piece, bs[1..]);
    }
  }

  /** What the encoder writes arrives undamaged. */
  lemma GoodFrameArrives(f: Info, bs: seq<Block>)
    requires GoodFrame(f, bs)
    ensures var crc := Crc(Content(bs));
            ReadableFrame(f, bs, crc) && Undamaged(f, bs, crc) && FrameBytes(f, bs) == StoredFrame(f, bs, crc)
  {
    hide Crc, Content, Body, Header, Trailer, ReadableBlocks, GoodBlocks, AllIntact;
    GoodIsReadable(f, [], bs);
  }

  // One more block at the end.

  lemma {:induction false} BodyAppend(f: Info, bs: seq<Block>, b: Block)
    ensures Body(f, bs + [b]) == Body(f, bs) + BlockBytes(f, b)
    decreases |bs|
  {
    hide BlockBytes;
    if bs == [] {
      assert (bs + [b])[1..] == [] && Body(f, []) == [];
      assert BlockBytes(f, b) + [] == BlockBytes(f, b) == [] + BlockBytes(f, b);
    } else {
      assert (bs + [b])[1..] == bs[1..] + [b];
      BodyAppend(f, bs[1..], b);
      assert BlockBytes(f, bs[0]) + (Body(f, bs[1..]) + BlockBytes(f, b)) == BlockBytes(f, bs[0]) + Body(f, bs[1..]) + BlockBytes(f, b);
    }
  }

  lemma {:induction false} ContentAppend(bs: seq<Block>, b: Block)
    ensures Content(bs + [b]) == Content(bs) + b.piece
    decreases |bs|
  {
    if bs == [] {
      assert (bs + [b])[1..] == [] && Content([]) == [];
      assert b.piece + [] == b.piece == [] + b.piece;
    } else {
      assert (bs + [b])[1..] == bs[1..] + [b];
      ContentAppend(bs[1..], b);
      assert bs[0].piece + (Content(bs[1..]) + b.piece) == bs[0].piece + Content(bs[1..]) + b.piece;
    }
  }

  lemma {:induction false} GoodBlocksAppend(f: Info, before: seq<byte>, bs: seq<Block>, b: Block)
    requires GoodBlocks(f, before, bs) && GoodBlock(f, before + Content(bs), b)
    ensures GoodBlocks(f, before, bs + [b])
    decreases |bs|
  {
    hide GoodBlock;
    if bs == [] {
      assert before + Content(bs) == before;
      assert (bs + [b])[1..] == [];
    } else {
      assert (bs + [b])[1..] == bs[1..] + [b];
      assert before + Content(bs) == (before + bs[0].piece) + Content(bs[1..]);
      GoodBlocksAppend(f, before + bs[0].piece, bs[1..], b);
    }
  }

  // ---------------------------------------------------------------------
  // LZ4F_decodeHeader
  // ---------------------------------------------------------------------

  datatype HeaderResult = BadHeader | Incomplete(needed: nat) | Parsed(info: Info, size: nat)

  function Flag(b: byte, bit: nat): bool
    requires bit > 0
  {
    (b as int) / bit % 2 == 1
  }

  /** The size of the header, from its FLG byte. */
  function HeaderSize(flg: byte): (n: nat)
    ensures MIN_FH_SIZE <= n <= MAX_FH_SIZE
  {
    MIN_FH_SIZE + (if Flag(flg, 8) then 8 else 0) + (if Flag(flg, 1) then 4 else 0)
  }

  /** The checks and the fields of a header, for bytes from its first one on. */
  function ParseHeader(s: seq<byte>): HeaderResult {
    if |s| < MIN_FH_SIZE || FromLE(s[0..4]) != MAGIC then BadHeader
    else
      var flg := s[4];
      if Flag(flg, 2) || (flg as int) / 64 != 1 then BadHeader
      else
        var size := HeaderSize(flg);
        if |s| < size then Incomplete(size)
        else
          var bd := s[5];
          if bd >= 128 || bd < 64 || bd % 16 != 0 || HeaderCrc(s[4..size - 1]) != s[size - 1] then BadHeader
          else
            Parsed(Info(bd / 16, !Flag(flg, 32), Flag(flg, 16), if Flag(flg, 8) then FromLE(s[6..14]) else 0,
                        Flag(flg, 4), if Flag(flg, 1) then FromLE(s[size - 5..size - 1]) else 0), size)
  }

  lemma FlagsOf(f: Info, size: bool, dict: bool)
    ensures var flg := FlgWith(f, size, dict);
            && (flg as int) / 64 == 1 && !Flag(flg, 2) && Flag(flg, 32) == !f.linked && Flag(flg, 16) == f.blockChecksum
            && Flag(flg, 8) == size && Flag(flg, 4) == f.contentChecksum && Flag(flg, 1) == dict
  {
  }

  /** The fields of a header, where a header is expected to have them. */
  predicate Fields(f: Info, size: bool, dict: bool) {
    ValidInfo(f) && (f.contentSize > 0 ==> size) && (f.dictID > 0 ==> dict)
  }

  /** The bytes of a header, where they stand. */
  lemma HeaderParts(f: Info, size: bool, dict: bool, s: seq<byte>)
    requires ValidInfo(f) && HeaderWith(f, size, dict) <= s
    ensures var n, d := |HeaderWith(f, size, dict)|, DescriptorWith(f, size, dict);
            && FromLE(s[0..4]) == MAGIC && s[4] == FlgWith(f, size, dict) && s[5] == 16 * f.blockSizeID
            && s[4..n - 1] == d && s[n - 1] == HeaderCrc(d)
            && (size ==> s[6..14] == LE64(f.contentSize))
            && (dict ==> s[n - 5..n - 1] == LE32(f.dictID))
  {
    hide FlgWith, HeaderCrc, LE32, LE64;
    LE32RoundTrip(MAGIC);
    var h, d := HeaderWith(f, size, dict), DescriptorWith(f, size, dict);
    var n := |h|;
    assert s[0..4] == h[0..4] == LE32(MAGIC);
    assert s[4..n - 1] == h[4..n - 1] == d;
    assert s[4] == d[0] && s[5] == d[1];
    assert s[n - 1] == h[n - 1];
    if size {
      assert s[6..14] == s[4..n - 1][2..10] == d[2..10] == LE64(f.contentSize);
    }
    if dict {
      assert s[n - 5..n - 1] == s[4..n - 1][n - 9..n - 5] == d[n - 9..n - 5] == LE32(f.dictID);
    }
  }

  /** Reading back a header. */
  lemma HeaderWithRoundTrip(f: Info, size: bool, dict: bool, s: seq<byte>)
    requires Fields(f, size, dict) && HeaderWith(f, size, dict) <= s
    ensures ParseHeader(s) == Parsed(f, |HeaderWith(f, size, dict)|)
  {
    hide FlgWith, HeaderCrc, LE32, LE64, Flag, HeaderWith, DescriptorWith, FromLE;
    HeaderParts(f, size, dict, s);
    FlagsOf(f, size, dict);
    if size { LE64RoundTrip(f.contentSize); }
    if dict { LE32RoundTrip(f.dictID); }
  }

  lemma HeaderRoundTrip(f: Info, s: seq<byte>)
    requires ValidInfo(f) && Header(f) <= s
    ensures ParseHeader(s) == Parsed(f, |Header(f)|)
  {
    hide HeaderWith, ParseHeader;
    HeaderWithRoundTrip(f, f.contentSize > 0, f.dictID > 0, s);
  }

  /** Five bytes of a header are enough to know how long it is; the source asks
      for seven. */
  lemma HeaderWithBegun(f: Info, size: bool, dict: bool, s: seq<byte>)
    requires ValidInfo(f) && MIN_FH_SIZE <= |s| < |HeaderWith(f, size, dict)| && s[..5] == HeaderWith(f, size, dict)[..5]
    ensures ParseHeader(s) == Incomplete(|HeaderWith(f, size, dict)|)
  {
    hide FlgWith, HeaderCrc, LE32, LE64, Flag, HeaderWith, DescriptorWith, FromLE;
    var h := HeaderWith(f, size, dict);
    HeaderParts(f, size, dict, h);
    FlagsOf(f, size, dict);
    assert s[0..4] == s[..5][..4] == h[..5][..4] == h[0..4];
    assert s[4] == s[..5][4] == h[..5][4] == h[4];
  }

  lemma HeaderBegun(f: Info, s: seq<byte>)
    requires ValidInfo(f) && s <= Header(f) && MIN_FH_SIZE <= |s| < |Header(f)|
    ensures ParseHeader(s) == Incomplete(|Header(f)|)
  {
    hide HeaderWith, ParseHeader;
    assert s[..5] == Header(f)[..5];
    HeaderWithBegun(f, f.contentSize > 0, f.dictID > 0, s);
  }
}
