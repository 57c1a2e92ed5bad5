/** LZ4F_decompress: the resumable decoder of frames.  A call may stop at any
    byte of input or output; the next one goes on from there.  Output buffers
    change from call to call (stableDst is 0), so that the history of linked
    blocks must be moved into the context in time. */
module FrameDecoder {
  import opened Format
  import opened Common
  import opened Emit
  import opened FrameFormat
  import opened FrameProgress
  import opened FrameHint
  import opened FrameHistory
  import opened FrameDictionary
  import H = History
  import B = Block
  import X = XxHash32

  /** dStage_t, without the stages of skippable frames. */
  datatype Stage =
    | GetFrameHeader | StoreFrameHeader
    | Init
    | GetBlockHeader | StoreBlockHeader
    | CopyDirect | GetBlockChecksum
    | GetCBlock | StoreCBlock
    | FlushOut
    | GetSuffix | StoreSuffix

  /** What a step of the machine asks for: go on, stop with a hint, or fail. */
  datatype Go = Again | Stop(hint: nat) | Fail

  // ---------------------------------------------------------------------
  // Decoding one block into a window of a buffer
  // ---------------------------------------------------------------------

  /** LZ4_decompress_safe_usingDict(src, dst + start, |src|, cap, dict): nothing
      outside dst[start..start + cap] is written. */
  method DecompressAt(src: seq<byte>, dst: array<byte>, start: nat, cap: nat, dict: seq<byte>, inPlace: bool, ghost content: seq<byte>)
    returns (result: int)
    requires start + cap <= dst.Length && |src| <= 0x100_0000
    requires inPlace ==> |dict| <= start && dst[start - |dict|..start] == dict
    modifies dst
    ensures dst[..start] == old(dst[..start]) && dst[start + cap..] == old(dst[start + cap..])
    ensures result <= cap
    ensures Decodes(src, dict, content) && |content| <= cap ==> result == |content| && dst[start..start + result] == content
  {
    hide Decodes;
    ghost var was := dst[..];
    var out := new byte[start + cap](i requires 0 <= i < start + cap reads dst => dst[i]);
    assert out[..start] == dst[..start] == was[..start];
    result := B.DecompressSafeUsingDict(src, out, start, dict, inPlace, content);
    Put(dst, start, out[start..]);
    if result >= 0 { assert dst[start..start + cap][..result] == out[start..][..result] == out[start..start + result]; }
  }

  // ---------------------------------------------------------------------
  // The context
  // ---------------------------------------------------------------------

  /** memcpy of as many bytes as there are, up to a target. */
  method Take(buf: array<byte>, at: nat, target: nat, src: seq<byte>, sp: nat) returns (at': nat, sp': nat)
    requires at <= target <= buf.Length && sp <= |src|
    modifies buf
    ensures at <= at' <= target && sp' == sp + (at' - at) <= |src| && (at' == target || sp' == |src|)
    ensures buf[..at'] == old(buf[..at]) + src[sp..sp']
  {
    var sizeToCopy := Least(target - at, |src| - sp);
    forall i | 0 <= i < sizeToCopy { buf[at + i] := src[sp + i]; }
    at', sp' := at + sizeToCopy, sp + sizeToCopy;
    assert buf[..at'] == buf[..at] + buf[at..at'];
  }

  /** What was handed out. */
  function Out(g: Progress): seq<byte> {
    if |g.left| <= |g.total| then g.total[..|g.total| - |g.left|] else []
  }

  /** In a call that began at g0: sp bytes of the input were consumed, and the rest
      begins what is next; dst[..dp] was handed out. */
  predicate IO(g: Progress, src: seq<byte>, sp: nat, dst: seq<byte>, dp: nat, g0: Progress) {
    && sp <= |src| && dp <= |dst| && src[sp..] <= g.rest && src[..sp] + g.rest == g0.rest
    && g0.left == dst[..dp] + g.left && g0.total == Out(g0) + g0.left
    && g.total == g0.total && g.all == g0.all && g.f == g0.f && g.tail == g0.tail && g.crc == g0.crc && g.clean == g0.clean
  }

  lemma Consume(g: Progress, src: seq<byte>, sp: nat, dst: seq<byte>, dp: nat, g0: Progress, n: nat)
    requires IO(g, src, sp, dst, dp, g0) && sp + n <= |src|
    ensures n <= |g.rest| && g.rest[..n] == src[sp..sp + n]
    ensures IO(g.(rest := g.rest[n..]), src, sp + n, dst, dp, g0)
  {
    var t := src[sp..];
    assert src[sp..sp + n] == t[..n] == g.rest[..n];
    assert src[sp + n..] == t[n..];
    assert g.rest == g.rest[..n] + g.rest[n..];
    assert src[..sp + n] == src[..sp] + src[sp..sp + n];
    assert src[..sp] + (src[sp..sp + n] + g.rest[n..]) == src[..sp] + src[sp..sp + n] + g.rest[n..];
  }

  lemma Produce(g: Progress, src: seq<byte>, sp: nat, dst: seq<byte>, dp: nat, g0: Progress, n: nat, dst': seq<byte>)
    requires IO(g, src, sp, dst, dp, g0) && n <= |g.left| && dp + n <= |dst'| && dst'[..dp] == dst[..dp]
    requires dst'[dp..dp + n] == g.left[..n]
    ensures IO(g.(left := g.left[n..]), src, sp, dst', dp + n, g0)
  {
    assert dst'[..dp + n] == dst'[..dp] + dst'[dp..dp + n];
    assert g.left == g.left[..n] + g.left[n..];
    assert dst[..dp] + (g.left[..n] + g.left[n..]) == (dst[..dp] + g.left[..n]) + g.left[n..];
  }

  lemma OutIs(g: Progress, src: seq<byte>, sp: nat, dst: seq<byte>, dp: nat, g0: Progress)
    requires IO(g, src, sp, dst, dp, g0)
    ensures Out(g) == Out(g0) + dst[..dp] && g.total == Out(g) + g.left
    ensures dp <= |Out(g)| && Last(Out(g), dp) == dst[..dp]
  {
    assert g.total == (Out(g0) + dst[..dp]) + g.left;
    assert g.total[..|g.total| - |g.left|] == Out(g0) + dst[..dp];
  }

  /** The frame is clean if what is still to be checked is. */
  predicate Cleanly(g: Progress, inside: bool) {
    g.clean <==> (inside ==> Intact(g.f, g.cur)) && AllIntact(g.f, g.todo) && Sealed(g.f, g.crc, g.total)
  }

  /** Blocks that can be decoded, unless they are damaged. */
  ghost predicate Decodable(g: Progress, inside: bool) {
    && Cleanly(g, inside)
    && (if inside then
          Readable(g.f, g.hist, g.cur) && |g.cur.payload| <= BlockLimit(g.f) && ReadableBlocks(g.f, g.hist + g.cur.piece, g.todo)
        else
          ReadableBlocks(g.f, g.hist, g.todo))
  }

  /** A frame that was not begun, and the bytes behind it. */
  function Start(f: Info, bs: seq<FrameFormat.Block>, crc: nat, tail: seq<byte>): Progress
    requires ValidInfo(f)
  {
    Progress(f, bs, Content(bs), FrameFormat.Block([], [], false, 0), bs, [], StoredFrame(f, bs, crc) + tail, Content(bs), tail,
             crc, Undamaged(f, bs, crc))
  }

  lemma FrameBegins(f: Info, bs: seq<FrameFormat.Block>, crc: nat, tail: seq<byte>)
    requires ReadableFrame(f, bs, crc)
    ensures var g := Start(f, bs, crc, tail);
            Fresh(g, []) && Decodable(g, false)
  {
    hide Header, Body, Trailer, ReadableBlocks, AllIntact, Sealed;
    var h, b, e := Header(f), Body(f, bs), Trailer(f, crc);
    assert [] + ((h + (b + e)) + tail) == h + (b + (e + tail));
  }

  /** The size in the frame, if there is one, is that of the content. */
  predicate SizeRight(g: Progress) {
    g.f.contentSize > 0 ==> |g.total| % U64_RANGE == g.f.contentSize
  }

  /** Stages that may be followed by another one without input or output. */
  function Rank(stage: Stage): nat {
    if stage == Init || stage == GetCBlock then 1 else 0
  }

  /** Stages at which a call may stop. */
  predicate Waiting(stage: Stage) {
    stage !in {Init, GetSuffix}
  }

  /** Stages from which history is needed, dstage_init to dstage_flushOut. */
  predicate Kept(stage: Stage) {
    stage !in {GetFrameHeader, StoreFrameHeader, GetSuffix, StoreSuffix}
  }

  /** Stages with output to come. */
  predicate Owing(stage: Stage) {
    stage in {CopyDirect, GetCBlock, StoreCBlock, FlushOut}
  }

  class Dctx {
    var info: Info
    var dStage: Stage
    var frameRemainingSize: int
    var maxBlockSize: nat
    var maxBufferSize: nat
    var tmpIn: array<byte>
    var tmpInSize: nat
    var tmpInTarget: nat
    var tmpOutBuffer: array<byte>
    var dict: Dict
    var dictSize: nat
    var tmpOut: nat
    var tmpOutSize: nat
    var tmpOutStart: nat
    const xxh: X.State
    const blockChecksum: X.State
    const header: array<byte>
    ghost var g: Progress
    ghost var bufferFor: nat

    ghost predicate Distinct()
      reads `tmpIn, `tmpOutBuffer, xxh, blockChecksum
    {
      && header.Length == MAX_FH_SIZE && xxh != blockChecksum
      && header != tmpIn && header != tmpOutBuffer && header != xxh.mem && header != blockChecksum.mem
      && tmpIn != tmpOutBuffer && tmpIn != xxh.mem && tmpIn != blockChecksum.mem
      && tmpOutBuffer != xxh.mem && tmpOutBuffer != blockChecksum.mem && xxh.mem != blockChecksum.mem
      && xxh.mem.Length == 16 && blockChecksum.mem.Length == 16
    }

    /** How the internal buffers were allocated. */
    ghost predicate Buffered()
      reads `maxBufferSize, `bufferFor, `tmpIn, `tmpOutBuffer
    {
      || (maxBufferSize == 0 && bufferFor == 0)
      || (bufferFor in {64 * KB, 256 * KB, 1024 * KB, 4096 * KB} && tmpIn.Length == bufferFor + BF_SIZE
          && tmpOutBuffer.Length == maxBufferSize && (maxBufferSize == bufferFor || maxBufferSize == bufferFor + KB128))
    }

    /** Buffers are large enough for the frame at hand. */
    ghost predicate Ready()
      reads `info, `maxBlockSize, `maxBufferSize, `tmpIn, `tmpOutBuffer, `g
    {
      && info == g.f && maxBlockSize == BlockLimit(g.f)
      && maxBlockSize + BF_SIZE <= tmpIn.Length && tmpOutBuffer.Length == maxBufferSize
      && maxBlockSize + (if g.f.linked then KB128 else 0) <= maxBufferSize
    }

    /** Where the frame stands, stage by stage. */
    ghost predicate Position()
      reads `dStage, `info, `maxBlockSize, `maxBufferSize, `tmpIn, `tmpInSize, `tmpInTarget, `tmpOutBuffer, `tmpOutSize, `tmpOutStart, `g
      reads header, tmpIn
    {
      match dStage
      case GetFrameHeader => Fresh(g, [])
      case StoreFrameHeader =>
        && 0 < tmpInSize < tmpInTarget <= MAX_FH_SIZE <= header.Length && Fresh(g, header[..tmpInSize])
        && (tmpInTarget == MIN_FH_SIZE || (MIN_FH_SIZE <= tmpInSize && tmpInTarget == |Header(g.f)|))
      case Init => info == g.f && maxBlockSize == BlockLimit(g.f) && Between(g, []) && g.hist == []
      case GetBlockHeader => Ready() && Between(g, [])
      case StoreBlockHeader => Ready() && tmpInSize < BH_SIZE && Between(g, tmpIn[..tmpInSize])
      case CopyDirect => Ready() && 0 < tmpInTarget <= |g.cur.payload| && InRaw(g, |g.cur.payload| - tmpInTarget)
      case GetBlockChecksum => Ready() && tmpInSize < 4 <= header.Length && BeforeCheck(g, header[..tmpInSize])
      case GetCBlock => Ready() && tmpInTarget == |g.cur.payload| + |BlockFooter(g.f, g.cur)| && InCoded(g, [])
      case StoreCBlock =>
        && Ready() && tmpInTarget == |g.cur.payload| + |BlockFooter(g.f, g.cur)|
        && tmpInSize < tmpInTarget && tmpInSize <= tmpIn.Length && InCoded(g, tmpIn[..tmpInSize])
      case FlushOut =>
        Ready() && tmpOutSize == |g.cur.piece| && tmpOutStart < tmpOutSize && InFlush(g, tmpOutStart) && Intact(g.f, g.cur)
      case GetSuffix => Ready() && BeforeSuffix(g, [])
      case StoreSuffix =>
        Ready() && g.f.contentChecksum && tmpInSize < 4 && BeforeSuffix(g, tmpIn[..tmpInSize]) && SizeRight(g)
    }

    ghost predicate InBlock()
      reads `dStage
    {
      dStage in {CopyDirect, GetBlockChecksum, GetCBlock, StoreCBlock, FlushOut}
    }

    ghost predicate Good()
      reads `dStage, `g
    {
      if dStage in {GetSuffix, StoreSuffix} then Cleanly(g, false) else Decodable(g, InBlock())
    }

    /** frameRemainingSize, when d is the content decoded so far. */
    ghost predicate Counted(d: seq<byte>)
      reads `frameRemainingSize, `g
    {
      frameRemainingSize == if g.f.contentSize > 0 then (g.f.contentSize - |d|) % U64_RANGE else 0
    }

    /** The content checksum covers d. */
    ghost predicate Hashed(d: seq<byte>)
      reads `g, xxh, xxh.mem
    {
      g.f.contentChecksum ==> xxh.Valid() && xxh.seed == 0 && xxh.fed == d
    }

    /** The checksum of a raw block covers what was handed out of it. */
    ghost predicate BlockHashed(d: seq<byte>)
      reads `g, blockChecksum, blockChecksum.mem
    {
      g.f.blockChecksum ==> blockChecksum.Valid() && blockChecksum.seed == 0 && g.hist + blockChecksum.fed == d
    }

    ghost predicate Sums()
      reads `dStage, `frameRemainingSize, `g, xxh, xxh.mem, blockChecksum, blockChecksum.mem
    {
      match dStage
      case GetFrameHeader => frameRemainingSize == 0
      case StoreFrameHeader => frameRemainingSize == 0
      case Init => Counted([])
      case CopyDirect => Counted(Out(g)) && Hashed(Out(g)) && BlockHashed(Out(g))
      case GetBlockChecksum => Counted(Out(g)) && Hashed(Out(g)) && BlockHashed(Out(g))
      case FlushOut => Counted(g.hist + g.cur.piece) && Hashed(g.hist + g.cur.piece)
      case _ => Counted(Out(g)) && Hashed(Out(g))
    }

    /** The dictionary, when dst[..dp] was written by the current call. */
    ghost predicate LinkedTo(dst: seq<byte>, dp: nat)
      reads `dict, `dictSize, `tmpOut, `tmpOutBuffer, `g, tmpOutBuffer
    {
      if g.f.linked then DictIs(dict, dictSize, tmpOutBuffer[..], dst, dp, Out(g))
      else dict == NoDict && dictSize == 0 && tmpOut == 0
    }

    /** The same, with a decoded block to hand out. */
    ghost predicate FlushTo(dst: seq<byte>, dp: nat)
      reads `dict, `dictSize, `tmpOut, `tmpOutStart, `tmpOutBuffer, `maxBlockSize, `g, tmpOutBuffer
    {
      && tmpOutStart <= |g.cur.piece| && tmpOut + maxBlockSize <= tmpOutBuffer.Length
      && (if g.f.linked then FlushIs(dict, dictSize, tmpOutBuffer[..], tmpOut, dst, dp, g.hist, g.cur.piece, tmpOutStart)
          else dict == NoDict && dictSize == 0 && tmpOut == 0
               && |g.cur.piece| <= tmpOutBuffer.Length && tmpOutBuffer[..|g.cur.piece|] == g.cur.piece)
    }

    ghost predicate History(dst: seq<byte>, dp: nat)
      reads this, tmpOutBuffer
    {
      match dStage
      case GetFrameHeader => dict == NoDict && dictSize == 0
      case StoreFrameHeader => dict == NoDict && dictSize == 0
      case Init => dict == NoDict && dictSize == 0
      case FlushOut => FlushTo(dst, dp)
      case GetSuffix => true
      case StoreSuffix => true
      case _ => LinkedTo(dst, dp)
    }

    ghost predicate State(dst: seq<byte>, dp: nat)
      reads this, header, tmpIn, tmpOutBuffer, xxh, xxh.mem, blockChecksum, blockChecksum.mem
    {
      Position() && Good() && Sums() && History(dst, dp)
    }

    /** In the middle of a call. */
    ghost predicate Running(src: seq<byte>, sp: nat, dst: seq<byte>, dp: nat, g0: Progress)
      reads this, header, tmpIn, tmpOutBuffer, xxh, xxh.mem, blockChecksum, blockChecksum.mem
    {
      Distinct() && Buffered() && State(dst, dp) && IO(g, src, sp, dst, dp, g0)
    }

    /** Between calls: nothing depends on the output buffer of the last one. */
    ghost predicate Valid()
      reads this, header, tmpIn, tmpOutBuffer, xxh, xxh.mem, blockChecksum, blockChecksum.mem
    {
      Distinct() && Buffered() && State([], 0)
      && (dict.InDst? ==> dStage == StoreSuffix)
    }

    /** LZ4F_createDecompressionContext, for a reader of the frame (f, bs) and of
        what follows it. */
    constructor (ghost f: Info, ghost bs: seq<FrameFormat.Block>, ghost crc: nat, ghost tail: seq<byte>)
      requires ReadableFrame(f, bs, crc)
      ensures Valid() && dStage == GetFrameHeader && g == Start(f, bs, crc, tail)
      ensures fresh(header) && fresh(tmpIn) && fresh(tmpOutBuffer) && fresh(xxh) && fresh(xxh.mem) && fresh(blockChecksum) && fresh(blockChecksum.mem)
    {
      hide State, X.Holds, X.Stripes, X.Init, X.Rest, StoredFrame, Content, ReadableBlocks, Undamaged, Decodable, Fresh;
      FrameBegins(f, bs, crc, tail);
      info, dStage, frameRemainingSize := Info(0, false, false, 0, false, 0), GetFrameHeader, 0;
      maxBlockSize, maxBufferSize, tmpInSize, tmpInTarget := 0, 0, 0, 0;
      dict, dictSize, tmpOut, tmpOutSize, tmpOutStart := NoDict, 0, 0, 0, 0;
      tmpIn := new byte[0];
      tmpOutBuffer := new byte[0];
      header := new byte[MAX_FH_SIZE](_ => 0);
      xxh := new X.State(0);
      blockChecksum := new X.State(0);
      g := Start(f, bs, crc, tail);
      bufferFor := 0;
      new;
      AtHeader([], 0);
    }

    // -------------------------------------------------------------------
    // What the state means, stage by stage
    // -------------------------------------------------------------------

    lemma AtHeader(dst: seq<byte>, dp: nat)
      requires dStage == GetFrameHeader
      ensures State(dst, dp) <==>
                Fresh(g, []) && Decodable(g, false) && frameRemainingSize == 0 && dict == NoDict && dictSize == 0
    {
      hide Fresh, Between, Inside, InRaw, BeforeCheck, InCoded, InFlush, BeforeSuffix, Decodable, Cleanly, Intact, SizeRight;
      hide Counted, Hashed, BlockHashed, LinkedTo, FlushTo, Ready, Out, Header;
    }

    lemma AtStoreHeader(dst: seq<byte>, dp: nat)
      requires dStage == StoreFrameHeader && tmpInSize <= MAX_FH_SIZE <= header.Length
      ensures State(dst, dp) <==>
                && 0 < tmpInSize < tmpInTarget <= MAX_FH_SIZE && Fresh(g, header[..tmpInSize])
                && (tmpInTarget == MIN_FH_SIZE || (MIN_FH_SIZE <= tmpInSize && tmpInTarget == |Header(g.f)|))
                && Decodable(g, false) && frameRemainingSize == 0 && dict == NoDict && dictSize == 0
    {
      hide Fresh, Between, Inside, InRaw, BeforeCheck, InCoded, InFlush, BeforeSuffix, Decodable, Cleanly, Intact, SizeRight;
      hide Counted, Hashed, BlockHashed, LinkedTo, FlushTo, Ready, Out, Header;
    }

    lemma AtInit(dst: seq<byte>, dp: nat)
      requires dStage == Init
      ensures State(dst, dp) <==>
                && info == g.f && maxBlockSize == BlockLimit(g.f) && Between(g, []) && g.hist == []
                && Decodable(g, false) && Counted([]) && dict == NoDict && dictSize == 0
    {
      hide Fresh, Between, Inside, InRaw, BeforeCheck, InCoded, InFlush, BeforeSuffix, Decodable, Cleanly, Intact, SizeRight;
      hide Counted, Hashed, BlockHashed, LinkedTo, FlushTo, Ready, Out, Header;
    }

    lemma AtBlockHeader(dst: seq<byte>, dp: nat)
      requires dStage == GetBlockHeader
      ensures State(dst, dp) <==>
                Ready() && Between(g, []) && Decodable(g, false) && Counted(Out(g)) && Hashed(Out(g)) && LinkedTo(dst, dp)
    {
      hide Fresh, Between, Inside, InRaw, BeforeCheck, InCoded, InFlush, BeforeSuffix, Decodable, Cleanly, Intact, SizeRight;
      hide Counted, Hashed, BlockHashed, LinkedTo, FlushTo, Ready, Out, Header;
    }

    lemma AtStoreBlockHeader(dst: seq<byte>, dp: nat)
      requires dStage == StoreBlockHeader && tmpInSize <= tmpIn.Length
      ensures State(dst, dp) <==>
                && Ready() && tmpInSize < BH_SIZE && Between(g, tmpIn[..tmpInSize])
                && Decodable(g, false) && Counted(Out(g)) && Hashed(Out(g)) && LinkedTo(dst, dp)
    {
      hide Fresh, Between, Inside, InRaw, BeforeCheck, InCoded, InFlush, BeforeSuffix, Decodable, Cleanly, Intact, SizeRight;
      hide Counted, Hashed, BlockHashed, LinkedTo, FlushTo, Ready, Out, Header;
    }

    lemma AtCopyDirect(dst: seq<byte>, dp: nat)
      requires dStage == CopyDirect
      ensures State(dst, dp) <==>
                && Ready() && 0 < tmpInTarget <= |g.cur.payload| && InRaw(g, |g.cur.payload| - tmpInTarget)
                && Decodable(g, true) && Counted(Out(g)) && Hashed(Out(g)) && BlockHashed(Out(g)) && LinkedTo(dst, dp)
    {
      hide Fresh, Between, Inside, InRaw, BeforeCheck, InCoded, InFlush, BeforeSuffix, Decodable, Cleanly, Intact, SizeRight;
      hide Counted, Hashed, BlockHashed, LinkedTo, FlushTo, Ready, Out, Header;
    }

    lemma AtBlockChecksum(dst: seq<byte>, dp: nat)
      requires dStage == GetBlockChecksum && tmpInSize <= header.Length
      ensures State(dst, dp) <==>
                && Ready() && tmpInSize < 4 <= header.Length && BeforeCheck(g, header[..tmpInSize])
                && Decodable(g, true) && Counted(Out(g)) && Hashed(Out(g)) && BlockHashed(Out(g)) && LinkedTo(dst, dp)
    {
      hide Fresh, Between, Inside, InRaw, BeforeCheck, InCoded, InFlush, BeforeSuffix, Decodable, Cleanly, Intact, SizeRight;
      hide Counted, Hashed, BlockHashed, LinkedTo, FlushTo, Ready, Out, Header;
    }

    lemma AtCBlock(dst: seq<byte>, dp: nat)
      requires dStage == GetCBlock
      ensures State(dst, dp) <==>
                && Ready() && tmpInTarget == |g.cur.payload| + |BlockFooter(g.f, g.cur)| && InCoded(g, [])
                && Decodable(g, true) && Counted(Out(g)) && Hashed(Out(g)) && LinkedTo(dst, dp)
    {
      hide Fresh, Between, Inside, InRaw, BeforeCheck, InCoded, InFlush, BeforeSuffix, Decodable, Cleanly, Intact, SizeRight;
      hide Counted, Hashed, BlockHashed, LinkedTo, FlushTo, Ready, Out, Header;
    }

    lemma AtStoreCBlock(dst: seq<byte>, dp: nat)
      requires dStage == StoreCBlock && tmpInSize <= tmpIn.Length
      ensures State(dst, dp) <==>
                && Ready() && tmpInTarget == |g.cur.payload| + |BlockFooter(g.f, g.cur)| && tmpInSize < tmpInTarget
                && InCoded(g, tmpIn[..tmpInSize])
                && Decodable(g, true) && Counted(Out(g)) && Hashed(Out(g)) && LinkedTo(dst, dp)
    {
      hide Fresh, Between, Inside, InRaw, BeforeCheck, InCoded, InFlush, BeforeSuffix, Decodable, Cleanly, Intact, SizeRight;
      hide Counted, Hashed, BlockHashed, LinkedTo, FlushTo, Ready, Out, Header;
    }

    lemma AtFlushOut(dst: seq<byte>, dp: nat)
      requires dStage == FlushOut
      ensures State(dst, dp) <==>
                && Ready() && tmpOutSize == |g.cur.piece| && tmpOutStart < tmpOutSize && InFlush(g, tmpOutStart) && Intact(g.f, g.cur)
                && Decodable(g, true) && Counted(g.hist + g.cur.piece) && Hashed(g.hist + g.cur.piece) && FlushTo(dst, dp)
    {
      hide Fresh, Between, Inside, InRaw, BeforeCheck, InCoded, InFlush, BeforeSuffix, Decodable, Cleanly, Intact, SizeRight;
      hide Counted, Hashed, BlockHashed, LinkedTo, FlushTo, Ready, Out, Header;
    }

    lemma AtSuffix(dst: seq<byte>, dp: nat)
      requires dStage == GetSuffix
      ensures State(dst, dp) <==> Ready() && BeforeSuffix(g, []) && Counted(Out(g)) && Hashed(Out(g)) && Cleanly(g, false)
    {
      hide Fresh, Between, Inside, InRaw, BeforeCheck, InCoded, InFlush, BeforeSuffix, Decodable, Cleanly, Intact, SizeRight;
      hide Counted, Hashed, BlockHashed, LinkedTo, FlushTo, Ready, Out, Header;
    }

    lemma AtStoreSuffix(dst: seq<byte>, dp: nat)
      requires dStage == StoreSuffix && tmpInSize <= tmpIn.Length
      ensures State(dst, dp) <==>
                && Ready() && g.f.contentChecksum && tmpInSize < 4 && BeforeSuffix(g, tmpIn[..tmpInSize]) && SizeRight(g)
                && Counted(Out(g)) && Hashed(Out(g)) && Cleanly(g, false)
    {
      hide Fresh, Between, Inside, InRaw, BeforeCheck, InCoded, InFlush, BeforeSuffix, Decodable, Cleanly, Intact, SizeRight;
      hide Counted, Hashed, BlockHashed, LinkedTo, FlushTo, Ready, Out, Header;
    }

    // -------------------------------------------------------------------
    // Header
    // -------------------------------------------------------------------

    /** LZ4F_decodeHeader. */
    method DecodeHeader(s: seq<byte>, stored: bool) returns (ok: bool, size: nat)
      requires header.Length == MAX_FH_SIZE && (stored ==> |s| <= MAX_FH_SIZE && header[..|s|] == s)
      modifies `info, `dStage, `frameRemainingSize, `maxBlockSize, `tmpInSize, `tmpInTarget, header
      ensures match ParseHeader(s)
              case BadHeader => !ok
              case Incomplete(n) =>
                && ok && size == |s| == tmpInSize && tmpInTarget == n && dStage == StoreFrameHeader && |s| <= MAX_FH_SIZE && header[..|s|] == s
                && frameRemainingSize == old(frameRemainingSize)
              case Parsed(f, n) =>
                && ok && size == n && info == f && dStage == Init && 4 <= f.blockSizeID <= 7 && maxBlockSize == BlockSize(f.blockSizeID)
                && frameRemainingSize == if f.contentSize > 0 then f.contentSize else old(frameRemainingSize)
    {
      hide HeaderCrc, FromLE, Flag;
      ok, size := true, |s|;
      match ParseHeader(s) {
        case BadHeader => ok := false;
        case Incomplete(n) =>
          if !stored {
            forall i | 0 <= i < |s| { header[i] := s[i]; }
            assert header[..|s|] == s;
          }
          tmpInSize, tmpInTarget, dStage := |s|, n, StoreFrameHeader;
        case Parsed(f, n) =>
          ParsedId(s);
          info, size, dStage, maxBlockSize := f, n, Init, BlockSize(f.blockSizeID);
          if f.contentSize > 0 {
            frameRemainingSize := f.contentSize;
          }
      }
    }

    /** dstage_getFrameHeader, with enough input for any header. */
    method WholeHeader(src: seq<byte>, sp: nat, ghost dst: seq<byte>, ghost dp: nat, ghost g0: Progress)
      returns (sp': nat, go: Go)
      requires Running(src, sp, dst, dp, g0) && dStage == GetFrameHeader && sp + MAX_FH_SIZE <= |src|
      modifies `info, `dStage, `frameRemainingSize, `maxBlockSize, `tmpInSize, `tmpInTarget, `g, header
      ensures go == Again && sp < sp' <= |src| && dStage == Init && Running(src, sp', dst, dp, g0)
    {
      hide State, Fresh, Between, IO, Decodable, Header, Out, ParseHeader, BlockSize, BlockLimit;
      AtHeader(dst, dp);
      IOParts(g, src, sp, dst, dp, g0);
      HeaderInside(g, src[sp..]);
      FreshInfo(g, []);
      HeaderRoundTrip(g.f, src[sp..]);
      ghost var n := |Header(g.f)|;
      ghost var g1 := g.(rest := g.rest[n..]);
      Consume(g, src, sp, dst, dp, g0, n);
      FreshMoves(g, [], n);
      HeaderRead(g1, [] + g.rest[..n]);
      DecodableSame(g, g1);
      FreshOut(g1);
      SizeBegins(g1.f);
      var ok, size := DecodeHeader(src[sp..], false);
      g := g1;
      AtInit(dst, dp);
      sp', go := sp + size, if ok then Again else Fail;
    }

    /** dstage_storeFrameHeader. */
    method StoreHeader(src: seq<byte>, sp: nat, ghost dst: seq<byte>, ghost dp: nat, ghost g0: Progress)
      returns (sp': nat, go: Go)
      requires Running(src, sp, dst, dp, g0) && dStage == StoreFrameHeader
      modifies `info, `dStage, `frameRemainingSize, `maxBlockSize, `tmpInSize, `tmpInTarget, `g, header
      ensures go != Fail && sp <= sp' <= |src| && Running(src, sp', dst, dp, g0)
      ensures go == Again ==> sp < sp' && (dStage == Init || dStage == StoreFrameHeader)
      ensures go.Stop? ==> go.hint > 0 && sp' == |src| && dStage == StoreFrameHeader && HintIs(g, go.hint, sp' > 0)
    {
      hide State, Fresh, Between, IO, Decodable, Header, Out, HintIs;
      StoredSize(dst, dp);
      AtStoreHeader(dst, dp);
      sp', go := FillHeader(src, sp, dst, dp, g0);
    }

    /** The header is not complete. */
    ghost predicate Filling()
      reads `dStage, `tmpInSize, `tmpInTarget, `frameRemainingSize, `dict, `dictSize, `g, header
    {
      && dStage == StoreFrameHeader && tmpInSize < tmpInTarget <= MAX_FH_SIZE <= header.Length && Fresh(g, header[..tmpInSize])
      && (tmpInTarget == MIN_FH_SIZE || (MIN_FH_SIZE <= tmpInSize && tmpInTarget == |Header(g.f)|))
      && Decodable(g, false) && frameRemainingSize == 0 && dict == NoDict && dictSize == 0
    }

    /** One byte or more is there, or comes. */
    method FillHeader(src: seq<byte>, sp: nat, ghost dst: seq<byte>, ghost dp: nat, ghost g0: Progress)
      returns (sp': nat, go: Go)
      requires Distinct() && Buffered() && Filling() && IO(g, src, sp, dst, dp, g0) && (0 < tmpInSize || sp < |src|)
      modifies `info, `dStage, `frameRemainingSize, `maxBlockSize, `tmpInSize, `tmpInTarget, `g, header
      ensures go != Fail && sp <= sp' <= |src| && Running(src, sp', dst, dp, g0)
      ensures go == Again ==> sp < sp' && (dStage == Init || dStage == StoreFrameHeader)
      ensures go.Stop? ==> go.hint > 0 && sp' == |src| && dStage == StoreFrameHeader && HintIs(g, go.hint, sp' > 0)
    {
      hide State, Fresh, Between, IO, Decodable, Header, Out, ParseHeader, BlockSize, BlockLimit, HintIs;
      IOParts(g, src, sp, dst, dp, g0);
      ghost var stored := header[..tmpInSize];
      var at;
      at, sp' := Take(header, tmpInSize, tmpInTarget, src, sp);
      ghost var n, g1 := sp' - sp, g.(rest := g.rest[sp' - sp..]);
      Consume(g, src, sp, dst, dp, g0, n);
      FreshMoves(g, stored, n);
      DecodableSame(g, g1);
      tmpInSize, g := at, g1;
      if tmpInSize < tmpInTarget {
        AtStoreHeader(dst, dp);
        FreshHint(g, header[..tmpInSize], sp' > 0);
        go := Stop(tmpInTarget - tmpInSize + BH_SIZE);
        return;
      }
      go := ReadStored(dst, dp);
    }

    /** The stored bytes are a header, or tell how long it is. */
    method ReadStored(ghost dst: seq<byte>, ghost dp: nat) returns (go: Go)
      requires Distinct() && dStage == StoreFrameHeader && tmpInSize == tmpInTarget <= MAX_FH_SIZE && Fresh(g, header[..tmpInSize])
      requires tmpInTarget == MIN_FH_SIZE || tmpInTarget == |Header(g.f)|
      requires Decodable(g, false) && frameRemainingSize == 0 && dict == NoDict && dictSize == 0
      modifies `info, `dStage, `frameRemainingSize, `maxBlockSize, `tmpInSize, `tmpInTarget, header
      ensures go == Again && State(dst, dp) && (dStage == Init || dStage == StoreFrameHeader)
    {
      hide State, Fresh, Between, IO, Decodable, Header, Out, ParseHeader, BlockSize, BlockLimit;
      ghost var s := header[..tmpInSize];
      FreshInfo(g, s);
      HeaderStored(g, s);
      SizeBegins(g.f);
      if |s| == |Header(g.f)| {
        HeaderRoundTrip(g.f, s);
        HeaderRead(g, s);
        FreshOut(g);
      } else {
        HeaderBegun(g.f, s);
      }
      var ok, size := DecodeHeader(header[..tmpInTarget], true);
      go := if ok then Again else Fail;
      if dStage == Init {
        AtInit(dst, dp);
      } else {
        AtStoreHeader(dst, dp);
      }
    }

    lemma StoredSize(dst: seq<byte>, dp: nat)
      requires State(dst, dp) && dStage == StoreFrameHeader
      ensures tmpInSize < tmpInTarget <= MAX_FH_SIZE
    {
    }

    /** dstage_getFrameHeader. */
    method StepHeader(src: seq<byte>, sp: nat, ghost dst: seq<byte>, ghost dp: nat, ghost g0: Progress)
      returns (sp': nat, go: Go)
      requires Running(src, sp, dst, dp, g0) && dStage == GetFrameHeader
      modifies `info, `dStage, `frameRemainingSize, `maxBlockSize, `tmpInSize, `tmpInTarget, `g, header
      ensures go != Fail && sp <= sp' <= |src| && Running(src, sp', dst, dp, g0)
      ensures go == Again ==> sp < sp' && (dStage == Init || dStage == StoreFrameHeader)
      ensures go.Stop? ==> go.hint > 0 && sp' == |src| && (dStage == StoreFrameHeader || dStage == GetFrameHeader) && HintIs(g, go.hint, sp' > 0)
    {
      hide State, Fresh, Between, IO, Decodable, Header, Out, ParseHeader, BlockSize, BlockLimit, HintIs;
      IOParts(g, src, sp, dst, dp, g0);
      if |src| - sp >= MAX_FH_SIZE {
        sp', go := WholeHeader(src, sp, dst, dp, g0);
        return;
      }
      AtHeader(dst, dp);
      tmpInSize := 0;
      if |src| - sp == 0 {
        AtHeader(dst, dp);
        FreshHint(g, [], sp > 0);
        return sp, Stop(MIN_FH_SIZE);
      }
      tmpInTarget := MIN_FH_SIZE;
      dStage := StoreFrameHeader;
      assert header[..0] == [];
      sp', go := FillHeader(src, sp, dst, dp, g0);
    }

    // -------------------------------------------------------------------
    // Buffers and block headers
    // -------------------------------------------------------------------

    /** dstage_init, up to the fall-through. */
    method StepInit(ghost dst: seq<byte>, ghost dp: nat)
      requires Distinct() && Buffered() && State(dst, dp) && dStage == Init
      modifies `dStage, `maxBufferSize, `tmpIn, `tmpInSize, `tmpInTarget, `tmpOutBuffer, `tmpOut, `tmpOutSize, `tmpOutStart, `bufferFor, xxh
      ensures Distinct() && Buffered() && State(dst, dp) && dStage == GetBlockHeader && xxh.mem == old(xxh.mem)
      ensures (tmpIn == old(tmpIn) && tmpOutBuffer == old(tmpOutBuffer)) || (fresh(tmpIn) && fresh(tmpOutBuffer))
    {
      hide State, Between, Decodable, Out, Buffered, BlockLimit, Hashed, Ready, Counted, LinkedTo;
      AtInit(dst, dp);
      FreshOut(g);
      ResetSum();
      AllocateBuffers();
      BeginBlocks();
      LinkedToNothing(dst, dp);
      AtBlockHeader(dst, dp);
    }

    lemma LinkedToNothing(dst: seq<byte>, dp: nat)
      requires dict == NoDict && dictSize == 0 && tmpOut == 0 && Out(g) == []
      ensures LinkedTo(dst, dp)
    {
    }

    method BeginBlocks()
      requires Distinct() && Buffered() && Ready() && Hashed([])
      modifies `dStage, `tmpInSize, `tmpInTarget, `tmpOut, `tmpOutSize, `tmpOutStart
      ensures Distinct() && Buffered() && Ready() && Hashed([]) && dStage == GetBlockHeader && tmpOut == 0
    {
      hide Buffered, Hashed, Ready, Distinct;
      tmpInSize, tmpInTarget := 0, 0;
      tmpOut, tmpOutStart, tmpOutSize := 0, 0, 0;
      dStage := GetBlockHeader;
    }

    method ResetSum()
      requires Distinct() && info == g.f
      modifies xxh
      ensures Distinct() && Hashed([]) && xxh.mem == old(xxh.mem)
    {
      if info.contentChecksum {
        xxh.Reset(0);
      }
    }

    /** Internal buffers allocation. */
    method AllocateBuffers()
      requires Distinct() && Buffered() && info == g.f && maxBlockSize == BlockLimit(g.f)
      modifies `maxBufferSize, `tmpIn, `tmpOutBuffer, `bufferFor
      ensures Distinct() && Buffered() && Ready()
      ensures (tmpIn == old(tmpIn) && tmpOutBuffer == old(tmpOutBuffer)) || (fresh(tmpIn) && fresh(tmpOutBuffer))
    {
      hide BlockLimit;
      LimitIsSize(g.f);
      var bufferNeeded := maxBlockSize + if info.linked then KB128 else 0;
      if bufferNeeded > maxBufferSize {
        tmpIn := new byte[maxBlockSize + BF_SIZE](_ => 0);
        tmpOutBuffer := new byte[bufferNeeded](_ => 0);
        maxBufferSize := bufferNeeded;
        bufferFor := maxBlockSize;
      }
    }

    /** The block header was read: lines following dstage_storeBlockHeader. */
    method ReadBlockHeader(selectedIn: seq<byte>, blocked: bool, ghost dst: seq<byte>, ghost dp: nat) returns (go: Go)
      requires Distinct() && |selectedIn| == 4 && Ready() && Between(g, selectedIn) && Decodable(g, false)
      requires Counted(Out(g)) && Hashed(Out(g)) && LinkedTo(dst, dp)
      modifies `dStage, `tmpInTarget, `g, blockChecksum
      ensures Distinct() && blockChecksum.mem == old(blockChecksum.mem)
      ensures if go == Fail then !g.clean else State(dst, dp) && dStage in {GetSuffix, CopyDirect, GetCBlock}
      ensures g == old(g).(cur := g.cur, todo := g.todo)
      ensures go.Stop? ==> go.hint > 0 && blocked && dStage == GetCBlock && HintIs(g, go.hint, true)
      ensures go == Again && blocked ==> dStage != GetCBlock
    {
      hide HintIs, State, Between, InRaw, InCoded, Decodable, Out, Hashed, LinkedTo, Counted, FromLE, Decodes, BlockFooter, BeforeSuffix;
      var blockHeader := FromLE(selectedIn);
      var nextCBlockSize := blockHeader % UNCOMPRESSED_FLAG;
      var crcSize := if info.blockChecksum then BF_SIZE else 0;
      ReadyLimit();
      if g.todo == [] {
        EndMark(g, selectedIn);
      } else {
        BlockOpens(g, selectedIn);
      }
      if blockHeader == 0 {
        CleanNow(g, false);
        dStage := GetSuffix;
        AtSuffix(dst, dp);
        return Again;
      }
      if nextCBlockSize > maxBlockSize {
        return Fail;
      }
      OpenBlock();
      EnterBlock(nextCBlockSize, blockHeader >= UNCOMPRESSED_FLAG, dst, dp);
      go := Again;
      if dStage == GetCBlock && blocked {
        AtCBlock(dst, dp);
        FooterSize(g);
        CodedHint(g, [], true);
        go := Stop(BH_SIZE + nextCBlockSize + crcSize);
      }
    }

    /** Next is a raw or a compressed block. */
    method EnterBlock(nextCBlockSize: nat, raw: bool, ghost dst: seq<byte>, ghost dp: nat)
      requires Distinct() && Ready() && Decodable(g, true) && nextCBlockSize == |g.cur.payload| > 0 && Out(g) == g.hist
      requires if raw then InRaw(g, 0) else InCoded(g, [])
      requires Counted(Out(g)) && Hashed(Out(g)) && LinkedTo(dst, dp)
      modifies `dStage, `tmpInTarget, blockChecksum
      ensures Distinct() && State(dst, dp) && blockChecksum.mem == old(blockChecksum.mem)
      ensures dStage == if raw then CopyDirect else GetCBlock
    {
      hide State, InRaw, InCoded, Decodable, Out, Hashed, LinkedTo, Counted, BlockFooter, Ready;
      ReadyBuffers();
      FooterSize(g);
      if raw {
        tmpInTarget := nextCBlockSize;
        ResetBlockSum();
        dStage := CopyDirect;
        AtCopyDirect(dst, dp);
      } else {
        tmpInTarget := nextCBlockSize + if info.blockChecksum then BF_SIZE else 0;
        dStage := GetCBlock;
        AtCBlock(dst, dp);
      }
    }

    lemma ReadyLimit()
      requires Ready()
      ensures maxBlockSize == BlockLimit(g.f) && info == g.f
    {
    }

    /** The first of the blocks to come becomes the current one. */
    ghost method OpenBlock()
      requires g.todo != [] && Ready()
      requires var t := g.(cur := g.todo[0], todo := g.todo[1..]); Out(t) == Out(g)
      modifies `g
      ensures g == old(g).(cur := old(g).todo[0], todo := old(g).todo[1..]) && Ready()
      ensures Counted(Out(g)) == old(Counted(Out(g))) && Hashed(Out(g)) == old(Hashed(Out(g)))
      ensures forall dst: seq<byte>, dp: nat :: LinkedTo(dst, dp) == old(LinkedTo(dst, dp))
    {
      hide Out;
      g := g.(cur := g.todo[0], todo := g.todo[1..]);
    }

    method ResetBlockSum()
      requires Distinct() && info == g.f && Out(g) == g.hist
      modifies blockChecksum
      ensures Distinct() && BlockHashed(Out(g)) && blockChecksum.mem == old(blockChecksum.mem)
    {
      hide Out;
      if info.blockChecksum {
        blockChecksum.Reset(0);
        assert g.hist + [] == g.hist;
      }
    }

    /** dstage_getBlockHeader; blocked: there is no room for output. */
    method StepBlockHeader(src: seq<byte>, sp: nat, ghost dst: seq<byte>, dp: nat, full: bool, ghost g0: Progress)
      returns (sp': nat, go: Go)
      requires Running(src, sp, dst, dp, g0) && dStage == GetBlockHeader
      modifies `dStage, `tmpInSize, `tmpInTarget, `g, tmpIn, blockChecksum
      ensures sp <= sp' <= |src| && IO(g, src, sp', dst, dp, g0) && blockChecksum.mem == old(blockChecksum.mem)
      ensures if go == Fail then !g.clean else Running(src, sp', dst, dp, g0)
      ensures go == Again ==> sp < sp' && dStage in {GetSuffix, CopyDirect, GetCBlock} && (dStage == GetCBlock ==> sp' < |src|)
      ensures go.Stop? ==> go.hint > 0 && dStage in {StoreBlockHeader, GetCBlock} && (sp' == |src| || (full && dStage == GetCBlock))
      ensures go.Stop? ==> HintIs(g, go.hint, sp' > 0)
    {
      hide HintIs, State, Between, Decodable, Out, Hashed, LinkedTo, Counted, IO, Buffered, Ready;
      AtBlockHeader(dst, dp);
      IOParts(g, src, sp, dst, dp, g0);
      if |src| - sp >= BH_SIZE {
        sp' := sp + BH_SIZE;
        Consume(g, src, sp, dst, dp, g0, 4);
        BetweenMoves(g, [], 4);
        assert [] + g.rest[..4] == src[sp..sp'];
        Advance(src, sp, dst, dp, g0, 4);
        go := ReadBlockHeader(src[sp..sp'], full || sp' == |src|, dst, dp);
        IOSame(old(g).(rest := g.rest), g, src, sp', dst, dp, g0);
      } else {
        tmpInSize := 0;
        dStage := StoreBlockHeader;
        NoBytes(tmpIn);
        AtStoreBlockHeader(dst, dp);
        sp', go := KeepBlockHeader(src, sp, dst, dp, full, g0);
      }
    }

    /** dstage_storeBlockHeader. */
    method KeepBlockHeader(src: seq<byte>, sp: nat, ghost dst: seq<byte>, dp: nat, full: bool, ghost g0: Progress)
      returns (sp': nat, go: Go)
      requires Running(src, sp, dst, dp, g0) && dStage == StoreBlockHeader
      modifies `dStage, `tmpInSize, `tmpInTarget, `g, tmpIn, blockChecksum
      ensures sp <= sp' <= |src| && IO(g, src, sp', dst, dp, g0) && blockChecksum.mem == old(blockChecksum.mem)
      ensures if go == Fail then !g.clean else Running(src, sp', dst, dp, g0)
      ensures go == Again ==> sp < sp' && dStage in {GetSuffix, CopyDirect, GetCBlock} && (dStage == GetCBlock ==> sp' < |src|)
      ensures go.Stop? ==> go.hint > 0 && dStage in {StoreBlockHeader, GetCBlock} && (sp' == |src| || (full && dStage == GetCBlock))
      ensures go.Stop? ==> HintIs(g, go.hint, sp' > 0)
    {
      hide HintIs, State, Between, Decodable, Out, Hashed, LinkedTo, Counted, IO, Buffered;
      KeptSize(dst, dp);
      AtStoreBlockHeader(dst, dp);
      IOParts(g, src, sp, dst, dp, g0);
      sp' := TakeHeader(src, sp, dst, dp, g0);
      if tmpInSize < BH_SIZE {
        AtStoreBlockHeader(dst, dp);
        BetweenHint(g, tmpIn[..tmpInSize], sp' > 0);
        go := Stop(BH_SIZE - tmpInSize);
      } else {
        ghost var before := g;
        go := ReadBlockHeader(tmpIn[..4], full || sp' == |src|, dst, dp);
        IOSame(before, g, src, sp', dst, dp, g0);
      }
    }

    method TakeHeader(src: seq<byte>, sp: nat, ghost dst: seq<byte>, ghost dp: nat, ghost g0: Progress) returns (sp': nat)
      requires Distinct() && tmpInSize < BH_SIZE <= tmpIn.Length && Between(g, tmpIn[..tmpInSize]) && sp <= |src| && IO(g, src, sp, dst, dp, g0)
      modifies `tmpInSize, `g, tmpIn
      ensures sp <= sp' <= |src| && tmpInSize <= BH_SIZE && (tmpInSize < BH_SIZE ==> sp' == |src|)
      ensures Between(g, tmpIn[..tmpInSize]) && IO(g, src, sp', dst, dp, g0)
      ensures tmpInSize == BH_SIZE ==> sp < sp'
      ensures Ready() == old(Ready()) && Counted(Out(g)) == old(Counted(Out(g))) && Hashed(Out(g)) == old(Hashed(Out(g)))
      ensures LinkedTo(dst, dp) == old(LinkedTo(dst, dp)) && Decodable(g, false) == old(Decodable(g, false))
    {
      hide Ready, Decodable, Cleanly, SizeRight, Out, Counted, LinkedTo, IO, Between;
      ghost var stored := tmpIn[..tmpInSize];
      var at;
      at, sp' := Take(tmpIn, tmpInSize, BH_SIZE, src, sp);
      Consume(g, src, sp, dst, dp, g0, sp' - sp);
      BetweenMoves(g, stored, sp' - sp);
      Advance(src, sp, dst, dp, g0, sp' - sp);
      tmpInSize := at;
    }

    lemma KeptSize(dst: seq<byte>, dp: nat)
      requires State(dst, dp) && dStage == StoreBlockHeader
      ensures tmpInSize < BH_SIZE <= tmpIn.Length
    {
    }

    /** n bytes of input are consumed: what does not depend on the input stays. */
    ghost method Advance(src: seq<byte>, sp: nat, dst: seq<byte>, dp: nat, g0: Progress, n: nat)
      requires n <= |g.rest|
      modifies `g
      ensures g == old(g).(rest := old(g).rest[n..])
      ensures Ready() == old(Ready()) && Counted(Out(g)) == old(Counted(Out(g))) && Hashed(Out(g)) == old(Hashed(Out(g)))
      ensures LinkedTo(dst, dp) == old(LinkedTo(dst, dp)) && BlockHashed(Out(g)) == old(BlockHashed(Out(g)))
      ensures forall inside :: Decodable(g, inside) == old(Decodable(g, inside))
      ensures Cleanly(g, false) == old(Cleanly(g, false)) && SizeRight(g) == old(SizeRight(g))
      ensures Out(g) == old(Out(g))
    {
      hide DictIs;
      DecodableSame(g, g.(rest := g.rest[n..]));
      g := g.(rest := g.rest[n..]);
    }

    // -------------------------------------------------------------------
    // History
    // -------------------------------------------------------------------

    /** LZ4F_updateDict, for n bytes of output at dst[dp].  With an output buffer
        of its own in every call, a dictionary that is neither in the internal
        buffer nor continued by the output does not occur, nor do the branches
        that the source has for it. */
    method UpdateDict(dst: array<byte>, dp: nat, n: nat, withinTmp: bool, ghost h: seq<byte>, ghost piece: seq<byte>, ghost k: nat)
      requires dp + n <= dst.Length && dst != tmpOutBuffer && tmpOutBuffer.Length == maxBufferSize && KB128 <= maxBufferSize
      requires !withinTmp ==> DictIs(dict, dictSize, tmpOutBuffer[..], dst[..], dp, h) && dp <= |h| && Last(h, dp) == dst[..dp]
      requires withinTmp ==>
                 && k + n <= |piece| && FlushIs(dict, dictSize, tmpOutBuffer[..], tmpOut, dst[..], dp, h, piece, k)
                 && dst[dp..dp + n] == piece[k..k + n] && dp <= |h| + k && Last(h + piece[..k], dp) == dst[..dp]
      modifies `dict, `dictSize, tmpOutBuffer
      ensures !withinTmp ==> DictIs(dict, dictSize, tmpOutBuffer[..], dst[..], dp + n, h + dst[dp..dp + n])
      ensures withinTmp ==> FlushIs(dict, dictSize, tmpOutBuffer[..], tmpOut, dst[..], dp + n, h, piece, k + n)
    {
      hide DictIs, FlushIs, Last;
      ghost var tmp, out := tmpOutBuffer[..], dst[..];
      assert out[dp..dp + n] == dst[dp..dp + n] && out[..dp] == dst[..dp];
      if dictSize == 0 {
        // priority to prefix mode
        if withinTmp {
          FlushStarts(dict, tmp, tmpOut, out, dp, h, piece, k, n);
        } else {
          EmptyDict(dict, dictSize, tmp, out, dp, h);
          DictStarts(out, dp, n, tmp);
          assert h + out[dp..dp + n] == out[dp..dp + n];
        }
        dict := InDst(dp);
        dictSize := n;
        return;
      }
      WhereDict(dict, dictSize, tmp, tmpOut, out, dp, h, piece, k, withinTmp);
      if dict.InDst? && dict.start + dictSize == dp {
        if withinTmp {
          FlushGrows(dict.start, dictSize, tmp, tmpOut, out, dp, h, piece, k, n);
        } else {
          DictGrows(dict.start, dictSize, tmp, out, dp, h, n);
        }
        dictSize := dictSize + n;
        return;
      }
      if dp + n >= KB64 {
        if withinTmp {
          FlushToDst(dict, dictSize, tmp, tmpOut, out, dp, h, piece, k, n);
        } else {
          DictMoves(tmp, out, dp, h, n);
        }
        dict := InDst(0);
        dictSize := dp + n;
        return;
      }
      if withinTmp {
        FlushInTmp(dictSize, tmp, tmpOut, out, dp, h, piece, k, n);
        dictSize := dictSize + n;
        return;
      }
      CompleteTmp(dst, dp, n, h);
    }

    /** Lines 1343-1351: the output is copied behind the dictionary in the internal buffer. */
    method CompleteTmp(dst: array<byte>, dp: nat, n: nat, ghost h: seq<byte>)
      requires dict == InTmp && dp + n <= dst.Length && n < KB64 && dst != tmpOutBuffer
      requires tmpOutBuffer.Length == maxBufferSize && KB128 <= maxBufferSize
      requires DictIs(dict, dictSize, tmpOutBuffer[..], dst[..], dp, h)
      modifies `dictSize, tmpOutBuffer
      ensures DictIs(dict, dictSize, tmpOutBuffer[..], dst[..], dp + n, h + dst[dp..dp + n])
    {
      hide DictIs, EndsAlike, Sized;
      ghost var tmp, size := tmpOutBuffer[..], dictSize;
      DictFitsTmp(dict, dictSize, tmp, dst[..], dp, h);
      if dictSize + n > maxBufferSize {
        // tmp buffer not large enough
        TrimTmp(KB64 - n);
        AppendTmp(dst, dp, n);
        DictTrimmed(tmp, size, tmpOutBuffer[..], h, dst[dp..dp + n], dst[..], dp + n);
      } else {
        AppendTmp(dst, dp, n);
        DictAppended(tmp, size, tmpOutBuffer[..], h, dst[dp..dp + n], dst[..], dp + n);
      }
    }

    method TrimTmp(preserveSize: nat)
      requires preserveSize <= dictSize <= tmpOutBuffer.Length
      modifies `dictSize, tmpOutBuffer
      ensures dictSize == preserveSize && tmpOutBuffer[..dictSize] == old(tmpOutBuffer[dictSize - preserveSize..dictSize])
    {
      Put(tmpOutBuffer, 0, tmpOutBuffer[dictSize - preserveSize..dictSize]);
      dictSize := preserveSize;
      assert tmpOutBuffer[..dictSize] == tmpOutBuffer[0..0 + preserveSize];
    }

    method AppendTmp(dst: array<byte>, dp: nat, n: nat)
      requires dp + n <= dst.Length && dst != tmpOutBuffer && dictSize + n <= tmpOutBuffer.Length
      modifies `dictSize, tmpOutBuffer
      ensures dictSize == old(dictSize) + n && tmpOutBuffer[..dictSize] == old(tmpOutBuffer[..dictSize]) + dst[dp..dp + n]
      ensures tmpOutBuffer[..][..dictSize] == tmpOutBuffer[..dictSize]
    {
      Put(tmpOutBuffer, dictSize, dst[dp..dp + n]);
      dictSize := dictSize + n;
    }

    // -------------------------------------------------------------------
    // Raw blocks
    // -------------------------------------------------------------------

    /** n bytes of input are handed out as they are. */
    ghost method Transfer(n: nat)
      requires n <= |g.rest| && n <= |g.left|
      modifies `g
      ensures g == old(g).(rest := old(g).rest[n..], left := old(g).left[n..])
      ensures Ready() == old(Ready())
      ensures forall d: seq<byte> :: Counted(d) == old(Counted(d))
      ensures forall d: seq<byte> :: Hashed(d) == old(Hashed(d))
      ensures forall d: seq<byte> :: BlockHashed(d) == old(BlockHashed(d))
      ensures forall inside :: Decodable(g, inside) == old(Decodable(g, inside))
    {
      DecodableSame(g, g.(rest := g.rest[n..], left := g.left[n..]));
      g := g.(rest := g.rest[n..], left := g.left[n..]);
    }

    /** The block is done. */
    ghost method Finish()
      requires Ready() && Decodable(g, true) && Intact(g.f, g.cur)
      modifies `g
      ensures g == old(g).(hist := old(g).hist + old(g).cur.piece) && Decodable(g, false) && Ready()
      ensures forall d: seq<byte> :: Counted(d) == old(Counted(d))
      ensures forall d: seq<byte> :: Hashed(d) == old(Hashed(d))
      ensures forall dst: seq<byte>, dp: nat :: LinkedTo(dst, dp) == old(LinkedTo(dst, dp))
    {
      hide DictIs;
      OutSame(g, g.(hist := g.hist + g.cur.piece));
      g := g.(hist := g.hist + g.cur.piece);
    }

    /** What follows decoding or copying x. */
    method HandOut(x: seq<byte>, ghost d: seq<byte>)
      requires Distinct() && info == g.f && Counted(d) && Hashed(d)
      modifies `frameRemainingSize, xxh, xxh.mem
      ensures Distinct() && Counted(d + x) && Hashed(d + x) && xxh.mem == old(xxh.mem)
    {
      hide X.Holds;
      if info.contentChecksum {
        xxh.Update(x);
      }
      if info.contentSize > 0 {
        SizeLess(info.contentSize, |d|, |x|);
        frameRemainingSize := (frameRemainingSize - |x|) % U64_RANGE;
      }
    }

    method HashBlock(x: seq<byte>, ghost d: seq<byte>)
      requires Distinct() && info == g.f && BlockHashed(d)
      modifies blockChecksum, blockChecksum.mem
      ensures Distinct() && BlockHashed(d + x) && blockChecksum.mem == old(blockChecksum.mem)
    {
      hide X.Holds;
      if info.blockChecksum {
        ghost var fed := blockChecksum.fed;
        blockChecksum.Update(x);
        assert (g.hist + fed) + x == g.hist + (fed + x);
      }
    }

    lemma AtLinked(dst: seq<byte>, dp: nat)
      ensures LinkedTo(dst, dp) <==>
                if g.f.linked then DictIs(dict, dictSize, tmpOutBuffer[..], dst, dp, Out(g))
                else dict == NoDict && dictSize == 0 && tmpOut == 0
    {
    }

    lemma ReadyBuffers()
      requires Ready()
      ensures tmpOutBuffer.Length == maxBufferSize && maxBlockSize + (if g.f.linked then KB128 else 0) <= maxBufferSize
      ensures maxBlockSize + BF_SIZE <= tmpIn.Length && info == g.f
    {
      hide BlockLimit;
    }

    ghost predicate Apart(dst: array<byte>)
      reads `tmpIn, `tmpOutBuffer, xxh, blockChecksum
    {
      dst != header && dst != tmpIn && dst != tmpOutBuffer && dst != xxh.mem && dst != blockChecksum.mem
    }

    /** n bytes of a raw block reach the output: checksums, size and dictionary. */
    method CopyRaw(dst: array<byte>, dp: nat, x: seq<byte>, ghost k: nat)
      requires Distinct() && Apart(dst) && Ready() && InRaw(g, k) && k + |x| <= |g.cur.payload| && dp + |x| <= dst.Length
      requires Decodable(g, true) && Counted(Out(g)) && Hashed(Out(g)) && BlockHashed(Out(g)) && LinkedTo(dst[..], dp)
      requires x <= g.rest && g.total == Out(g) + g.left && dp <= |Out(g)| && Last(Out(g), dp) == dst[..dp]
      modifies `frameRemainingSize, `dict, `dictSize, `g, tmpOutBuffer, xxh, xxh.mem, blockChecksum, blockChecksum.mem, dst
      ensures Distinct() && xxh.mem == old(xxh.mem) && blockChecksum.mem == old(blockChecksum.mem)
      ensures |x| <= |old(g).rest| && |x| <= |old(g).left| && old(g).left[..|x|] == x
      ensures g == old(g).(rest := old(g).rest[|x|..], left := old(g).left[|x|..])
      ensures Ready() && InRaw(g, k + |x|) && Decodable(g, true) && Counted(Out(g)) && Hashed(Out(g)) && BlockHashed(Out(g))
      ensures LinkedTo(dst[..], dp + |x|) && dst[..dp] == old(dst[..dp]) && dst[dp..dp + |x|] == x
    {
      hide Ready, InRaw, Decodable, Out, Counted, Hashed, BlockHashed, LinkedTo, Last, DictIs;
      ghost var d, was := Out(g), dst[..];
      RawMoves(g, k, |x|);
      assert g.left[..|x|] == x;
      OutMoves(g, |x|);
      AtLinked(was, dp);
      Transfer(|x|);
      assert Out(g) == d + x;
      Put(dst, dp, x);
      assert dst[dp..dp + |x|] == x;
      assert was[..dp] == dst[..][..dp];
      ReadyBuffers();
      HashBlock(x, d);
      HandOut(x, d);
      if info.linked {
        DictSameOut(dict, dictSize, tmpOutBuffer[..], was, dp, d, dst[..]);
        UpdateDict(dst, dp, |x|, false, d, [], 0);
      }
      AtLinked(dst[..], dp + |x|);
    }

    /** dstage_copyDirect. */
    method StepCopyDirect(dst: array<byte>, isNull: bool, src: seq<byte>, sp: nat, dp: nat, ghost g0: Progress)
      returns (sp': nat, dp': nat, go: Go)
      requires Running(src, sp, dst[..], dp, g0) && dStage == CopyDirect && Apart(dst) && (isNull ==> dst.Length == 0)
      modifies `dStage, `tmpInTarget, `tmpInSize, `frameRemainingSize, `dict, `dictSize, `g, tmpOutBuffer
      modifies xxh, xxh.mem, blockChecksum, blockChecksum.mem, dst
      ensures Running(src, sp', dst[..], dp', g0) && xxh.mem == old(xxh.mem) && blockChecksum.mem == old(blockChecksum.mem)
      ensures go != Fail && sp <= sp' <= |src| && dp <= dp' <= dst.Length && dst[..dp] == old(dst[..dp])
      ensures go == Again ==> sp < sp' && (dStage == GetBlockChecksum || dStage == GetBlockHeader)
      ensures go.Stop? ==> go.hint > 0 && dStage == CopyDirect && (sp' == |src| || dp' == dst.Length) && HintIs(g, go.hint, sp' > 0)
    {
      hide HintIs, BlockFooter, Ready, InRaw, Decodable, Out, Counted, Hashed, BlockHashed, LinkedTo, Last, State, IO, Buffered, BeforeCheck, Between;
      AtCopyDirect(dst[..], dp);
      IOParts(g, src, sp, dst[..], dp, g0);
      ReadyBuffers();
      var crcSize := if info.blockChecksum then BF_SIZE else 0;
      FooterSize(g);
      if isNull {
        RawHint(g, |g.cur.payload| - tmpInTarget, sp > 0);
        return sp, dp, Stop(tmpInTarget + crcSize + BH_SIZE);
      }
      var sizeToCopy := Least(tmpInTarget, Least(|src| - sp, dst.Length - dp));
      CopySome(dst, sizeToCopy, src, sp, dp, g0);
      sp', dp' := sp + sizeToCopy, dp + sizeToCopy;
      if sizeToCopy == tmpInTarget {
        EndRaw(dst[..], dp', sp', src, g0);
        go := Again;
      } else {
        tmpInTarget := tmpInTarget - sizeToCopy;
        AtCopyDirect(dst[..], dp');
        ReadyBuffers();
        FooterSize(g);
        RawHint(g, |g.cur.payload| - tmpInTarget, sp' > 0);
        go := Stop(tmpInTarget + crcSize + BH_SIZE);
      }
    }

    /** n bytes of input become output. */
    method CopySome(dst: array<byte>, n: nat, src: seq<byte>, sp: nat, dp: nat, ghost g0: Progress)
      requires Distinct() && Apart(dst) && Ready() && n <= tmpInTarget <= |g.cur.payload| && InRaw(g, |g.cur.payload| - tmpInTarget)
      requires IO(g, src, sp, dst[..], dp, g0) && sp + n <= |src| && dp + n <= dst.Length
      requires Decodable(g, true) && Counted(Out(g)) && Hashed(Out(g)) && BlockHashed(Out(g)) && LinkedTo(dst[..], dp)
      modifies `frameRemainingSize, `dict, `dictSize, `g, tmpOutBuffer, xxh, xxh.mem, blockChecksum, blockChecksum.mem, dst
      ensures Distinct() && xxh.mem == old(xxh.mem) && blockChecksum.mem == old(blockChecksum.mem) && g.cur == old(g.cur)
      ensures Ready() && InRaw(g, |g.cur.payload| - tmpInTarget + n) && IO(g, src, sp + n, dst[..], dp + n, g0) && dst[..dp] == old(dst[..dp])
      ensures Decodable(g, true) && Counted(Out(g)) && Hashed(Out(g)) && BlockHashed(Out(g)) && LinkedTo(dst[..], dp + n)
    {
      hide Distinct, Apart, Ready, InRaw, Decodable, Out, Counted, Hashed, BlockHashed, LinkedTo, Last, IO;
      ghost var before, was, k := g, dst[..], |g.cur.payload| - tmpInTarget;
      Consume(g, src, sp, was, dp, g0, n);
      OutIs(g, src, sp, was, dp, g0);
      CopyRaw(dst, dp, src[sp..sp + n], k);
      Produce(before.(rest := before.rest[n..]), src, sp + n, was, dp, g0, n, dst[..]);
    }

    /** All of a raw block was copied. */
    method EndRaw(ghost dst: seq<byte>, ghost dp: nat, ghost sp: nat, ghost src: seq<byte>, ghost g0: Progress)
      requires Distinct() && Ready() && InRaw(g, |g.cur.payload|) && IO(g, src, sp, dst, dp, g0)
      requires Decodable(g, true) && Counted(Out(g)) && Hashed(Out(g)) && BlockHashed(Out(g)) && LinkedTo(dst, dp)
      modifies `dStage, `tmpInSize, `g
      ensures Distinct() && State(dst, dp) && IO(g, src, sp, dst, dp, g0)
      ensures dStage == GetBlockChecksum || dStage == GetBlockHeader
    {
      hide Ready, InRaw, Decodable, Out, Counted, Hashed, BlockHashed, LinkedTo, State, IO, BeforeCheck, Between;
      ReadyBuffers();
      RawEnds(g);
      if info.blockChecksum {
        tmpInSize := 0;
        dStage := GetBlockChecksum;
        NoBytes(header);
        AtBlockChecksum(dst, dp);
      } else {
        Unchecked(g);
        NextBlock(dst, dp, sp, src, g0);
      }
    }

    /** A block is done, a header is next. */
    method NextBlock(ghost dst: seq<byte>, ghost dp: nat, ghost sp: nat, ghost src: seq<byte>, ghost g0: Progress)
      requires Ready() && Between(g.(hist := g.hist + g.cur.piece), []) && IO(g, src, sp, dst, dp, g0)
      requires Decodable(g, true) && Intact(g.f, g.cur) && Counted(Out(g)) && Hashed(Out(g)) && LinkedTo(dst, dp)
      modifies `dStage, `g
      ensures State(dst, dp) && IO(g, src, sp, dst, dp, g0) && dStage == GetBlockHeader
    {
      hide Ready, Decodable, Intact, Out, Counted, Hashed, LinkedTo, State, IO, Between;
      IOSame(g, g.(hist := g.hist + g.cur.piece), src, sp, dst, dp, g0);
      OutSame(g, g.(hist := g.hist + g.cur.piece));
      Finish();
      dStage := GetBlockHeader;
      AtBlockHeader(dst, dp);
    }

    /** dstage_getBlockChecksum. */
    method StepBlockChecksum(src: seq<byte>, sp: nat, ghost dst: seq<byte>, ghost dp: nat, ghost g0: Progress)
      returns (sp': nat, go: Go)
      requires Running(src, sp, dst, dp, g0) && dStage == GetBlockChecksum
      modifies `dStage, `tmpInSize, `g, header
      ensures sp <= sp' <= |src| && IO(g, src, sp', dst, dp, g0)
      ensures if go == Fail then !g.clean else Running(src, sp', dst, dp, g0)
      ensures go == Again ==> sp < sp' && dStage == GetBlockHeader
      ensures go.Stop? ==> go.hint > 0 && sp' == |src| && dStage == GetBlockChecksum && HintIs(g, go.hint, sp' > 0)
    {
      hide HintIs, Ready, Decodable, Out, Counted, Hashed, BlockHashed, LinkedTo, State, IO, Buffered, BeforeCheck, Between, FromLE, Crc;
      CheckSize(dst, dp);
      AtBlockChecksum(dst, dp);
      IOParts(g, src, sp, dst, dp, g0);
      ghost var stored := header[..tmpInSize];
      var crcSrc;
      if |src| - sp >= 4 && tmpInSize == 0 {
        crcSrc, sp' := src[sp..sp + 4], sp + 4;
        assert stored == [];
        assert stored + crcSrc == crcSrc;
      } else {
        var at;
        at, sp' := Take(header, tmpInSize, 4, src, sp);
        tmpInSize := at;
        crcSrc := header[..at];
      }
      Consume(g, src, sp, dst, dp, g0, sp' - sp);
      CheckMoves(g, stored, sp' - sp);
      Advance(src, sp, dst, dp, g0, sp' - sp);
      if |crcSrc| < 4 {
        AtBlockChecksum(dst, dp);
        CheckHint(g, crcSrc, sp' > 0);
        return sp', Stop(1);
      }
      go := CompareBlockSum(crcSrc, src, sp', dst, dp, g0);
    }

    method CompareBlockSum(crcSrc: seq<byte>, ghost src: seq<byte>, ghost sp: nat, ghost dst: seq<byte>, ghost dp: nat, ghost g0: Progress)
      returns (go: Go)
      requires |crcSrc| == 4 && BeforeCheck(g, crcSrc) && Ready() && BlockHashed(Out(g)) && IO(g, src, sp, dst, dp, g0)
      requires Decodable(g, true) && Counted(Out(g)) && Hashed(Out(g)) && LinkedTo(dst, dp)
      modifies `dStage, `g
      ensures IO(g, src, sp, dst, dp, g0) && !go.Stop?
      ensures if go == Fail then !g.clean else State(dst, dp) && dStage == GetBlockHeader
    {
      hide Ready, Decodable, Intact, Out, Counted, Hashed, BlockHashed, LinkedTo, State, IO, BeforeCheck, Between, FromLE, Crc, X.Hash, Number, X.State.Valid;
      SumStored(g);
      CheckEnds(g, crcSrc);
      BlockSum(crcSrc, dst, dp);
      var calcCRC := blockChecksum.Digest();
      if FromLE(crcSrc) != Number(calcCRC) {
        return Fail;
      }
      NextBlock(dst, dp, sp, src, g0);
      go := Again;
    }

    lemma CheckSize(dst: seq<byte>, dp: nat)
      requires State(dst, dp) && dStage == GetBlockChecksum
      ensures tmpInSize < 4 <= header.Length
    {
    }

    /** The checksum covers the whole block. */
    lemma BlockSum(head: seq<byte>, dst: seq<byte>, dp: nat)
      requires BeforeCheck(g, head) && BlockHashed(Out(g)) && Decodable(g, true)
      ensures blockChecksum.Valid() && Number(X.Hash(0, blockChecksum.fed)) == Crc(g.cur.payload) && blockChecksum.seed == 0
    {
      hide X.Hash, X.Holds, ReadableBlocks, LE32, Cleanly, Intact;
      assert g.total == (g.hist + g.cur.piece) + g.left;
      assert Out(g) == g.hist + g.cur.piece;
      SameTail(g.hist, blockChecksum.fed, g.cur.piece);
    }

    // -------------------------------------------------------------------
    // Compressed blocks
    // -------------------------------------------------------------------

    /** dstage_getCBlock. */
    method StepCBlock(dst: array<byte>, src: seq<byte>, sp: nat, dp: nat, ghost g0: Progress)
      returns (sp': nat, dp': nat, go: Go)
      requires Running(src, sp, dst[..], dp, g0) && dStage == GetCBlock && Apart(dst)
      modifies `dStage, `tmpInTarget, `tmpInSize, `frameRemainingSize, `dict, `dictSize, `tmpOut, `tmpOutSize, `tmpOutStart, `g
      modifies tmpOutBuffer, xxh, xxh.mem, dst
      ensures IO(g, src, sp', dst[..], dp', g0) && xxh.mem == old(xxh.mem) && !go.Stop?
      ensures if go == Fail then !g.clean else Running(src, sp', dst[..], dp', g0)
      ensures sp <= sp' <= |src| && dp <= dp' <= dst.Length && dst[..dp] == old(dst[..dp])
      ensures go == Again ==> if sp == sp' then dp == dp' && dStage == StoreCBlock else dStage == GetBlockHeader || dStage == FlushOut
    {
      hide Ready, Decodable, Out, Counted, Hashed, LinkedTo, State, IO, Buffered, InCoded, BlockFooter;
      AtCBlock(dst[..], dp);
      IOParts(g, src, sp, dst[..], dp, g0);
      if |src| - sp < tmpInTarget {
        tmpInSize := 0;
        dStage := StoreCBlock;
        NoBytes(tmpIn);
        AtStoreCBlock(dst[..], dp);
        return sp, dp, Again;
      }
      PayloadSize(g);
      sp' := sp + tmpInTarget;
      Consume(g, src, sp, dst[..], dp, g0, tmpInTarget);
      CodedMoves(g, [], tmpInTarget);
      assert [] + g.rest[..tmpInTarget] == src[sp..sp'];
      Advance(src, sp, dst[..], dp, g0, tmpInTarget);
      dp', go := DecodeSelected(dst, src[sp..sp'], src, sp', dp, g0);
    }

    /** dstage_storeCBlock. */
    method KeepCBlock(dst: array<byte>, src: seq<byte>, sp: nat, dp: nat, ghost g0: Progress)
      returns (sp': nat, dp': nat, go: Go)
      requires Running(src, sp, dst[..], dp, g0) && dStage == StoreCBlock && Apart(dst) && (sp == 0 || sp < |src|)
      modifies `dStage, `tmpInTarget, `tmpInSize, `frameRemainingSize, `dict, `dictSize, `tmpOut, `tmpOutSize, `tmpOutStart, `g
      modifies tmpIn, tmpOutBuffer, xxh, xxh.mem, dst
      ensures IO(g, src, sp', dst[..], dp', g0) && xxh.mem == old(xxh.mem)
      ensures if go == Fail then !g.clean else Running(src, sp', dst[..], dp', g0)
      ensures sp <= sp' <= |src| && dp <= dp' <= dst.Length && dst[..dp] == old(dst[..dp])
      ensures go == Again ==> sp < sp' && (dStage == GetBlockHeader || dStage == FlushOut)
      ensures go.Stop? ==> go.hint > 0 && sp' == |src| && dp == dp' && dStage == StoreCBlock && HintIs(g, go.hint, sp' > 0)
    {
      hide HintIs, Ready, Decodable, Out, Counted, Hashed, LinkedTo, State, IO, Buffered, InCoded, BlockFooter;
      StoredBlock(dst[..], dp);
      AtStoreCBlock(dst[..], dp);
      IOParts(g, src, sp, dst[..], dp, g0);
      sp' := TakeCoded(src, sp, dst[..], dp, g0);
      dp' := dp;
      if tmpInSize < tmpInTarget {
        AtStoreCBlock(dst[..], dp);
        ReadyBuffers();
        FooterSize(g);
        CodedHint(g, tmpIn[..tmpInSize], sp' > 0);
        return sp', dp, Stop(tmpInTarget - tmpInSize + (if info.blockChecksum then BF_SIZE else 0) + BH_SIZE);
      }
      dp', go := DecodeSelected(dst, tmpIn[..tmpInTarget], src, sp', dp, g0);
    }

    method TakeCoded(src: seq<byte>, sp: nat, ghost dst: seq<byte>, ghost dp: nat, ghost g0: Progress) returns (sp': nat)
      requires Distinct() && tmpInSize < tmpInTarget <= tmpIn.Length && InCoded(g, tmpIn[..tmpInSize]) && sp <= |src| && IO(g, src, sp, dst, dp, g0)
      modifies `tmpInSize, `g, tmpIn
      ensures sp <= sp' <= |src| && tmpInSize <= tmpInTarget && (tmpInSize < tmpInTarget ==> sp' == |src|)
      ensures InCoded(g, tmpIn[..tmpInSize]) && IO(g, src, sp', dst, dp, g0) && g.cur == old(g.cur) && g.f == old(g.f)
      ensures tmpInSize == tmpInTarget ==> sp < sp'
      ensures sp < |src| ==> 0 < tmpInSize
      ensures Ready() == old(Ready()) && Counted(Out(g)) == old(Counted(Out(g))) && Hashed(Out(g)) == old(Hashed(Out(g)))
      ensures LinkedTo(dst, dp) == old(LinkedTo(dst, dp)) && Decodable(g, true) == old(Decodable(g, true))
    {
      hide Ready, Decodable, Cleanly, SizeRight, Out, Counted, LinkedTo, IO, InCoded;
      ghost var stored := tmpIn[..tmpInSize];
      var at;
      at, sp' := Take(tmpIn, tmpInSize, tmpInTarget, src, sp);
      Consume(g, src, sp, dst, dp, g0, sp' - sp);
      CodedMoves(g, stored, sp' - sp);
      Advance(src, sp, dst, dp, g0, sp' - sp);
      tmpInSize := at;
    }

    lemma StoredBlock(dst: seq<byte>, dp: nat)
      requires State(dst, dp) && dStage == StoreCBlock
      ensures tmpInSize < tmpInTarget <= tmpIn.Length
    {
      hide Crc;
      FooterSize(g);
    }

    /** A whole block is there: lines following dstage_storeCBlock. */
    method DecodeSelected(dst: array<byte>, selectedIn: seq<byte>, ghost src: seq<byte>, ghost sp: nat, dp: nat, ghost g0: Progress)
      returns (dp': nat, go: Go)
      requires Distinct() && Apart(dst) && Ready() && tmpInTarget == |selectedIn| == |g.cur.payload| + |BlockFooter(g.f, g.cur)|
      requires InCoded(g, selectedIn) && IO(g, src, sp, dst[..], dp, g0)
      requires Decodable(g, true) && Counted(Out(g)) && Hashed(Out(g)) && LinkedTo(dst[..], dp)
      modifies `dStage, `tmpInTarget, `frameRemainingSize, `dict, `dictSize, `tmpOut, `tmpOutSize, `tmpOutStart, `g
      modifies tmpOutBuffer, xxh, xxh.mem, dst
      ensures Distinct() && IO(g, src, sp, dst[..], dp', g0) && xxh.mem == old(xxh.mem)
      ensures if go == Fail then !g.clean else State(dst[..], dp')
      ensures !go.Stop? && dp <= dp' <= dst.Length && dst[..dp] == old(dst[..dp])
      ensures go == Again ==> dStage == GetBlockHeader || dStage == FlushOut
    {
      hide Ready, Decodable, Intact, Out, Counted, Hashed, LinkedTo, State, IO, InCoded, InFlush, BlockFooter, Crc, FromLE, Number, X.Hash;
      ReadyBuffers();
      FooterSize(g);
      SumStored(g);
      CodedRead(g, selectedIn);
      IOParts(g, src, sp, dst[..], dp, g0);
      if info.blockChecksum {
        tmpInTarget := tmpInTarget - 4;
        assert selectedIn[tmpInTarget..] == selectedIn[tmpInTarget..tmpInTarget + 4];
        var readBlockCrc := FromLE(selectedIn[tmpInTarget..tmpInTarget + 4]);
        var calcBlockCrc := X.XXH32(selectedIn[..tmpInTarget], 0);
        CrcIs(g.cur.payload);
        if readBlockCrc != Number(calcBlockCrc) {
          return dp, Fail;
        }
      }
      if dst.Length - dp >= maxBlockSize {
        dp', go := DecodeToDst(dst, selectedIn[..tmpInTarget], src, sp, dp, g0);
      } else {
        dp' := dp;
        go := DecodeToTmp(dst, selectedIn[..tmpInTarget], src, sp, dp, g0);
      }
    }

    /** The dictionary to decode with. */
    method ChooseDict(dst: array<byte>, dp: nat) returns (d: seq<byte>)
      requires dp <= dst.Length && Decodable(g, true) && Intact(g.f, g.cur) && InFlush(g, 0) && LinkedTo(dst[..], dp) && !g.cur.raw
      ensures Decodes(g.cur.payload, d, g.cur.piece) && 0 < |g.cur.piece| <= BlockLimit(g.f)
      ensures (dict.InTmp? ==> |d| <= dictSize <= tmpOutBuffer.Length && tmpOutBuffer[dictSize - |d|..dictSize] == d)
      ensures (dict.InDst? ==> |d| <= dp && dst[dp - |d|..dp] == d)
    {
      hide InFlush, LinkedTo, Decodes, DictIs, H.Compatible, BlockLimit, Trimmed, ReadableBlocks, Intact, Cleanly;
      FlushOutHist(g);
      AtLinked(dst[..], dp);
      if g.f.linked {
        DictServes(dict, dictSize, tmpOutBuffer[..], dst[..], dp, g.hist);
        H.CompatibleDecodes(g.cur.payload, g.hist, Trimmed(DictBytes(dict, dictSize, tmpOutBuffer[..], dst[..], dp)), g.cur.piece);
      } else {
        NothingTrimmed();
      }
      match dict
      case NoDict => d := [];
        NothingTrimmed();
      case InTmp =>
        d := Trimmed(tmpOutBuffer[..dictSize]);
        assert tmpOutBuffer[..][..dictSize] == tmpOutBuffer[..dictSize];
      case InDst(s) =>
        d := Trimmed(dst[s..dp]);
        assert dst[..][s..dp] == dst[s..dp];
    }

    /** Straight into the output. */
    method DecodeToDst(dst: array<byte>, payload: seq<byte>, ghost src: seq<byte>, ghost sp: nat, dp: nat, ghost g0: Progress)
      returns (dp': nat, go: Go)
      requires Distinct() && Apart(dst) && Ready() && payload == g.cur.payload && dp + maxBlockSize <= dst.Length
      requires InFlush(g, 0) && IO(g, src, sp, dst[..], dp, g0) && !g.cur.raw && Intact(g.f, g.cur)
      requires Decodable(g, true) && Counted(Out(g)) && Hashed(Out(g)) && LinkedTo(dst[..], dp)
      modifies `dStage, `frameRemainingSize, `dict, `dictSize, `g, tmpOutBuffer, xxh, xxh.mem, dst
      ensures Distinct() && State(dst[..], dp') && IO(g, src, sp, dst[..], dp', g0) && xxh.mem == old(xxh.mem)
      ensures go == Again && dp <= dp' <= dst.Length && dst[..dp] == old(dst[..dp]) && dStage == GetBlockHeader
    {
      hide Ready, Decodable, Intact, Out, Counted, Hashed, LinkedTo, State, IO, InFlush, Between, Decodes, BlockLimit, DictIs, Last;
      ReadyBuffers();
      ReadyLimit();
      PayloadLimit(g);
      var d := ChooseDict(dst, dp);
      var decodedSize := DecompressAt(payload, dst, dp, maxBlockSize, d, dict.InDst?, g.cur.piece);
      if decodedSize < 0 {
        return dp, Fail;
      }
      dp' := Delivered(dst, dp, decodedSize, old(dst[..]), src, sp, g0);
      go := Again;
    }

    /** The decoded block stands in the output. */
    method Delivered(dst: array<byte>, dp: nat, n: nat, ghost was: seq<byte>, ghost src: seq<byte>, ghost sp: nat, ghost g0: Progress)
      returns (dp': nat)
      requires Distinct() && Apart(dst) && Ready() && n == |g.cur.piece| && dp + n <= dst.Length && dst[dp..dp + n] == g.cur.piece
      requires |was| == dst.Length && was[..dp] == dst[..dp] && LinkedTo(was, dp) && InFlush(g, 0) && IO(g, src, sp, was, dp, g0)
      requires Decodable(g, true) && Intact(g.f, g.cur) && Counted(Out(g)) && Hashed(Out(g))
      modifies `dStage, `frameRemainingSize, `dict, `dictSize, `g, tmpOutBuffer, xxh, xxh.mem
      ensures Distinct() && State(dst[..], dp') && IO(g, src, sp, dst[..], dp', g0) && xxh.mem == old(xxh.mem)
      ensures dp' == dp + n && dStage == GetBlockHeader
    {
      hide Ready, Decodable, Intact, Out, Counted, Hashed, LinkedTo, State, IO, InFlush, Between, DictIs, Last;
      dp' := dp + n;
      ghost var d, x := Out(g), g.cur.piece;
      ReadyBuffers();
      AtLinked(was, dp);
      OutIs(g, src, sp, was, dp, g0);
      FlushMoves(g, 0, n);
      assert x[0..0 + n] == x;
      OutGiven(g, n);
      Produce(g, src, sp, was, dp, g0, n, dst[..]);
      Remember(dst, dp, n, was, d);
      Give(n);
      FlushEnds(g);
      AtLinked(dst[..], dp');
      NextBlock(dst[..], dp', sp, src, g0);
    }

    /** Checksum, size and dictionary, for n bytes of output at dst[dp]. */
    method Remember(dst: array<byte>, dp: nat, n: nat, ghost was: seq<byte>, ghost d: seq<byte>)
      requires Distinct() && Apart(dst) && Ready() && dp + n <= dst.Length && Counted(d) && Hashed(d)
      requires |was| == dst.Length && was[..dp] == dst[..dp] && dp <= |d| && Last(d, dp) == dst[..dp]
      requires g.f.linked ==> DictIs(dict, dictSize, tmpOutBuffer[..], was, dp, d)
      modifies `frameRemainingSize, `dict, `dictSize, tmpOutBuffer, xxh, xxh.mem
      ensures Distinct() && xxh.mem == old(xxh.mem) && Counted(d + dst[dp..dp + n]) && Hashed(d + dst[dp..dp + n])
      ensures if g.f.linked then DictIs(dict, dictSize, tmpOutBuffer[..], dst[..], dp + n, d + dst[dp..dp + n])
              else dict == old(dict) && dictSize == old(dictSize)
    {
      hide Ready, Counted, Hashed, DictIs, Last;
      ReadyBuffers();
      HandOut(dst[dp..dp + n], d);
      if info.linked {
        DictSameOut(dict, dictSize, tmpOutBuffer[..], was, dp, d, dst[..]);
        UpdateDict(dst, dp, n, false, d, [], 0);
      }
    }

    /** n bytes of a decoded block are handed out. */
    ghost method Give(n: nat)
      requires n <= |g.left|
      modifies `g
      ensures g == old(g).(left := old(g).left[n..]) && Ready() == old(Ready())
      ensures forall d: seq<byte> :: Counted(d) == old(Counted(d))
      ensures forall d: seq<byte> :: Hashed(d) == old(Hashed(d))
      ensures forall inside :: Decodable(g, inside) == old(Decodable(g, inside))
      ensures forall dst: seq<byte>, dp: nat :: FlushTo(dst, dp) == old(FlushTo(dst, dp))
    {
      hide FlushIs;
      DecodableSame(g, g.(left := g.left[n..]));
      g := g.(left := g.left[n..]);
    }

    /** There is not enough place in the output: into the internal buffer. */
    method DecodeToTmp(dst: array<byte>, payload: seq<byte>, ghost src: seq<byte>, ghost sp: nat, dp: nat, ghost g0: Progress)
      returns (go: Go)
      requires Distinct() && Apart(dst) && Ready() && payload == g.cur.payload
      requires InFlush(g, 0) && IO(g, src, sp, dst[..], dp, g0) && !g.cur.raw && Intact(g.f, g.cur)
      requires Decodable(g, true) && Counted(Out(g)) && Hashed(Out(g)) && LinkedTo(dst[..], dp)
      modifies `dStage, `frameRemainingSize, `dictSize, `tmpOut, `tmpOutSize, `tmpOutStart, tmpOutBuffer, xxh, xxh.mem
      ensures Distinct() && State(dst[..], dp) && IO(g, src, sp, dst[..], dp, g0) && xxh.mem == old(xxh.mem)
      ensures go == Again && dStage == FlushOut
    {
      hide Ready, Decodable, Intact, Out, Counted, Hashed, LinkedTo, State, IO, InFlush, Placed;
      IOParts(g, src, sp, dst[..], dp, g0);
      PlaceTmp(dst[..], dp);
      go := IntoTmp(dst, payload, dp);
    }

    method IntoTmp(dst: array<byte>, payload: seq<byte>, dp: nat) returns (go: Go)
      requires Distinct() && Apart(dst) && Ready() && payload == g.cur.payload && InFlush(g, 0) && !g.cur.raw && Intact(g.f, g.cur) && dp <= dst.Length
      requires Placed() && tmpOut + maxBlockSize <= tmpOutBuffer.Length
      requires Decodable(g, true) && Counted(Out(g)) && Hashed(Out(g)) && LinkedTo(dst[..], dp)
      modifies `dStage, `frameRemainingSize, `tmpOutSize, `tmpOutStart, tmpOutBuffer, xxh, xxh.mem
      ensures Distinct() && State(dst[..], dp) && xxh.mem == old(xxh.mem) && go == Again && dStage == FlushOut
    {
      hide Ready, Decodable, Intact, Out, Counted, Hashed, LinkedTo, State, InFlush, DictIs, Placed;
      ghost var was := tmpOutBuffer[..];
      AtLinked(dst[..], dp);
      PayloadLimit(g);
      var decodedSize := DecodeBehind(dst, payload, dp);
      if decodedSize < 0 {
        return Fail;
      }
      InTmpNow(decodedSize, was, dst[..], dp);
      go := Again;
    }

    /** LZ4_decompress_safe_usingDict at tmpOut. */
    method DecodeBehind(dst: array<byte>, payload: seq<byte>, dp: nat) returns (decodedSize: int)
      requires dst != tmpOutBuffer && Ready() && payload == g.cur.payload && InFlush(g, 0) && !g.cur.raw && dp <= dst.Length
      requires Intact(g.f, g.cur) && Placed() && tmpOut + maxBlockSize <= tmpOutBuffer.Length && Decodable(g, true) && LinkedTo(dst[..], dp)
      modifies tmpOutBuffer
      ensures decodedSize == |g.cur.piece| > 0 && tmpOutBuffer[..tmpOut] == old(tmpOutBuffer[..tmpOut])
      ensures tmpOut + decodedSize <= tmpOutBuffer.Length && tmpOutBuffer[tmpOut..tmpOut + decodedSize] == g.cur.piece
    {
      hide Ready, Decodable, Intact, Out, LinkedTo, InFlush, Decodes, BlockLimit, Placed;
      PayloadLimit(g);
      ReadyLimit();
      var d := ChooseDict(dst, dp);
      DictBelow(dst[..], dp);
      decodedSize := DecompressAt(payload, tmpOutBuffer, tmpOut, maxBlockSize, d, dict.InTmp?, g.cur.piece);
    }

    /** The decoded block stands in the internal buffer. */
    method InTmpNow(n: nat, ghost was: seq<byte>, ghost dst: seq<byte>, ghost dp: nat)
      requires Distinct() && Ready() && n == |g.cur.piece| > 0 && InFlush(g, 0) && Placed() && tmpOut + maxBlockSize <= tmpOutBuffer.Length
      requires |was| == tmpOutBuffer.Length && was[..tmpOut] == tmpOutBuffer[..tmpOut]
      requires tmpOut + n <= tmpOutBuffer.Length && tmpOutBuffer[tmpOut..tmpOut + n] == g.cur.piece
      requires if g.f.linked then DictIs(dict, dictSize, was, dst, dp, Out(g)) else dict == NoDict && dictSize == 0 && tmpOut == 0
      requires Decodable(g, true) && Intact(g.f, g.cur) && Counted(Out(g)) && Hashed(Out(g))
      modifies `dStage, `frameRemainingSize, `tmpOutSize, `tmpOutStart, xxh, xxh.mem
      ensures Distinct() && State(dst, dp) && xxh.mem == old(xxh.mem) && dStage == FlushOut
    {
      hide Ready, Decodable, Intact, Out, Counted, Hashed, State, InFlush, DictIs, FlushTo, Placed;
      ReadyBuffers();
      HandOut(tmpOutBuffer[tmpOut..tmpOut + n], Out(g));
      FlushOutHist(g);
      StartFlush(n, was, dst, dp);
    }

    method StartFlush(n: nat, ghost was: seq<byte>, ghost dst: seq<byte>, ghost dp: nat)
      requires Ready() && n == |g.cur.piece| > 0 && InFlush(g, 0) && Placed() && tmpOut + maxBlockSize <= tmpOutBuffer.Length
      requires |was| == tmpOutBuffer.Length && was[..tmpOut] == tmpOutBuffer[..tmpOut]
      requires tmpOut + n <= tmpOutBuffer.Length && tmpOutBuffer[tmpOut..tmpOut + n] == g.cur.piece
      requires if g.f.linked then DictIs(dict, dictSize, was, dst, dp, Out(g)) else dict == NoDict && dictSize == 0 && tmpOut == 0
      requires Decodable(g, true) && Intact(g.f, g.cur) && Counted(g.hist + g.cur.piece) && Hashed(g.hist + g.cur.piece)
      modifies `dStage, `tmpOutSize, `tmpOutStart
      ensures State(dst, dp) && dStage == FlushOut
    {
      hide Ready, Decodable, Intact, Out, Counted, Hashed, State, InFlush, DictIs, FlushTo, Placed;
      tmpOutSize, tmpOutStart := n, 0;
      dStage := FlushOut;
      BeginFlush(was, dst, dp);
      AtFlushOut(dst, dp);
    }

    /** Ensure enough place for tmpOut. */
    method PlaceTmp(ghost dst: seq<byte>, ghost dp: nat)
      requires Distinct() && Ready() && LinkedTo(dst, dp)
      modifies `dictSize, `tmpOut, tmpOutBuffer
      ensures LinkedTo(dst, dp) && tmpOut + maxBlockSize <= tmpOutBuffer.Length && Placed()
    {
      hide Ready, Out, DictIs, LinkedTo;
      ReadyBuffers();
      AtLinked(dst, dp);
      if info.linked {
        if dict.InTmp? {
          if dictSize > KB128 {
            ghost var was, size := tmpOutBuffer[..], dictSize;
            DictFitsTmp(dict, dictSize, was, dst, dp, Out(g));
            Put(tmpOutBuffer, 0, tmpOutBuffer[dictSize - KB64..dictSize]);
            dictSize := KB64;
            assert tmpOutBuffer[..][..KB64] == tmpOutBuffer[0..0 + KB64];
            assert was[size - KB64..size] == tmpOutBuffer[..][..KB64];
            DictShortened(size, was, tmpOutBuffer[..], dst, dp, Out(g));
          }
          tmpOut := dictSize;
        } else {
          tmpOut := Least(dictSize, KB64);
        }
      }
      AtLinked(dst, dp);
    }

    /** tmpOut is behind what has to stay in the internal buffer. */
    ghost predicate Placed()
      reads `dict, `dictSize, `tmpOut, `g
    {
      tmpOut == if !g.f.linked then 0 else if dict.InTmp? then dictSize else if dictSize < KB64 then dictSize else KB64
    }

    lemma DictBelow(dst: seq<byte>, dp: nat)
      requires LinkedTo(dst, dp) && Placed()
      ensures dict.InTmp? ==> dictSize == tmpOut
    {
      hide DictIs;
    }

    /** The decoded block stands behind the dictionary or what replaces it. */
    lemma BeginFlush(was: seq<byte>, dst: seq<byte>, dp: nat)
      requires tmpOutStart == 0 && Placed() && tmpOut + maxBlockSize <= tmpOutBuffer.Length && InFlush(g, 0)
      requires |was| == tmpOutBuffer.Length && was[..tmpOut] == tmpOutBuffer[..tmpOut]
      requires tmpOut + |g.cur.piece| <= tmpOutBuffer.Length && tmpOutBuffer[tmpOut..tmpOut + |g.cur.piece|] == g.cur.piece
      requires if g.f.linked then DictIs(dict, dictSize, was, dst, dp, Out(g)) else dict == NoDict && dictSize == 0 && tmpOut == 0
      ensures FlushTo(dst, dp)
    {
      hide DictIs, FlushIs, InFlush, Out;
      FlushOutHist(g);
      if g.f.linked {
        DictFitsTmp(dict, dictSize, was, dst, dp, g.hist);
        DictSameTmp(dict, dictSize, was, dst, dp, g.hist, tmpOutBuffer[..]);
        FlushBegins(dict, dictSize, tmpOutBuffer[..], tmpOut, dst, dp, g.hist, g.cur.piece);
      } else {
        assert tmpOutBuffer[..|g.cur.piece|] == tmpOutBuffer[0..0 + |g.cur.piece|];
      }
    }

    // -------------------------------------------------------------------
    // Decoded blocks
    // -------------------------------------------------------------------

    /** dstage_flushOut. */
    method StepFlush(dst: array<byte>, isNull: bool, ghost src: seq<byte>, ghost sp: nat, dp: nat, ghost g0: Progress)
      returns (dp': nat, go: Go)
      requires Running(src, sp, dst[..], dp, g0) && dStage == FlushOut && Apart(dst) && (isNull ==> dst.Length == 0)
      modifies `dStage, `tmpOutStart, `dict, `dictSize, `g, tmpOutBuffer, dst
      ensures Running(src, sp, dst[..], dp', g0)
      ensures go != Fail && dp <= dp' <= dst.Length && dst[..dp] == old(dst[..dp])
      ensures go == Again ==> dp < dp' && dStage == GetBlockHeader
      ensures go.Stop? ==> go.hint > 0 && dStage == FlushOut && dp' == dst.Length && HintIs(g, go.hint, sp > 0)
    {
      hide HintIs, Ready, Decodable, Intact, Out, Counted, Hashed, FlushTo, State, IO, InFlush, Between, Buffered;
      AtFlushOut(dst[..], dp);
      IOParts(g, src, sp, dst[..], dp, g0);
      dp' := dp;
      if !isNull {
        var sizeToCopy := Least(tmpOutSize - tmpOutStart, dst.Length - dp);
        Flush(dst, dp, sizeToCopy, src, sp, g0);
        dp' := dp + sizeToCopy;
      }
      if tmpOutStart == tmpOutSize {
        EndFlush(dst[..], dp', sp, src, g0);
        go := Again;
      } else {
        AtFlushOut(dst[..], dp');
        FlushHint(g, tmpOutStart, sp > 0);
        go := Stop(BH_SIZE);
      }
    }

    /** n bytes of the decoded block reach the output. */
    method Flush(dst: array<byte>, dp: nat, n: nat, ghost src: seq<byte>, ghost sp: nat, ghost g0: Progress)
      requires Distinct() && Apart(dst) && Ready() && InFlush(g, tmpOutStart) && IO(g, src, sp, dst[..], dp, g0)
      requires tmpOutStart + n <= |g.cur.piece| && dp + n <= dst.Length && FlushTo(dst[..], dp)
      modifies `tmpOutStart, `dict, `dictSize, `g, tmpOutBuffer, dst
      ensures tmpOutStart == old(tmpOutStart) + n && InFlush(g, tmpOutStart) && FlushTo(dst[..], dp + n)
      ensures IO(g, src, sp, dst[..], dp + n, g0) && g == old(g).(left := g.left) && dst[..dp] == old(dst[..dp])
      ensures Ready() && (forall inside :: Decodable(g, inside) == old(Decodable(g, inside)))
      ensures forall d: seq<byte> :: Counted(d) == old(Counted(d))
      ensures forall d: seq<byte> :: Hashed(d) == old(Hashed(d))
    {
      hide Ready, Decodable, Out, Counted, Hashed, FlushTo, IO, InFlush, Last;
      ghost var was, k := dst[..], tmpOutStart;
      OutIs(g, src, sp, was, dp, g0);
      FlushMoves(g, k, n);
      FlushOutIs(g, k);
      Hand(dst, dp, n);
      Produce(g, src, sp, was, dp, g0, n, dst[..]);
      Give(n);
    }

    method Hand(dst: array<byte>, dp: nat, n: nat)
      requires Distinct() && Apart(dst) && Ready() && tmpOutStart + n <= |g.cur.piece| && dp + n <= dst.Length && FlushTo(dst[..], dp)
      requires var d := g.hist + g.cur.piece[..tmpOutStart]; dp <= |d| && Last(d, dp) == dst[..dp]
      modifies `tmpOutStart, `dict, `dictSize, tmpOutBuffer, dst
      ensures tmpOutStart == old(tmpOutStart) + n && FlushTo(dst[..], dp + n)
      ensures dst[..][..dp] == dst[..dp] == old(dst[..dp]) && dst[..][dp..dp + n] == g.cur.piece[old(tmpOutStart)..tmpOutStart]
    {
      hide Ready, FlushTo, FlushIs, Last;
      ghost var was, k := dst[..], tmpOutStart;
      ReadyBuffers();
      ReadyLimit();
      AtFlushTo(was, dp);
      FlushPiece(was, dp, n);
      Put(dst, dp, tmpOutBuffer[tmpOut + tmpOutStart..tmpOut + tmpOutStart + n]);
      assert dst[..][dp..dp + n] == dst[dp..dp + n] == g.cur.piece[k..k + n];
      assert was[..dp] == dst[..dp] == dst[..][..dp];
      if info.linked {
        FlushSameOut(dict, dictSize, tmpOutBuffer[..], tmpOut, was, dp, g.hist, g.cur.piece, k, dst[..]);
        UpdateDict(dst, dp, n, true, g.hist, g.cur.piece, k);
      }
      tmpOutStart := tmpOutStart + n;
      AtFlushTo(dst[..], dp + n);
    }

    lemma AtFlushTo(dst: seq<byte>, dp: nat)
      ensures FlushTo(dst, dp) <==>
                && tmpOutStart <= |g.cur.piece| && tmpOut + maxBlockSize <= tmpOutBuffer.Length
                && (if g.f.linked then FlushIs(dict, dictSize, tmpOutBuffer[..], tmpOut, dst, dp, g.hist, g.cur.piece, tmpOutStart)
                    else dict == NoDict && dictSize == 0 && tmpOut == 0
                         && |g.cur.piece| <= tmpOutBuffer.Length && tmpOutBuffer[..|g.cur.piece|] == g.cur.piece)
    {
      hide FlushIs;
    }

    lemma FlushPiece(dst: seq<byte>, dp: nat, n: nat)
      requires FlushTo(dst, dp) && tmpOutStart + n <= |g.cur.piece|
      ensures tmpOut + |g.cur.piece| <= tmpOutBuffer.Length
      ensures tmpOutBuffer[tmpOut + tmpOutStart..tmpOut + tmpOutStart + n] == g.cur.piece[tmpOutStart..tmpOutStart + n]
    {
      hide DictIs, Front;
      var tmp, len := tmpOutBuffer[..], |g.cur.piece|;
      assert g.f.linked ==> tmp[tmpOut..tmpOut + len] == g.cur.piece;
      assert !g.f.linked ==> tmp[0..0 + len] == tmpOutBuffer[..len] == g.cur.piece;
      SliceOfSlice(tmp, tmpOut, tmpOut + len, tmpOutStart, tmpOutStart + n);
    }

    /** All flushed. */
    method EndFlush(ghost dst: seq<byte>, ghost dp: nat, ghost sp: nat, ghost src: seq<byte>, ghost g0: Progress)
      requires Ready() && InFlush(g, tmpOutStart) && tmpOutStart == |g.cur.piece| && FlushTo(dst, dp) && IO(g, src, sp, dst, dp, g0)
      requires Decodable(g, true) && Intact(g.f, g.cur) && Counted(g.hist + g.cur.piece) && Hashed(g.hist + g.cur.piece)
      modifies `dStage, `g
      ensures State(dst, dp) && IO(g, src, sp, dst, dp, g0) && dStage == GetBlockHeader
    {
      hide Ready, Decodable, Intact, Out, Counted, Hashed, FlushTo, LinkedTo, State, IO, InFlush, Between, FlushIs, DictIs;
      ghost var piece := g.cur.piece;
      AtFlushTo(dst, dp);
      FlushOutIs(g, |piece|);
      assert piece[..|piece|] == piece;
      FlushEnds(g);
      if g.f.linked {
        FlushIsOver(dict, dictSize, tmpOutBuffer[..], tmpOut, dst, dp, g.hist, piece);
      }
      AtLinked(dst, dp);
      NextBlock(dst, dp, sp, src, g0);
    }

    // -------------------------------------------------------------------
    // The end of the frame
    // -------------------------------------------------------------------

    /** The frame was decoded: ready for another one. */
    ghost predicate Idle()
      reads `dStage, `frameRemainingSize, `dict, `dictSize, `g, `maxBufferSize, `bufferFor, `tmpIn, `tmpOutBuffer, xxh, blockChecksum
    {
      Distinct() && Buffered() && dStage == GetFrameHeader && frameRemainingSize == 0 && dict == NoDict && dictSize == 0 && Complete(g)
    }

    /** The next bytes are the frame (f, bs), and others behind it. */
    ghost method Expect(f: Info, bs: seq<FrameFormat.Block>, crc: nat, tail: seq<byte>)
      requires Idle() && ReadableFrame(f, bs, crc)
      modifies `g
      ensures Valid() && g == Start(f, bs, crc, tail)
    {
      hide StoredFrame, Content, ReadableBlocks, Undamaged, Decodable, Fresh, State, Buffered;
      FrameBegins(f, bs, crc, tail);
      g := Start(f, bs, crc, tail);
      AtHeader([], 0);
    }

    /** LZ4F_resetDecompressionContext, at the end of a frame. */
    method ResetContext()
      requires Distinct() && Buffered() && frameRemainingSize == 0 && Complete(g)
      modifies `dStage, `dict, `dictSize
      ensures Idle()
    {
      hide Distinct, Buffered, Complete;
      dStage := GetFrameHeader;
      dict := NoDict;
      dictSize := 0;
    }

    /** dstage_getSuffix. */
    method StepSuffix(src: seq<byte>, sp: nat, ghost dst: seq<byte>, ghost dp: nat, ghost g0: Progress)
      returns (sp': nat, go: Go)
      requires Running(src, sp, dst, dp, g0) && dStage == GetSuffix
      modifies `dStage, `tmpInSize, `dict, `dictSize, `g, tmpIn
      ensures go != Again && sp <= sp' <= |src| && IO(g, src, sp', dst, dp, g0)
      ensures go == Fail ==> !g.clean
      ensures go.Stop? ==>
                if go.hint == 0 then Idle() && g.clean
                else Running(src, sp', dst, dp, g0) && dStage == StoreSuffix && sp' == |src| && HintIs(g, go.hint, sp' > 0)
    {
      hide HintIs, Ready, Out, Counted, Hashed, State, IO, Buffered, BeforeSuffix, FromLE, Crc, Complete, Cleanly, SizeRight;
      AtSuffix(dst, dp);
      IOParts(g, src, sp, dst, dp, g0);
      ReadyBuffers();
      SuffixOut(g, []);
      EndIsClean(g, []);
      AllCounted();
      if frameRemainingSize != 0 {
        return sp, Fail;
      }
      if !info.contentChecksum {
        NoSuffix(g);
        ResetContext();
        return sp, Stop(0);
      }
      if |src| - sp < 4 {
        tmpInSize := 0;
        dStage := StoreSuffix;
        NoBytes(tmpIn);
        AtStoreSuffix(dst, dp);
        sp', go := KeepSuffix(src, sp, dst, dp, g0);
      } else {
        sp' := sp + 4;
        Consume(g, src, sp, dst, dp, g0, 4);
        SuffixMoves(g, [], 4);
        assert [] + g.rest[..4] == src[sp..sp'];
        Advance(src, sp, dst, dp, g0, 4);
        go := CheckSuffix(src[sp..sp']);
      }
    }

    /** dstage_storeSuffix. */
    method KeepSuffix(src: seq<byte>, sp: nat, ghost dst: seq<byte>, ghost dp: nat, ghost g0: Progress)
      returns (sp': nat, go: Go)
      requires Running(src, sp, dst, dp, g0) && dStage == StoreSuffix
      modifies `dStage, `tmpInSize, `dict, `dictSize, `g, tmpIn
      ensures go != Again && sp <= sp' <= |src| && IO(g, src, sp', dst, dp, g0)
      ensures go == Fail ==> !g.clean
      ensures go.Stop? ==>
                if go.hint == 0 then Idle() && g.clean
                else Running(src, sp', dst, dp, g0) && dStage == StoreSuffix && sp' == |src| && HintIs(g, go.hint, sp' > 0)
    {
      hide HintIs, Ready, Out, Counted, Hashed, State, IO, Buffered, BeforeSuffix, FromLE, Crc, Complete, Cleanly, SizeRight;
      StoredSuffix(dst, dp);
      AtStoreSuffix(dst, dp);
      IOParts(g, src, sp, dst, dp, g0);
      ReadyBuffers();
      ghost var stored := tmpIn[..tmpInSize];
      SuffixOut(g, stored);
      EndIsClean(g, stored);
      AllCounted();
      var at;
      at, sp' := Take(tmpIn, tmpInSize, 4, src, sp);
      Consume(g, src, sp, dst, dp, g0, sp' - sp);
      SuffixMoves(g, stored, sp' - sp);
      Advance(src, sp, dst, dp, g0, sp' - sp);
      tmpInSize := at;
      if tmpInSize < 4 {
        AtStoreSuffix(dst, dp);
        SuffixHint(g, tmpIn[..tmpInSize], sp' > 0);
        return sp', Stop(4 - tmpInSize);
      }
      go := CheckSuffix(tmpIn[..4]);
    }

    lemma StoredSuffix(dst: seq<byte>, dp: nat)
      requires State(dst, dp) && dStage == StoreSuffix
      ensures tmpInSize < 4 <= tmpIn.Length
    {
    }

    lemma AllCounted()
      requires Counted(Out(g)) && Out(g) == g.total && ValidInfo(g.f)
      ensures frameRemainingSize == 0 <==> SizeRight(g)
    {
      hide Out;
    }

    /** The content checksum was read. */
    method CheckSuffix(selectedIn: seq<byte>) returns (go: Go)
      requires Distinct() && Buffered() && frameRemainingSize == 0 && |selectedIn| == 4 && BeforeSuffix(g, selectedIn)
      requires g.f.contentChecksum && Hashed(Out(g)) && Cleanly(g, false) && SizeRight(g)
      modifies `dStage, `dict, `dictSize
      ensures if g.clean then go == Stop(0) && Idle() else go == Fail
    {
      hide Out, Buffered, BeforeSuffix, FromLE, Crc, Complete, X.Hash, Number, X.State.Valid, Cleanly, SizeRight;
      SuffixOut(g, selectedIn);
      EndIsClean(g, selectedIn);
      SuffixRead(g, selectedIn);
      var readCRC := FromLE(selectedIn);
      var resultCRC := xxh.Digest();
      CrcIs(g.total);
      if readCRC != Number(resultCRC) {
        return Fail;
      }
      ResetContext();
      go := Stop(0);
    }

    // -------------------------------------------------------------------
    // A call
    // -------------------------------------------------------------------

    /** A compressed block that was begun in this call has input. */
    predicate Fed(src: seq<byte>, sp: nat)
      reads `dStage
    {
      dStage == GetCBlock || dStage == StoreCBlock ==> sp == 0 || sp < |src|
    }

    /** One turn of the state machine. */
    method Step(dst: array<byte>, isNull: bool, src: seq<byte>, sp: nat, dp: nat, ghost g0: Progress)
      returns (sp': nat, dp': nat, go: Go)
      requires Running(src, sp, dst[..], dp, g0) && Apart(dst) && (isNull ==> dst.Length == 0) && sp <= |src| && dp <= dst.Length
      requires Fed(src, sp)
      modifies this, header, tmpIn, tmpOutBuffer, xxh, xxh.mem, blockChecksum, blockChecksum.mem, dst
      ensures sp <= sp' <= |src| && dp <= dp' <= dst.Length && dst[..dp] == old(dst[..dp])
      ensures SameMem(old(xxh.mem), old(blockChecksum.mem)) && Apart(dst)
      ensures (tmpIn == old(tmpIn) && tmpOutBuffer == old(tmpOutBuffer)) || (fresh(tmpIn) && fresh(tmpOutBuffer))
      ensures IO(g, src, sp', dst[..], dp', g0)
      ensures go == Fail ==> !g.clean
      ensures go == Stop(0) ==> Idle() && g.clean
      ensures go != Fail && go != Stop(0) ==> Running(src, sp', dst[..], dp', g0)
      ensures go == Again ==> (sp < sp' || dp < dp' || Rank(dStage) < Rank(old(dStage))) && Fed(src, sp')
      ensures go.Stop? && go.hint > 0 ==> Waiting(dStage) && (sp' == |src| || (dp' == dst.Length && Owing(dStage)))
      ensures go.Stop? && go.hint > 0 ==> HintIs(g, go.hint, sp' > 0)
    {
      hide HintIs, State, IO, Buffered, Idle, Distinct;
      if Owing(dStage) {
        sp', dp', go := StepData(dst, isNull, src, sp, dp, g0);
      } else {
        dp' := dp;
        sp', go := StepAround(src, sp, dst[..], dp, dp == dst.Length, g0);
      }
    }

    /** The stages with output: raw blocks, compressed blocks, decoded blocks. */
    method StepData(dst: array<byte>, isNull: bool, src: seq<byte>, sp: nat, dp: nat, ghost g0: Progress)
      returns (sp': nat, dp': nat, go: Go)
      requires Running(src, sp, dst[..], dp, g0) && Apart(dst) && (isNull ==> dst.Length == 0) && sp <= |src| && dp <= dst.Length
      requires Owing(dStage) && Fed(src, sp)
      modifies `dStage, `tmpInTarget, `tmpInSize, `frameRemainingSize, `dict, `dictSize, `tmpOut, `tmpOutSize, `tmpOutStart, `g
      modifies tmpIn, tmpOutBuffer, xxh, xxh.mem, blockChecksum, blockChecksum.mem, dst
      ensures sp <= sp' <= |src| && dp <= dp' <= dst.Length && dst[..dp] == old(dst[..dp])
      ensures SameMem(old(xxh.mem), old(blockChecksum.mem)) && IO(g, src, sp', dst[..], dp', g0) && go != Stop(0)
      ensures if go == Fail then !g.clean else Running(src, sp', dst[..], dp', g0)
      ensures go == Again ==> (sp < sp' || dp < dp' || Rank(dStage) < Rank(old(dStage))) && Fed(src, sp')
      ensures go.Stop? ==> Waiting(dStage) && (sp' == |src| || (dp' == dst.Length && Owing(dStage))) && HintIs(g, go.hint, sp' > 0)
    {
      hide HintIs, State, IO, Buffered;
      sp', dp' := sp, dp;
      match dStage
      case CopyDirect => sp', dp', go := StepCopyDirect(dst, isNull, src, sp, dp, g0);
      case GetCBlock => sp', dp', go := StepCBlock(dst, src, sp, dp, g0);
      case StoreCBlock => sp', dp', go := KeepCBlock(dst, src, sp, dp, g0);
      case FlushOut => dp', go := StepFlush(dst, isNull, src, sp, dp, g0);
    }

    /** The stages without output: headers, checksums, the end. */
    method StepAround(src: seq<byte>, sp: nat, ghost dst: seq<byte>, dp: nat, full: bool, ghost g0: Progress) returns (sp': nat, go: Go)
      requires Running(src, sp, dst, dp, g0) && sp <= |src| && dp <= |dst| && (full <==> dp == |dst|)
      requires !Owing(dStage)
      modifies this, header, tmpIn, xxh, blockChecksum
      ensures sp <= sp' <= |src| && SameMem(old(xxh.mem), old(blockChecksum.mem))
      ensures (tmpIn == old(tmpIn) && tmpOutBuffer == old(tmpOutBuffer)) || (fresh(tmpIn) && fresh(tmpOutBuffer))
      ensures IO(g, src, sp', dst, dp, g0)
      ensures go == Fail ==> !g.clean
      ensures go == Stop(0) ==> Idle() && g.clean
      ensures go != Fail && go != Stop(0) ==> Running(src, sp', dst, dp, g0)
      ensures go == Again ==> (sp < sp' || Rank(dStage) < Rank(old(dStage))) && Fed(src, sp')
      ensures go.Stop? && go.hint > 0 ==> Waiting(dStage) && (sp' == |src| || (dp == |dst| && Owing(dStage)))
      ensures go.Stop? && go.hint > 0 ==> HintIs(g, go.hint, sp' > 0)
    {
      hide HintIs, State, IO, Buffered, Idle;
      sp' := sp;
      match dStage
      case GetFrameHeader => sp', go := StepHeader(src, sp, dst, dp, g0);
      case StoreFrameHeader => sp', go := StoreHeader(src, sp, dst, dp, g0);
      case Init =>
        StepInit(dst, dp);
        go := Again;
      case GetBlockHeader => sp', go := StepBlockHeader(src, sp, dst, dp, full, g0);
      case StoreBlockHeader => sp', go := KeepBlockHeader(src, sp, dst, dp, full, g0);
      case GetBlockChecksum => sp', go := StepBlockChecksum(src, sp, dst, dp, g0);
      case GetSuffix => sp', go := StepSuffix(src, sp, dst, dp, g0);
      case StoreSuffix => sp', go := KeepSuffix(src, sp, dst, dp, g0);
    }

    ghost predicate SameMem(a: array<byte>, b: array<byte>)
      reads xxh, blockChecksum
    {
      xxh.mem == a && blockChecksum.mem == b
    }

    /** Lines 1844-1874: preserve history within tmp whenever necessary. */
    method Preserve(dst: array<byte>, dp: nat)
      requires Distinct() && Buffered() && Apart(dst) && State(dst[..], dp) && Waiting(dStage) && dp <= dst.Length
      modifies `dict, `dictSize, `tmpOut, tmpOutBuffer
      ensures Valid()
    {
      hide Buffered, Position, Good, Sums, DictIs, FlushIs, Ready, BlockLimit;
      KeptReady(dst[..], dp);
      if info.linked && dict.InDst? && Kept(dStage) {
        ReadyBuffers();
        if dStage == FlushOut {
          RelocateFlush(dst, dp);
        } else {
          RelocateDict(dst, dp);
        }
      } else {
        HistoryStays(dst[..], dp);
      }
    }

    /** A dictionary in the output occurs with linked blocks only, and buffers are ready then. */
    lemma KeptReady(dst: seq<byte>, dp: nat)
      requires State(dst, dp)
      ensures dict.InDst? ==> dStage in {GetSuffix, StoreSuffix} || (Ready() && g.f.linked && info == g.f && Kept(dStage) && dStage != Init)
      ensures dStage == FlushOut ==> tmpOutSize == |g.cur.piece|
    {
      hide DictIs, FlushIs, Between, InRaw, InCoded, InFlush, BeforeCheck, Sums, Good, BlockLimit, BeforeSuffix, Fresh;
    }

    lemma HistoryStays(dst: seq<byte>, dp: nat)
      requires History(dst, dp) && (dict.InDst? ==> dStage == StoreSuffix)
      ensures History([], 0)
    {
      hide EndsAlike, Front, Sized;
    }

    method RelocateFlush(dst: array<byte>, dp: nat)
      requires dict.InDst? && dStage == FlushOut && g.f.linked && dst != tmpOutBuffer && dp <= dst.Length && FlushTo(dst[..], dp)
      requires tmpOutSize == |g.cur.piece|
      modifies `dict, `dictSize, tmpOutBuffer
      ensures FlushTo([], 0) && dict == InTmp
    {
      hide FlushIs, DictIs, Last;
      ghost var tmp, out, k := tmpOutBuffer[..], dst[..], tmpOutStart;
      CopySource(dict.start, dictSize, tmp, tmpOut, out, dp, g.hist, g.cur.piece, k);
      FlushPlaced(dict, dictSize, tmp, tmpOut, out, dp, g.hist, g.cur.piece, k);
      var preserveSize := tmpOut;
      var copySize := CopySize(tmpOutSize, preserveSize);
      var oldDictEnd: int := dict.start + dictSize - tmpOutStart;
      if copySize > 0 {
        Put(tmpOutBuffer, preserveSize - copySize, dst[oldDictEnd - copySize..oldDictEnd]);
      }
      assert tmpOutBuffer[..][tmpOut..] == tmp[tmpOut..];
      RelocatedFlush(dict.start, dictSize, tmp, tmpOut, out, dp, g.hist, g.cur.piece, k, tmpOutBuffer[..], []);
      dict := InTmp;
      dictSize := preserveSize + tmpOutStart;
    }

    method RelocateDict(dst: array<byte>, dp: nat)
      requires dict.InDst? && dStage != FlushOut && g.f.linked && dst != tmpOutBuffer && dp <= dst.Length && LinkedTo(dst[..], dp)
      requires KB64 <= tmpOutBuffer.Length
      modifies `dict, `dictSize, `tmpOut, tmpOutBuffer
      ensures LinkedTo([], 0) && dict == InTmp
    {
      hide DictIs, Out, EndsAlike, Sized;
      ghost var tmp, out := tmpOutBuffer[..], dst[..];
      DictFitsTmp(dict, dictSize, tmp, out, dp, Out(g));
      var oldDictEnd := dict.start + dictSize;
      var newDictSize := Least(dictSize, KB64);
      Put(tmpOutBuffer, 0, dst[oldDictEnd - newDictSize..oldDictEnd]);
      assert tmpOutBuffer[..][..newDictSize] == tmpOutBuffer[0..0 + newDictSize] == out[dp - newDictSize..dp];
      Relocated(dict.start, dictSize, tmp, out, dp, Out(g), tmpOutBuffer[..], newDictSize, []);
      dict := InTmp;
      dictSize := newDictSize;
      tmpOut := newDictSize;
    }

    /** LZ4F_decompress, with stableDst 0: -1 stands for an error code. */
    method Decompress(dst: array<byte>, isNull: bool, src: seq<byte>) returns (consumed: nat, produced: nat, hint: int)
      requires Valid() && Apart(dst) && (isNull ==> dst.Length == 0) && src <= g.rest
      modifies this, header, tmpIn, tmpOutBuffer, xxh, xxh.mem, blockChecksum, blockChecksum.mem, dst
      ensures consumed <= |src| && produced <= dst.Length
      ensures g.rest == old(g.rest)[consumed..] && old(g.left) == dst[..produced] + g.left
      ensures g.total == old(g.total) && g.all == old(g.all) && g.f == old(g.f) && g.crc == old(g.crc) && g.tail == old(g.tail) && g.clean == old(g.clean)
      ensures hint < 0 ==> !g.clean
      ensures hint == 0 ==> Idle() && g.clean
      ensures hint > 0 ==> Valid() && |g.rest| > |g.tail|
      ensures hint > 0 ==> consumed == |src| || (produced == dst.Length && g.left != [])
      ensures hint > 0 ==> HintIs(g, hint, consumed > 0)
      ensures SameMem(old(xxh.mem), old(blockChecksum.mem)) && Apart(dst)
      ensures (tmpIn == old(tmpIn) && tmpOutBuffer == old(tmpOutBuffer)) || (fresh(tmpIn) && fresh(tmpOutBuffer))
    {
      hide State, Buffered, Out, Idle, HintIs;
      ghost var g0 := g;
      var sp, dp, go := 0, 0, Again;
      Entered(dst[..], src);
      while go == Again
        invariant sp <= |src| && dp <= dst.Length
        invariant SameMem(old(xxh.mem), old(blockChecksum.mem)) && Apart(dst)
        invariant (tmpIn == old(tmpIn) && tmpOutBuffer == old(tmpOutBuffer)) || (fresh(tmpIn) && fresh(tmpOutBuffer))
        invariant IO(g, src, sp, dst[..], dp, g0)
        invariant go == Fail ==> !g.clean
        invariant go == Stop(0) ==> Idle() && g.clean
        invariant go != Fail && go != Stop(0) ==> Running(src, sp, dst[..], dp, g0)
        invariant go.Stop? && go.hint > 0 ==> Waiting(dStage) && (sp == |src| || (dp == dst.Length && Owing(dStage)))
        invariant go.Stop? && go.hint > 0 ==> HintIs(g, go.hint, sp > 0)
        invariant go == Again ==> Fed(src, sp)
        decreases |src| - sp + dst.Length - dp, if go == Again then Rank(dStage) + 1 else 0
      {
        sp, dp, go := Step(dst, isNull, src, sp, dp, g0);
      }
      consumed, produced, hint := sp, dp, if go.Stop? then go.hint else -1;
      IOEnds(g, src, sp, dst[..], dp, g0);
      assert dst[..][..dp] == dst[..dp];
      if hint > 0 {
        NotOver(dst[..], dp);
        Preserve(dst, dp);
      }
    }

    /** A call begins. */
    lemma Entered(dst: seq<byte>, src: seq<byte>)
      requires Valid() && src <= g.rest
      ensures Running(src, 0, dst, 0, g)
    {
      hide Position, Good, Sums;
      assert src[0..] == src && src[..0] + g.rest == g.rest && dst[..0] + g.left == g.left;
      TotalIs();
      Reentered(dst);
    }

    lemma Reentered(dst: seq<byte>)
      requires History([], 0) && (dict.InDst? ==> dStage == StoreSuffix)
      ensures History(dst, 0)
    {
      hide EndsAlike, Front, Sized;
    }

    lemma TotalIs()
      requires Position()
      ensures g.total == Out(g) + g.left
    {
      Place();
      TotalEnds(g.total, g.left);
    }

    /** Where the frame stands at any stage. */
    lemma Place()
      requires Position()
      ensures Behind(g)
      ensures Waiting(dStage) ==> |g.rest| > |g.tail|
      ensures Owing(dStage) && g.cur.piece != [] ==> g.left != []
    {
      hide Behind, Fresh, Between, InRaw, BeforeCheck, InCoded, InFlush, BeforeSuffix, Ready, Header, BlockFooter, BlockLimit;
      if Ready() { ReadyBuffers(); }
      match dStage
      case GetFrameHeader => FreshPlace(g, []);
      case StoreFrameHeader => FreshPlace(g, header[..tmpInSize]);
      case Init => BetweenPlace(g, []);
      case GetBlockHeader => BetweenPlace(g, []);
      case StoreBlockHeader => BetweenPlace(g, tmpIn[..tmpInSize]);
      case CopyDirect => RawPlace(g, |g.cur.payload| - tmpInTarget);
      case GetBlockChecksum => CheckPlace(g, header[..tmpInSize]);
      case GetCBlock => CodedPlace(g, []);
      case StoreCBlock => CodedPlace(g, tmpIn[..tmpInSize]);
      case FlushOut => FlushPlace(g, tmpOutStart);
      case GetSuffix => SuffixPlace(g, []);
      case StoreSuffix => SuffixPlace(g, tmpIn[..tmpInSize]);
    }

    /** A call that waits is not at the end of the frame. */
    lemma NotOver(dst: seq<byte>, dp: nat)
      requires State(dst, dp) && Waiting(dStage)
      ensures |g.rest| > |g.tail|
      ensures Owing(dStage) ==> g.left != []
    {
      hide Position, Sums, Between, ReadableBlocks, Decodes, Intact;
      Place();
    }

    /** Whenever a linked block is about to be decoded, the dictionary ends with the
        last 64 KB of all the output so far, or with all of it. */
    lemma LinkedHistory(src: seq<byte>, sp: nat, dst: seq<byte>, dp: nat, g0: Progress)
      requires Running(src, sp, dst, dp, g0) && g.f.linked && dStage in {GetCBlock, StoreCBlock}
      ensures dp <= |dst| && Out(g) == Out(g0) + dst[..dp]
      ensures (dict.InTmp? ==> dictSize <= tmpOutBuffer.Length) && (dict.InDst? ==> dict.start + dictSize == dp)
      ensures var d, n := DictBytes(dict, dictSize, tmpOutBuffer[..], dst, dp), Least(KB64, |Out(g)|);
              |d| == dictSize && n <= dictSize && d[dictSize - n..] == Out(g)[|Out(g)| - n..]
    {
      hide DictIs, Position, Sums, Good, Out;
      AtLinked(dst, dp);
      OutIs(g, src, sp, dst, dp, g0);
      DictFitsTmp(dict, dictSize, tmpOutBuffer[..], dst, dp, Out(g));
      EmptyWithout(dict, dictSize, tmpOutBuffer[..], dst, dp, Out(g));
    }

    /** A decoded block that waits for output keeps clear of the end of the buffer,
        and so would any other block. */
    lemma FlushRoom(src: seq<byte>, sp: nat, dst: seq<byte>, dp: nat, g0: Progress)
      requires Running(src, sp, dst, dp, g0) && dStage == FlushOut
      ensures tmpOut + maxBlockSize <= tmpOutBuffer.Length && tmpOutSize <= maxBlockSize
      ensures tmpOutBuffer[tmpOut + tmpOutStart..tmpOut + tmpOutSize] == g.cur.piece[tmpOutStart..]
    {
      hide FlushIs, Sums, Ready, Decodes, ReadableBlocks, BlockLimit;
      ReadyLimit();
      FlushPiece(dst, dp, tmpOutSize - tmpOutStart);
      assert g.cur.piece[tmpOutStart..] == g.cur.piece[tmpOutStart..tmpOutStart + (tmpOutSize - tmpOutStart)];
    }
  }

  /** Where a dictionary that is not empty stands. */
  lemma WhereDict(dict: Dict, dictSize: nat, tmp: seq<byte>, tmpOut: nat, dst: seq<byte>, dp: nat, h: seq<byte>, piece: seq<byte>, k: nat, flush: bool)
    requires dictSize > 0
    requires if flush then k <= |piece| && FlushIs(dict, dictSize, tmp, tmpOut, dst, dp, h, piece, k) else DictIs(dict, dictSize, tmp, dst, dp, h)
    ensures dict == InTmp || (dict.InDst? && dict.start + dictSize == dp)
  {
  }

  lemma NoBytes(a: array<byte>)
    ensures a[..0] == []
  {
  }

  lemma IOSame(g: Progress, t: Progress, src: seq<byte>, sp: nat, dst: seq<byte>, dp: nat, g0: Progress)
    requires IO(g, src, sp, dst, dp, g0) && t == g.(cur := t.cur, todo := t.todo, hist := t.hist)
    ensures IO(t, src, sp, dst, dp, g0)
  {
  }

  lemma FooterSize(g: Progress)
    ensures |BlockFooter(g.f, g.cur)| == if g.f.blockChecksum then BF_SIZE else 0
  {
    hide Crc;
  }

  lemma LimitIsSize(f: Info)
    ensures BlockLimit(f) in {64 * KB, 256 * KB, 1024 * KB, 4096 * KB}
  {
  }

  /** The next block of a decodable list. */
  lemma BlockOpens(g: Progress, head: seq<byte>)
    requires Between(g, head) && g.todo != [] && |head| == 4 && Decodable(g, false)
    ensures var t := g.(cur := g.todo[0], todo := g.todo[1..]);
            && FromLE(head) == |t.cur.payload| + (if t.cur.raw then UNCOMPRESSED_FLAG else 0)
            && 0 < |t.cur.payload| < UNCOMPRESSED_FLAG && 0 < |t.cur.piece|
            && (if |t.cur.payload| <= BlockLimit(g.f) then Decodable(t, true) else !g.clean)
            && (if t.cur.raw then InRaw(t, 0) else InCoded(t, []))
            && Out(t) == Out(g) == g.hist
  {
    hide Between, InRaw, InCoded, FromLE, Decodes, Sealed, BlockLimit, Crc;
    OutHist(g, head);
    BlockBegins(g, head);
    OutSame(g, g.(cur := g.todo[0], todo := g.todo[1..]));
  }

  lemma OutHist(g: Progress, head: seq<byte>)
    requires Between(g, head)
    ensures Out(g) == g.hist
  {
    assert g.total[..|g.total| - |g.left|] == g.hist;
  }

  lemma DecodableSame(g: Progress, t: Progress)
    requires g.f == t.f && g.hist == t.hist && g.todo == t.todo && g.cur == t.cur && g.total == t.total && g.crc == t.crc && g.clean == t.clean
    ensures forall inside :: Decodable(g, inside) == Decodable(t, inside)
  {
  }

  lemma OutGiven(g: Progress, n: nat)
    requires n <= |g.left| && g.total == Out(g) + g.left
    ensures Out(g.(left := g.left[n..])) == Out(g) + g.left[..n]
  {
    OutMoves(g, 0);
    var i := |Out(g)|;
    assert g.total[..i + n] == g.total[..i] + g.total[i..i + n];
    assert g.total[i..i + n] == g.left[..n];
  }

  lemma FlushOutHist(g: Progress)
    requires InFlush(g, 0)
    ensures Out(g) == g.hist
  {
    assert g.cur.piece[0..] == g.cur.piece;
    assert g.total[..|g.total| - |g.left|] == g.hist;
  }

  lemma FlushOutIs(g: Progress, k: nat)
    requires InFlush(g, k)
    ensures Out(g) == g.hist + g.cur.piece[..k]
  {
    hide After;
    GivenAndLeft(g.hist, g.cur.piece, k, Content(g.todo));
  }

  lemma SuffixOut(g: Progress, head: seq<byte>)
    requires BeforeSuffix(g, head)
    ensures Out(g) == g.total
  {
    hide Crc, LE32;
    assert g.total[..|g.total|] == g.total;
  }

  /** What is left to be checked behind the end mark. */
  lemma EndIsClean(g: Progress, head: seq<byte>)
    requires BeforeSuffix(g, head)
    ensures ValidInfo(g.f)
    ensures Cleanly(g, false) ==> (g.clean <==> SizeRight(g) && (g.f.contentChecksum ==> g.crc == Crc(g.total)))
  {
    hide Crc, LE32;
  }

  /** Nothing is behind the end mark. */
  lemma NoSuffix(g: Progress)
    requires BeforeSuffix(g, []) && !g.f.contentChecksum
    ensures Complete(g)
  {
    assert [] + g.rest == g.rest && [] + g.tail == g.tail;
  }

  lemma TotalEnds(total: seq<byte>, left: seq<byte>)
    requires |left| <= |total| && total[|total| - |left|..] == left
    ensures total == total[..|total| - |left|] + left
  {
  }

  lemma IOEnds(g: Progress, src: seq<byte>, sp: nat, dst: seq<byte>, dp: nat, g0: Progress)
    requires IO(g, src, sp, dst, dp, g0)
    ensures sp <= |src| && dp <= |dst| && sp <= |g0.rest| && g0.rest[sp..] == g.rest && g0.left == dst[..dp] + g.left
    ensures g.total == g0.total && g.all == g0.all && g.f == g0.f && g.tail == g0.tail && g.crc == g0.crc && g.clean == g0.clean
  {
  }

  lemma NothingTrimmed()
    ensures Trimmed([]) == []
  {
  }

  lemma CrcIs(s: seq<byte>)
    ensures Crc(s) == Number(X.Hash(0, s))
  {
  }

  /** A compressed block is not empty, with its checksum. */
  lemma PayloadSize(g: Progress)
    requires Decodable(g, true)
    ensures |g.cur.payload| > 0
  {
    hide ReadableBlocks, Decodes;
  }

  lemma PayloadLimit(g: Progress)
    requires Decodable(g, true)
    ensures |g.cur.payload| <= BlockLimit(g.f) <= 0x40_0000
    ensures Intact(g.f, g.cur) && !g.cur.raw ==> |g.cur.piece| <= BlockLimit(g.f)
  {
    hide ReadableBlocks, Decodes, Intact, Cleanly;
  }

  lemma Unchecked(g: Progress)
    requires Decodable(g, true) && !g.f.blockChecksum
    ensures Intact(g.f, g.cur)
  {
  }

  lemma CleanNow(g: Progress, inside: bool)
    requires Decodable(g, inside)
    ensures Cleanly(g, inside)
  {
    hide Cleanly;
  }

  lemma SumStored(g: Progress)
    requires Decodable(g, true)
    ensures g.cur.sum < U32_RANGE && (Intact(g.f, g.cur) <==> !g.f.blockChecksum || g.cur.sum == Crc(g.cur.payload))
    ensures !Intact(g.f, g.cur) ==> !g.clean
  {
    hide Crc, BlockLimit, ReadableBlocks, Decodes, Sealed, AllIntact;
  }

  lemma SameTail(a: seq<byte>, b: seq<byte>, c: seq<byte>)
    requires a + b == a + c
    ensures b == c
  {
    assert b == (a + b)[|a|..] == (a + c)[|a|..] == c;
  }

  lemma OutSame(g: Progress, t: Progress)
    requires g.left == t.left && g.total == t.total
    ensures Out(g) == Out(t)
  {
  }

  lemma OutMoves(g: Progress, n: nat)
    requires n <= |g.rest| && n <= |g.left| && g.total == Out(g) + g.left
    ensures Out(g.(rest := g.rest[n..], left := g.left[n..])) == Out(g) + g.left[..n]
  {
    var i := |Out(g)|;
    assert g.total[..i + n] == g.total[..i] + g.total[i..i + n];
    assert g.total[i..i + n] == g.left[..n];
  }

  lemma FreshInfo(g: Progress, head: seq<byte>)
    requires Fresh(g, head)
    ensures ValidInfo(g.f) && BlockLimit(g.f) == BlockSize(g.f.blockSizeID) && g.hist == []
  {
  }

  lemma IOParts(g: Progress, src: seq<byte>, sp: nat, dst: seq<byte>, dp: nat, g0: Progress)
    requires IO(g, src, sp, dst, dp, g0)
    ensures sp <= |src| && dp <= |dst| && src[sp..] <= g.rest
  {
  }

  lemma FreshOut(g: Progress)
    requires Between(g, []) && g.hist == []
    ensures Out(g) == [] && g.total == g.left
  {
    assert g.total == [] + g.left == g.left;
  }

  /** The counter goes down, modulo 2^64. */
  lemma SizeLess(size: nat, d: nat, n: nat)
    ensures ((size - d) % U64_RANGE - n) % U64_RANGE == (size - (d + n)) % U64_RANGE
  {
    Residue(size - d, (size - d) / U64_RANGE, n);
  }

  lemma Residue(a: int, q: int, n: int)
    ensures (a - q * U64_RANGE - n) % U64_RANGE == (a - n) % U64_RANGE
  {
  }

  /** The counter starts with the announced size. */
  lemma SizeBegins(f: Info)
    requires ValidInfo(f)
    ensures f.contentSize % U64_RANGE == f.contentSize
  {
  }

  lemma ParsedId(s: seq<byte>)
    ensures ParseHeader(s).Parsed? ==> 4 <= ParseHeader(s).info.blockSizeID <= 7
    ensures ParseHeader(s).Incomplete? ==> |s| < ParseHeader(s).needed <= MAX_FH_SIZE
  {
    hide HeaderCrc, FromLE, Flag;
  }
}
