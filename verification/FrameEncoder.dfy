/** The compression side of lz4frame.c: a context that buffers input, writes
    blocks, and keeps the history of linked blocks within reach. */
module FrameEncoder {
  import opened Format
  import opened Common
  import opened Emit
  import opened FrameFormat
  import opened FrameBounds
  import opened History
  import HB = HcBlock
  import S = Stream
  import X = XxHash32

  const CLEVEL_HC_MIN: int := HB.CLEVEL_MIN

  // ---------------------------------------------------------------------
  // Stores
  // ---------------------------------------------------------------------

  /** n bytes at `at` are there already. */
  method PutBehind(dst: array<byte>, at: nat, n: nat, s: seq<byte>) returns (size: nat)
    requires at + n + |s| <= dst.Length
    modifies dst
    ensures size == n + |s| && dst[at..at + size] == old(dst[at..at + n]) + s && dst[..at] == old(dst[..at])
  {
    size := n + |s|;
    ghost var was := dst[..];
    Put(dst, at + n, s);
    ghost var now := dst[..];
    assert was[..at + n] == now[..at + n];
    assert now[at..at + n] == now[..at + n][at..] == was[at..at + n];
    assert now[at..at + size] == now[at..at + n] + now[at + n..at + size];
    assert now[..at] == now[..at + n][..at] == was[..at];
  }

  /** `memcpy(dstPtr, ...); dstPtr += n`. */
  method Append(dst: array<byte>, at: nat, s: seq<byte>) returns (at': nat)
    requires at + |s| <= dst.Length
    modifies dst
    ensures at' == at + |s| && dst[..at'] == old(dst[..at]) + s
  {
    Put(dst, at, s);
    at' := at + |s|;
    assert dst[..at'] == dst[..at] + dst[at..at'];
  }

  /** Lines 669-696. */
  method WriteHeader(f: Info, dst: array<byte>) returns (size: nat)
    requires ValidInfo(f) && MAX_FH_SIZE <= dst.Length
    modifies dst
    ensures size <= MAX_FH_SIZE && dst[..size] == Header(f)
  {
    hide Crc, LE32, LE64, HeaderCrc;
    size := Append(dst, 0, LE32(MAGIC));
    var headerStart := size;
    size := Append(dst, size, [Flg(f), 16 * f.blockSizeID]);
    if f.contentSize > 0 {
      size := Append(dst, size, LE64(f.contentSize));
    }
    if f.dictID > 0 {
      size := Append(dst, size, LE32(f.dictID));
    }
    DescriptorBytes(f, dst[..size], dst[headerStart..size]);
    size := Append(dst, size, [HeaderCrc(dst[headerStart..size])]);
  }

  lemma DescriptorBytes(f: Info, s: seq<byte>, t: seq<byte>)
    requires ValidInfo(f) && 4 <= |s| && t == s[4..]
    requires s == [] + LE32(MAGIC) + [Flg(f), 16 * f.blockSizeID]
                  + (if f.contentSize > 0 then LE64(f.contentSize) else []) + (if f.dictID > 0 then LE32(f.dictID) else [])
    ensures t == Descriptor(f) && s + [HeaderCrc(t)] == Header(f)
  {
    hide HeaderCrc, LE32, LE64;
    assert s == LE32(MAGIC) + Descriptor(f);
  }

  // ---------------------------------------------------------------------
  // One block
  // ---------------------------------------------------------------------

  /** The block size identifier 0 stands for 64 KB. */
  function Defaulted(p: Prefs): Prefs {
    p.(info := p.info.(blockSizeID := if p.info.blockSizeID == 0 then 4 else p.info.blockSizeID))
  }

  function RequiredBuffSize(p: Prefs): nat
    requires ValidPrefs(p)
  {
    if p.autoFlush then (if p.info.linked then KB64 else 0)
    else BlockSize(p.info.blockSizeID) + if p.info.linked then KB128 else 0
  }

  /** The block compressor of a context: what one call returns and leaves in out. */
  ghost predicate Compressed(f: Info, before: seq<byte>, piece: seq<byte>, out: seq<byte>, cSize: nat) {
    cSize > 0 ==> cSize <= |out| && Decodes(out[..cSize], if f.linked then before else [], piece)
  }

  function MadeFrom(piece: seq<byte>, out: seq<byte>, cSize: nat): Block {
    if 0 < cSize <= |out| then FrameFormat.Block(piece, out[..cSize], false, Crc(out[..cSize])) else FrameFormat.Block(piece, piece, true, Crc(piece))
  }

  lemma MadeIsGood(f: Info, before: seq<byte>, piece: seq<byte>, out: seq<byte>, cSize: nat)
    requires 0 < |piece| <= BlockLimit(f) && |out| < |piece| && Compressed(f, before, piece, out, cSize)
    ensures GoodBlock(f, before, MadeFrom(piece, out, cSize))
  {
    hide Decodes;
  }

  /** The rest of LZ4F_makeBlock, once the compressor has run: header, payload
      (the input itself when compression failed) and checksum. */
  method WriteBlock(f: Info, dst: array<byte>, at: nat, piece: seq<byte>, out: seq<byte>, cSize: nat) returns (size: nat)
    requires 0 < |piece| < UNCOMPRESSED_FLAG && |out| < |piece| && cSize <= |out|
    requires at + BH_SIZE + |piece| + BF_SIZE * Bit(f.blockChecksum) <= dst.Length
    modifies dst
    ensures size <= BH_SIZE + |piece| + BF_SIZE * Bit(f.blockChecksum)
    ensures dst[at..at + size] == BlockBytes(f, MadeFrom(piece, out, cSize)) && dst[..at] == old(dst[..at])
  {
    hide Crc, BlockBytes, LE32;
    var raw := cSize == 0;
    size := WritePayload(f, dst, at, if raw then piece else out[..cSize], raw);
    Footed(f, MadeFrom(piece, out, cSize), dst[at..at + size]);
  }

  method WritePayload(f: Info, dst: array<byte>, at: nat, payload: seq<byte>, raw: bool) returns (size: nat)
    requires at + BH_SIZE + |payload| + BF_SIZE * Bit(f.blockChecksum) <= dst.Length
    modifies dst
    ensures size == BH_SIZE + |payload| + BF_SIZE * Bit(f.blockChecksum) && dst[..at] == old(dst[..at])
    ensures dst[at..at + size] == LE32(|payload| + if raw then UNCOMPRESSED_FLAG else 0) + payload
                                  + (if f.blockChecksum then LE32(Crc(payload)) else [])
  {
    hide Crc, LE32;
    size := PutBehind(dst, at, 0, LE32(|payload| + if raw then UNCOMPRESSED_FLAG else 0));
    size := PutBehind(dst, at, size, payload);
    if f.blockChecksum {
      size := PutBehind(dst, at, size, LE32(Crc(payload)));
    }
  }

  lemma Footed(f: Info, b: Block, s: seq<byte>)
    requires s == LE32(BlockHeader(b)) + b.payload + (if f.blockChecksum then LE32(Crc(b.payload)) else [])
    requires b.sum == Crc(b.payload)
    ensures s == BlockBytes(f, b)
  {
    hide Crc, LE32;
  }

  /** n bytes from s on. */
  function Slice(a: seq<byte>, s: nat, n: nat): (r: seq<byte>)
    requires s + n <= |a|
    ensures |r| == n
  {
    a[s..s + n]
  }

  /** What is in blocks and what is pending make up the input and more. */
  predicate Accounts(content: seq<byte>, pending: seq<byte>, input: seq<byte>, more: seq<byte>) {
    content + pending == input + more
  }

  // ---------------------------------------------------------------------
  // The context
  // ---------------------------------------------------------------------

  lemma SuffixThrough(a: seq<byte>, b: seq<byte>, c: seq<byte>)
    requires IsSuffix(a, b) && IsSuffix(b, c)
    ensures IsSuffix(a, c)
  {
  }

  lemma SuffixExtended(a: seq<byte>, b: seq<byte>, x: seq<byte>)
    requires IsSuffix(a, b)
    ensures IsSuffix(a + x, b + x)
  {
  }

  /** A block that decodes after an end of the content decodes after all of it. */
  lemma AfterAll(f: Info, h: seq<byte>, before: seq<byte>, piece: seq<byte>, out: seq<byte>, cSize: nat)
    requires f.linked && IsSuffix(h, before)
    requires cSize > 0 ==> cSize <= |out| && Decodes(out[..cSize], h, piece)
    ensures Compressed(f, before, piece, out, cSize)
  {
    hide Decodes;
    if cSize > 0 {
      CompatibleDecodes(out[..cSize], h, before, piece);
    }
  }

  class Context {
    const memory: array<byte>
    const stream: S.FastStream   // lz4CtxPtr, below CLEVEL_HC_MIN
    const hc: HB.StateHc         // lz4CtxPtr, from there on
    var lz4CtxState: nat
    const hash: seq<byte> -> nat
    var prefs: Prefs
    var cStage: nat
    var maxBlockSize: nat
    var maxBufferSize: nat
    var tmpBuff: nat
    var tmpIn: nat
    var tmpInSize: nat
    var totalInSize: nat
    var xxh: X.State
    ghost var blocks: seq<Block>
    ghost var input: seq<byte>

    /** Both states of lz4CtxPtr can be used again. */
    ghost predicate StateOk()
      reads stream, stream.table, hc, hc.ctx, hc.ctx.hashTable, hc.ctx.chainTable
    {
      && stream.TableValid() && stream.Usable() && (stream.Cleared() ==> stream.currentOffset == 0)
      && hc.Valid() && stream.table != hc.ctx.hashTable && stream.table != hc.ctx.chainTable
    }

    /** For linked blocks, the history is known. */
    ghost predicate StreamOk()
      reads `prefs, stream, stream.table, hc, hc.ctx, hc.ctx.hashTable, hc.ctx.chainTable
    {
      StateOk() && (prefs.info.linked ==> stream.Valid() && stream.InRange())
    }

    /** A frame is being written, and the input so far is in blocks or pending. */
    ghost predicate Valid()
      reads this, memory, stream, stream.table, hc, hc.ctx, hc.ctx.hashTable, hc.ctx.chainTable, xxh, xxh.mem
    {
      && xxh.mem != memory && xxh.mem.Length == 16 && Open() && Accounts(Content(blocks), Slice(memory[..], tmpIn, tmpInSize), input, [])
      && (prefs.info.contentChecksum ==> xxh.Valid() && xxh.seed == 0 && xxh.fed == input)
      && (prefs.info.contentSize > 0 ==> totalInSize == |input|)
    }

    /** LZ4F_createCompressionContext. */
    constructor (memory: array<byte>, hash: seq<byte> -> nat)
      ensures StateOk() && this.memory == memory && fresh(stream) && fresh(stream.table) && fresh(xxh) && fresh(xxh.mem)
      ensures fresh(hc) && fresh(hc.ctx) && fresh(hc.ctx.hashTable) && fresh(hc.ctx.chainTable)
      ensures xxh.Valid() && xxh.seed == 0 && cStage == 0 && tmpBuff == 0 && maxBufferSize == 0 && Idle()
    {
      hide S.Past, X.Holds, X.Init, X.Stripes, X.Rest;
      this.memory, this.hash := memory, hash;
      stream := new S.FastStream(hash);
      hc := new HB.StateHc(hash);
      lz4CtxState := 0;
      xxh := new X.State(0);
      prefs := Prefs(Info(4, false, false, 0, false, 0), 0, false, false);
      cStage, maxBlockSize, maxBufferSize, tmpBuff, tmpIn, tmpInSize, totalInSize := 0, 0, 0, 0, 0, 0, 0;
      blocks, input := [], [];
    }

    /** LZ4F_compressBlock, LZ4F_compressBlockHC or LZ4F_compressBlock_continue. */
    method Compress(source: nat, n: nat, out: array<byte>) returns (cSize: nat)
      requires StreamOk() && 0 < n <= MAX_INPUT_SIZE && source + n <= memory.Length && out.Length < n
      requires prefs.info.linked ==> prefs.level < CLEVEL_HC_MIN
      requires prefs.info.linked ==> stream.dictionary + stream.dictSize <= memory.Length
                                     && IsSuffix(stream.Dictionary(memory[..]), Content(blocks))
      modifies stream, stream.table, hc, hc.ctx, hc.ctx.hashTable, hc.ctx.chainTable, out
      ensures StreamOk() && cSize <= out.Length
      ensures Compressed(prefs.info, Content(blocks), Slice(memory[..], source, n), out[..], cSize)
      ensures prefs.info.linked ==>
                && stream.dictionary + stream.dictSize == source + n
                && n <= stream.dictSize <= old(stream.dictSize) + n
                && (stream.dictSize > n ==> old(stream.dictionary + stream.dictSize) == source)
                && IsSuffix(stream.Dictionary(memory[..]), Content(blocks) + Slice(memory[..], source, n))
    {
      hide Decodes, IsSuffix, S.Bytes, S.Past;
      var acceleration := if prefs.level < 0 then -prefs.level + 1 else 1;
      if prefs.info.linked {
        ghost var dict, content := stream.Dictionary(memory[..]), Content(blocks);
        ghost var h;
        cSize, h := stream.CompressFastContinue(memory[..], source, n, out, acceleration);
        SuffixThrough(h, dict, content);
        SuffixExtended(h, content, Slice(memory[..], source, n));
        SuffixThrough(stream.Dictionary(memory[..]), h + Slice(memory[..], source, n), content + Slice(memory[..], source, n));
        SuffixSize(h, memory[..], old(stream.dictionary), old(stream.dictSize));
        AfterAll(prefs.info, h, content, Slice(memory[..], source, n), out[..], cSize);
      } else if prefs.level < CLEVEL_HC_MIN {
        cSize := stream.FastReset(Slice(memory[..], source, n), out, acceleration);
      } else {
        hc.ResetFast();
        cSize := hc.FastReset(Slice(memory[..], source, n), out, prefs.level);
      }
    }

    /** LZ4F_makeBlock, out of Slice(memory[..], source, n). */
    method MakeBlock(source: nat, n: nat, dst: array<byte>, at: nat) returns (size: nat)
      requires StreamOk() && 0 < n <= BlockLimit(prefs.info) && source + n <= memory.Length && dst != memory
      requires at + BlockOverhead(prefs) + n <= dst.Length
      requires prefs.info.linked ==> prefs.level < CLEVEL_HC_MIN
      requires prefs.info.linked ==> stream.dictionary + stream.dictSize <= memory.Length
                                     && IsSuffix(stream.Dictionary(memory[..]), Content(blocks))
      requires GoodBlocks(prefs.info, [], blocks)
      modifies this`blocks, stream, stream.table, hc, hc.ctx, hc.ctx.hashTable, hc.ctx.chainTable, dst
      ensures StreamOk()
      ensures size <= BlockOverhead(prefs) + n && dst[..at] == old(dst[..at])
      ensures Body(prefs.info, blocks) == old(Body(prefs.info, blocks)) + dst[at..at + size]
      ensures Content(blocks) == old(Content(blocks)) + Slice(memory[..], source, n) && GoodBlocks(prefs.info, [], blocks)
      ensures |blocks| == |old(blocks)| + 1
      ensures prefs.info.linked ==>
                && stream.dictionary + stream.dictSize == source + n
                && n <= stream.dictSize <= old(stream.dictSize) + n
                && (stream.dictSize > n ==> old(stream.dictionary + stream.dictSize) == source)
                && IsSuffix(stream.Dictionary(memory[..]), Content(blocks))
    {
      hide Compressed, GoodBlock, GoodBlocks, Body, BlockBytes, Content, IsSuffix, S.Bytes, S.Past, MadeFrom;
      BlockLimitSmall(prefs.info);
      var piece := Slice(memory[..], source, n);
      var out := new byte[n - 1](_ => 0);
      ghost var before := Content(blocks);
      var cSize := Compress(source, n, out);
      ghost var b := MadeFrom(piece, out[..], cSize);
      MadeIsGood(prefs.info, before, piece, out[..], cSize);
      MadePiece(piece, out[..], cSize);
      size := WriteBlock(prefs.info, dst, at, piece, out[..], cSize);
      BodyAppend(prefs.info, blocks, b);
      ContentAppend(blocks, b);
      assert [] + before == before;
      GoodBlocksAppend(prefs.info, [], blocks, b);
      blocks := blocks + [b];
    }

    // -------------------------------------------------------------------
    // LZ4F_compressUpdate
    // -------------------------------------------------------------------

    /** What holds between the steps of an update. */
    ghost predicate Between()
      reads `prefs, `maxBlockSize, `maxBufferSize, `tmpBuff, `tmpIn, `tmpInSize, `blocks, memory, stream, stream.table, hc, hc.ctx, hc.ctx.hashTable, hc.ctx.chainTable
    {
      && StreamOk() && ValidInfo(prefs.info) && (prefs.info.linked ==> prefs.level < CLEVEL_HC_MIN)
      && maxBlockSize == BlockLimit(prefs.info)
      && tmpBuff + maxBufferSize <= memory.Length && tmpBuff <= tmpIn && tmpIn + tmpInSize <= memory.Length
      && tmpInSize < maxBlockSize && (prefs.autoFlush ==> tmpInSize == 0)
      && (prefs.info.linked ==> KB64 <= maxBufferSize && (prefs.autoFlush || BlockLimit(prefs.info) + KB128 <= maxBufferSize))
      && GoodBlocks(prefs.info, [], blocks)
      && (prefs.info.linked ==> stream.dictionary + stream.dictSize <= memory.Length
                                && IsSuffix(stream.Dictionary(memory[..]), Content(blocks)))
    }

    /** Blocks and buffer hold the input so far and p bytes of the source at s. */
    ghost predicate Sum(s: nat, p: nat)
      reads `tmpIn, `tmpInSize, `blocks, `input, memory
    {
      && tmpIn + tmpInSize <= memory.Length && s + p <= memory.Length
      && Accounts(Content(blocks), Slice(memory[..], tmpIn, tmpInSize), input, Slice(memory[..], s, p))
    }

    /** The dictionary is out of the way of what will be buffered. */
    ghost predicate OutOfTheWay()
      reads `prefs, `tmpIn, `tmpBuff, `maxBufferSize, stream
    {
      prefs.info.linked && !prefs.autoFlush ==>
        stream.dictSize == 0 || stream.dictionary + stream.dictSize <= tmpIn || tmpBuff + maxBufferSize <= stream.dictionary
    }

    /** It does not touch the internal buffer at all. */
    ghost predicate Outside()
      reads `tmpBuff, `maxBufferSize, stream
    {
      stream.dictSize == 0 || stream.dictionary + stream.dictSize <= tmpBuff || tmpBuff + maxBufferSize <= stream.dictionary
    }

    /** The dictionary is in the internal buffer: whatever else is overwritten
        between calls, the history stays. */
    ghost predicate Own()
      reads `prefs, `tmpBuff, `maxBufferSize, stream
    {
      prefs.info.linked ==>
        stream.dictSize == 0 || (tmpBuff <= stream.dictionary && stream.dictionary + stream.dictSize <= tmpBuff + maxBufferSize)
    }

    /** The source stands apart from the internal buffer. */
    ghost predicate Away(q: nat, n: nat)
      reads `tmpBuff, `maxBufferSize
    {
      q + n <= memory.Length && (q + n <= tmpBuff || tmpBuff + maxBufferSize <= q)
    }

    /** So does this part of it, and a block at q does not
        join up with a dictionary that ends with it. */
    ghost predicate Apart(q: nat, n: nat)
      reads `prefs, `tmpIn, `tmpBuff, `maxBufferSize
    {
      && Away(q, n)
      && (!prefs.autoFlush ==> 0 < maxBufferSize && tmpIn <= tmpBuff + maxBufferSize && (tmpIn < tmpBuff + maxBufferSize || q != tmpBuff + maxBufferSize))
    }

    /** A block straight out of the source. */
    method SourceBlock(q: nat, n: nat, dst: array<byte>, at: nat) returns (size: nat)
      requires Between() && OutOfTheWay() && Apart(q, n) && tmpInSize == 0 && 0 < n <= maxBlockSize
      requires dst != memory && at + BlockOverhead(prefs) + n <= dst.Length
      modifies this`blocks, stream, stream.table, hc, hc.ctx, hc.ctx.hashTable, hc.ctx.chainTable, dst
      ensures Between() && OutOfTheWay()
      ensures prefs.info.linked && !prefs.autoFlush ==> Outside()
      ensures size <= BlockOverhead(prefs) + n && dst[..at] == old(dst[..at])
      ensures Body(prefs.info, blocks) == old(Body(prefs.info, blocks)) + dst[at..at + size]
      ensures Content(blocks) == old(Content(blocks)) + Slice(memory[..], q, n)
      ensures prefs.info.linked ==> stream.dictSize > 0
    {
      hide StreamOk, GoodBlocks, Body, Content, IsSuffix, S.Bytes, S.Past;
      size := MakeBlock(q, n, dst, at);
    }

    /** memcpy behind the pending input; tmpInSize is set by the caller. */
    method Store(from: nat, n: nat)
      requires Between() && OutOfTheWay() && !prefs.autoFlush && tmpIn + maxBlockSize <= tmpBuff + maxBufferSize
      requires tmpInSize + n <= maxBlockSize && from + n <= memory.Length && (from + n <= tmpBuff || tmpBuff + maxBufferSize <= from)
      modifies memory
      ensures Between() && Kept(old(memory[..]), memory[..], tmpIn + tmpInSize, tmpIn + tmpInSize + n)
      ensures Slice(memory[..], tmpIn + tmpInSize, n) == old(Slice(memory[..], from, n))
    {
      hide StreamOk, GoodBlocks, Content, IsSuffix, S.Bytes, S.Past, Kept, Slice, Accounts;
      ghost var was := memory[..];
      var to := tmpIn + tmpInSize;
      S.Move(memory, from, to, n);
      KeptAround(was, memory[..], to, to + n);
      Moved(was, memory[..], from, to, n);
      if prefs.info.linked {
        BytesKept(was, memory[..], to, to + n, stream.dictionary, stream.dictSize);
      }
    }

    /** The buffer is in a state from which input can be added to it. */
    ghost predicate Open()
      reads `prefs, `maxBlockSize, `maxBufferSize, `tmpBuff, `tmpIn, `tmpInSize, `blocks, memory, stream, stream.table, hc, hc.ctx, hc.ctx.hashTable, hc.ctx.chainTable
    {
      Between() && OutOfTheWay() && (!prefs.autoFlush ==> tmpIn + maxBlockSize <= tmpBuff + maxBufferSize)
    }

    /** Lines 848-854, when the source does not complete the pending block. */
    method Append(s: nat, n: nat)
      requires Open() && Sum(s, 0) && Apart(s, n) && 0 < tmpInSize && tmpInSize + n < maxBlockSize
      modifies this`tmpInSize, memory
      ensures Open() && Sum(s, n) && Kept(old(memory[..]), memory[..], tmpBuff, tmpBuff + maxBufferSize) && tmpInSize > 0
    {
      hide StreamOk, GoodBlocks, Content, IsSuffix, S.Bytes, S.Past, Kept, Slice, Accounts;
      ghost var was := memory[..];
      Store(s, n);
      Behind(was, memory[..], tmpIn, tmpInSize, n);
      SliceKept(was, memory[..], tmpIn + tmpInSize, tmpIn + tmpInSize + n, s, n);
      KeptWider(was, memory[..], tmpIn + tmpInSize, tmpIn + tmpInSize + n, tmpBuff, tmpBuff + maxBufferSize);
      tmpInSize := tmpInSize + n;
      SumMore(was, Content(blocks), Slice(was, tmpIn, old(tmpInSize)), input, Slice(was, s, n), s);
    }

    /** The same, when it does. */
    method FillUp(s: nat, n: nat)
      requires Open() && Sum(s, 0) && Apart(s, n) && !prefs.autoFlush && tmpInSize + n == maxBlockSize
      modifies memory
      ensures Between() && Kept(old(memory[..]), memory[..], tmpBuff, tmpBuff + maxBufferSize)
      ensures Content(blocks) + Slice(memory[..], tmpIn, maxBlockSize) == input + Slice(memory[..], s, n)
    {
      hide StreamOk, GoodBlocks, Body, Content, IsSuffix, S.Bytes, S.Past, Kept, Slice, Accounts;
      ghost var was := memory[..];
      Store(s, n);
      Behind(was, memory[..], tmpIn, tmpInSize, n);
      SliceKept(was, memory[..], tmpIn + tmpInSize, tmpIn + tmpInSize + n, s, n);
      KeptWider(was, memory[..], tmpIn + tmpInSize, tmpIn + tmpInSize + n, tmpBuff, tmpBuff + maxBufferSize);
      SumMore(was, Content(blocks), Slice(was, tmpIn, tmpInSize), input, Slice(was, s, n), s);
    }

    method CompleteBlock(s: nat, n: nat, dst: array<byte>) returns (at: nat)
      requires Open() && Sum(s, 0) && Apart(s, n) && 0 < tmpInSize && tmpInSize + n == maxBlockSize
      requires dst != memory && BlockOverhead(prefs) + maxBlockSize <= dst.Length
      modifies this`tmpIn, this`tmpInSize, this`blocks, memory, stream, stream.table, hc, hc.ctx, hc.ctx.hashTable, hc.ctx.chainTable, dst
      ensures Between() && OutOfTheWay() && tmpInSize == 0 && Sum(s, n)
      ensures Kept(old(memory[..]), memory[..], tmpBuff, tmpBuff + maxBufferSize)
      ensures tmpIn <= tmpBuff + maxBufferSize && (if prefs.info.linked then stream.dictSize > 0 else tmpIn == old(tmpIn))
      ensures old(Own()) ==> Own()
      ensures at <= BlockOverhead(prefs) + maxBlockSize && Body(prefs.info, blocks) == old(Body(prefs.info, blocks)) + dst[..at]
    {
      hide StreamOk, GoodBlocks, Body, Content, IsSuffix, S.Bytes, S.Past, Kept, Slice, Accounts;
      FillUp(s, n);
      at := MakeBlock(tmpIn, maxBlockSize, dst, 0);
      assert dst[0..at] == dst[..at];
      if prefs.info.linked {
        tmpIn := tmpIn + maxBlockSize;
      }
      tmpInSize := 0;
      NonePending(memory[..], Content(blocks), tmpIn, input, Slice(memory[..], s, n));
    }

    /** What the bytes written so far amount to: `start` was written before this call. */
    ghost predicate WrittenSince(start: seq<byte>, dst: array<byte>, at: nat)
      reads this, dst
    {
      at <= dst.Length && Body(prefs.info, blocks) == start + dst[..at]
    }

    /** One block more of the source, of m bytes. */
    method NextBlock(s: nat, n: nat, p: nat, m: nat, dst: array<byte>, at: nat, ghost start: seq<byte>) returns (at': nat)
      requires Between() && OutOfTheWay() && tmpInSize == 0 && p + m <= n && Apart(s + p, n - p) && Sum(s, p) && 0 < m <= maxBlockSize
      requires dst != memory && at + BlockOverhead(prefs) + m <= dst.Length && WrittenSince(start, dst, at)
      modifies this`blocks, stream, stream.table, hc, hc.ctx, hc.ctx.hashTable, hc.ctx.chainTable, dst
      ensures Between() && OutOfTheWay() && Sum(s, p + m)
      ensures prefs.info.linked && !prefs.autoFlush ==> Outside()
      ensures prefs.info.linked ==> stream.dictSize > 0
      ensures at' <= at + BlockOverhead(prefs) + m && WrittenSince(start, dst, at')
    {
      hide StreamOk, GoodBlocks, Body, Content, IsSuffix, S.Bytes, S.Past, Slice, Accounts, Between, Apart;
      BetweenParts();
      ApartPart(s + p, n - p, m);
      SumBlock(memory[..], Content(blocks), tmpIn, input, s, p, m);
      ghost var was := dst[..];
      var size := SourceBlock(s + p, m, dst, at);
      at' := at + size;
      Extended(start, was, dst[..], at, size);
    }

    /** The output has room for k blocks so far, and is never asked for more than
        LZ4F_compressBound_internal. */
    ghost predicate Room(n: nat, buffered: nat, p: nat, at: nat, k: nat, cap: nat)
      reads `prefs, `maxBlockSize
    {
      && ValidPrefs(prefs) && maxBlockSize == BlockSize(prefs.info.blockSizeID)
      && Countable(n, maxBlockSize) && buffered < maxBlockSize && p <= n
      && CompressBoundInternal(n, prefs, buffered) <= cap
      && maxBlockSize * k == buffered + p && at + FrameEnd(prefs) <= Total(prefs, k, maxBlockSize * k)
    }

    lemma RoomForNext(n: nat, buffered: nat, p: nat, at: nat, k: nat, cap: nat)
      requires Room(n, buffered, p, at, k, cap)
      ensures ValidPrefs(prefs) && at + FrameEnd(prefs) <= CompressBoundInternal(n, prefs, buffered)
      ensures p + maxBlockSize <= n ==> at + BlockOverhead(prefs) + maxBlockSize <= cap
    {
      hide CompressBoundInternal, Countable, BlockSize;
      RoomForFull(n, prefs, buffered, k);
      Next(maxBlockSize, k);
      Next(BlockOverhead(prefs), k);
      if p + maxBlockSize <= n {
        RoomForFull(n, prefs, buffered, k + 1);
      }
    }

    lemma RoomAfter(n: nat, buffered: nat, p: nat, at: nat, k: nat, cap: nat, at': nat)
      requires Room(n, buffered, p, at, k, cap) && p + maxBlockSize <= n && at' <= at + BlockOverhead(prefs) + maxBlockSize
      ensures Room(n, buffered, p + maxBlockSize, at', k + 1, cap)
    {
      hide CompressBoundInternal, Countable, BlockSize;
      Next(maxBlockSize, k);
      Next(BlockOverhead(prefs), k);
    }

    lemma RoomForRest(n: nat, buffered: nat, p: nat, at: nat, k: nat, cap: nat)
      requires Room(n, buffered, p, at, k, cap) && prefs.autoFlush && p < n
      ensures at + BlockOverhead(prefs) + (n - p) + FrameEnd(prefs) <= CompressBoundInternal(n, prefs, buffered) <= cap
    {
      hide CompressBoundInternal, Countable, BlockSize;
      RoomForLast(n, prefs, buffered, k);
      Next(BlockOverhead(prefs), k);
    }

    /** Lines 873-893: full blocks out of the source, and the rest when it is flushed. */
    method SourceBlocks(s: nat, n: nat, p0: nat, dst: array<byte>, at0: nat, ghost start: seq<byte>, ghost buffered: nat, ghost k0: nat)
      returns (p: nat, at: nat, last: bool)
      requires Between() && OutOfTheWay() && tmpInSize == 0 && p0 <= n && Apart(s + p0, n - p0) && Sum(s, p0)
      requires dst != memory && WrittenSince(start, dst, at0) && Room(n, buffered, p0, at0, k0, dst.Length)
      modifies this`blocks, stream, stream.table, hc, hc.ctx, hc.ctx.hashTable, hc.ctx.chainTable, dst
      ensures Between() && OutOfTheWay() && p <= n && Sum(s, p) && WrittenSince(start, dst, at)
      ensures n - p < maxBlockSize && (prefs.autoFlush ==> p == n)
      ensures last && prefs.info.linked ==> stream.dictSize > 0 && (!prefs.autoFlush ==> Outside())
      ensures !last ==> stream.dictSize == old(stream.dictSize) && stream.dictionary == old(stream.dictionary)
      ensures at + FrameEnd(prefs) <= CompressBoundInternal(n, prefs, buffered)
    {
      hide GoodBlocks, Body, Content, IsSuffix, S.Bytes, S.Past, Slice, Accounts, Between, Apart, Room, CompressBoundInternal;
      p, at, last := p0, at0, false;
      ghost var k := k0;
      RoomForNext(n, buffered, p, at, k, dst.Length);
      while n - p >= maxBlockSize
        invariant Between() && OutOfTheWay() && p0 <= p <= n && Apart(s + p, n - p) && Sum(s, p)
        invariant WrittenSince(start, dst, at) && ValidPrefs(prefs) && Room(n, buffered, p, at, k, dst.Length)
        invariant last && prefs.info.linked ==> stream.dictSize > 0 && (!prefs.autoFlush ==> Outside())
        invariant !last ==> stream.dictSize == old(stream.dictSize) && stream.dictionary == old(stream.dictionary)
        invariant at + FrameEnd(prefs) <= CompressBoundInternal(n, prefs, buffered)
      {
        last := true;
        RoomForNext(n, buffered, p, at, k, dst.Length);
        BetweenParts();
        ApartLater(s + p, n - p, maxBlockSize);
        ghost var was := at;
        at := NextBlock(s, n, p, maxBlockSize, dst, at, start);
        RoomAfter(n, buffered, p, was, k, dst.Length, at);
        p, k := p + maxBlockSize, k + 1;
        RoomForNext(n, buffered, p, at, k, dst.Length);
      }
      if prefs.autoFlush && p < n {
        last := true;
        RoomForRest(n, buffered, p, at, k, dst.Length);
        at := NextBlock(s, n, p, n - p, dst, at, start);
        p := n;
      }
    }

    lemma ApartLater(q: nat, n: nat, m: nat)
      requires Apart(q, n) && 0 < m <= n
      ensures Apart(q + m, n - m)
    {
    }

    /** LZ4F_localSaveDict. */
    method LocalSaveDict() returns (realDictSize: nat)
      requires Between() && prefs.info.linked && tmpInSize == 0
      modifies memory, stream`dictionary, stream`dictSize
      ensures Between() && realDictSize == stream.dictSize <= KB64 && stream.dictionary == tmpBuff
      ensures old(stream.dictSize) > 0 ==> realDictSize > 0
      ensures Kept(old(memory[..]), memory[..], tmpBuff, tmpBuff + maxBufferSize)
    {
      hide GoodBlocks, Content, IsSuffix, S.Bytes, S.Past, Kept;
      ghost var was, dict := memory[..], stream.Dictionary(memory[..]);
      realDictSize := stream.SaveDict(memory, tmpBuff, KB64);
      SuffixThrough(stream.Dictionary(memory[..]), dict, Content(blocks));
      KeptAround(was, memory[..], tmpBuff, tmpBuff + realDictSize);
      KeptWider(was, memory[..], tmpBuff, tmpBuff + realDictSize, tmpBuff, tmpBuff + maxBufferSize);
    }

    /** Lines 895-912: the history is brought into the internal buffer, unless the
        source stays where it is, and pending input goes behind it. */
    method Preserve(s: nat, p: nat, last: bool, stableSrc: bool) returns (ok: bool)
      requires Between() && OutOfTheWay() && tmpInSize == 0 && Sum(s, p) && Away(s, p)
      requires prefs.info.linked && last ==> !prefs.autoFlush ==> Outside()
      requires Beyond() ==> prefs.info.linked
      requires prefs.info.linked && (last || Beyond()) ==> stream.dictSize > 0
      modifies this`tmpIn, memory, stream`dictionary, stream`dictSize
      ensures ok && Open() && tmpInSize == 0 && Sum(s, p)
      ensures (if last then !stableSrc else old(Own())) ==> Own()
      ensures Kept(old(memory[..]), memory[..], tmpBuff, tmpBuff + maxBufferSize)
    {
      hide StreamOk, GoodBlocks, Content, IsSuffix, S.Bytes, S.Past, Kept, Slice, Accounts;
      ok := true;
      ghost var was := memory[..];
      SumEmpty(was, Content(blocks), tmpIn, input, Slice(was, s, p));
      NoneKept(was, tmpBuff, tmpBuff + maxBufferSize);
      if prefs.info.linked && last {
        if stableSrc {
          tmpIn := tmpBuff;
        } else {
          var realDictSize := LocalSaveDict();
          if realDictSize == 0 {
            ok := false;
            return;
          }
          tmpIn := tmpBuff + realDictSize;
          SliceKept(was, memory[..], tmpBuff, tmpBuff + maxBufferSize, s, p);
        }
      }
      if tmpIn + maxBlockSize > tmpBuff + maxBufferSize && !prefs.autoFlush {
        var realDictSize := LocalSaveDict();
        tmpIn := tmpBuff + realDictSize;
        SliceKept(was, memory[..], tmpBuff, tmpBuff + maxBufferSize, s, p);
      }
      NonePending(memory[..], Content(blocks), tmpIn, input, Slice(memory[..], s, p));
    }

    /** Lines 914-920: what is left of the source becomes pending. */
    method Leftover(s: nat, n: nat, p: nat)
      requires Open() && tmpInSize == 0 && p <= n && Sum(s, p) && Away(s, n) && n - p < maxBlockSize && (prefs.autoFlush ==> p == n)
      modifies this`tmpInSize, memory
      ensures Open() && Sum(s, n) && Kept(old(memory[..]), memory[..], tmpBuff, tmpBuff + maxBufferSize)
    {
      hide StreamOk, GoodBlocks, Content, IsSuffix, S.Bytes, S.Past, Kept, Slice, Accounts;
      ghost var was := memory[..];
      NoneKept(was, tmpBuff, tmpBuff + maxBufferSize);
      if p < n {
        Store(s + p, n - p);
        KeptWider(was, memory[..], tmpIn, tmpIn + (n - p), tmpBuff, tmpBuff + maxBufferSize);
        Behind(was, memory[..], tmpIn, 0, n - p);
        SliceKept(was, memory[..], tmpIn, tmpIn + (n - p), s, n);
        SumRest(was, Content(blocks), tmpIn, input, s, p, n - p);
        NoSlice(was, tmpIn);
        tmpInSize := n - p;
      }
    }

    /** Lines 847-871. */
    method CompleteTmp(s: nat, n: nat, dst: array<byte>) returns (p: nat, at: nat)
      requires Open() && Sum(s, 0) && Apart(s, n) && dst != memory && 0 < tmpInSize
      requires tmpInSize + n >= maxBlockSize ==> BlockOverhead(prefs) + maxBlockSize <= dst.Length
      modifies this`tmpIn, this`tmpInSize, this`blocks, memory, stream, stream.table, hc, hc.ctx, hc.ctx.hashTable, hc.ctx.chainTable, dst
      ensures Between() && OutOfTheWay() && p <= n && Sum(s, p)
      ensures Kept(old(memory[..]), memory[..], tmpBuff, tmpBuff + maxBufferSize)
      ensures WrittenSince(old(Body(prefs.info, blocks)), dst, at)
      ensures if tmpInSize > 0 then Open() && p == n && at == 0
              else && old(tmpInSize) + p == maxBlockSize && 0 < p && at <= BlockOverhead(prefs) + maxBlockSize
                   && tmpIn <= tmpBuff + maxBufferSize && (if prefs.info.linked then stream.dictSize > 0 else tmpIn == old(tmpIn))
      ensures old(Own()) ==> Own()
    {
      hide GoodBlocks, Body, Content, IsSuffix, S.Bytes, S.Past, Kept, Slice, Accounts;
      NothingWritten(Body(prefs.info, blocks), dst[..]);
      var sizeToCopy := maxBlockSize - tmpInSize;
      if sizeToCopy > n {
        Append(s, n);
        p, at := n, 0;
      } else {
        at := CompleteBlock(s, sizeToCopy, dst);
        p := sizeToCopy;
      }
    }

    /** Lines 847-893: pending input and source go into blocks, as far as they fill them. */
    method Blocked(s: nat, n: nat, dst: array<byte>) returns (p: nat, at: nat, last: bool)
      requires Open() && Sum(s, 0) && Apart(s, n) && dst != memory && Countable(n, maxBlockSize)
      requires CompressBoundInternal(n, prefs, tmpInSize) <= dst.Length
      modifies this`tmpIn, this`tmpInSize, this`blocks, memory, stream, stream.table, hc, hc.ctx, hc.ctx.hashTable, hc.ctx.chainTable, dst
      ensures Between() && OutOfTheWay() && p <= n && Sum(s, p)
      ensures Kept(old(memory[..]), memory[..], tmpBuff, tmpBuff + maxBufferSize)
      ensures tmpInSize > 0 ==> Open() && p == n && !last
      ensures !last && old(Own()) ==> Own()
      ensures n - p < maxBlockSize && (prefs.autoFlush ==> p == n)
      ensures prefs.info.linked && last && !prefs.autoFlush ==> Outside()
      ensures Beyond() ==> prefs.info.linked
      ensures prefs.info.linked && (last || Beyond()) ==> stream.dictSize > 0
      ensures WrittenSince(old(Body(prefs.info, blocks)), dst, at)
      ensures at + FrameEnd(prefs) <= CompressBoundInternal(n, prefs, old(tmpInSize))
    {
      hide GoodBlocks, Body, Content, IsSuffix, S.Bytes, S.Past, Kept, Slice, Accounts, CompressBoundInternal, Between, Countable, Sum, WrittenSince;
      ghost var start, buffered, k := Body(prefs.info, blocks), tmpInSize, 0;
      ghost var was := memory[..];
      BetweenParts();
      NoneKept(was, tmpBuff, tmpBuff + maxBufferSize);
      WrittenNothing(dst);
      RoomAtFirst(n, buffered);
      p, at, last := 0, 0, false;
      if tmpInSize > 0 {
        p, at := CompleteTmp(s, n, dst);
        if tmpInSize > 0 { return; }
        k := 1;
        ApartAfter(s, n, p);
      }
      RoomBegins(n, buffered, p, at, k, dst.Length);
      p, at, last := SourceBlocks(s, n, p, dst, at, start, buffered, k);
    }

    /** Line 907: no room for another block behind tmpIn. */
    ghost predicate Beyond()
      reads `prefs, `tmpIn, `tmpBuff, `maxBufferSize, `maxBlockSize
    {
      !prefs.autoFlush && tmpIn + maxBlockSize > tmpBuff + maxBufferSize
    }

    lemma WrittenNothing(dst: array<byte>)
      ensures WrittenSince(Body(prefs.info, blocks), dst, 0)
    {
    }

    lemma ApartAfter(s: nat, n: nat, p: nat)
      requires Away(s, n) && 0 < p <= n && (!prefs.autoFlush ==> 0 < maxBufferSize && tmpIn <= tmpBuff + maxBufferSize)
      ensures Apart(s + p, n - p)
    {
    }

    lemma RoomBegins(n: nat, buffered: nat, p: nat, at: nat, k: nat, cap: nat)
      requires Between() && Countable(n, maxBlockSize) && buffered < maxBlockSize && p <= n
      requires CompressBoundInternal(n, prefs, buffered) <= cap
      requires (k == 0 && p == 0 && buffered == 0 && at == 0)
               || (k == 1 && buffered + p == maxBlockSize && at <= BlockOverhead(prefs) + maxBlockSize)
      ensures Room(n, buffered, p, at, k, cap)
    {
      hide CompressBoundInternal, GoodBlocks, Content, IsSuffix, S.Bytes, S.Past;
    }

    /** LZ4F_compressUpdate. */
    method Update(s: nat, n: nat, dst: array<byte>, stableSrc: bool) returns (ok: bool, size: nat)
      requires cStage == 1 ==> Valid() && Away(s, n)
      requires s + n <= memory.Length < 0x8000_0000_0000 && dst != memory && dst != xxh.mem
      modifies this`tmpIn, this`tmpInSize, this`blocks, this`totalInSize, this`input, memory, stream, stream.table, hc, hc.ctx, hc.ctx.hashTable, hc.ctx.chainTable, xxh, xxh.mem, dst
      ensures ok <==> cStage == 1 && CompressBoundInternal(n, prefs, old(tmpInSize)) <= dst.Length
      ensures ok ==> Valid() && input == old(input + Slice(memory[..], s, n)) && size <= dst.Length
      ensures !ok && cStage == 1 ==>
                && Valid() && input == old(input) && blocks == old(blocks) && tmpInSize == old(tmpInSize)
                && memory[..] == old(memory[..]) && (old(Own()) ==> Own())
      ensures ok && !stableSrc && old(Own()) ==> Own()
      ensures ok ==> WrittenSince(old(Body(prefs.info, blocks)), dst, size)
      ensures ok ==> size + FrameEnd(prefs) <= CompressBoundInternal(n, prefs, old(tmpInSize))
      ensures cStage == 1 ==> Kept(old(memory[..]), memory[..], tmpBuff, tmpBuff + maxBufferSize)
      ensures xxh.mem == old(xxh.mem)
    {
      hide StreamOk, Between, GoodBlocks, Body, Content, IsSuffix, S.Bytes, S.Past, Kept, Slice, Accounts, CompressBoundInternal, Countable;
      ok, size := false, 0;
      ghost var was := memory[..];
      if cStage != 1 {
        AllKept(was, tmpBuff, tmpBuff + maxBufferSize);
        return;
      }
      BetweenParts();
      AllKept(was, tmpBuff, tmpBuff + maxBufferSize);
      if dst.Length < CompressBoundInternal(n, prefs, tmpInSize) {
        return;
      }
      Begins(s, n);
      CountableHere(n);
      var p, last;
      p, size, last := Blocked(s, n, dst);
      ok := Buffered(s, n, p, last, stableSrc, was);
      SliceKept(was, memory[..], tmpBuff, tmpBuff + maxBufferSize, s, n);
      Digest(s, n);
    }

    /** The rest of the update: history and leftover.  When something was just
        added to a pending block, nothing of the source is left and nothing moves. */
    method Buffered(s: nat, n: nat, p: nat, last: bool, stableSrc: bool, ghost was: seq<byte>) returns (ok: bool)
      requires Between() && OutOfTheWay() && p <= n && Sum(s, p) && Away(s, n) && n - p < maxBlockSize && (prefs.autoFlush ==> p == n)
      requires tmpInSize > 0 ==> Open() && p == n && !last
      requires prefs.info.linked && last && !prefs.autoFlush ==> Outside()
      requires Beyond() ==> prefs.info.linked
      requires prefs.info.linked && (last || Beyond()) ==> stream.dictSize > 0
      requires Kept(was, memory[..], tmpBuff, tmpBuff + maxBufferSize)
      modifies this`tmpIn, this`tmpInSize, memory, stream`dictionary, stream`dictSize
      ensures ok && Open() && Sum(s, n) && Kept(was, memory[..], tmpBuff, tmpBuff + maxBufferSize)
      ensures (if last then !stableSrc else old(Own())) ==> Own()
    {
      hide Between, Content, Kept, Slice, Accounts;
      ok := true;
      if tmpInSize == 0 {
        ghost var a := memory[..];
        ok := Preserve(s, p, last, stableSrc);
        KeptTwice(was, a, memory[..], tmpBuff, tmpBuff + maxBufferSize);
        if !ok { return; }
        ghost var b := memory[..];
        Leftover(s, n, p);
        KeptTwice(was, b, memory[..], tmpBuff, tmpBuff + maxBufferSize);
      }
    }

    /** The checksum and the total. */
    method Digest(s: nat, n: nat)
      requires xxh.mem != memory && xxh.mem.Length == 16 && Open() && Sum(s, n)
      requires prefs.info.contentChecksum ==> xxh.Valid() && xxh.seed == 0 && xxh.fed == input
      requires prefs.info.contentSize > 0 ==> totalInSize == |input|
      modifies this`totalInSize, this`input, xxh, xxh.mem
      ensures Valid() && input == old(input) + Slice(memory[..], s, n) && xxh.mem == old(xxh.mem)
    {
      hide Open, Content, Slice, Accounts, X.Holds;
      AccountsAll(Content(blocks), Slice(memory[..], tmpIn, tmpInSize), input, Slice(memory[..], s, n));
      if prefs.info.contentChecksum {
        xxh.Update(Slice(memory[..], s, n));
      }
      totalInSize := totalInSize + n;
      input := input + Slice(memory[..], s, n);
    }

    lemma Begins(s: nat, n: nat)
      requires Valid() && Away(s, n)
      ensures Open() && Sum(s, 0) && Apart(s, n)
    {
    }

    lemma CountableHere(n: nat)
      requires Between() && n < 0x8000_0000_0000
      ensures Countable(n, maxBlockSize)
    {
    }

    lemma RoomAtFirst(n: nat, buffered: nat)
      requires Between() && Countable(n, maxBlockSize) && buffered < maxBlockSize
      ensures FrameEnd(prefs) <= CompressBoundInternal(n, prefs, buffered)
      ensures buffered + n >= maxBlockSize ==> BlockOverhead(prefs) + maxBlockSize + FrameEnd(prefs) <= CompressBoundInternal(n, prefs, buffered)
      ensures Total(prefs, 0, 0) == FrameEnd(prefs) && Total(prefs, 1, maxBlockSize) == BlockOverhead(prefs) + maxBlockSize + FrameEnd(prefs)
    {
      hide CompressBoundInternal;
      RoomForFull(n, prefs, buffered, 0);
      if buffered + n >= maxBlockSize {
        RoomForFull(n, prefs, buffered, 1);
      }
    }

    /** Between calls the caller may write anywhere else, as long as the history is
        in the internal buffer. */
    method CallerWrites(s: nat, data: seq<byte>)
      requires cStage == 1 && Valid() && Own() && Away(s, |data|)
      modifies memory
      ensures Valid() && Own() && Slice(memory[..], s, |data|) == data
    {
      hide StreamOk, GoodBlocks, Content, IsSuffix, S.Bytes, S.Past, Kept, Slice, Accounts, X.Holds;
      ghost var was := memory[..];
      Put(memory, s, data);
      KeptAround(was, memory[..], s, s + |data|);
      SliceIs(memory[..], s, data);
      if tmpInSize > 0 {
        SliceKept(was, memory[..], s, s + |data|, tmpIn, tmpInSize);
      } else {
        NoSlice(was, tmpIn);
        NoSlice(memory[..], tmpIn);
      }
      if prefs.info.linked {
        BytesKept(was, memory[..], s, s + |data|, stream.dictionary, stream.dictSize);
      }
    }

    // -------------------------------------------------------------------
    // LZ4F_flush, LZ4F_compressEnd, LZ4F_compressBegin
    // -------------------------------------------------------------------

    /** The pending block goes out, however short. */
    method FlushBlock(dst: array<byte>) returns (size: nat)
      requires Open() && Accounts(Content(blocks), Slice(memory[..], tmpIn, tmpInSize), input, [])
      requires 0 < tmpInSize && dst != memory && BlockOverhead(prefs) + tmpInSize <= dst.Length
      modifies this`tmpIn, this`tmpInSize, this`blocks, memory, stream, stream.table, hc, hc.ctx, hc.ctx.hashTable, hc.ctx.chainTable, dst
      ensures Open() && tmpInSize == 0
      ensures Accounts(Content(blocks), Slice(memory[..], tmpIn, tmpInSize), input, [])
      ensures Kept(old(memory[..]), memory[..], tmpBuff, tmpBuff + maxBufferSize)
      ensures size <= BlockOverhead(prefs) + old(tmpInSize) && WrittenSince(old(Body(prefs.info, blocks)), dst, size)
      ensures old(Own()) ==> Own()
    {
      hide StreamOk, GoodBlocks, Body, Content, IsSuffix, S.Bytes, S.Past, Kept, Slice, Accounts;
      ghost var was := memory[..];
      NoneKept(was, tmpBuff, tmpBuff + maxBufferSize);
      AccountsIs(Content(blocks), Slice(was, tmpIn, tmpInSize), input);
      size := MakeBlock(tmpIn, tmpInSize, dst, 0);
      assert dst[0..size] == dst[..size];
      if prefs.info.linked {
        tmpIn := tmpIn + tmpInSize;
      }
      tmpInSize := 0;
      WithinLimits();
    }

    /** Keep tmpIn within limits. */
    method WithinLimits()
      requires Between() && OutOfTheWay() && tmpInSize == 0 && !prefs.autoFlush && Content(blocks) == input
      requires tmpIn + maxBlockSize > tmpBuff + maxBufferSize ==> prefs.info.linked
      modifies `tmpIn, memory, stream`dictionary, stream`dictSize
      ensures Open() && tmpInSize == 0 && Accounts(Content(blocks), Slice(memory[..], tmpIn, tmpInSize), input, [])
      ensures Kept(old(memory[..]), memory[..], tmpBuff, tmpBuff + maxBufferSize)
      ensures old(Own()) ==> Own()
    {
      hide StreamOk, GoodBlocks, Content, IsSuffix, S.Bytes, S.Past, Kept, Slice, Accounts;
      NoneKept(memory[..], tmpBuff, tmpBuff + maxBufferSize);
      if tmpIn + maxBlockSize > tmpBuff + maxBufferSize {
        var realDictSize := LocalSaveDict();
        tmpIn := tmpBuff + realDictSize;
      }
      NonePending(memory[..], Content(blocks), tmpIn, input, []);
    }

    /** LZ4F_flush. */
    method Flush(dst: array<byte>) returns (ok: bool, size: nat)
      requires cStage == 1 ==> Valid()
      requires dst != memory && dst != xxh.mem
      modifies this`tmpIn, this`tmpInSize, this`blocks, memory, stream, stream.table, hc, hc.ctx, hc.ctx.hashTable, hc.ctx.chainTable, dst
      ensures ok <==> old(tmpInSize) == 0 || (cStage == 1 && old(tmpInSize) + BH_SIZE + BF_SIZE <= dst.Length)
      ensures cStage == 1 ==> Valid() && Kept(old(memory[..]), memory[..], tmpBuff, tmpBuff + maxBufferSize)
      ensures cStage == 1 && ok ==> tmpInSize == 0 && size <= (if old(tmpInSize) > 0 then BlockOverhead(prefs) + old(tmpInSize) else 0)
      ensures cStage == 1 && ok ==> WrittenSince(old(Body(prefs.info, blocks)), dst, size)
      ensures !ok ==> blocks == old(blocks) && tmpInSize == old(tmpInSize) && memory[..] == old(memory[..])
      ensures cStage == 1 && old(Own()) ==> Own()
    {
      hide Open, Content, Body, Slice, Accounts, Kept, X.Holds;
      ok, size := true, 0;
      AllKept(memory[..], tmpBuff, tmpBuff + maxBufferSize);
      if cStage == 1 { OpenParts(); }
      WrittenNothing(dst);
      if tmpInSize == 0 { return; }
      if cStage != 1 || dst.Length < tmpInSize + BH_SIZE + BF_SIZE {
        ok := false;
        return;
      }
      size := FlushBlock(dst);
    }

    /** The context between frames. */
    ghost predicate Idle()
      reads this, memory, stream, stream.table, hc, hc.ctx, hc.ctx.hashTable, hc.ctx.chainTable, xxh
    {
      StateOk() && xxh.mem != memory && xxh.mem.Length == 16 && tmpBuff + maxBufferSize <= memory.Length
    }

    /** The capacity that LZ4F_compressEnd asks for, in bytes. */
    function EndSize(): nat
      reads `prefs, `tmpInSize
    {
      (if tmpInSize > 0 then tmpInSize + BH_SIZE + BF_SIZE * Bit(prefs.info.blockChecksum) else 0) + FrameEnd(prefs)
    }

    /** LZ4F_compressEnd.  With the header in front, what was written is a frame
        whose content is the input. */
    method End(dst: array<byte>) returns (ok: bool, size: nat)
      requires Valid() && cStage == 1 && dst != memory && dst != xxh.mem
      modifies this`tmpIn, this`tmpInSize, this`blocks, this`cStage, this`maxBufferSize, memory, stream, stream.table, hc, hc.ctx, hc.ctx.hashTable, hc.ctx.chainTable, dst
      ensures Idle()
      ensures cStage == 1 ==> !ok && Valid()
      ensures ok ==> size <= dst.Length && size <= old(EndSize()) && GoodFrame(prefs.info, blocks) && Content(blocks) == input
      ensures ok ==> Body(prefs.info, blocks) + Footer(prefs.info, input) == old(Body(prefs.info, blocks)) + dst[..size]
      ensures && old(EndSize()) <= dst.Length
              && (old(tmpInSize) > 0 ==> old(tmpInSize) + BH_SIZE + BF_SIZE <= dst.Length)
              && (prefs.info.contentSize > 0 ==> prefs.info.contentSize == |input|)
              ==> ok
    {
      hide Open, Own, StateOk, Content, Body, Slice, Accounts, Kept, X.Holds, IsSuffix, S.Bytes, S.Past, GoodBlocks, Footer, LE32, Crc;
      ok, size := Flush(dst);
      OpenParts();
      if !ok { return; }
      ghost var start, flushed, n := old(Body(prefs.info, blocks)), dst[..], size;
      AccountsIs(Content(blocks), Slice(memory[..], tmpIn, tmpInSize), input);
      NoSlice(memory[..], tmpIn);
      assert Content(blocks) == input;
      size, ok := Finish(dst, size);
      if !ok { return; }
      Footing(start, flushed, dst[..], Body(prefs.info, blocks), Footer(prefs.info, input), n, size);
      cStage := 0;
      maxBufferSize := 0;
      if prefs.info.contentSize > 0 && prefs.info.contentSize != totalInSize {
        ok := false;
      }
    }

    /** The end mark and the content checksum. */
    method Finish(dst: array<byte>, at: nat) returns (size: nat, ok: bool)
      requires at <= dst.Length && (prefs.info.contentChecksum ==> xxh.Valid() && xxh.seed == 0 && xxh.fed == input) && dst != xxh.mem
      modifies dst
      ensures ok <==> at + FrameEnd(prefs) <= dst.Length
      ensures ok ==> size == at + FrameEnd(prefs) && dst[at..size] == Footer(prefs.info, input) && dst[..at] == old(dst[..at])
    {
      hide LE32, X.Hash, X.Holds;
      size, ok := at, false;
      if dst.Length - at < 4 { return; }
      var n := PutBehind(dst, at, 0, LE32(0));
      assert dst[at..at + n] == LE32(0);
      if prefs.info.contentChecksum {
        var h := xxh.Digest();
        if dst.Length - at < 8 { return; }
        n := PutBehind(dst, at, n, LE32(Number(h)));
        CrcIs(input);
      }
      size, ok := at + n, true;
    }

    lemma CrcIs(s: seq<byte>)
      ensures Crc(s) == Number(X.Hash(0, s))
    {
    }

    /** LZ4F_compressBegin.  alloc is the address that the allocator returns when
        the internal buffer must grow. */
    method Begin(p: Prefs, alloc: nat, dst: array<byte>) returns (ok: bool, size: nat)
      requires Idle() && ValidPrefs(p) && (p.info.linked ==> p.level < CLEVEL_HC_MIN)
      requires maxBufferSize < RequiredBuffSize(p) ==> alloc + RequiredBuffSize(p) <= memory.Length
      requires dst != memory && dst != xxh.mem
      modifies this, stream, stream.table, hc, hc.ctx, hc.ctx.hashTable, hc.ctx.chainTable, xxh, dst
      ensures ok <==> MAX_FH_SIZE <= dst.Length
      ensures xxh == old(xxh) && xxh.mem == old(xxh.mem)
      ensures ok ==> Valid() && Own() && cStage == 1 && input == [] && blocks == [] && tmpInSize == 0
      ensures ok ==> prefs == Defaulted(p) && size <= MAX_FH_SIZE && dst[..size] == Header(prefs.info)
      ensures ok ==> (tmpBuff == old(tmpBuff) && maxBufferSize == old(maxBufferSize)) || (tmpBuff == alloc && maxBufferSize == RequiredBuffSize(p))
    {
      hide Valid, Own, Open, Accounts, Slice, StreamOk, StateOk, S.Past, X.Holds, Header, Content, Defaulted, RequiredBuffSize;
      ok, size := false, 0;
      if dst.Length < MAX_FH_SIZE { return; }
      Prepare(p, alloc);
      xxh.Reset(0);
      size := WriteHeader(prefs.info, dst);
      if prefs.info.contentSize > 0 {
        totalInSize := 0;
      }
      cStage, ok := 1, true;
      ValidAtFirst();
    }

    lemma ValidAtFirst()
      requires Open() && Accounts(Content(blocks), Slice(memory[..], tmpIn, tmpInSize), input, []) && input == []
      requires xxh.mem != memory && xxh.Valid() && xxh.seed == 0 && xxh.fed == [] && (prefs.info.contentSize > 0 ==> totalInSize == 0)
      ensures Valid()
    {
      hide Open, Accounts, Slice, X.Holds, Content;
    }

    method Prepare(p: Prefs, alloc: nat)
      requires StateOk() && tmpBuff + maxBufferSize <= memory.Length && ValidPrefs(p) && (p.info.linked ==> p.level < CLEVEL_HC_MIN)
      requires maxBufferSize < RequiredBuffSize(p) ==> alloc + RequiredBuffSize(p) <= memory.Length
      modifies `lz4CtxState, `prefs, `maxBlockSize, `tmpBuff, `maxBufferSize, `tmpIn, `tmpInSize, `blocks, `input
      modifies stream, stream.table, hc, hc.ctx, hc.ctx.hashTable, hc.ctx.chainTable
      ensures Open() && Accounts(Content(blocks), Slice(memory[..], tmpIn, tmpInSize), input, [])
      ensures prefs == Defaulted(p) && ValidInfo(prefs.info)
      ensures input == [] && blocks == [] && tmpInSize == 0 && Own()
      ensures (tmpBuff == old(tmpBuff) && maxBufferSize == old(maxBufferSize)) || (tmpBuff == alloc && maxBufferSize == RequiredBuffSize(p))
    {
      hide Accounts, Slice, Content, StateOk, Open, Defaulted, RequiredBuffSize;
      SelectState(p.level);
      Favor(p);
      InitBuffers(p, alloc);
    }

    /** Line 665, where nothing in between looks at it. */
    method Favor(p: Prefs)
      requires StateOk()
      modifies hc
      ensures StateOk()
    {
      hide S.Past;
      if p.level >= CLEVEL_HC_MIN {
        hc.favorDecSpeed := p.favorDecSpeed;
      }
    }

    /** Lines 613-637: a state of the other type is initialised, one of the same
        type is used again. */
    method SelectState(level: int)
      requires StateOk()
      modifies `lz4CtxState, stream, stream.table, hc, hc.ctx, hc.ctx.hashTable, hc.ctx.chainTable
      ensures StateOk()
    {
      hide S.Past;
      var ctxTypeID := if level < CLEVEL_HC_MIN then 1 else 2;
      if lz4CtxState != ctxTypeID {
        if level < CLEVEL_HC_MIN {
          stream.Reset();
        } else {
          hc.Init();
        }
        lz4CtxState := ctxTypeID;
      }
    }

    /** Lines 640-667: preferences, buffer and stream. */
    method InitBuffers(p: Prefs, alloc: nat)
      requires StateOk() && tmpBuff + maxBufferSize <= memory.Length && ValidPrefs(p) && (p.info.linked ==> p.level < CLEVEL_HC_MIN)
      requires maxBufferSize < RequiredBuffSize(p) ==> alloc + RequiredBuffSize(p) <= memory.Length
      modifies `prefs, `maxBlockSize, `tmpBuff, `maxBufferSize, `tmpIn, `tmpInSize, `blocks, `input, stream, stream.table
      ensures Open() && Accounts(Content(blocks), Slice(memory[..], tmpIn, tmpInSize), input, [])
      ensures prefs == Defaulted(p) && ValidInfo(prefs.info)
      ensures input == [] && blocks == [] && tmpInSize == 0 && Own()
      ensures (tmpBuff == old(tmpBuff) && maxBufferSize == old(maxBufferSize)) || (tmpBuff == alloc && maxBufferSize == RequiredBuffSize(p))
    {
      hide StateOk, StreamOk, Open, Own, Accounts, Slice, Content, Defaulted, RequiredBuffSize, BlockSize;
      SetBuffers(p, alloc);
      Forget();
      Fresh(memory[..], tmpIn, stream.dictionary, stream.dictSize);
      OpensEmpty(p);
    }

    method SetBuffers(p: Prefs, alloc: nat)
      requires tmpBuff + maxBufferSize <= memory.Length && ValidPrefs(p)
      requires maxBufferSize < RequiredBuffSize(p) ==> alloc + RequiredBuffSize(p) <= memory.Length
      modifies `prefs, `maxBlockSize, `tmpBuff, `maxBufferSize, `tmpIn, `tmpInSize, `blocks, `input
      ensures prefs == Defaulted(p) && 4 <= prefs.info.blockSizeID <= 7 && maxBlockSize == BlockSize(prefs.info.blockSizeID)
      ensures RequiredBuffSize(p) <= maxBufferSize && tmpBuff + maxBufferSize <= memory.Length
      ensures tmpIn == tmpBuff && tmpInSize == 0 && blocks == [] && input == [] && prefs.info.linked == p.info.linked
      ensures (tmpBuff == old(tmpBuff) && maxBufferSize == old(maxBufferSize)) || (tmpBuff == alloc && maxBufferSize == RequiredBuffSize(p))
    {
      hide RequiredBuffSize, BlockSize;
      DefaultedId(p);
      prefs := Defaulted(p);
      maxBlockSize := BlockSize(prefs.info.blockSizeID);
      if maxBufferSize < RequiredBuffSize(p) {
        tmpBuff, maxBufferSize := alloc, RequiredBuffSize(p);
      }
      tmpIn, tmpInSize := tmpBuff, 0;
      blocks, input := [], [];
    }

    lemma OpensEmpty(p: Prefs)
      requires StreamOk() && ValidPrefs(p) && prefs == Defaulted(p) && (p.info.linked ==> p.level < CLEVEL_HC_MIN)
      requires 4 <= prefs.info.blockSizeID <= 7 && maxBlockSize == BlockSize(prefs.info.blockSizeID) && RequiredBuffSize(p) <= maxBufferSize
      requires tmpBuff + maxBufferSize <= memory.Length && tmpIn == tmpBuff && tmpInSize == 0 && blocks == []
      requires prefs.info.linked ==> stream.dictSize == 0 && stream.dictionary == S.NULL
      ensures Open() && Own() && ValidInfo(prefs.info)
    {
      hide StreamOk, IsSuffix, S.Bytes, Content;
      Fresh(memory[..], tmpIn, stream.dictionary, stream.dictSize);
    }

    /** LZ4F_initStream, at the beginning of a frame. */
    method Forget()
      requires StateOk()
      modifies stream, stream.table
      ensures StreamOk() && (prefs.info.linked ==> stream.dictSize == 0 && stream.dictionary == S.NULL)
    {
      hide S.Past;
      if prefs.info.linked {
        stream.ResetFast();
      }
    }

    lemma OpenParts()
      requires Open()
      ensures tmpBuff + maxBufferSize <= memory.Length && ValidInfo(prefs.info) && GoodBlocks(prefs.info, [], blocks) && StreamOk()
      ensures tmpIn + tmpInSize <= memory.Length
    {
    }

    lemma BetweenParts()
      requires Between()
      ensures tmpIn + tmpInSize <= memory.Length && tmpInSize < maxBlockSize && ValidPrefs(prefs)
      ensures tmpBuff + maxBufferSize <= memory.Length
    {
    }

    lemma ApartPart(q: nat, n: nat, m: nat)
      requires Apart(q, n) && m <= n
      ensures Apart(q, m) && q + n <= memory.Length
    {
    }
  }

  lemma Extended(start: seq<byte>, a: seq<byte>, b: seq<byte>, at: nat, size: nat)
    requires at + size <= |b| && at <= |a| && a[..at] == b[..at]
    ensures (start + a[..at]) + b[at..at + size] == start + b[..at + size]
  {
    assert b[..at + size] == b[..at] + b[at..at + size];
  }

  lemma AllKept(mem: seq<byte>, lo: nat, hi: nat)
    requires lo <= hi
    ensures hi <= |mem| ==> Kept(mem, mem, lo, hi)
  {
  }

  lemma KeptTwice(a: seq<byte>, b: seq<byte>, c: seq<byte>, lo: nat, hi: nat)
    requires Kept(a, b, lo, hi) && Kept(b, c, lo, hi)
    ensures Kept(a, c, lo, hi)
  {
  }

  lemma AccountsAll(content: seq<byte>, pending: seq<byte>, input: seq<byte>, more: seq<byte>)
    requires Accounts(content, pending, input, more)
    ensures Accounts(content, pending, input + more, [])
  {
  }

  lemma Footing(start: seq<byte>, a: seq<byte>, b: seq<byte>, body: seq<byte>, footer: seq<byte>, n: nat, size: nat)
    requires n <= |a| && n <= size <= |b| && body == start + a[..n] && b[..n] == a[..n] && b[n..size] == footer
    ensures body + footer == start + b[..size]
  {
    assert b[..size] == b[..n] + b[n..size];
  }

  lemma DefaultedId(p: Prefs)
    requires ValidPrefs(p)
    ensures 4 <= Defaulted(p).info.blockSizeID <= 7
  {
  }

  lemma Fresh(mem: seq<byte>, tmpIn: nat, dictionary: int, dictSize: nat)
    requires tmpIn <= |mem|
    ensures Content([]) == [] && Accounts([], Slice(mem, tmpIn, 0), [], [])
    ensures dictSize == 0 ==> IsSuffix(S.Bytes(mem, dictionary, dictSize), [])
  {
  }

  lemma AccountsIs(content: seq<byte>, pending: seq<byte>, input: seq<byte>)
    requires Accounts(content, pending, input, [])
    ensures content + pending == input && input + [] == input
  {
  }

  lemma NothingWritten(start: seq<byte>, a: seq<byte>)
    ensures start + a[..0] == start
  {
  }

  lemma SumEmpty(mem: seq<byte>, content: seq<byte>, tmpIn: nat, input: seq<byte>, more: seq<byte>)
    requires tmpIn <= |mem| && Accounts(content, Slice(mem, tmpIn, 0), input, more)
    ensures content == input + more
  {
  }

  lemma NoSlice(mem: seq<byte>, at: nat)
    requires at <= |mem|
    ensures forall s: seq<byte> :: Slice(mem, at, 0) + s == s
  {
  }

  lemma NoneKept(mem: seq<byte>, lo: nat, hi: nat)
    requires lo <= hi <= |mem|
    ensures Kept(mem, mem, lo, hi)
  {
  }

  lemma SumRest(mem: seq<byte>, content: seq<byte>, tmpIn: nat, input: seq<byte>, s: nat, p: nat, m: nat)
    requires tmpIn <= |mem| && s + p + m <= |mem| && Accounts(content, Slice(mem, tmpIn, 0), input, Slice(mem, s, p))
    ensures Accounts(content, Slice(mem, s + p, m), input, Slice(mem, s, p + m))
  {
    SumBlock(mem, content, tmpIn, input, s, p, m);
    assert content + mem[s + p..s + p + m] + [] == content + mem[s + p..s + p + m];
  }

  lemma SumBlock(mem: seq<byte>, content: seq<byte>, tmpIn: nat, input: seq<byte>, s: nat, p: nat, m: nat)
    requires tmpIn <= |mem| && s + p + m <= |mem| && Accounts(content, Slice(mem, tmpIn, 0), input, Slice(mem, s, p))
    ensures Accounts(content + Slice(mem, s + p, m), Slice(mem, tmpIn, 0), input, Slice(mem, s, p + m))
  {
    assert mem[s..s + p + m] == mem[s..s + p] + mem[s + p..s + p + m];
    assert content == content + mem[tmpIn..tmpIn + 0];
    assert input + (mem[s..s + p] + mem[s + p..s + p + m]) == (input + mem[s..s + p]) + mem[s + p..s + p + m];
  }

  lemma KeptWider(a: seq<byte>, b: seq<byte>, lo: nat, hi: nat, lo': nat, hi': nat)
    requires Kept(a, b, lo, hi) && lo' <= lo && hi <= hi' <= |a|
    ensures Kept(a, b, lo', hi')
  {
    assert a[..lo'] == a[..lo][..lo'] && b[..lo'] == b[..lo][..lo'];
    assert a[hi'..] == a[hi..][hi' - hi..] && b[hi'..] == b[hi..][hi' - hi..];
  }

  lemma SumMore(mem: seq<byte>, content: seq<byte>, pending: seq<byte>, input: seq<byte>, more: seq<byte>, s: nat)
    requires s <= |mem| && Accounts(content, pending, input, Slice(mem, s, 0))
    ensures Accounts(content, pending + more, input, more) && content + (pending + more) == input + more
  {
    assert content + (pending + more) == (content + pending) + more;
    assert input + [] == input;
  }

  lemma NonePending(mem: seq<byte>, content: seq<byte>, at: nat, input: seq<byte>, more: seq<byte>)
    requires at <= |mem| && content == input + more
    ensures Accounts(content, Slice(mem, at, 0), input, more)
  {
  }

  /** Memory outside [lo, hi) is unchanged. */
  predicate Kept(a: seq<byte>, b: seq<byte>, lo: nat, hi: nat) {
    lo <= hi <= |a| == |b| && a[..lo] == b[..lo] && a[hi..] == b[hi..]
  }

  lemma Moved(a: seq<byte>, b: seq<byte>, from: nat, to: nat, n: nat)
    requires from + n <= |a| && to + n <= |b| && b[to..to + n] == a[from..from + n]
    ensures Slice(b, to, n) == Slice(a, from, n)
  {
  }

  lemma SliceIs(a: seq<byte>, s: nat, data: seq<byte>)
    requires s + |data| <= |a| && a[s..s + |data|] == data
    ensures Slice(a, s, |data|) == data
  {
  }

  lemma KeptAround(a: seq<byte>, b: seq<byte>, lo: nat, hi: nat)
    requires lo <= hi <= |a| == |b| && a[..lo] == b[..lo] && a[hi..] == b[hi..]
    ensures Kept(a, b, lo, hi)
  {
  }

  lemma BytesKept(a: seq<byte>, b: seq<byte>, lo: nat, hi: nat, start: int, size: nat)
    requires Kept(a, b, lo, hi) && (size == 0 || start + size <= lo || hi <= start)
    ensures S.Bytes(a, start, size) == S.Bytes(b, start, size)
  {
    if 0 <= start && start + size <= |a| && size > 0 {
      SliceKept(a, b, lo, hi, start, size);
    }
  }

  lemma SliceKept(a: seq<byte>, b: seq<byte>, lo: nat, hi: nat, s: nat, n: nat)
    requires Kept(a, b, lo, hi) && s + n <= |a| && (s + n <= lo || hi <= s)
    ensures |a| == |b| && Slice(a, s, n) == Slice(b, s, n)
  {
    if s + n <= lo {
      assert a[s..s + n] == a[..lo][s..s + n] == b[..lo][s..s + n] == b[s..s + n];
    } else {
      DropSlice(a, hi, s - hi, n);
      DropSlice(b, hi, s - hi, n);
    }
  }

  lemma DropSlice(a: seq<byte>, hi: nat, t: nat, n: nat)
    requires hi + t + n <= |a|
    ensures a[hi + t..hi + t + n] == a[hi..][t..t + n]
  {
  }

  lemma Behind(a: seq<byte>, b: seq<byte>, start: nat, m: nat, n: nat)
    requires Kept(a, b, start + m, start + m + n)
    ensures |a| == |b| && Slice(b, start, m + n) == Slice(a, start, m) + Slice(b, start + m, n)
  {
    assert a[start..start + m] == a[..start + m][start..] == b[..start + m][start..] == b[start..start + m];
  }

  lemma BlockLimitSmall(f: Info)
    ensures KB64 <= BlockLimit(f) <= 0x40_0000 < MAX_INPUT_SIZE < UNCOMPRESSED_FLAG
  {
  }

  lemma MadePiece(piece: seq<byte>, out: seq<byte>, cSize: nat)
    ensures MadeFrom(piece, out, cSize).piece == piece
  {
  }

  lemma SuffixSize(a: seq<byte>, mem: seq<byte>, start: int, size: nat)
    requires IsSuffix(a, S.Bytes(mem, start, size))
    ensures |a| <= size
  {
  }
}
