/** Whole frames: written by any schedule of updates and flushes, and read back
    by any schedule of input and output sizes. */
module FrameRun {
  import opened Format
  import opened Common
  import opened Emit
  import opened FrameFormat
  import opened FrameBounds
  import opened FrameProgress
  import E = FrameEncoder
  import D = FrameDecoder
  import X = XxHash32

  // ---------------------------------------------------------------------
  // Writing
  // ---------------------------------------------------------------------

  /** A call between LZ4F_compressBegin and LZ4F_compressEnd.  The caller puts the
      input at `at` in its own memory, over whatever it held, and offers more
      output than is asked for by `spare`. */
  datatype Call = Update(piece: seq<byte>, at: nat, spare: nat) | Flush(spare: nat)

  function Piece(call: Call): seq<byte> {
    if call.Update? then call.piece else []
  }

  function Inputs(calls: seq<Call>): seq<byte> {
    if calls == [] then [] else Inputs(calls[..|calls| - 1]) + Piece(calls[|calls| - 1])
  }

  lemma MoreInput(calls: seq<Call>, i: nat)
    requires i < |calls|
    ensures Inputs(calls[..i + 1]) == Inputs(calls[..i]) + Piece(calls[i])
  {
    assert calls[..i + 1][..i] == calls[..i];
  }

  predicate Fits(call: Call, space: nat) {
    call.Update? ==> call.at + |call.piece| <= space
  }

  /** One call, with the input that it brings. */
  method Do(c: E.Context, call: Call, user: nat, bytes: seq<byte>) returns (bytes': seq<byte>)
    requires c.cStage == 1 && c.Valid() && c.Own() && c.tmpBuff + c.maxBufferSize <= user <= c.memory.Length < 0x8000_0000_0000
    requires Fits(call, c.memory.Length - user) && bytes == Header(c.prefs.info) + Body(c.prefs.info, c.blocks)
    modifies c`tmpIn, c`tmpInSize, c`blocks, c`totalInSize, c`input, c.memory, c.stream, c.stream.table, c.hc, c.hc.ctx, c.hc.ctx.hashTable, c.hc.ctx.chainTable, c.xxh, c.xxh.mem
    ensures c.cStage == 1 && c.Valid() && c.Own() && c.tmpInSize < c.maxBlockSize
    ensures c.input == old(c.input) + Piece(call) && bytes' == Header(c.prefs.info) + Body(c.prefs.info, c.blocks)
    ensures c.xxh.mem == old(c.xxh.mem)
  {
    hide Header, Body, E.Context.Valid, E.Context.Own;
    match call
    case Update(piece, at, spare) => bytes' := DoUpdate(c, piece, user + at, spare, bytes);
    case Flush(spare) => bytes' := DoFlush(c, spare, bytes);
  }

  method DoUpdate(c: E.Context, piece: seq<byte>, at: nat, spare: nat, bytes: seq<byte>) returns (bytes': seq<byte>)
    requires c.cStage == 1 && c.Valid() && c.Own() && c.tmpBuff + c.maxBufferSize <= at && at + |piece| <= c.memory.Length < 0x8000_0000_0000
    requires bytes == Header(c.prefs.info) + Body(c.prefs.info, c.blocks)
    modifies c`tmpIn, c`tmpInSize, c`blocks, c`totalInSize, c`input, c.memory, c.stream, c.stream.table, c.hc, c.hc.ctx, c.hc.ctx.hashTable, c.hc.ctx.chainTable, c.xxh, c.xxh.mem
    ensures c.cStage == 1 && c.Valid() && c.Own() && c.tmpInSize < c.maxBlockSize
    ensures c.input == old(c.input) + piece && bytes' == Header(c.prefs.info) + Body(c.prefs.info, c.blocks)
    ensures c.xxh.mem == old(c.xxh.mem)
  {
    hide Header, Body, GoodBlocks, Content, E.Accounts, E.Slice, X.Holds, E.Kept, CompressBoundInternal, E.Context.StreamOk, E.Context.Own;
    c.CallerWrites(at, piece);
    var dst := new byte[CompressBoundInternal(|piece|, c.prefs, c.tmpInSize) + spare](_ => 0);
    var ok, size := c.Update(at, |piece|, dst, false);
    bytes' := bytes + dst[..size];
  }

  method DoFlush(c: E.Context, spare: nat, bytes: seq<byte>) returns (bytes': seq<byte>)
    requires c.cStage == 1 && c.Valid() && c.Own() && bytes == Header(c.prefs.info) + Body(c.prefs.info, c.blocks)
    modifies c`tmpIn, c`tmpInSize, c`blocks, c.memory, c.stream, c.stream.table, c.hc, c.hc.ctx, c.hc.ctx.hashTable, c.hc.ctx.chainTable
    ensures c.cStage == 1 && c.Valid() && c.Own() && c.tmpInSize < c.maxBlockSize
    ensures bytes' == Header(c.prefs.info) + Body(c.prefs.info, c.blocks)
  {
    hide Header, Body, GoodBlocks, Content, E.Accounts, E.Slice, X.Holds, E.Kept, E.Context.StreamOk, E.Context.Own;
    var dst := new byte[c.tmpInSize + BH_SIZE + BF_SIZE + spare](_ => 0);
    var ok, size := c.Flush(dst);
    bytes' := bytes + dst[..size];
  }

  method Open(p: Prefs, memory: array<byte>, hash: seq<byte> -> nat) returns (c: E.Context, bytes: seq<byte>)
    requires ValidPrefs(p) && (p.info.linked ==> p.level < E.CLEVEL_HC_MIN) && E.RequiredBuffSize(p) <= memory.Length
    ensures c.memory == memory && c.cStage == 1 && c.Valid() && c.Own() && c.prefs == E.Defaulted(p) && ValidInfo(c.prefs.info)
    ensures fresh(c.hc) && fresh(c.hc.ctx) && fresh(c.hc.ctx.hashTable) && fresh(c.hc.ctx.chainTable)
    ensures fresh(c) && fresh(c.stream) && fresh(c.stream.table) && fresh(c.xxh) && fresh(c.xxh.mem)
    ensures c.tmpBuff == 0 && c.maxBufferSize <= E.RequiredBuffSize(p) && c.input == []
    ensures bytes == Header(c.prefs.info) + Body(c.prefs.info, c.blocks)
  {
    hide Header, Footer, GoodBlocks, Content, E.Accounts, E.Slice, X.Holds, E.Context.StreamOk, E.Context.Open;
    c := new E.Context(memory, hash);
    var dst := new byte[MAX_FH_SIZE](_ => 0);
    var ok, size := c.Begin(p, 0, dst);
    bytes := dst[..size];
  }

  method Close(c: E.Context, bytes: seq<byte>) returns (bytes': seq<byte>)
    requires c.cStage == 1 && c.Valid() && bytes == Header(c.prefs.info) + Body(c.prefs.info, c.blocks)
    requires c.prefs.info.contentSize > 0 ==> c.prefs.info.contentSize == |c.input|
    modifies c`tmpIn, c`tmpInSize, c`blocks, c`cStage, c`maxBufferSize, c.memory, c.stream, c.stream.table, c.hc, c.hc.ctx, c.hc.ctx.hashTable, c.hc.ctx.chainTable
    ensures GoodFrame(c.prefs.info, c.blocks) && bytes' == FrameBytes(c.prefs.info, c.blocks) && Content(c.blocks) == c.input
  {
    hide Header, Body, Footer, GoodBlocks, Content, E.Accounts, E.Slice, X.Holds, E.Context.Open;
    ghost var f, body := c.prefs.info, Body(c.prefs.info, c.blocks);
    var dst := new byte[c.EndSize() + BF_SIZE](_ => 0);
    var ok, size := c.End(dst);
    bytes' := bytes + dst[..size];
    assert (Header(f) + body) + dst[..size] == Header(f) + (body + dst[..size]);
  }

  method DoAll(c: E.Context, calls: seq<Call>, user: nat, bytes: seq<byte>) returns (bytes': seq<byte>)
    requires c.cStage == 1 && c.Valid() && c.Own() && c.tmpBuff + c.maxBufferSize <= user <= c.memory.Length < 0x8000_0000_0000
    requires forall i :: 0 <= i < |calls| ==> Fits(calls[i], c.memory.Length - user)
    requires ValidInfo(c.prefs.info) && c.input == [] && bytes == Header(c.prefs.info) + Body(c.prefs.info, c.blocks)
    modifies c`tmpIn, c`tmpInSize, c`blocks, c`totalInSize, c`input, c.memory, c.stream, c.stream.table, c.hc, c.hc.ctx, c.hc.ctx.hashTable, c.hc.ctx.chainTable, c.xxh, c.xxh.mem
    ensures c.cStage == 1 && c.Valid() && c.Own()
    ensures c.input == Inputs(calls) && bytes' == Header(c.prefs.info) + Body(c.prefs.info, c.blocks)
    ensures c.xxh.mem == old(c.xxh.mem)
  {
    hide Header, Body, E.Context.Valid, E.Context.Own, Fits;
    bytes' := bytes;
    for i := 0 to |calls|
      invariant c.cStage == 1 && c.Valid() && c.Own() && c.xxh.mem == old(c.xxh.mem)
      invariant c.input == Inputs(calls[..i]) && bytes' == Header(c.prefs.info) + Body(c.prefs.info, c.blocks)
    {
      MoreInput(calls, i);
      bytes' := Do(c, calls[i], user, bytes');
    }
    assert calls[..|calls|] == calls;
  }

  /** Some good blocks with that content make up the frame. */
  ghost predicate IsFrameOf(bytes: seq<byte>, f: Info, content: seq<byte>) {
    exists bs :: GoodFrame(f, bs) && bytes == FrameBytes(f, bs) && Content(bs) == content
  }

  /** LZ4F_compressBegin, the calls, and LZ4F_compressEnd: a frame that holds all
      of the input, whatever the calls were. */
  method Encode(p: Prefs, calls: seq<Call>, space: nat, hash: seq<byte> -> nat) returns (bytes: seq<byte>, ghost bs: seq<FrameFormat.Block>)
    requires ValidPrefs(p) && (p.info.linked ==> p.level < E.CLEVEL_HC_MIN)
    requires E.RequiredBuffSize(p) + space < 0x8000_0000_0000 && forall i :: 0 <= i < |calls| ==> Fits(calls[i], space)
    requires p.info.contentSize > 0 ==> p.info.contentSize == |Inputs(calls)|
    ensures var f := E.Defaulted(p).info;
            GoodFrame(f, bs) && bytes == FrameBytes(f, bs) && Content(bs) == Inputs(calls)
    ensures IsFrameOf(bytes, E.Defaulted(p).info, Inputs(calls))
  {
    hide GoodFrame, Header, FrameBytes, Body, Content, E.RequiredBuffSize, E.Context.Valid, E.Context.Own, Fits;
    var user := E.RequiredBuffSize(p);
    var memory := new byte[user + space](_ => 0);
    var c;
    c, bytes := Open(p, memory, hash);
    bytes := DoAll(c, calls, user, bytes);
    bytes := Close(c, bytes);
    bs := c.blocks;
  }

  // ---------------------------------------------------------------------
  // Reading
  // ---------------------------------------------------------------------

  /** What a call of LZ4F_decompress is given: input bytes, when there are as many
      left, and output capacity; no output at all may be a null pointer. */
  datatype Turn = Turn(input: nat, capacity: nat, isNull: bool)

  datatype End = Complete | Damaged | Waiting

  /** The calls go on until the frame is complete or turned down.  Each has an
      output buffer of its own, and what was not consumed is given again.  The
      stored checksums, and the stored size, may be any. */
  method DecodeStored(ghost f: Info, ghost bs: seq<FrameFormat.Block>, ghost crc: nat, stream: seq<byte>, ghost tail: seq<byte>, turns: seq<Turn>)
    returns (out: seq<byte>, read: nat, end: End)
    requires ReadableFrame(f, bs, crc) && stream == StoredFrame(f, bs, crc) + tail
    ensures out <= Content(bs) && read <= |stream|
    ensures end == Complete ==> Undamaged(f, bs, crc) && out == Content(bs) && read == |StoredFrame(f, bs, crc)|
    ensures end == Damaged ==> !Undamaged(f, bs, crc)
    ensures end == Waiting ==> read < |StoredFrame(f, bs, crc)|
    ensures (forall i :: 0 <= i < |turns| ==> Useful(turns[i])) && |turns| >= |StoredFrame(f, bs, crc)| + |Content(bs)| ==> end != Waiting
  {
    hide StoredFrame, Content, ReadableBlocks, Undamaged, D.Dctx.Valid, D.Dctx.Idle;
    var d := new D.Dctx(f, bs, crc, tail);
    out, read, end := [], 0, Waiting;
    Begun(f, bs, crc, tail);
    var i := 0;
    while i < |turns| && end == Waiting
      invariant i <= |turns|
      invariant match end
                case Complete => d.Idle() && d.g.clean
                case Damaged => !d.g.clean
                case Waiting => d.Valid() && |d.g.rest| > |tail|
      invariant d.g.tail == tail && d.g.total == Content(bs) == out + d.g.left && d.g.clean == Undamaged(f, bs, crc)
      invariant read <= |stream| && d.g.rest == stream[read..]
      invariant fresh(d.header) && fresh(d.tmpIn) && fresh(d.tmpOutBuffer) && fresh(d.xxh) && fresh(d.xxh.mem)
      invariant fresh(d.blockChecksum) && fresh(d.blockChecksum.mem)
      invariant end == Waiting && (forall k :: 0 <= k < i ==> Useful(turns[k])) ==> read + |out| >= i
      decreases |turns| - i
    {
      var t := turns[i];
      var src := stream[read..read + Least(t.input, |stream| - read)];
      Forward(stream, read, |src|);
      var dst := new byte[if t.isNull then 0 else t.capacity](_ => 0);
      var consumed, produced, hint := d.Decompress(dst, t.isNull, src);
      Forward(stream, read, consumed);
      assert out + (dst[..produced] + d.g.left) == (out + dst[..produced]) + d.g.left;
      out, read := out + dst[..produced], read + consumed;
      end := if hint == 0 then Complete else if hint < 0 then Damaged else Waiting;
      i := i + 1;
    }
    if end == Complete { Finished(d); }
  }

  /** What the encoder wrote is never turned down. */
  method Decode(ghost f: Info, ghost bs: seq<FrameFormat.Block>, stream: seq<byte>, ghost tail: seq<byte>, turns: seq<Turn>)
    returns (out: seq<byte>, read: nat, complete: bool)
    requires GoodFrame(f, bs) && stream == FrameBytes(f, bs) + tail
    ensures out <= Content(bs) && read <= |FrameBytes(f, bs)|
    ensures complete ==> out == Content(bs)
    ensures complete <==> read == |FrameBytes(f, bs)|
    ensures (forall i :: 0 <= i < |turns| ==> Useful(turns[i])) && |turns| >= |FrameBytes(f, bs)| + |Content(bs)| ==> complete
  {
    hide FrameBytes, StoredFrame, Content, GoodFrame, ReadableFrame, Undamaged;
    GoodFrameArrives(f, bs);
    var end;
    out, read, end := DecodeStored(f, bs, Crc(Content(bs)), stream, tail, turns);
    complete := end == Complete;
  }

  lemma Begun(f: Info, bs: seq<FrameFormat.Block>, crc: nat, tail: seq<byte>)
    requires ValidInfo(f)
    ensures var g := D.Start(f, bs, crc, tail);
            && g.rest == StoredFrame(f, bs, crc) + tail && g.left == g.total == Content(bs) && g.tail == tail
            && |StoredFrame(f, bs, crc)| > 0 && g.clean == Undamaged(f, bs, crc)
  {
    hide Header, Body, Content, Trailer, Undamaged;
  }

  lemma Finished(d: D.Dctx)
    requires d.Idle()
    ensures d.g.rest == d.g.tail && d.g.left == []
  {
  }

  lemma Forward(stream: seq<byte>, read: nat, n: nat)
    requires read + n <= |stream|
    ensures stream[read..][n..] == stream[read + n..] && stream[read..read + n] <= stream[read..]
  {
  }

  /** There is input and room for output. */
  predicate Useful(t: Turn) {
    t.input > 0 && t.capacity > 0 && !t.isNull
  }

  /** What one side was given comes out of the other. */
  method WriteAndRead(p: Prefs, calls: seq<Call>, space: nat, hash: seq<byte> -> nat, tail: seq<byte>, turns: seq<Turn>)
    returns (bytes: seq<byte>, out: seq<byte>, complete: bool)
    requires ValidPrefs(p) && (p.info.linked ==> p.level < E.CLEVEL_HC_MIN)
    requires E.RequiredBuffSize(p) + space < 0x8000_0000_0000 && forall i :: 0 <= i < |calls| ==> Fits(calls[i], space)
    requires p.info.contentSize > 0 ==> p.info.contentSize == |Inputs(calls)|
    ensures out <= Inputs(calls) && (complete ==> out == Inputs(calls))
    ensures (forall i :: 0 <= i < |turns| ==> Useful(turns[i])) && |turns| >= |bytes| + |Inputs(calls)| ==> complete
  {
    hide GoodFrame, FrameBytes, Content, Inputs, Fits;
    ghost var bs;
    bytes, bs := Encode(p, calls, space, hash);
    var read;
    out, read, complete := Decode(E.Defaulted(p).info, bs, bytes + tail, tail, turns);
  }

  // ---------------------------------------------------------------------
  // LZ4F_compressFrame_usingCDict
  // ---------------------------------------------------------------------

  /** The preferences that are used, for n bytes of source and the chosen id. */
  function Adjusted(p: Prefs, n: nat, id: nat): Prefs
    requires id == 0 || 4 <= id <= 7
  {
    p.(autoFlush := true,
       info := p.info.(contentSize := if p.info.contentSize != 0 then n else 0,
                       blockSizeID := id,
                       linked := p.info.linked && n > BlockSize(id)))
  }

  lemma SameBound(n: nat, p: Prefs, q: Prefs)
    requires ValidPrefs(p) && ValidPrefs(q) && BlockSize(p.info.blockSizeID) == BlockSize(q.info.blockSizeID)
    requires p.info.blockChecksum == q.info.blockChecksum && p.info.contentChecksum == q.info.contentChecksum
    ensures CompressBoundInternal(n, p.(autoFlush := true), 0) == CompressBoundInternal(n, q.(autoFlush := true), 0)
    ensures FrameEnd(p) == FrameEnd(q)
  {
    hide BlockSize, NbBlocks, BlockedBytes;
  }

  lemma AdjustedPrefs(n: nat, p: Prefs, id: nat)
    requires ValidPrefs(p) && n < 0x8000_0000_0000
    requires id == p.info.blockSizeID || (4 <= id < p.info.blockSizeID && n <= BlockSize(id))
    ensures var q := Adjusted(p, n, id);
            && ValidPrefs(q) && E.RequiredBuffSize(q) <= KB64
            && CompressFrameBound(n, q) <= CompressFrameBound(n, p)
            && CompressFrameBound(n, q) == MAX_FH_SIZE + CompressBoundInternal(n, E.Defaulted(q), 0)
  {
    hide CompressBoundInternal;
    var q := Adjusted(p, n, id);
    SameBound(n, q, E.Defaulted(q));
    SameBound(n, q, p.(info := p.info.(blockSizeID := id, linked := q.info.linked)));
    FrameBoundSuffices(n, p, id, q.info.linked);
    assert E.Defaulted(q).(autoFlush := true) == E.Defaulted(q);
  }

  /** The source is memory[s..s + n], and the allocator returns `alloc`. */
  method CompressFrame(c: E.Context, s: nat, n: nat, p: Prefs, alloc: nat, dst: array<byte>) returns (ok: bool, size: nat)
    requires c.Idle() && ValidPrefs(p) && (p.info.linked && n > BlockSize(p.info.blockSizeID) ==> p.level < E.CLEVEL_HC_MIN)
    requires s + n <= c.memory.Length < 0x8000_0000_0000 && alloc + KB64 <= c.memory.Length
    requires (s + n <= c.tmpBuff || c.tmpBuff + c.maxBufferSize <= s) && (s + n <= alloc || alloc + KB64 <= s)
    requires dst != c.memory && dst != c.xxh.mem
    modifies c, c.memory, c.stream, c.stream.table, c.hc, c.hc.ctx, c.hc.ctx.hashTable, c.hc.ctx.chainTable, c.xxh, c.xxh.mem, dst
    ensures CompressFrameBound(n, p) <= dst.Length ==> ok
    ensures ok ==> GoodFrame(c.prefs.info, c.blocks) && Content(c.blocks) == old(c.memory[s..s + n])
    ensures ok ==> size <= dst.Length && dst[..size] == FrameBytes(c.prefs.info, c.blocks) && size <= CompressFrameBound(n, p)
  {
    hide Header, Body, Footer, FrameBytes, GoodFrame, Content, E.Slice, E.Kept, X.Holds, CompressBoundInternal, E.RequiredBuffSize, Adjusted, BlockSize;
    hide E.Context.Valid, E.Context.Idle, FrameEnd;
    var id := OptimalBSID(p.info.blockSizeID, n);
    var q := Adjusted(p, n, id);
    AdjustedPrefs(n, p, id);
    AdjustedLevel(n, p, id);
    ok, size := false, 0;
    if dst.Length < CompressFrameBound(n, q) {
      return;
    }
    E.SliceIs(c.memory[..], s, c.memory[s..s + n]);
    ok, size := c.Begin(q, alloc, dst);
    var rest := new byte[dst.Length - size](_ => 0);
    var restSize;
    ok, restSize := WholeInput(c, s, n, rest, dst[..size]);
    size := E.Append(dst, size, rest[..restSize]);
  }

  /** One update with all of the source, and the end. */
  method WholeInput(c: E.Context, s: nat, n: nat, dst: array<byte>, ghost header: seq<byte>) returns (ok: bool, size: nat)
    requires c.cStage == 1 && c.Valid() && c.input == [] && c.blocks == [] && c.tmpInSize == 0 && c.prefs.autoFlush && c.Away(s, n)
    requires s + n <= c.memory.Length < 0x8000_0000_0000 && dst != c.memory && dst != c.xxh.mem && ValidPrefs(c.prefs)
    requires CompressBoundInternal(n, c.prefs, 0) <= dst.Length && c.prefs.info.contentSize in {0, n} && header == Header(c.prefs.info)
    modifies c`tmpIn, c`tmpInSize, c`blocks, c`totalInSize, c`input, c`cStage, c`maxBufferSize, c.memory, c.stream, c.stream.table, c.hc, c.hc.ctx, c.hc.ctx.hashTable, c.hc.ctx.chainTable, c.xxh, c.xxh.mem, dst
    ensures ok && GoodFrame(c.prefs.info, c.blocks) && Content(c.blocks) == old(E.Slice(c.memory[..], s, n))
    ensures size <= CompressBoundInternal(n, c.prefs, 0) && header + dst[..size] == FrameBytes(c.prefs.info, c.blocks)
  {
    hide Header, Body, Footer, FrameBytes, Content, E.Slice, E.Kept, X.Holds, CompressBoundInternal, E.Context.Valid, E.Context.Idle, FrameEnd, GoodBlocks;
    var tailSize;
    ok, size := c.Update(s, n, dst, true);
    NothingPending(c);
    EmptyBody(c.prefs.info);
    assert [] + dst[..size] == dst[..size];
    var tail := new byte[dst.Length - size](_ => 0);
    ok, tailSize := c.End(tail);
    Assemble(c.prefs.info, c.blocks, header, dst[..size], tail[..tailSize]);
    size := E.Append(dst, size, tail[..tailSize]);
  }

  lemma AdjustedLevel(n: nat, p: Prefs, id: nat)
    requires id == 0 || 4 <= id <= 7
    ensures var q := Adjusted(p, n, id);
            (q.info.linked ==> p.info.linked && n > BlockSize(id)) && q.level == p.level && q.autoFlush && q.info.contentSize in {0, n}
  {
    hide BlockSize;
  }

  lemma EmptyBody(f: Info)
    ensures Body(f, []) == []
  {
  }

  lemma Assemble(f: Info, bs: seq<FrameFormat.Block>, header: seq<byte>, body: seq<byte>, tail: seq<byte>)
    requires ValidInfo(f) && header == Header(f) && Body(f, bs) + Footer(f, Content(bs)) == body + tail
    ensures header + (body + tail) == FrameBytes(f, bs)
  {
    hide Header, Body, Footer, Content;
  }

  /** With autoFlush, nothing is left in the buffer. */
  lemma NothingPending(c: E.Context)
    requires c.Valid() && c.prefs.autoFlush
    ensures c.EndSize() == FrameEnd(c.prefs) && c.tmpInSize == 0
  {
  }
}
