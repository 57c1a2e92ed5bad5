/** Both ends of a stream together: any cutting of the data into blocks. */
module StreamRun {
  import opened Format
  import opened Common
  import opened Emit
  import opened History
  import S = Stream
  import HB = HcBlock
  import R = StreamDecoder

  function Total(sizes: seq<nat>): nat {
    if sizes == [] then 0 else Total(sizes[..|sizes| - 1]) + sizes[|sizes| - 1]
  }

  lemma {:induction false} TotalAt(sizes: seq<nat>, i: nat)
    requires i < |sizes|
    ensures Total(sizes[..i + 1]) == Total(sizes[..i]) + sizes[i] <= Total(sizes)
    decreases |sizes|
  {
    assert sizes[..i + 1][..i] == sizes[..i];
    if i + 1 < |sizes| {
      var s := sizes[..|sizes| - 1];
      assert s[..i + 1] == sizes[..i + 1] && s[..i] == sizes[..i];
      TotalAt(s, i);
    } else {
      assert sizes[..i + 1] == sizes;
    }
  }

  /** The encoder's history is an end of what the decoder has restored. */
  lemma Follows(h: seq<byte>, dict: seq<byte>, data: seq<byte>, done: nat)
    requires done <= |data| && IsSuffix(h, dict) && IsSuffix(dict, data[..done])
    ensures Compatible(h, data[..done])
  {
  }

  lemma Continues(a: seq<byte>, data: seq<byte>, done: nat, n: nat)
    requires done + n <= |data| && done + n <= |a| && a[..done] == data[..done] && a[done..done + n] == data[done..done + n]
    ensures a[..done + n] == data[..done + n]
  {
    assert a[..done + n] == a[..done] + a[done..done + n] && data[..done + n] == data[..done] + data[done..done + n];
  }

  lemma DictionaryIsPast(data: seq<byte>, dictionary: int, dictSize: nat, done: nat)
    requires done <= |data| && (dictSize == 0 || (0 <= dictionary && dictionary + dictSize == done))
    ensures IsSuffix(S.Bytes(data, dictionary, dictSize), data[..done])
  {
  }

  /** One block goes through. */
  method Pass(enc: S.FastStream, dec: R.Decoder, data: seq<byte>, done: nat, n: nat, back: array<byte>, acceleration: int)
    requires enc.Valid() && enc.InRange() && dec.Valid() && |data| == back.Length < 0x1_0000_0000
    requires 1 <= n <= MAX_INPUT_SIZE && done + n <= |data|
    requires enc.dictSize == 0 || enc.dictionary + enc.dictSize == done
    requires enc.dictionary + enc.dictSize <= |data|
    requires dec.segment == back && dec.prefixEnd == done == dec.prefixSize && dec.extDictSize == 0 && back[..done] == data[..done]
    modifies enc, enc.table, dec, back
    ensures enc.Valid() && enc.InRange() && dec.Valid()
    ensures enc.dictionary + enc.dictSize == done + n
    ensures dec.segment == back && dec.prefixEnd == done + n == dec.prefixSize && dec.extDictSize == 0
    ensures back[..done + n] == data[..done + n]
  {
    hide Decodes, Compatible, S.Bytes, IsSuffix, S.Past, IsSuffix, R.Restorable, R.Summable;
    var content := data[done..done + n];
    DictionaryIsPast(data, enc.dictionary, enc.dictSize, done);
    ghost var dict := enc.Dictionary(data);
    var dst := new byte[n + n / 255 + 16](_ => 0);
    var r, h := enc.CompressFastContinue(data, done, n, dst, acceleration);
    Follows(h, dict, data, done);
    Receive(dec, dst[..r], data, done, n, back, h);
  }

  /** The receiving end of it. */
  method Receive(dec: R.Decoder, block: seq<byte>, data: seq<byte>, done: nat, n: nat, back: array<byte>, ghost h: seq<byte>)
    requires dec.Valid() && |data| == back.Length < 0x1_0000_0000 && 1 <= n && done + n <= |data|
    requires dec.segment == back && dec.prefixEnd == done == dec.prefixSize && dec.extDictSize == 0 && back[..done] == data[..done]
    requires Decodes(block, h, data[done..done + n]) && Compatible(h, data[..done])
    modifies dec, back
    ensures dec.Valid() && dec.segment == back && dec.prefixEnd == done + n == dec.prefixSize && dec.extDictSize == 0
    ensures back[..done + n] == data[..done + n]
  {
    hide Decodes, Compatible, IsSuffix;
    ReachesAll(dec, back, done);
    ghost var prefix := dec.Prefix();
    assert |prefix| == done && |dec.External()| == 0;
    var q := dec.SafeContinue(block, back, done, h, data[done..done + n]);
    Continues(back[..], data, done, n);
    assert |dec.Prefix()| == done + n && |dec.External()| == 0;
  }

  lemma ReachesAll(dec: R.Decoder, back: array<byte>, done: nat)
    requires dec.Valid() && dec.segment == back && dec.prefixEnd == done == dec.prefixSize && dec.extDictSize == 0
    ensures dec.Remembered(back, done) == back[..done]
  {
  }

  /** Streaming round trip: data cut into blocks in any way, compressed one after
      the other with LZ4_compress_fast_continue and decompressed one after the
      other with LZ4_decompress_safe_continue, comes back whole. */
  method StreamRoundTrip(data: seq<byte>, sizes: seq<nat>, back: array<byte>, acceleration: int, hash: seq<byte> -> nat)
    requires |data| == back.Length < 0x1_0000_0000 && Total(sizes) == |data|
    requires forall i :: 0 <= i < |sizes| ==> 1 <= sizes[i] <= MAX_INPUT_SIZE
    modifies back
    ensures back[..] == data
  {
    hide IsSuffix, S.Past;
    var enc := new S.FastStream(hash);
    var dec := new R.Decoder(back, 0, 0);
    var i, done := 0, 0;
    while i < |sizes|
      invariant 0 <= i <= |sizes| && done == Total(sizes[..i]) <= |data|
      invariant fresh(enc) && fresh(enc.table) && fresh(dec)
      invariant enc.Valid() && enc.InRange() && dec.Valid()
      invariant enc.dictSize == 0 || enc.dictionary + enc.dictSize == done
      invariant enc.dictionary + enc.dictSize <= |data|
      invariant dec.segment == back && dec.prefixEnd == done == dec.prefixSize && dec.extDictSize == 0
      invariant back[..done] == data[..done]
    {
      TotalAt(sizes, i);
      Pass(enc, dec, data, done, sizes[i], back, acceleration);
      done, i := done + sizes[i], i + 1;
    }
    assert sizes[..i] == sizes;
    assert back[..] == back[..done] && data == data[..done];
  }

  // ---------------------------------------------------------------------
  // States that are used again
  // ---------------------------------------------------------------------

  /** What a one-shot call returns: no block, or one that decodes after nothing. */
  ghost predicate OneShot(block: seq<byte>, src: seq<byte>, room: nat) {
    && |block| <= room && (block != [] ==> Decodes(block, [], src))
    && AsGoodAsPlain(|src|, room, |block|)
  }

  /** LZ4_compress_fast_extState_fastReset and LZ4_compress_HC_extStateHC_fastReset,
      one after the other on the same states, whatever the sources, their sizes,
      the levels and the room: what an earlier call left behind never matters. */
  method UsedAgain(srcs: seq<seq<byte>>, levels: seq<int>, rooms: seq<nat>, hash: seq<byte> -> nat) returns (blocks: seq<seq<byte>>)
    requires |srcs| == |levels| == |rooms|
    ensures |blocks| == |srcs| && forall i :: 0 <= i < |srcs| ==> OneShot(blocks[i], srcs[i], rooms[i])
  {
    hide Decodes, S.Past, AsGoodAsPlain;
    var fast := new S.FastStream(hash);
    var hc := new HB.StateHc(hash);
    blocks := [];
    for i := 0 to |srcs|
      invariant |blocks| == i && forall k :: 0 <= k < i ==> OneShot(blocks[k], srcs[k], rooms[k])
      invariant fast.TableValid() && fast.Usable() && (fast.Cleared() ==> fast.currentOffset == 0) && hc.Valid()
      invariant fresh(fast) && fresh(fast.table) && fresh(hc) && fresh(hc.ctx) && fresh(hc.ctx.hashTable) && fresh(hc.ctx.chainTable)
      invariant fast.table != hc.ctx.hashTable && fast.table != hc.ctx.chainTable
    {
      var dst := new byte[rooms[i]](_ => 0);
      var result;
      if levels[i] < HB.CLEVEL_MIN {
        result := fast.FastReset(srcs[i], dst, if levels[i] < 0 then -levels[i] + 1 else 1);
      } else {
        result := hc.FastReset(srcs[i], dst, levels[i]);
      }
      blocks := blocks + [if result <= dst.Length then dst[..result] else []];
    }
  }
}
