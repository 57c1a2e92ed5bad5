/** LZ4_decompress_safe_continue: a decoder that follows a stream of blocks, in
    one segment of memory or from segment to segment. */
module StreamDecoder {
  import opened Format
  import opened Common
  import opened Emit
  import opened History
  import D = Decoder

  /** LZ4_streamDecode_t_internal.  The prefix is segment[prefixEnd - prefixSize..prefixEnd];
      the external dictionary stands in another array. */
  class Decoder {
    var segment: array<byte>
    var prefixEnd: nat
    var prefixSize: nat
    var external: array<byte>
    var externalStart: nat
    var extDictSize: nat

    ghost predicate Valid()
      reads this
    {
      && prefixSize <= prefixEnd <= segment.Length && externalStart + extDictSize <= external.Length
      && (prefixSize == 0 ==> extDictSize == 0)
    }

    function Prefix(): seq<byte>
      requires Valid()
      reads this, segment
    {
      segment[prefixEnd - prefixSize..prefixEnd]
    }

    function External(): seq<byte>
      requires Valid()
      reads this, external
    {
      external[externalStart..externalStart + extDictSize]
    }

    /** What the decoder can reach when it goes on at dst[start]. */
    function Remembered(dst: array<byte>, start: nat): seq<byte>
      requires Valid()
      reads this, segment, external
    {
      if prefixSize == 0 then []
      else if segment == dst && prefixEnd == start then
        Reach(External(), Prefix())
      else Prefix()
    }

    /** LZ4_setStreamDecode. */
    constructor (dictionary: array<byte>, start: nat, dictSize: nat)
      requires start + dictSize <= dictionary.Length
      ensures Valid() && Prefix() == dictionary[start..start + dictSize] && extDictSize == 0
      ensures segment == external == dictionary && prefixEnd == start + dictSize && prefixSize == dictSize
    {
      segment, prefixEnd, prefixSize := dictionary, start + dictSize, dictSize;
      external, externalStart, extDictSize := dictionary, 0, 0;
    }

    /** LZ4_setStreamDecode on a context that was used before. */
    method Set(dictionary: array<byte>, start: nat, dictSize: nat)
      requires start + dictSize <= dictionary.Length
      modifies this
      ensures Valid() && Prefix() == dictionary[start..start + dictSize] && extDictSize == 0
      ensures segment == external == dictionary && prefixEnd == start + dictSize && prefixSize == dictSize
    {
      segment, prefixEnd, prefixSize := dictionary, start + dictSize, dictSize;
      external, externalStart, extDictSize := dictionary, 0, 0;
    }

    /** LZ4_decompress_safe_continue.  A block written with a compatible history
        is restored, and then remembered. */
    method SafeContinue(src: seq<byte>, dst: array<byte>, start: nat, ghost h: seq<byte>, ghost content: seq<byte>)
      returns (result: int)
      requires Valid() && start <= dst.Length
      requires prefixSize > 0 && !(segment == dst && prefixEnd == start) ==> segment != dst
      requires extDictSize > 0 && segment == dst ==> external != dst
      requires |src| <= 0x100_0000 || Summable(src, h, content, Remembered(dst, start))
      modifies this, dst
      ensures Valid() && dst[..start] == old(dst[..start])
      ensures if old(prefixSize > 0 && segment == dst && prefixEnd == start) then segment == old(segment) && external == old(external)
              else (segment == old(segment) || segment == dst) && external == if old(prefixSize) > 0 then old(segment) else old(external)
      ensures result >= 0 ==> start + result <= dst.Length
      ensures Restorable(src, h, content, old(Remembered(dst, start)), dst.Length - start) ==>
                && result == |content| && dst[start..start + result] == content
                && (content != [] ==>
                      && segment == dst && prefixEnd == start + result
                      && IsSuffix(Remembered(dst, start + result), old(Remembered(dst, start)) + content)
                      && (old(prefixSize > 0 && segment == dst && prefixEnd == start) ==>
                            Prefix() == old(Prefix()) + content && External() == old(External()))
                      && (!old(prefixSize > 0 && segment == dst && prefixEnd == start) ==>
                            Prefix() == content && External() == old(Prefix())))
    {
      hide Restorable, Summable, IsSuffix, Reach;
      if prefixSize > 0 && segment == dst && prefixEnd == start {
        ReachEnds(External(), Prefix(), content);
        result := Roll(src, h, content);
      } else {
        assert prefixSize == 0 ==> Prefix() == [];
        result := Leap(src, dst, start, h, content);
      }
    }

    /** The first call, or a switch to another buffer. */
    method Leap(src: seq<byte>, dst: array<byte>, start: nat, ghost h: seq<byte>, ghost content: seq<byte>)
      returns (result: int)
      requires Valid() && start <= dst.Length && (prefixSize > 0 ==> segment != dst)
      requires prefixSize == 0 || !(segment == dst && prefixEnd == start)
      requires |src| <= 0x100_0000 || Summable(src, h, content, Prefix())
      modifies this, dst
      ensures Valid() && dst[..start] == old(dst[..start])
      ensures (segment == old(segment) || segment == dst) && external == if old(prefixSize) > 0 then old(segment) else old(external)
      ensures result >= 0 ==> start + result <= dst.Length
      ensures Restorable(src, h, content, old(Prefix()), dst.Length - start) ==>
                && result == |content| && dst[start..start + result] == content
                && (content != [] ==>
                      && segment == dst && prefixEnd == start + result
                      && IsSuffix(Remembered(dst, start + result), old(Prefix()) + content)
                      && Prefix() == content && External() == old(Prefix()))
    {
      hide Restorable, Summable, IsSuffix, Reach, Remembered, D.View, D.ValidCall;
      ghost var memory := Prefix();
      Shift();
      var mode := if extDictSize == 0 then D.NoDict else D.UsingExtDict;
      result := Switch(D.Call(src, start, mode, External(), false), dst, start, h, content);
      if result >= 0 && segment == dst && prefixEnd == start + result && prefixSize > 0 && Prefix() == content {
        RemembersBoth(dst, start + result, memory, content);
      }
    }

    lemma RemembersBoth(dst: array<byte>, start: nat, memory: seq<byte>, content: seq<byte>)
      requires Valid() && segment == dst && prefixEnd == start && prefixSize > 0 && External() == memory && Prefix() == content
      ensures IsSuffix(Remembered(dst, start), memory + content)
    {
      hide IsSuffix, Reach;
      ReachEnds(memory, [], content);
    }

    /** The prefix becomes the external dictionary. */
    method Shift()
      requires Valid()
      modifies this`external, this`externalStart, this`extDictSize
      ensures Valid() && External() == old(Prefix()) && extDictSize == prefixSize
      ensures external == if prefixSize > 0 then segment else old(external)
    {
      if prefixSize > 0 {
        external, externalStart, extDictSize := segment, prefixEnd - prefixSize, prefixSize;
      }
    }

    /** The block becomes the prefix, in a new place. */
    method Switch(c: D.Call, dst: array<byte>, start: nat, ghost h: seq<byte>, ghost content: seq<byte>) returns (result: int)
      requires Valid() && start <= dst.Length && (extDictSize > 0 ==> external != dst) && (prefixSize > 0 ==> segment != dst)
      requires c.mode == (if extDictSize == 0 then D.NoDict else D.UsingExtDict)
      requires c.lowPrefix == start && !c.partialDecoding && c.dict == External()
      requires |c.src| <= 0x100_0000 || Summable(c.src, h, content, External())
      modifies this`segment, this`prefixEnd, this`prefixSize, dst
      ensures Valid() && dst[..start] == old(dst[..start]) && External() == old(External()) && (segment == old(segment) || segment == dst)
      ensures result >= 0 ==> start + result <= dst.Length
      ensures Restorable(c.src, h, content, External(), dst.Length - start) ==>
                && result == |content| && dst[start..start + result] == content
                && (content != [] ==> segment == dst && prefixEnd == start + result && prefixSize > 0 && Prefix() == content)
    {
      hide Restorable, Summable;
      ghost var memory := External();
      result := DecodeAfter(c, dst, start, memory, h, content);
      assert External() == memory;
      if result > 0 {
        segment, prefixSize, prefixEnd := dst, result, start + result;
        assert Prefix() == dst[start..start + result];
      } else {
        NothingRolled(content, result);
      }
    }

    /** withPrefix64k, withSmallPrefix or doubleDict. */
    method RollingCall(src: seq<byte>) returns (c: D.Call)
      requires Valid()
      ensures c.src == src && !c.partialDecoding && D.ValidCall(c, prefixEnd)
      ensures D.View(c, segment[..], prefixEnd) == Reach(External(), Prefix())
    {
      var low := prefixEnd - prefixSize;
      if prefixSize >= KB64 - 1 {
        c := D.Call(src, low, D.WithPrefix64k, [], false);
      } else if extDictSize == 0 {
        c := D.Call(src, low, D.NoDict, [], false);
      } else {
        c := D.Call(src, low, D.UsingExtDict, External(), false);
      }
    }

    /** Rolling the current segment. */
    method Roll(src: seq<byte>, ghost h: seq<byte>, ghost content: seq<byte>) returns (result: int)
      requires Valid() && prefixSize > 0 && (extDictSize > 0 ==> external != segment)
      requires |src| <= 0x100_0000 || Summable(src, h, content, Remembered(segment, prefixEnd))
      modifies this`prefixEnd, this`prefixSize, segment
      ensures Valid() && segment[..old(prefixEnd)] == old(segment[..prefixEnd])
      ensures result >= 0 ==> old(prefixEnd) + result <= segment.Length
      ensures Restorable(src, h, content, old(Remembered(segment, prefixEnd)), segment.Length - old(prefixEnd)) ==>
                && result == |content| && segment[old(prefixEnd)..old(prefixEnd) + result] == content
                && prefixSize == old(prefixSize) + result && prefixEnd == old(prefixEnd) + result
                && Prefix() == old(Prefix()) + content && External() == old(External())
    {
      hide Restorable, Summable, D.View, D.ValidCall, Reach;
      ghost var memory := Remembered(segment, prefixEnd);
      ghost var ext := External();
      ghost var was := segment[..];
      var start := prefixEnd;
      var c := RollingCall(src);
      result := DecodeAfter(c, segment, start, memory, h, content);
      if result > 0 {
        Rolled(was, segment[..], start, prefixSize, result);
        prefixSize, prefixEnd := prefixSize + result, prefixEnd + result;
        assert External() == ext;
      } else {
        NothingRolled(content, result);
      }
    }
  }

  /** The block of the stream was written with a history that the decoder still has. */
  ghost predicate Restorable(src: seq<byte>, h: seq<byte>, content: seq<byte>, memory: seq<byte>, room: int) {
    Decodes(src, h, content) && Compatible(h, memory) && |content| <= room
  }

  /** Its lengths do not overflow the 32 bits they are summed in. */
  ghost predicate Summable(src: seq<byte>, h: seq<byte>, content: seq<byte>, memory: seq<byte>) {
    Decodes(src, h, content) && Compatible(h, memory) && |memory| + |content| < U32_RANGE
  }

  /** The history in reach: with 64 KB of prefix, the external dictionary is out of it. */
  function Reach(ext: seq<byte>, prefix: seq<byte>): seq<byte> {
    if |prefix| >= KB64 - 1 then prefix else ext + prefix
  }

  lemma ReachEnds(ext: seq<byte>, prefix: seq<byte>, content: seq<byte>)
    ensures IsSuffix(Reach(ext, prefix + content), Reach(ext, prefix) + content)
    ensures IsSuffix(Reach(ext, content), ext + content)
    ensures [] + content == content
  {
    assert ext + (prefix + content) == (ext + prefix) + content;
  }

  lemma NothingRolled(content: seq<byte>, result: int)
    ensures result <= 0 && result == |content| ==> content == []
  {
  }

  lemma Rolled(a: seq<byte>, b: seq<byte>, start: nat, n: nat, m: nat)
    requires n <= start <= |a| == |b| && start + m <= |b| && a[..start] == b[..start]
    ensures b[start - n..start + m] == a[start - n..start] + b[start..start + m]
  {
    assert b[start - n..start] == b[..start][start - n..] == a[..start][start - n..] == a[start - n..start];
  }

  /** One block, when the reachable history is `memory`. */
  method DecodeAfter(c: D.Call, dst: array<byte>, start: nat, ghost memory: seq<byte>, ghost h: seq<byte>, ghost content: seq<byte>)
    returns (result: int)
    requires D.ValidCall(c, start) && start <= dst.Length && !c.partialDecoding && D.View(c, dst[..], start) == memory
    requires |c.src| <= 0x100_0000 || Summable(c.src, h, content, memory)
    modifies dst
    ensures dst[..start] == old(dst[..start]) && (result >= 0 ==> start + result <= dst.Length)
    ensures Restorable(c.src, h, content, memory, dst.Length - start) ==>
              result == |content| && dst[start..start + result] == content
  {
    hide Compatible;
    if Decodes(c.src, h, content) && Compatible(h, memory) {
      CompatibleDecodes(c.src, h, memory, content);
    }
    ghost var a := dst[..];
    result := D.DecompressGeneric(c, dst, start, |memory| + |content|);
    if result >= 0 {
      ViewGrown(c, a, dst[..], start, result);
      assert (memory + content)[|memory|..] == content;
      assert (memory + dst[start..start + result])[|memory|..] == dst[start..start + result];
    }
  }

  lemma ViewGrown(c: D.Call, a: seq<byte>, b: seq<byte>, start: nat, n: nat)
    requires c.lowPrefix <= start <= |a| == |b| && start + n <= |b| && a[..start] == b[..start]
    ensures D.View(c, b, start + n) == D.View(c, a, start) + b[start..start + n]
  {
    assert b[c.lowPrefix..start] == b[..start][c.lowPrefix..] == a[..start][c.lowPrefix..] == a[c.lowPrefix..start];
    assert b[c.lowPrefix..start + n] == b[c.lowPrefix..start] + b[start..start + n];
  }
}
