/** Two ends of a stream that may load and save dictionaries, start afresh, and
    move their blocks about in memory. */
module StreamLink {
  import opened Format
  import opened Common
  import opened Emit
  import opened History
  import S = Stream
  import R = StreamDecoder

  /** memory holds the blocks and dictionaries of the encoder.  past is what the
      decoder was given since its last LZ4_setStreamDecode. */
  class Link {
    const memory: array<byte>
    const enc: S.FastStream
    const dec: R.Decoder
    ghost var past: seq<byte>

    ghost predicate Valid()
      reads this, memory, enc, enc.table, dec, dec.segment, dec.external
    {
      && enc.Valid() && enc.InRange() && enc.dictionary + enc.dictSize <= memory.Length && IsSuffix(enc.Dictionary(memory[..]), past)
      && dec.Valid() && IsSuffix(dec.Remembered(dec.segment, dec.prefixEnd), past) && Apart()
    }

    ghost predicate Apart()
      reads this, dec
    {
      dec.segment != memory && dec.external != memory && (dec.extDictSize > 0 ==> dec.external != dec.segment)
    }

    constructor (memory: array<byte>, hash: seq<byte> -> nat)
      ensures Valid() && this.memory == memory && past == []
      ensures fresh(enc) && fresh(enc.table) && fresh(dec) && fresh(dec.segment)
    {
      hide IsSuffix, S.Bytes, S.Past, R.Reach, S.FastStream.Valid, S.FastStream.InRange;
      var segment := new byte[0];
      this.memory := memory;
      enc := new S.FastStream(hash);
      dec := new R.Decoder(segment, 0, 0);
      past := [];
      new;
      NothingYet();
    }

    lemma NothingYet()
      requires enc.dictSize == 0 && enc.dictionary == S.NULL && dec.Valid() && dec.prefixSize == 0 && past == []
      ensures IsSuffix(enc.Dictionary(memory[..]), past) && IsSuffix(dec.Remembered(dec.segment, dec.prefixEnd), past)
    {
    }

    /** How much the decoder remembers, in its segment or in a new one. */
    function Remembers(elsewhere: bool): nat
      requires dec.Valid()
      reads dec, dec.segment, dec.external
    {
      if elsewhere then |dec.Prefix()| else |dec.Remembered(dec.segment, dec.prefixEnd)|
    }

    /** What the documentation asks for before a block of n bytes is put at `at`:
        the dictionary, or its end, is not overwritten, and the decoder remembers
        as much, or a whole window, and has room. */
    predicate Allowed(n: nat, at: nat, elsewhere: bool)
      requires dec.Valid()
      reads enc, dec, dec.segment, dec.external
    {
      && (enc.dictSize == 0 || enc.dictionary + enc.dictSize <= at || at + n < enc.dictionary + enc.dictSize)
      && Least(DISTANCE_MAX, enc.dictSize) <= Remembers(elsewhere) && Remembers(elsewhere) + n < U32_RANGE
      && (elsewhere || dec.prefixEnd + n <= dec.segment.Length)
    }

    /** LZ4_compress_fast_continue of a block that was put at `at`, and
        LZ4_decompress_safe_continue behind the last block or in a new buffer. */
    method Send(content: seq<byte>, at: nat, elsewhere: bool, room: nat, acceleration: int) returns (sent: bool, received: seq<byte>)
      requires Valid() && 1 <= |content| <= MAX_INPUT_SIZE && at + |content| <= memory.Length
      modifies this, memory, enc, enc.table, dec, dec.segment
      ensures Valid() && (dec.segment == old(dec.segment) || fresh(dec.segment)) && (dec.external == old(dec.segment) || dec.external == old(dec.external))
      ensures sent <==> old(Allowed(|content|, at, elsewhere))
      ensures if sent then received == content && past == old(past) + content else past == old(past)
    {
      hide Decodes, Compatible, S.Bytes, IsSuffix, S.Past, R.Restorable, R.Summable, R.Reach;
      if !Allowed(|content|, at, elsewhere) {
        return false, [];
      }
      var block, h := Encode(content, at, acceleration);
      received := Decode(content, block, h, elsewhere, room);
      sent := true;
    }

    /** LZ4_saveDict. */
    method Save(to: nat, size: nat)
      requires Valid() && to + size <= memory.Length
      modifies memory, enc`dictionary, enc`dictSize
      ensures Valid() && past == old(past)
    {
      hide S.Bytes, IsSuffix, S.Past, R.Reach;
      ghost var dict := enc.Dictionary(memory[..]);
      var saved := enc.SaveDict(memory, to, size);
      EndOfEnd(enc.Dictionary(memory[..]), dict, past);
    }

    /** LZ4_loadDict of a dictionary that was put at `at`, and LZ4_setStreamDecode. */
    method Load(dictionary: seq<byte>, at: nat)
      requires Valid() && at + |dictionary| <= memory.Length
      modifies this, memory, enc, enc.table, dec
      ensures Valid() && past == dictionary && fresh(dec.segment) && fresh(dec.external)
    {
      hide S.Bytes, IsSuffix, S.Past, R.Reach;
      LoadEncoder(dictionary, at);
      LoadDecoder(dictionary);
      past := dictionary;
      Loaded();
    }

    method LoadEncoder(dictionary: seq<byte>, at: nat)
      requires enc.Valid() && at + |dictionary| <= memory.Length
      modifies memory, enc, enc.table
      ensures enc.Valid() && enc.InRange() && enc.dictionary + enc.dictSize <= memory.Length
      ensures IsSuffix(enc.Dictionary(memory[..]), dictionary)
    {
      hide S.Past, S.Bytes;
      Put(memory, at, dictionary);
      assert memory[..][at..at + |dictionary|] == dictionary;
      var loaded := enc.LoadDict(memory[..], at, |dictionary|);
    }

    method LoadDecoder(dictionary: seq<byte>)
      modifies dec
      ensures dec.Valid() && dec.Prefix() == dictionary && dec.extDictSize == 0
      ensures fresh(dec.segment) && fresh(dec.external)
    {
      var copy := new byte[|dictionary|](i requires 0 <= i < |dictionary| => dictionary[i]);
      assert copy[0..0 + |dictionary|] == dictionary;
      dec.Set(copy, 0, |dictionary|);
    }

    lemma Loaded()
      requires dec.Valid() && dec.extDictSize == 0 && dec.Prefix() == past
      ensures IsSuffix(dec.Remembered(dec.segment, dec.prefixEnd), past)
    {
      assert dec.External() + dec.Prefix() == dec.Prefix();
    }

    /** LZ4_resetStream_fast, unless the stream was given nothing but tiny
        dictionaries for too long; the decoder goes on. */
    method Reset()
      requires Valid()
      modifies enc, enc.table
      ensures Valid() && enc.dictSize == 0
    {
      hide IsSuffix, S.Past, R.Reach;
      PrefixIsEnd(past);
      if enc.Usable() {
        enc.ResetFast();
      } else {
        enc.Reset();
      }
      assert enc.Dictionary(memory[..]) == [];
    }

    method Encode(content: seq<byte>, at: nat, acceleration: int) returns (block: seq<byte>, ghost h: seq<byte>)
      requires enc.Valid() && enc.InRange() && enc.dictionary + enc.dictSize <= memory.Length && IsSuffix(enc.Dictionary(memory[..]), past)
      requires 1 <= |content| <= MAX_INPUT_SIZE && at + |content| <= memory.Length
      requires enc.dictSize == 0 || enc.dictionary + enc.dictSize <= at || at + |content| < enc.dictionary + enc.dictSize
      modifies memory, enc, enc.table
      ensures enc.Valid() && enc.InRange() && enc.dictionary + enc.dictSize <= memory.Length
      ensures Decodes(block, h, content) && IsSuffix(h, past) && |h| <= old(enc.dictSize)
      ensures IsSuffix(enc.Dictionary(memory[..]), past + content)
    {
      hide Decodes, S.Bytes, IsSuffix, S.Past;
      ghost var was, d, size := memory[..], enc.dictionary, enc.dictSize;
      Put(memory, at, content);
      ghost var now := memory[..];
      assert now[at..at + |content|] == content;
      var dst := new byte[|content| + |content| / 255 + 16](_ => 0);
      var r, hist := enc.CompressFastContinue(memory[..], at, |content|, dst, acceleration);
      block, h := dst[..r], hist;
      Overwritten(was, now, d, size, at, content, hist, past);
      Longer(hist, past, content, enc.Dictionary(now));
    }

    method Decode(content: seq<byte>, block: seq<byte>, ghost h: seq<byte>, elsewhere: bool, room: nat) returns (received: seq<byte>)
      requires dec.Valid() && IsSuffix(dec.Remembered(dec.segment, dec.prefixEnd), past) && Apart()
      requires Decodes(block, h, content) && IsSuffix(h, past) && content != []
      requires Least(DISTANCE_MAX, |h|) <= Remembers(elsewhere) && Remembers(elsewhere) + |content| < U32_RANGE
      requires elsewhere || dec.prefixEnd + |content| <= dec.segment.Length
      modifies this`past, dec, dec.segment
      ensures dec.Valid() && IsSuffix(dec.Remembered(dec.segment, dec.prefixEnd), past) && Apart()
      ensures (dec.segment == old(dec.segment) || fresh(dec.segment)) && (dec.external == old(dec.segment) || dec.external == old(dec.external))
      ensures received == content && past == old(past) + content
    {
      hide Decodes, Compatible, IsSuffix, R.Reach;
      var dst, start := dec.segment, dec.prefixEnd;
      if elsewhere {
        dst, start := new byte[|content| + room](_ => 0), 0;
      }
      PrefixIsEnd(past);
      received := DecodeAt(content, block, h, dst, start);
      past := past + content;
    }

    method DecodeAt(content: seq<byte>, block: seq<byte>, ghost h: seq<byte>, dst: array<byte>, start: nat) returns (received: seq<byte>)
      requires dec.Valid() && start + |content| <= dst.Length && dst != memory && Apart() && content != []
      requires (dst == dec.segment && start == dec.prefixEnd) || (dst != dec.segment && dst != dec.external)
      requires Decodes(block, h, content) && IsSuffix(h, past) && IsSuffix(dec.Remembered(dst, start), past)
      requires Least(DISTANCE_MAX, |h|) <= |dec.Remembered(dst, start)| && |dec.Remembered(dst, start)| + |content| < U32_RANGE
      modifies dec, dst
      ensures dec.Valid() && IsSuffix(dec.Remembered(dec.segment, dec.prefixEnd), past + content) && Apart()
      ensures dec.segment == dst && (dec.external == old(dec.segment) || dec.external == old(dec.external)) && received == content
    {
      hide Decodes, Compatible, IsSuffix, R.Reach;
      ghost var remembered := dec.Remembered(dst, start);
      BothEnds(h, remembered, past);
      var result := dec.SafeContinue(block, dst, start, h, content);
      received := dst[start..start + result];
      Longer(remembered, past, content, dec.Remembered(dst, start + result));
    }

    /** The prefix alone is an end of what the decoder was given, too. */
    lemma PrefixIsEnd(past: seq<byte>)
      requires dec.Valid() && IsSuffix(dec.Remembered(dec.segment, dec.prefixEnd), past)
      ensures IsSuffix(dec.Prefix(), past) && IsSuffix([], past)
    {
    }
  }

  lemma EndOfEnd(a: seq<byte>, b: seq<byte>, c: seq<byte>)
    requires IsSuffix(a, b) && IsSuffix(b, c)
    ensures IsSuffix(a, c)
  {
    assert c[|c| - |a|..] == c[|c| - |b|..][|b| - |a|..];
  }

  /** Two ends of the same past, the shorter one as long as a window or the other. */
  lemma BothEnds(h: seq<byte>, d: seq<byte>, past: seq<byte>)
    requires IsSuffix(h, past) && IsSuffix(d, past) && Least(DISTANCE_MAX, |h|) <= |d|
    ensures Compatible(h, d)
  {
    if |h| <= |d| {
      assert d[|d| - |h|..] == past[|past| - |d|..][|d| - |h|..] == past[|past| - |h|..];
    } else {
      assert h[|h| - DISTANCE_MAX..] == past[|past| - |h|..][|h| - DISTANCE_MAX..] == past[|past| - DISTANCE_MAX..];
      assert d[|d| - DISTANCE_MAX..] == past[|past| - |d|..][|d| - DISTANCE_MAX..] == past[|past| - DISTANCE_MAX..];
    }
  }

  /** An end of the past and of what is added is one of the longer past. */
  lemma Longer(h: seq<byte>, past: seq<byte>, x: seq<byte>, d: seq<byte>)
    requires IsSuffix(h, past) && IsSuffix(d, h + x)
    ensures IsSuffix(d, past + x)
  {
    assert past + x == past[..|past| - |h|] + (h + x);
  }

  /** n bytes were put at `at`: what the encoder uses of its dictionary is intact. */
  lemma Overwritten(was: seq<byte>, now: seq<byte>, d: int, size: nat, at: nat, content: seq<byte>, h: seq<byte>, past: seq<byte>)
    requires |was| == |now| && at + |content| <= |was| && was[..at] == now[..at] && was[at + |content|..] == now[at + |content|..]
    requires d + size <= |was| && (size > 0 ==> 0 <= d) && IsSuffix(S.Bytes(was, d, size), past) && IsSuffix(h, S.Bytes(now, d, size))
    requires size == 0 || d + size <= at || at + |content| < d + size
    requires at + |content| < d + size ==> |h| <= d + size - (at + |content|)
    ensures IsSuffix(h, past) && |h| <= size
  {
    if |h| > 0 {
      var e := d + size;
      assert h == now[e - |h|..e] == was[e - |h|..e] by {
        if e <= at {
          assert now[e - |h|..e] == now[..at][e - |h|..e];
          assert was[e - |h|..e] == was[..at][e - |h|..e];
        } else {
          var c := at + |content|;
          assert now[e - |h|..e] == now[c..][e - |h| - c..e - c];
          assert was[e - |h|..e] == was[c..][e - |h| - c..e - c];
        }
      }
      assert was[e - |h|..e] == was[d..e][size - |h|..];
      assert past[|past| - |h|..] == past[|past| - size..][size - |h|..];
    }
  }

  // ---------------------------------------------------------------------
  // Any schedule
  // ---------------------------------------------------------------------

  datatype Step =
    | Send(content: seq<byte>, at: nat, elsewhere: bool, room: nat)
    | Save(to: nat, size: nat)
    | Load(dictionary: seq<byte>, from: nat)
    | Reset

  datatype Reply = Restored(content: seq<byte>) | Refused | Silent

  predicate Fits(step: Step, space: nat) {
    match step
    case Send(content, at, elsewhere, room) => 1 <= |content| <= MAX_INPUT_SIZE && at + |content| <= space
    case Save(to, size) => to + size <= space
    case Load(dictionary, from) => from + |dictionary| <= space
    case Reset => true
  }

  predicate Answers(step: Step, reply: Reply) {
    if step.Send? then reply in {Restored(step.content), Refused} else reply == Silent
  }

  /** In any order: every block that may be sent is restored. */
  method Run(steps: seq<Step>, space: nat, acceleration: int, hash: seq<byte> -> nat) returns (replies: seq<Reply>)
    requires forall i :: 0 <= i < |steps| ==> Fits(steps[i], space)
    ensures |replies| == |steps| && forall i :: 0 <= i < |steps| ==> Answers(steps[i], replies[i])
  {
    hide Link.Valid, Link.Allowed;
    var memory := new byte[space](_ => 0);
    var link := new Link(memory, hash);
    replies := [];
    for i := 0 to |steps|
      invariant |replies| == i && forall k :: 0 <= k < i ==> Answers(steps[k], replies[k])
      invariant link.Valid() && link.memory == memory
      invariant fresh(link.enc) && fresh(link.enc.table) && fresh(link.dec) && fresh(link.dec.segment)
    {
      var reply := Silent;
      match steps[i] {
        case Send(content, at, elsewhere, room) =>
          var sent, received := link.Send(content, at, elsewhere, room, acceleration);
          reply := if sent then Restored(received) else Refused;
        case Save(to, size) => link.Save(to, size);
        case Load(dictionary, from) => link.Load(dictionary, from);
        case Reset => link.Reset();
      }
      replies := replies + [reply];
    }
  }
}
