/** Streaming compression with LZ4_compress_fast_continue: which part of memory
    serves as history, and why the indexes in the hash table can be trusted. */
module Stream {
  import opened Format
  import opened Common
  import opened Emit
  import opened MatchFinding
  import B = Block
  import E = Encoder

  const RENORM_LIMIT: int := 0x8000_0000
  const HASH_UNIT: int := 8
  const NULL: int := -1

  /** The bytes of memory from `start` on; none of them for a null pointer. */
  function Bytes(mem: seq<byte>, start: int, size: nat): seq<byte> {
    if 0 <= start && start + size <= |mem| then mem[start..start + size] else []
  }

  /** An entry of the table: none, or a position of what was compressed or
      loaded before, with eight bytes after it. */
  predicate Past(idx: nat, currentOffset: nat) {
    idx == 0 || idx + HASH_UNIT <= currentOffset
  }

  /** What LZ4_compress_fast_continue asks the encoder for, with the history hist in
      front of src (at index offset) or elsewhere. */
  function BlockParams(src: seq<byte>, hist: seq<byte>, offset: nat, mode: DictDirective, hash: seq<byte> -> nat): Params {
    // the limit on indexes is only looked for while the dictionary is short
    var issue := if |hist| < KB64 && |hist| < offset then DictSmall else NoDictIssue;
    Params(src, hist, offset, LimitedOutput, ByU32, mode, issue, B.Bounded(hash, B.HASH_SIZE_U32))
  }

  /** What LZ4_compress_fast_extState_fastReset asks for. */
  function ResetParams(src: seq<byte>, offset: nat, output: OutputDirective, t: TableType, hash: seq<byte> -> nat): Params {
    var issue := if t == ByU16 && offset != 0 then DictSmall else NoDictIssue;
    Params(src, [], offset, output, t, NoDict, issue, B.Bounded(hash, if t == ByU16 then B.HASH_SIZE_U16 else B.HASH_SIZE_U32))
  }

  /** bytes is what the greedy parse makes of src after hist, with this table. */
  ghost predicate GreedyAfter(src: seq<byte>, hist: seq<byte>, offset: nat, hash: seq<byte> -> nat, acceleration: nat,
                              table: seq<nat>, bytes: seq<byte>) {
    || B.G.GreedyBlock(BlockParams(src, hist, offset, WithPrefix64k, hash), acceleration, table, bytes)
    || B.G.GreedyBlock(BlockParams(src, hist, offset, UsingExtDict, hash), acceleration, table, bytes)
  }

  /** Choosing noDictIssue is justified: whatever the table holds, the check
      that is skipped would not have turned down more. */
  lemma NoDictIssueIsSafe(p: Params, idx: nat)
    requires p.tableType == ByU32 && |p.hist| <= p.startIndex && idx < p.startIndex && Past(idx, p.startIndex)
    requires p.dict == UsingExtDict ==> |p.hist| == 0 || |p.hist| >= MINMATCH
    requires p.issue == NoDictIssue ==> |p.hist| >= KB64 || |p.hist| == p.startIndex
    ensures OldEntry(p, idx)
  {
  }

  /** An index left by an earlier call that is not part of the history is never
      taken for a match: by the limit of dictSmall, or because it is too far. */
  lemma EarlierRejected(p: Params, idx: nat)
    requires p.hist == [] && idx < p.startIndex && Past(idx, p.startIndex)
    requires if p.tableType == ByU16 then p.issue == DictSmall else idx == 0 && p.startIndex > DISTANCE_MAX
    ensures Rejected(p, idx)
  {
  }

  /** Before an index would reach 2^32, the tables are scaled down: the test of
      LZ4_renormDictT, in 32 bits. */
  predicate RenormFires(currentOffset: nat, nextSize: nat) {
    (currentOffset + nextSize) % U32_RANGE > RENORM_LIMIT
  }

  /** currentOffset += inputSize, in 32 bits. */
  function OffsetAfter(currentOffset: nat, inputSize: nat): (offset: nat)
    ensures offset < U32_RANGE
  {
    (currentOffset + inputSize) % U32_RANGE
  }

  /** Indexes wrap around in a block if and only if it reaches 2^32: the offset
      after it is then smaller than before, and the test does not fire. */
  lemma WrapsExactly(currentOffset: nat, n: nat)
    requires currentOffset < U32_RANGE && n <= MAX_INPUT_SIZE
    ensures OffsetAfter(currentOffset, n) < currentOffset <==> currentOffset + n >= U32_RANGE
    ensures RenormFires(currentOffset, n) <==> RENORM_LIMIT < currentOffset + n < U32_RANGE
  {
  }

  /** The distance test of line 1004, in 32 bits. */
  predicate TooFar32(matchIndex: nat, current: nat) {
    (matchIndex + DISTANCE_MAX) % U32_RANGE < current
  }

  /** What goes wrong then: of the positions i that are too far from j, exactly
      those more than 64 KB before the wrap are no longer turned down behind it. */
  lemma FarAccepted(currentOffset: nat, i: nat, j: nat)
    requires currentOffset < U32_RANGE && i + DISTANCE_MAX < j <= MAX_INPUT_SIZE
    ensures !TooFar32(OffsetAfter(currentOffset, i), OffsetAfter(currentOffset, j))
            <==> currentOffset + i + DISTANCE_MAX < U32_RANGE <= currentOffset + j
  {
  }

  /** tableType of the context. */
  datatype TableUse = ClearedTable | Used(t: TableType)

  /** LZ4_stream_t_internal, without an attached dictionary context; pointers are
      addresses.  The same memory holds 4096 indexes of 32 bits or 8192 of 16. */
  class FastStream {
    const table: array<nat>
    var currentOffset: nat
    var tableType: TableUse
    var dictionary: int
    var dictSize: nat
    const hash: seq<byte> -> nat

    ghost predicate Valid()
      reads this, table
    {
      TableValid() && tableType != Used(ByU16) && NULL <= dictionary && (dictionary == NULL ==> dictSize == 0)
    }

    ghost predicate TableValid()
      reads this, table
    {
      && table.Length == B.HASH_SIZE_U16 && currentOffset < U32_RANGE && dictSize <= currentOffset
      && (forall i :: 0 <= i < table.Length ==> Past(table[i], currentOffset))
      && (Cleared() ==> currentOffset % KB64 == 0 && forall i :: 0 <= i < table.Length ==> table[i] == 0)
      && (tableType == Used(ByU16) ==> forall i :: 0 <= i < table.Length ==> table[i] < 0x1_0000)
    }

    predicate Cleared()
      reads `tableType
    {
      tableType == ClearedTable
    }

    /** The next block can be indexed in 32 bits, whatever its size. */
    predicate InRange()
      reads `currentOffset
    {
      currentOffset + MAX_INPUT_SIZE < U32_RANGE
    }

    /** So it can after LZ4_prepareTable: a table that was used is zeroed when the
        offset is high, but the gap is added to that of a cleared one without a check. */
    predicate Usable()
      reads `currentOffset, `tableType
    {
      match tableType
      case ClearedTable => currentOffset == 0 || currentOffset + KB64 + MAX_INPUT_SIZE < U32_RANGE
      case Used(t) => t == ByU16 ==> InRange()
    }

    /** The declared dictionary. */
    function Dictionary(mem: seq<byte>): seq<byte>
      reads `dictionary, `dictSize
    {
      Bytes(mem, dictionary, dictSize)
    }

    /** LZ4_createStream. */
    constructor (hash: seq<byte> -> nat)
      ensures Valid() && InRange() && Cleared() && dictionary == NULL && dictSize == 0 && currentOffset == 0 && fresh(table)
    {
      table := new nat[B.HASH_SIZE_U16](_ => 0);
      currentOffset, tableType, dictionary, dictSize := 0, ClearedTable, NULL, 0;
      this.hash := hash;
    }

    /** LZ4_resetStream, or LZ4_initStream. */
    method Reset()
      requires table.Length == B.HASH_SIZE_U16
      modifies this, table
      ensures Valid() && InRange() && Cleared() && dictionary == NULL && dictSize == 0 && currentOffset == 0
    {
      forall i | 0 <= i < table.Length { table[i] := 0; }
      currentOffset, tableType, dictionary, dictSize := 0, ClearedTable, NULL, 0;
    }

    /** When LZ4_prepareTable zeroes a table that was used. */
    predicate Zeroes(inputSize: nat, t: TableType)
      reads `currentOffset, `tableType
    {
      && !Cleared()
      && (|| tableType != Used(t)
          || (t == ByU16 && (currentOffset + inputSize) % U32_RANGE >= 0xFFFF)
          || (t == ByU32 && currentOffset > GB)
          || inputSize >= KB4)
    }

    /** LZ4_prepareTable. */
    method PrepareTable(inputSize: nat, t: TableType)
      requires TableValid()
      modifies this, table
      ensures Valid() || (TableValid() && t == ByU16)
      ensures dictionary == NULL && dictSize == 0 && (Cleared() || tableType == Used(t))
      ensures if old(Zeroes(inputSize, t)) then Cleared() && currentOffset == 0
              else && tableType == old(tableType)
                   && currentOffset == if t == ByU32 && old(currentOffset) != 0 then OffsetAfter(old(currentOffset), KB64) else old(currentOffset)
      // 16 bits hold the indexes of the source, unless the table was never filled but has an offset
      ensures t == ByU16 && MFLIMIT <= inputSize < LIMIT_64K && old(Usable()) ==>
                (currentOffset + inputSize <= LIMIT_64K <==> !(old(Cleared()) && old(currentOffset) != 0))
    {
      if !Cleared() {
        if tableType != Used(t)
           || (t == ByU16 && (currentOffset + inputSize) % U32_RANGE >= 0xFFFF)
           || (t == ByU32 && currentOffset > GB)
           || inputSize >= KB4
        {
          forall i | 0 <= i < table.Length { table[i] := 0; }
          currentOffset, tableType := 0, ClearedTable;
        }
      }
      // Adding a gap, so all previous entries are too far back.
      if currentOffset != 0 && t == ByU32 {
        currentOffset := OffsetAfter(currentOffset, KB64);
      }
      dictionary, dictSize := NULL, 0;
    }

    /** LZ4_resetStream_fast.  Every use of a table that was never filled moves an
        offset that is not 0 up by 64 KB; else the offset stays in range. */
    method ResetFast()
      requires TableValid()
      modifies this, table
      ensures Valid() && dictionary == NULL && dictSize == 0
      ensures !old(Cleared()) ==> InRange() && Usable()
      ensures old(Cleared()) ==>
                Cleared() && currentOffset == if old(currentOffset) == 0 then 0 else OffsetAfter(old(currentOffset), KB64)
      ensures old(InRange()) ==>
                (InRange() <==> !(old(Cleared()) && old(currentOffset) != 0
                                  && old(currentOffset) + KB64 + MAX_INPUT_SIZE >= U32_RANGE))
      ensures old(Cleared() ==> currentOffset == 0) ==> (Cleared() ==> currentOffset == 0)
    {
      PrepareTable(0, ByU32);
    }

    /** The slot of the eight bytes at position `at`. */
    function SlotOf(mem: seq<byte>, at: nat): nat
      requires at + HASH_UNIT <= |mem|
    {
      hash(mem[at..at + HASH_UNIT]) % B.HASH_SIZE_U32
    }

    /** Of the first k positions start, start + 3, start + 6, ... the newest that
        belongs to slot h, as an index; the dictionary ends at index 64 KB. */
    function NewestThird(mem: seq<byte>, start: nat, dictEnd: nat, k: nat, h: nat): int
      requires k > 0 ==> start + 3 * (k - 1) + HASH_UNIT <= |mem|
    {
      if k == 0 then 0
      else if SlotOf(mem, start + 3 * (k - 1)) == h then KB64 - (dictEnd - (start + 3 * (k - 1)))
      else NewestThird(mem, start, dictEnd, k - 1, h)
    }

    /** LZ4_loadDict: the last 64 KB of the dictionary, every third position. */
    method LoadDict(mem: seq<byte>, start: nat, size: nat) returns (loaded: nat)
      requires Valid() && start + size <= |mem|
      modifies this, table
      ensures Valid() && InRange() && Usable() && currentOffset == KB64 && loaded == dictSize && (Cleared() <==> size < HASH_UNIT)
      ensures dictionary + dictSize <= |mem|
      ensures Dictionary(mem) == if size < HASH_UNIT then [] else mem[start..start + size][if size > KB64 then size - KB64 else 0..]
      // the table knows the newest of every third position under each hash
      ensures size >= HASH_UNIT ==>
                && dictionary >= 0
                && forall h :: 0 <= h < table.Length ==>
                     table[h] == NewestThird(mem, dictionary, start + size, (dictSize - HASH_UNIT) / 3 + 1, h)
    {
      Reset();
      currentOffset := currentOffset + KB64;
      if size < HASH_UNIT {
        return 0;
      }
      var dictEnd := start + size;
      var p := if size > KB64 then dictEnd - KB64 else start;
      dictionary, dictSize, tableType := p, dictEnd - p, Used(ByU32);
      ghost var k := 0;
      while p + HASH_UNIT <= dictEnd
        modifies table
        invariant p == dictionary + 3 * k && (k > 0 ==> p - 3 + HASH_UNIT <= dictEnd)
        invariant forall h :: 0 <= h < table.Length ==> table[h] == NewestThird(mem, dictionary, dictEnd, k, h)
        invariant forall i :: 0 <= i < table.Length ==> Past(table[i], currentOffset)
      {
        table[SlotOf(mem, p)] := currentOffset - (dictEnd - p);
        p, k := p + 3, k + 1;
      }
      loaded := dictSize;
    }

    /** LZ4_renormDictT. */
    method Renorm(nextSize: nat)
      requires Valid() && InRange() && nextSize <= MAX_INPUT_SIZE
      modifies this, table
      ensures Valid() && currentOffset + nextSize <= RENORM_LIMIT
      ensures dictSize <= old(dictSize) && (dictSize > 0 ==> dictionary + dictSize == old(dictionary + dictSize))
      ensures old(dictSize) == 0 ==> dictionary == old(dictionary)
      ensures dictionary + dictSize == old(dictionary + dictSize)
      ensures tableType == old(tableType)
      ensures if old(RenormFires(currentOffset, nextSize)) then
                && currentOffset == KB64 && dictSize == Least(old(dictSize), KB64)
                && forall k :: 0 <= k < table.Length ==>
                     table[k] == if old(table[k] + KB64 < currentOffset) then 0 else old(table[k]) + KB64 - old(currentOffset)
              else currentOffset == old(currentOffset) && dictSize == old(dictSize) && table[..] == old(table[..])
    {
      if RenormFires(currentOffset, nextSize) {
        var delta := currentOffset - KB64;
        var dictEnd := dictionary + dictSize;
        var i := 0;
        while i < table.Length
          modifies table
          invariant 0 <= i <= table.Length
          invariant forall k :: 0 <= k < i ==> Past(table[k], KB64)
          invariant forall k :: i <= k < table.Length ==> Past(table[k], currentOffset)
          invariant forall k :: 0 <= k < i ==>
                      table[k] == if old(table[k]) < delta then 0 else old(table[k]) - delta
          invariant forall k :: i <= k < table.Length ==> table[k] == old(table[k])
          invariant Cleared() ==> forall k :: 0 <= k < table.Length ==> table[k] == 0
        {
          if table[i] < delta { table[i] := 0; } else { table[i] := table[i] - delta; }
          i := i + 1;
        }
        currentOffset := KB64;
        if dictSize > KB64 { dictSize := KB64; }
        dictionary := dictEnd - dictSize;
      }
    }

    /** Lines 1580-1597: tiny dictionaries are dropped, and what the source
        overwrites is cut off. */
    method Declare(source: nat, inputSize: nat) returns (dictEnd: int)
      requires Valid()
      modifies this`dictionary, this`dictSize
      ensures Valid() && dictEnd == dictionary + dictSize && dictSize <= old(dictSize)
      ensures dictEnd != source ==> dictSize == 0 || dictSize >= MINMATCH
      ensures dictSize > 0 ==> dictEnd == old(dictionary + dictSize)
      ensures old(dictionary) < source + inputSize < old(dictionary + dictSize) ==> dictSize <= old(dictionary + dictSize) - (source + inputSize)
      // nothing else is lost
      ensures var end, kept := old(dictionary + dictSize), old(dictionary + dictSize) - (source + inputSize);
              if 1 <= old(dictSize) < 4 && end != source then dictSize == 0
              else if old(dictionary) < source + inputSize < end then dictSize == if kept < 4 then 0 else Least(kept, KB64)
              else dictSize == old(dictSize) && dictionary == old(dictionary)
    {
      dictEnd := dictionary + dictSize;
      if 1 <= dictSize < 4 && dictEnd != source {
        dictSize, dictionary, dictEnd := 0, source, source;
      }
      var sourceEnd := source + inputSize;
      if sourceEnd > dictionary && sourceEnd < dictEnd {
        dictSize := dictEnd - sourceEnd;
        if dictSize > KB64 { dictSize := KB64; }
        if dictSize < 4 { dictSize := 0; }
        dictionary := dictEnd - dictSize;
      }
    }

    /** LZ4_compress_generic_validated with a byU32 table, after the history hist. */
    method CompressBlock(src: seq<byte>, hist: seq<byte>, mode: DictDirective, dst: array<byte>, acceleration: nat)
      returns (result: nat)
      requires TableValid() && |hist| == dictSize && acceleration >= 1 && mode != NoDict
      requires 1 <= |src| <= MAX_INPUT_SIZE && currentOffset + |src| <= RENORM_LIMIT
      requires mode == UsingExtDict ==> dictSize == 0 || dictSize >= MINMATCH
      modifies this`currentOffset, this`dictSize, this`tableType, table, dst
      ensures TableValid() && currentOffset == old(currentOffset) + |src| && dictSize == old(dictSize) + |src|
      ensures tableType == Used(ByU32)
      ensures result > 0 ==> result <= dst.Length && Decodes(dst[..result], hist, src)
      ensures AsGoodAsPlain(|src|, dst.Length, result)
      ensures result > 0 ==> GreedyAfter(src, hist, old(currentOffset), hash, acceleration, old(table[..]), dst[..result])
    {
      hide Decodes, OldEntry, Grown, HashFits, Past, AsGoodAsPlain, PlainSize, CompressBound, B.G.GreedyBlock;
      var p := BlockParams(src, hist, currentOffset, mode, hash);
      BoundedFits(hash);
      ghost var before := table[..];
      forall i | 0 <= i < table.Length && table[i] < p.startIndex ensures OldEntry(p, table[i]) {
        NoDictIssueIsSafe(p, table[i]);
      }
      PastIsBelow(before, p.startIndex);
      dictSize := dictSize + |src|;
      currentOffset := OffsetAfter(currentOffset, |src|);
      tableType := Used(ByU32);
      var consumed;
      result, consumed := E.CompressValidated(p, table, dst, acceleration);
      assert src[..|src|] == src;
      GrownIsPast(p, before, table[..]);
    }

    /** LZ4_compress_generic. */
    method CompressGeneric(src: seq<byte>, hist: seq<byte>, mode: DictDirective, dst: array<byte>, acceleration: nat)
      returns (result: nat)
      requires TableValid() && |hist| == dictSize && acceleration >= 1 && mode != NoDict
      requires |src| <= MAX_INPUT_SIZE && currentOffset + |src| <= RENORM_LIMIT
      requires mode == UsingExtDict ==> dictSize == 0 || dictSize >= MINMATCH
      modifies this`currentOffset, this`dictSize, this`tableType, table, dst
      ensures TableValid() && currentOffset == old(currentOffset) + |src| && dictSize == old(dictSize) + |src|
      ensures tableType == if |src| > 0 then Used(ByU32) else old(tableType)
      ensures result > 0 ==> result <= dst.Length && Decodes(dst[..result], hist, src)
      ensures AsGoodAsPlain(|src|, dst.Length, result)
      ensures result > 0 ==> GreedyAfter(src, hist, old(currentOffset), hash, acceleration, old(table[..]), dst[..result])
    {
      hide Decodes, Past;
      if |src| > 0 {
        result := CompressBlock(src, hist, mode, dst, acceleration);
      } else {
        if dst.Length <= 0 { return 0; }
        dst[0] := 0;
        EmptyAfter(dst[..1], hist);
        result := 1;
      }
    }

    /** LZ4_compress_generic_validated on a prepared table, without history. */
    method CompressPrepared(src: seq<byte>, dst: array<byte>, t: TableType, output: OutputDirective, acceleration: nat) returns (result: nat)
      requires TableValid() && dictSize == 0 && (Cleared() || tableType == Used(t)) && acceleration >= 1 && output != FillOutput
      requires 1 <= |src| <= MAX_INPUT_SIZE && currentOffset + |src| < U32_RANGE
      requires t == ByU16 ==> |src| <= LIMIT_64K && (currentOffset + |src| <= LIMIT_64K || (Cleared() && currentOffset != 0))
      requires t == ByU32 ==> currentOffset == 0 || (Cleared() && currentOffset > DISTANCE_MAX)
      requires output == NotLimited ==> CompressBound(|src|) <= dst.Length
      modifies this`currentOffset, this`dictSize, this`tableType, table, dst
      ensures TableValid() && currentOffset == old(currentOffset) + |src| && tableType == Used(t)
      ensures result > 0 ==> result <= dst.Length && Decodes(dst[..result], [], src)
      ensures AsGoodAsPlain(|src|, dst.Length, result)
      ensures result > 0 ==>
                B.G.GreedyBlock(ResetParams(src, old(currentOffset), output, t, hash), acceleration, old(table[..]), dst[..result])
    {
      hide Decodes, OldEntry, Grown, HashFits, Past, AsGoodAsPlain, PlainSize, CompressBound, B.G.GreedyBlock;
      var p := ResetParams(src, currentOffset, output, t, hash);
      SizedFits(hash, if t == ByU16 then B.HASH_SIZE_U16 else B.HASH_SIZE_U32);
      ghost var before := table[..];
      PastIsBelow(before, p.startIndex);
      forall i | 0 <= i < table.Length && table[i] < p.startIndex ensures OldEntry(p, table[i]) {
        EarlierRejected(p, table[i]);
        RejectedIsOld(p, table[i]);
      }
      dictSize := dictSize + |src|;
      currentOffset := OffsetAfter(currentOffset, |src|);
      tableType := Used(t);
      var consumed;
      result, consumed := E.CompressValidated(p, table, dst, acceleration);
      assert src[..|src|] == src;
      GrownIsPast(p, before, table[..]);
      GrownIs16(p, before, table[..]);
    }

    /** LZ4_compress_fast_extState_fastReset: the state was used before, and is used
        again.  No entry left by an earlier call is taken for a match, since the
        block decodes after nothing. */
    method FastReset(src: seq<byte>, dst: array<byte>, acceleration: int) returns (result: nat)
      requires TableValid() && Usable()
      modifies this, table, dst
      ensures TableValid() && (|src| <= MAX_INPUT_SIZE ==> Usable())
      ensures old(Cleared() ==> currentOffset == 0) ==> (Cleared() ==> currentOffset == 0) && Usable()
      ensures result > 0 ==> result <= dst.Length && Decodes(dst[..result], [], src)
      ensures AsGoodAsPlain(|src|, dst.Length, result)
    {
      hide Decodes, Past;
      var a := B.Accelerated(acceleration);
      var output := if dst.Length >= CompressBound(|src|) then NotLimited else LimitedOutput;
      var t := if |src| < LIMIT_64K then ByU16 else ByU32;
      PrepareTable(|src|, t);
      if |src| > MAX_INPUT_SIZE {
        return 0;
      }
      if |src| == 0 {
        if output != NotLimited && dst.Length <= 0 { return 0; }
        dst[0] := 0;
        EmptyAfter(dst[..1], []);
        return 1;
      }
      OffsetMultiple(currentOffset, KB64 + MAX_INPUT_SIZE);
      result := CompressPrepared(src, dst, t, output, a);
    }

    /** LZ4_saveDict: the end of the dictionary moves to a place of its own. */
    method SaveDict(memory: array<byte>, safeBuffer: nat, size: nat) returns (saved: nat)
      requires Valid() && dictionary + dictSize <= memory.Length && safeBuffer + size <= memory.Length
      modifies this`dictionary, this`dictSize, memory
      ensures Valid() && saved == dictSize <= size && dictionary == safeBuffer
      ensures saved == (if size <= KB64 && size <= old(dictSize) then size else if KB64 <= old(dictSize) then KB64 else old(dictSize))
      ensures IsSuffix(Dictionary(memory[..]), old(Dictionary(memory[..])))
      ensures memory[..safeBuffer] == old(memory[..safeBuffer])
      ensures memory[safeBuffer + saved..] == old(memory[safeBuffer + saved..])
    {
      hide Past, IsSuffix, Bytes;
      saved := if size > KB64 then KB64 else size;
      if saved > dictSize { saved := dictSize; }
      ghost var was := memory[..];
      if saved > 0 {
        Move(memory, dictionary + dictSize - saved, safeBuffer, saved);
      }
      Moved(was, memory[..], dictionary, dictSize, safeBuffer, saved);
      dictionary, dictSize := safeBuffer, saved;
    }

    /** LZ4_compress_fast_continue.  hist is the dictionary in use: the declared
        one, or an end of it; every match of the block lies in it or in the
        source, and the block decodes after it.  After a success the dictionary
        ends with this source, and indexes are in range again. */
    method CompressFastContinue(mem: seq<byte>, source: nat, inputSize: nat, dst: array<byte>, acceleration: int)
      returns (result: nat, ghost hist: seq<byte>)
      requires Valid() && InRange() && inputSize <= MAX_INPUT_SIZE
      requires source + inputSize <= |mem| && dictionary + dictSize <= |mem|
      modifies this, table, dst
      ensures Valid() && InRange()
      ensures IsSuffix(hist, old(Dictionary(mem)))
      ensures source + inputSize < old(dictionary + dictSize) ==> |hist| <= old(dictionary + dictSize) - (source + inputSize)
      ensures result > 0 ==> result <= dst.Length && Decodes(dst[..result], hist, mem[source..source + inputSize])
      ensures AsGoodAsPlain(inputSize, dst.Length, result)
      ensures result > 0 && !old(RenormFires(currentOffset, inputSize)) ==>
                GreedyAfter(mem[source..source + inputSize], hist, old(currentOffset), hash, B.Accelerated(acceleration), old(table[..]), dst[..result])
      ensures inputSize > 0 ==> dictionary + dictSize == source + inputSize
      ensures inputSize > 0 ==> dictSize == inputSize || (dictSize == |hist| + inputSize && old(dictionary + dictSize) == source)
      ensures inputSize > 0 ==> IsSuffix(Dictionary(mem), hist + mem[source..source + inputSize])
      ensures inputSize > 0 ==> !Cleared()
    {
      hide Decodes, Bytes, Past, GreedyAfter, AsGoodAsPlain, Least;
      Renorm(inputSize);
      var dictEnd := Declare(source, inputSize);
      var a := B.Accelerated(acceleration);
      var dict := Bytes(mem, dictionary, dictSize);
      hist := dict;
      DictionaryEnd(mem, old(dictionary), old(dictSize), dictionary, dictSize);
      if dictEnd == source {
        result := CompressGeneric(mem[source..source + inputSize], dict, WithPrefix64k, dst, a);
      } else {
        result := CompressGeneric(mem[source..source + inputSize], dict, UsingExtDict, dst, a);
        dictionary, dictSize := source, inputSize;
      }
      if inputSize > 0 {
        DictionaryGrows(mem, dictionary, dictSize, source, inputSize, hist);
      }
    }
  }

  /** A multiple of 64 KB below a limit that is one is 64 KB below it. */
  lemma OffsetMultiple(offset: nat, n: nat)
    requires n % KB64 == 0
    ensures offset % KB64 == 0 && offset + n < U32_RANGE ==> offset + n + KB64 <= U32_RANGE
  {
  }

  /** A state that leaves its range: a tiny dictionary is loaded, and the stream is
      reset 33279 times. */
  method ResetsAfterTinyDict(mem: seq<byte>, resets: nat, hash: seq<byte> -> nat) returns (s: FastStream)
    requires |mem| < HASH_UNIT && resets < 0xFFFF
    ensures s.Valid() && s.Cleared() && s.currentOffset == (resets + 1) * KB64
    ensures s.InRange() <==> resets < 33279
  {
    s := new FastStream(hash);
    var loaded := s.LoadDict(mem, 0, |mem|);
    for i := 0 to resets
      invariant s.Valid() && s.Cleared() && s.currentOffset == (i + 1) * KB64
      invariant fresh(s) && fresh(s.table)
    {
      s.ResetFast();
    }
  }

  lemma SizedFits(hash: seq<byte> -> nat, size: nat)
    requires 0 < size <= B.HASH_SIZE_U16
    ensures HashFits(B.Bounded(hash, size), B.HASH_SIZE_U16)
  {
  }

  lemma RejectedIsOld(p: Params, idx: nat)
    requires Rejected(p, idx)
    ensures OldEntry(p, idx)
  {
  }

  /** A cleared table with an offset finds no match in 16 bits: the low bits it
      stores are always below the window. */
  lemma NothingFound(p: Params, idx: nat)
    requires Unindexed(p)
    ensures Rejected(p, Stored(p.(tableType := ByU16), idx))
  {
  }

  /** Sixteen bits hold every position of the source, or its low bits. */
  lemma GrownIs16(p: Params, before: seq<nat>, after: seq<nat>)
    requires Grown(p, before, after)
    requires p.tableType == ByU16 ==> (p.startIndex + |p.src| <= LIMIT_64K || p.startIndex >= 0x1_0000)
    requires p.tableType == ByU16 ==> forall i :: 0 <= i < |before| ==> before[i] < 0x1_0000
    ensures p.tableType == ByU16 ==> forall i :: 0 <= i < |after| ==> after[i] < 0x1_0000
  {
  }

  lemma BoundedFits(hash: seq<byte> -> nat)
    ensures HashFits(B.Bounded(hash, B.HASH_SIZE_U32), B.HASH_SIZE_U16)
  {
  }

  lemma PastIsBelow(table: seq<nat>, startIndex: nat)
    requires forall i :: 0 <= i < |table| ==> Past(table[i], startIndex)
    ensures forall i :: 0 <= i < |table| ==> table[i] < startIndex || (startIndex == 0 && table[i] == 0)
  {
  }

  lemma EmptyAfter(a: seq<byte>, h: seq<byte>)
    requires a == [0]
    ensures Decodes(a, h, [])
  {
    assert a == EncBlock([], []);
    DecodeBlock([], [], h, Lenient);
    DecodeBlock([], [], h, Strict(|h|));
  }

  lemma GrownIsPast(p: Params, before: seq<nat>, after: seq<nat>)
    requires Grown(p, before, after) && p.startIndex >= 0
    requires forall i :: 0 <= i < |before| ==> Past(before[i], p.startIndex)
    ensures forall i :: 0 <= i < |after| ==> Past(after[i], p.startIndex + |p.src|)
  {
  }

  /** memmove. */
  method Move(memory: array<byte>, from: nat, to: nat, n: nat)
    requires from + n <= memory.Length && to + n <= memory.Length
    modifies memory
    ensures memory[to..to + n] == old(memory[from..from + n])
    ensures memory[..to] == old(memory[..to]) && memory[to + n..] == old(memory[to + n..])
  {
    forall i | 0 <= i < n { memory[to + i] := memory[from + i]; }
  }

  lemma Moved(a: seq<byte>, b: seq<byte>, start: int, size: nat, safeBuffer: nat, saved: nat)
    requires |a| == |b| && start + size <= |a| && safeBuffer + saved <= |a| && saved <= size && (size > 0 ==> 0 <= start)
    requires saved > 0 ==> b[safeBuffer..safeBuffer + saved] == a[start + size - saved..start + size]
    ensures IsSuffix(Bytes(b, safeBuffer, saved), Bytes(a, start, size))
  {
  }

  /** After a block, the dictionary is the block, or the history and the block. */
  lemma DictionaryGrows(mem: seq<byte>, start: int, size: nat, source: nat, n: nat, hist: seq<byte>)
    requires source + n <= |mem| && start + size == source + n && 0 <= start
    requires size == n || (size == |hist| + n && hist == Bytes(mem, source - |hist|, |hist|))
    ensures IsSuffix(Bytes(mem, start, size), hist + mem[source..source + n])
  {
    if size != n {
      assert mem[start..start + size] == mem[start..source] + mem[source..source + n];
    }
  }

  /** A shorter dictionary with the same end is an end of the dictionary. */
  lemma DictionaryEnd(mem: seq<byte>, start: int, size: nat, start': int, size': nat)
    requires size' <= size && (size' > 0 ==> start + size == start' + size')
    requires start + size <= |mem| && (size > 0 ==> 0 <= start)
    ensures |Bytes(mem, start', size')| == size'
    ensures IsSuffix(Bytes(mem, start', size'), Bytes(mem, start, size))
  {
  }
}
