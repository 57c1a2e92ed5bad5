/** LZ4_decompress_generic, for the endOnInputSize instances: the fast loop,
    the safe loop with its two-stage shortcut, and every over-copy.  dst ends
    where the declared output capacity ends, so each array access below is an
    access inside the buffers the caller declared. */
module Decoder {
  import opened Format
  import opened Common
  import opened Memory
  import opened DecoderSteps

  const FASTLOOP_SAFE_DISTANCE: int := 64
  const MATCH_SAFEGUARD_DISTANCE: int := 12

  datatype DictMode = NoDict | WithPrefix64k | UsingExtDict

  /** The constant parameters of one call.  lowPrefix is the index in dst of
      the first byte of history that precedes the output in place; dict is the
      external dictionary (empty unless UsingExtDict). */
  datatype Call = Call(src: seq<byte>, lowPrefix: nat, mode: DictMode, dict: seq<byte>, partialDecoding: bool)

  predicate ValidCall(c: Call, start: nat) {
    && c.lowPrefix <= start
    && (c.mode == WithPrefix64k ==> c.lowPrefix + DISTANCE_MAX <= start)
    && (c.mode != UsingExtDict ==> c.dict == [])
  }

  /** History and output, as one sequence, when op is the write index. */
  function View(c: Call, a: seq<byte>, op: nat): seq<byte>
    requires c.lowPrefix <= op <= |a|
  {
    c.dict + a[c.lowPrefix..op]
  }

  /** No length field of the block overflows the U32 it is summed in. */
  predicate LengthsFit(src: seq<byte>, g: Goal) {
    |src| <= 0x100_0000 || (g.strict.Done? && g.total < U32_RANGE)
  }

  // ---------------------------------------------------------------------
  // The output as a sequence
  // ---------------------------------------------------------------------

  lemma ViewKept(c: Call, a: seq<byte>, b: seq<byte>, op: nat)
    requires c.lowPrefix <= op <= |a| && op <= |b| && a[..op] == b[..op]
    ensures View(c, a, op) == View(c, b, op)
  {
    assert a[c.lowPrefix..op] == a[..op][c.lowPrefix..];
    assert b[c.lowPrefix..op] == b[..op][c.lowPrefix..];
  }

  /** m bytes were copied from the input on behalf of n <= m literals. */
  lemma ViewLiterals(c: Call, a: seq<byte>, b: seq<byte>, op: nat, ip: nat, n: nat, m: nat)
    requires c.lowPrefix <= op <= |a| && n <= m && op + m <= |b| && a[..op] == b[..op]
    requires ip + m <= |c.src| && b[op..op + m] == c.src[ip..ip + m]
    ensures View(c, b, op + n) == View(c, a, op) + c.src[ip..ip + n]
  {
    ViewKept(c, a, b, op);
    assert b[op..op + n] == b[op..op + m][..n] == c.src[ip..ip + m][..n] == c.src[ip..ip + n];
    assert b[c.lowPrefix..op + n] == b[c.lowPrefix..op] + b[op..op + n];
  }

  /** A stretch with period offset is a match copied out of the prefix. */
  lemma ViewMatch(c: Call, a: seq<byte>, b: seq<byte>, op: nat, offset: nat, cpy: nat, hi: nat)
    requires c.lowPrefix <= op <= |a| && op <= cpy <= hi <= |b| && a[..op] == b[..op]
    requires 1 <= offset <= op - c.lowPrefix && Periodic(b, op, hi, offset)
    ensures View(c, b, cpy) == CopyMatch(View(c, a, op), offset, cpy - op)
  {
    ViewKept(c, a, b, op);
    var out, s := View(c, b, op), View(c, b, cpy);
    var shift := |c.dict| - c.lowPrefix;
    forall j, k | 0 <= j && |out| <= k < |s| && k == j + offset ensures s[k] == s[j] {
      assert s[k] == b[k - shift] && s[j] == b[j - shift];
    }
    PeriodicIsCopyMatch(out, offset, cpy - op, s);
  }

  // ---------------------------------------------------------------------
  // read_variable_length
  // ---------------------------------------------------------------------

  datatype LengthError = Ok | InitialError | LoopError

  /** Sums length bytes in 32 bits.  LoopError: the check position was reached;
      the sum is then complete only if its last byte was not 255. */
  method ReadVariableLength(src: seq<byte>, ip0: nat, lencheck: int, initialCheck: bool)
    returns (length: nat, ip: nat, error: LengthError)
    requires ip0 <= |src| && lencheck <= |src| && (initialCheck || ip0 < |src|)
    requires |src| <= 0x100_0000 || (ReadLen(src, ip0).Length? && ReadLen(src, ip0).value < U32_RANGE)
    ensures ip0 <= ip <= |src|
    ensures error == Ok ==> ReadLen(src, ip0) == Length(length, ip) && ip < lencheck
    ensures error == InitialError ==> initialCheck && ip0 >= lencheck
    ensures error == LoopError ==> ip >= lencheck
    ensures error == LoopError ==>
              ReadLen(src, ip0) == Length(length, ip)
              || (length >= 255 && (ReadLen(src, ip0).Length? ==> ReadLen(src, ip0).value >= length && ReadLen(src, ip0).next > ip))
  {
    length, ip, error := 0, ip0, Ok;
    if initialCheck && ip >= lencheck {
      error := InitialError;
      return;
    }
    while true
      invariant ip0 <= ip < |src| && error == Ok
      invariant length == 255 * (ip - ip0)
      invariant ReadLen(src, ip0) == Plus(ReadLen(src, ip), length)
      decreases |src| - ip
    {
      var s := src[ip];
      ip := ip + 1;
      assert length + s < U32_RANGE;
      length := (length + s) % U32_RANGE;
      if ip >= lencheck {
        error := LoopError;
        return;
      }
      if s != 255 { break; }
    }
  }

  function Plus(l: Length, n: nat): Length {
    if l.NoLength? then l else Length(l.value + n, l.next)
  }

  // ---------------------------------------------------------------------
  // Matches
  // ---------------------------------------------------------------------

  /** `while (op < end) *op++ = *match++`. */
  method BytewiseCopy(dst: array<byte>, op: nat, offset: nat, end: nat)
    requires offset <= op <= end <= dst.Length
    modifies dst
    ensures dst[..op] == old(dst[..op])
    ensures offset >= 1 ==> Periodic(dst[..], op, end, offset)
  {
    var p := op;
    while p < end
      invariant op <= p <= end
      invariant dst[..op] == old(dst[..op])
      invariant offset >= 1 ==> Periodic(dst[..], op, p, offset)
    {
      dst[p] := dst[p - offset];
      p := p + 1;
    }
  }

  /** The match copy of the safe loop.  Fails when the match would end within
      the last five bytes of the output buffer. */
  method SafeBlockMatch(dst: array<byte>, op: nat, offset: nat, length: nat) returns (ok: bool)
    requires offset <= op && op + 8 <= dst.Length && length >= MINMATCH
    modifies dst
    ensures dst[..op] == old(dst[..op])
    ensures ok <==> op + length <= dst.Length - LASTLITERALS
    ensures ok && offset >= 1 ==> Periodic(dst[..], op, op + length, offset)
  {
    var oend, cpy := dst.Length, op + length;
    var distance := FirstEight(dst, op, offset);
    var op8 := op + 8;
    ok := true;
    if cpy > oend - MATCH_SAFEGUARD_DISTANCE {
      if cpy > oend - LASTLITERALS {
        ok := false;
        return;
      }
      EndMatch(dst, op, offset, distance, cpy);
    } else {
      SixteenAndMore(dst, op, offset, distance, length);
    }
  }

  /** Up to 7 bytes before the end of the buffer by stripes, then by bytes. */
  method EndMatch(dst: array<byte>, op: nat, ghost offset: nat, distance: nat, cpy: nat)
    requires offset <= op && op + 8 <= dst.Length && op + 4 <= cpy <= dst.Length - LASTLITERALS
    requires 8 <= distance <= op + 8
    requires offset >= 1 ==> distance <= 8 + offset && Multiple(distance, offset) && Periodic(dst[..], op, op + 8, offset)
    modifies dst
    ensures dst[..op] == old(dst[..op])
    ensures offset >= 1 ==> Periodic(dst[..], op, cpy, offset)
  {
    var oCopyLimit := dst.Length - (WILDCOPYLENGTH - 1);
    ghost var m0 := dst[..];
    var p := op + 8;
    if p < oCopyLimit {
      WildCopy8(dst, p, distance, oCopyLimit);
      PrefixOfPrefix(m0, dst[..], op, op + 8);
      if offset >= 1 {
        PeriodicPrefix(m0, dst[..], op, op + 8, offset);
      }
      p := oCopyLimit;
    }
    ghost var m1 := dst[..];
    if p < cpy {
      BytewiseCopy(dst, p, distance, cpy);
      EndMatchPeriod(m1, dst[..], op, p, offset, distance, cpy);
    } else if offset >= 1 && cpy > op + 8 {
      PeriodicMultiple(dst[..], op, 8, p, offset, distance);
    }
  }

  lemma EndMatchPeriod(a: seq<byte>, b: seq<byte>, op: nat, p: nat, offset: nat, distance: nat, cpy: nat)
    requires offset <= op && op + 8 <= p <= cpy <= |a| && |b| == |a| && a[..p] == b[..p]
    requires 8 <= distance <= p
    requires offset >= 1 ==> distance <= 8 + offset && Multiple(distance, offset)
    requires offset >= 1 ==> Periodic(a, op, op + 8, offset) && Periodic(a, op + 8, p, distance)
    requires Periodic(b, p, cpy, distance)
    ensures a[..op] == b[..op]
    ensures offset >= 1 ==> Periodic(b, op, cpy, offset)
  {
    PrefixOfPrefix(a, b, op, p);
    if offset >= 1 {
      PrefixOfPrefix(a, b, op + 8, p);
      PeriodicPrefix(a, b, op, op + 8, offset);
      PeriodicPrefix(a, b, op + 8, p, distance);
      assert Periodic(b, op + 8, cpy, distance);
      PeriodicMultiple(b, op, 8, cpy, offset, distance);
    }
  }

  /** Eight bytes more, and a wild copy when the match is longer than 16. */
  method SixteenAndMore(dst: array<byte>, op: nat, ghost offset: nat, distance: nat, length: nat)
    requires offset <= op && 4 <= length && op + length <= dst.Length - MATCH_SAFEGUARD_DISTANCE
    requires 8 <= distance <= op + 8
    requires offset >= 1 ==> distance <= 8 + offset && Multiple(distance, offset) && Periodic(dst[..], op, op + 8, offset)
    modifies dst
    ensures dst[..op] == old(dst[..op])
    ensures offset >= 1 ==> Periodic(dst[..], op, op + length, offset)
  {
    ghost var m0 := dst[..];
    Stripe(dst, op + 8, op + 8, 8, distance);
    PrefixOfPrefix(m0, dst[..], op, op + 8);
    if offset >= 1 {
      PeriodicPrefix(m0, dst[..], op, op + 8, offset);
      PeriodicMultiple(dst[..], op, 8, op + 16, offset, distance);
    }
    if length > 16 {
      WildRest(dst, op, 16, offset, distance, op + length);
    }
  }

  /** Copying out of the external dictionary, and on into the prefix. */
  method CopyExtDict(c: Call, dst: array<byte>, op: nat, offset: nat, length: nat)
    requires c.lowPrefix <= op && op + length <= dst.Length
    requires op - c.lowPrefix < offset <= |c.dict| + op - c.lowPrefix
    modifies dst
    ensures dst[..op] == old(dst[..op])
    ensures View(c, dst[..], op + length) == CopyMatch(View(c, old(dst[..]), op), offset, length)
  {
    var inDict := offset - (op - c.lowPrefix);
    if length <= inDict {
      CopyIn(dst, op, c.dict, |c.dict| - inDict, length);
      ViewExtMatch(c, old(dst[..]), dst[..], op, offset, length, length);
    } else {
      CopyIn(dst, op, c.dict, |c.dict| - inDict, inDict);
      ghost var m1 := dst[..];
      var op1, restSize := op + inDict, length - inDict;
      if restSize > op1 - c.lowPrefix {
        BytewiseCopy(dst, op1, offset, op1 + restSize);
      } else {
        Stripe(dst, op1, op1, restSize, offset);
      }
      PrefixOfPrefix(m1, dst[..], op, op1);
      assert dst[op..op1] == dst[..op1][op..] == m1[..op1][op..] == m1[op..op1];
      ViewExtMatch(c, old(dst[..]), dst[..], op, offset, inDict, length);
    }
  }

  /** The bytes behind the dictionary are those of the output. */
  lemma ViewByte(c: Call, b: seq<byte>, end: nat, k: nat)
    requires c.lowPrefix <= end <= |b| && |c.dict| <= k < |View(c, b, end)|
    ensures View(c, b, end)[k] == b[k - |c.dict| + c.lowPrefix]
  {
  }

  lemma ViewExtMatch(c: Call, a: seq<byte>, b: seq<byte>, op: nat, offset: nat, n: nat, length: nat)
    requires c.lowPrefix <= op <= |a| && n <= length && op + length <= |b| && a[..op] == b[..op]
    requires op - c.lowPrefix < offset <= |c.dict| + op - c.lowPrefix
    requires n <= offset - (op - c.lowPrefix)
    requires var from := |c.dict| - (offset - (op - c.lowPrefix)); b[op..op + n] == c.dict[from..from + n]
    requires n < length ==> n == offset - (op - c.lowPrefix) && Periodic(b, op + n, op + length, offset)
    ensures View(c, b, op + length) == CopyMatch(View(c, a, op), offset, length)
  {
    ViewKept(c, a, b, op);
    var out, s := View(c, b, op), View(c, b, op + length);
    var shift := |c.dict| - c.lowPrefix;
    var from := |c.dict| - (offset - (op - c.lowPrefix));
    forall j, k | 0 <= j && |out| <= k < |s| && k == j + offset ensures s[k] == s[j] {
      ViewByte(c, b, op + length, k);
      if k - shift < op + n {
        assert b[k - shift] == b[op..op + n][k - shift - op] == c.dict[from..from + n][k - shift - op];
      } else {
        ViewByte(c, b, op + length, j);
      }
    }
    PeriodicIsCopyMatch(out, offset, length, s);
  }

  // ---------------------------------------------------------------------
  // The steps of the safe loop
  // ---------------------------------------------------------------------

  datatype Stop = Running | Finished | Failed

  /** A refusal is justified: the block breaks the strict rules, or (decoding a
      full block) its content does not fit in the output buffer. */
  predicate Refusal(c: Call, oend: nat, g: Goal)
  {
    g.strict.Done? ==> !c.partialDecoding && g.total + c.lowPrefix > |c.dict| + oend
  }

  /** full is what the format says was decoded; partial decoding may have cut
      it short at the end of the output buffer. */
  predicate Cut(c: Call, a: seq<byte>, op: nat, full: seq<byte>)
    requires c.lowPrefix <= op <= |a|
  {
    View(c, a, op) == full || (c.partialDecoding && op == |a| && View(c, a, op) <= full)
  }

  /** The outcome of a call that succeeds with op - start bytes. */
  predicate Success(c: Call, a: seq<byte>, op: nat, g: Goal)
    requires c.lowPrefix <= op <= |a|
  {
    if c.partialDecoding then
      g.strict.Done? ==>
        View(c, a, op) <= g.strict.out && (op == |a| || View(c, a, op) == g.strict.out)
    else
      Follows(g, Done(View(c, a, op)), Done(View(c, a, op)))
  }

  lemma CopyMatchPrefix(out: seq<byte>, offset: nat, m: nat, n: nat)
    requires 1 <= offset <= |out| && m <= n
    ensures CopyMatch(out, offset, m) <= CopyMatch(out, offset, n)
  {
    CopyMatchPeriodic(out, offset, n);
    var s := CopyMatch(out, offset, n)[..|out| + m];
    assert s[..|out|] == CopyMatch(out, offset, n)[..|out|];
    PeriodicIsCopyMatch(out, offset, m, s);
  }

  /** The literal length of a token whose high nibble is 15. */
  method ReadLiteralLength(c: Call, ip: nat, ghost g: Goal, ghost full: seq<byte>)
    returns (ip': nat, length: nat, ok: bool)
    requires ip < |c.src| && c.src[ip] / 16 == RUN_MASK && Tok(c.src, ip, full, g) && LengthsFit(c.src, g)
    ensures !ok ==> !g.strict.Done?
    ensures ok ==> ip < ip' <= |c.src|
    ensures ok ==> Lit(c.src, ip', full, c.src[ip], length, g)
                   || (!g.strict.Done? && ip' + length > |c.src|)
  {
    LongToken(c.src, ip, full, g);
    if g.strict.Done? {
      LongTokenBound(c.src, ip, full, g);
    }
    hide Tok, Lit;
    var error;
    length, ip', error := ReadVariableLength(c.src, ip + 1, |c.src| - RUN_MASK, true);
    length := length + RUN_MASK;
    ok := error != InitialError;
  }

  /** The match length of a token, from the label _copy_match on. */
  method ReadMatchLength(c: Call, ip: nat, token: byte, offset: nat, ghost g: Goal, ghost out: seq<byte>)
    returns (ip': nat, length: nat, ok: bool)
    requires ip < |c.src| && Len(c.src, ip, out, token, offset, g) && LengthsFit(c.src, g)
    ensures !ok ==> !g.strict.Done?
    ensures ok ==> token % 16 != ML_MASK ==> length <= 18
    ensures ok ==> ip <= ip' < |c.src| && length >= MINMATCH && Mat(c.src, ip', out, offset, length, g)
  {
    length, ip', ok := token % 16, ip, true;
    if length == ML_MASK {
      LongMatch(c.src, ip, out, token, offset, g);
      if g.strict.Done? {
        LongMatchBound(c.src, ip, out, token, offset, g);
      }
      hide Mat, Len;
      var error;
      length, ip', error := ReadVariableLength(c.src, ip, |c.src| - LASTLITERALS + 1, false);
      length := length + ML_MASK;
      ok := error == Ok;
    } else {
      ShortMatch(c.src, ip, out, token, offset, g);
    }
    length := length + MINMATCH;
  }

  /** Lines 1985-2052: copy the literals, or recognise the last sequence. */
  method SafeLiterals(c: Call, dst: array<byte>, ip: nat, op: nat, token: byte, length: nat, ghost g: Goal, ghost full: seq<byte>)
    returns (ip': nat, op': nat, stop: Stop)
    requires ip <= |c.src| && c.lowPrefix <= op <= dst.Length
    requires Lit(c.src, ip, full, token, length, g) || (!g.strict.Done? && ip + length > |c.src|)
    requires Cut(c, dst[..], op, full)
    modifies dst
    ensures dst[..op] == old(dst[..op])
    ensures op <= op' <= dst.Length && ip <= ip' <= |c.src|
    ensures stop == Failed ==> Refusal(c, dst.Length, g)
    ensures stop == Finished ==> Success(c, dst[..], op', g)
    ensures stop == Running ==> ip' + 2 < |c.src| && Off(c.src, ip', View(c, dst[..], op'), token, g)
    ensures stop == Running && !c.partialDecoding ==> op' + MFLIMIT <= dst.Length
  {
    var iend, oend := |c.src|, dst.Length;
    var cpy, len := op + length, length;
    if cpy > oend - MFLIMIT || ip + length > iend - (2 + 1 + LASTLITERALS) {
      if c.partialDecoding {
        if ip + len > iend {
          len := iend - ip;
          cpy := op + len;
        }
        if cpy > oend {
          cpy := oend;
          len := oend - op;
        }
      } else {
        if ip + length != iend || cpy > oend {
          FailedLiterals(c, dst[..], ip, op, token, length, g);
          return ip, op, Failed;
        }
      }
      CopyIn(dst, op, c.src, ip, len);   // memmove
      ip', op' := ip + len, op + len;
      EndLiterals(c, old(dst[..]), dst[..], ip, op, token, length, len, g, full);
      stop := if !c.partialDecoding || cpy == oend || ip' >= iend - 2 then Finished else Running;
    } else {
      WildLiterals(c, dst, ip, op, length);
      ip', op', stop := ip + length, cpy, Running;
      LiteralsInside(c.src, ip, full, token, length, g);
    }
  }

  /** LZ4_wildCopy8(op, ip, cpy), out of the input. */
  method WildLiterals(c: Call, dst: array<byte>, ip: nat, op: nat, length: nat)
    requires c.lowPrefix <= op && op + length + MFLIMIT <= dst.Length && ip + length + 8 <= |c.src|
    modifies dst
    ensures dst[..op] == old(dst[..op])
    ensures View(c, dst[..], op + length) == View(c, old(dst[..]), op) + c.src[ip..ip + length]
  {
    var n := 8;
    CopyIn(dst, op, c.src, ip, 8);
    while n < length
      invariant 8 <= n && (n == 8 || n < length + 8)
      invariant dst[..op] == old(dst[..op])
      invariant dst[op..op + n] == c.src[ip..ip + n]
    {
      ghost var was := dst[..];
      CopyIn(dst, op + n, c.src, ip + n, 8);
      LiteralStripe(was, dst[..], c.src, op, ip, n);
      n := n + 8;
    }
    ViewLiterals(c, old(dst[..]), dst[..], op, ip, length, n);
  }

  lemma LiteralStripe(a: seq<byte>, b: seq<byte>, src: seq<byte>, op: nat, ip: nat, n: nat)
    requires op + n + 8 <= |a| && |b| == |a| && ip + n + 8 <= |src|
    requires a[..op + n] == b[..op + n] && a[op..op + n] == src[ip..ip + n]
    requires b[op + n..op + n + 8] == src[ip + n..ip + n + 8]
    ensures a[..op] == b[..op] && b[op..op + n + 8] == src[ip..ip + n + 8]
  {
    PrefixOfPrefix(a, b, op, op + n);
    assert a[op..op + n] == a[..op + n][op..] && b[op..op + n] == b[..op + n][op..];
    assert b[op..op + n + 8] == b[op..op + n] + b[op + n..op + n + 8];
  }

  lemma FailedLiterals(c: Call, a: seq<byte>, ip: nat, op: nat, token: byte, length: nat, g: Goal)
    requires ip <= |c.src| && c.lowPrefix <= op <= |a| && !c.partialDecoding
    requires Lit(c.src, ip, View(c, a, op), token, length, g) || (!g.strict.Done? && ip + length > |c.src|)
    requires op + length > |a| - MFLIMIT || ip + length > |c.src| - (2 + 1 + LASTLITERALS)
    requires ip + length != |c.src| || op + length > |a|
    ensures Refusal(c, |a|, g)
  {
    if g.strict.Done? {
      StrictLiterals(c.src, ip, View(c, a, op), token, length, g);
    }
  }

  /** What the literals copied near the end of input or output amount to. */
  lemma EndLiterals(c: Call, a: seq<byte>, b: seq<byte>, ip: nat, op: nat, token: byte, length: nat, len: nat, g: Goal, full: seq<byte>)
    requires c.lowPrefix <= op && op + len <= |a| && |b| == |a| && len <= length && ip + len <= |c.src|
    requires Lit(c.src, ip, full, token, length, g) || (!g.strict.Done? && ip + length > |c.src|)
    requires Cut(c, a, op, full)
    requires a[..op] == b[..op] && b[op..op + len] == c.src[ip..ip + len]
    requires !c.partialDecoding ==> len == length && ip + length == |c.src|
    requires len < length ==> op + len == |a| || ip + len == |c.src|
    ensures !c.partialDecoding || op + len == |a| || ip + len >= |c.src| - 2 ==> Success(c, b, op + len, g)
    ensures c.partialDecoding && op + len < |a| && ip + len < |c.src| - 2 ==>
              Off(c.src, ip + len, View(c, b, op + len), token, g)
  {
    ViewLiterals(c, a, b, op, ip, len, len);
    var lits := c.src[ip..ip + len];
    if !c.partialDecoding {
      LiteralsAtEnd(c.src, ip, full, token, length, g);
      assert lits == c.src[ip..];
    } else {
      if g.strict.Done? {
        StrictLiterals(c.src, ip, full, token, length, g);
        LitPrefix(c.src, ip, full, token, length, g);
        CutLiterals(c, a, op, full, c.src[ip..ip + length], len);
        if ip + length == |c.src| {
          LiteralsAtEnd(c.src, ip, full, token, length, g);
          assert c.src[ip..ip + length] == c.src[ip..];
        }
      }
      if op + len < |a| && ip + len < |c.src| - 2 {
        LiteralsInside(c.src, ip, full, token, length, g);
      }
    }
  }

  lemma CutLiterals(c: Call, a: seq<byte>, op: nat, full: seq<byte>, lits: seq<byte>, len: nat)
    requires c.lowPrefix <= op && op + len <= |a| && len <= |lits|
    requires Cut(c, a, op, full)
    ensures View(c, a, op) + lits[..len] <= full + lits
    ensures View(c, a, op) != full ==> len == 0
  {
    if View(c, a, op) == full {
      assert full + lits[..len] == (full + lits)[..|full| + len];
    } else {
      assert lits[..len] == [];
      assert View(c, a, op) + [] == View(c, a, op);
      assert View(c, a, op) == full[..|View(c, a, op)|] == (full + lits)[..|View(c, a, op)|];
    }
  }

  /** Lines 2108-2119: a match that may be cut by the end of the output. */
  method PartialMatch(dst: array<byte>, op: nat, offset: nat, length: nat) returns (mlen: nat)
    requires offset <= op <= dst.Length
    modifies dst
    ensures dst[..op] == old(dst[..op])
    ensures mlen <= length && op + mlen <= dst.Length && (mlen < length ==> op + mlen == dst.Length)
    ensures offset >= 1 ==> Periodic(dst[..], op, op + mlen, offset)
  {
    mlen := if length < dst.Length - op then length else dst.Length - op;
    if mlen > offset {
      BytewiseCopy(dst, op, offset, op + mlen);
    } else if offset >= 1 {
      Stripe(dst, op, op, mlen, offset);
    }
  }

  /** Lines 2070-2151: check the offset and copy the match. */
  method SafeMatch(c: Call, dst: array<byte>, ip: nat, op: nat, offset: nat, length: nat, ghost g: Goal)
    returns (op': nat, stop: Stop, ghost full: seq<byte>)
    requires ip <= |c.src| && ValidCall(c, op) && op <= dst.Length && length >= MINMATCH && offset < KB64
    requires !c.partialDecoding ==> op + 8 <= dst.Length
    requires Mat(c.src, ip, View(c, dst[..], op), offset, length, g)
    modifies dst
    ensures dst[..op] == old(dst[..op])
    ensures op <= op' <= dst.Length
    ensures stop == Failed ==> Refusal(c, dst.Length, g)
    ensures stop == Finished ==> Success(c, dst[..], op', g)
    ensures stop == Running ==> Tok(c.src, ip, full, g) && Cut(c, dst[..], op', full)
  {
    ghost var a := dst[..];
    ghost var out := View(c, a, op);
    full := [];
    if |c.dict| < KB64 && offset > |c.dict| + op - c.lowPrefix {
      FarMatch(c.src, ip, out, offset, length, g);
      return op, Failed, full;
    }
    if c.mode == UsingExtDict && offset > op - c.lowPrefix {
      op', stop, full := ExtDictMatch(c, dst, ip, op, offset, length, g);
      return;
    }
    if c.partialDecoding && op + length > dst.Length - MATCH_SAFEGUARD_DISTANCE {
      var mlen := PartialMatch(dst, op, offset, length);
      op' := op + mlen;
      full := PartialMatchDone(c, a, dst[..], ip, op, offset, length, mlen, g);
      stop := if op' == dst.Length then Finished else Running;
      return;
    }
    var ok := SafeBlockMatch(dst, op, offset, length);
    if !ok {
      if g.strict.Done? {
        StrictMatch(c.src, ip, out, offset, length, g);
      }
      return op, Failed, full;
    }
    op', stop := op + length, Running;
    full := View(c, dst[..], op');
    BlockMatchDone(c, a, dst[..], ip, op, offset, length, op', g);
  }

  /** Lines 2075-2099. */
  method ExtDictMatch(c: Call, dst: array<byte>, ip: nat, op: nat, offset: nat, length: nat, ghost g: Goal)
    returns (op': nat, stop: Stop, ghost full: seq<byte>)
    requires ip <= |c.src| && c.lowPrefix <= op <= dst.Length && length >= MINMATCH
    requires op - c.lowPrefix < offset <= |c.dict| + op - c.lowPrefix
    requires Mat(c.src, ip, View(c, dst[..], op), offset, length, g)
    modifies dst
    ensures dst[..op] == old(dst[..op])
    ensures op <= op' <= dst.Length
    ensures stop == Failed ==> Refusal(c, dst.Length, g)
    ensures stop == Running ==> Tok(c.src, ip, full, g) && Cut(c, dst[..], op', full)
    ensures stop != Finished
  {
    ghost var out := View(c, dst[..], op);
    full := CopyMatch(out, offset, length);
    var len := length;
    if op + length > dst.Length - LASTLITERALS {
      if !c.partialDecoding {
        if g.strict.Done? {
          StrictMatch(c.src, ip, out, offset, length, g);
        }
        return op, Failed, full;
      }
      len := if length < dst.Length - op then length else dst.Length - op;
    }
    CopyExtDict(c, dst, op, offset, len);
    op', stop := op + len, Running;
    CopyMatchPrefix(out, offset, len, length);
    CopiedMatch(c.src, ip, out, offset, length, full, g);
  }

  /** A match copied in full within the prefix. */
  lemma BlockMatchDone(c: Call, a: seq<byte>, b: seq<byte>, ip: nat, op: nat, offset: nat, length: nat, hi: nat, g: Goal)
    requires ip <= |c.src| && c.lowPrefix <= op <= |a| && op + length <= hi <= |b| && a[..op] == b[..op]
    requires offset <= op - c.lowPrefix && (offset >= 1 ==> Periodic(b, op, hi, offset))
    requires Mat(c.src, ip, View(c, a, op), offset, length, g)
    ensures Tok(c.src, ip, View(c, b, op + length), g)
  {
    if offset >= 1 {
      ViewMatch(c, a, b, op, offset, op + length, hi);
    }
    CopiedMatch(c.src, ip, View(c, a, op), offset, length, View(c, b, op + length), g);
  }

  lemma PartialMatchDone(c: Call, a: seq<byte>, b: seq<byte>, ip: nat, op: nat, offset: nat, length: nat, mlen: nat, g: Goal)
    returns (full: seq<byte>)
    requires c.partialDecoding && ip <= |c.src| && c.lowPrefix <= op <= |a| && op + mlen <= |b| && a[..op] == b[..op]
    requires mlen <= length && (mlen < length ==> op + mlen == |b|)
    requires offset <= op - c.lowPrefix && (offset >= 1 ==> Periodic(b, op, op + mlen, offset))
    requires Mat(c.src, ip, View(c, a, op), offset, length, g)
    ensures op + mlen == |b| ==> Success(c, b, op + mlen, g)
    ensures op + mlen < |b| ==> Tok(c.src, ip, full, g) && Cut(c, b, op + mlen, full)
  {
    hide CopyMatch, Mat, Tok, View;
    full := View(c, b, op + mlen);
    if op + mlen < |b| {
      BlockMatchDone(c, a, b, ip, op, offset, length, op + mlen, g);
    } else if g.strict.Done? {
      MatPrefix(c.src, ip, View(c, a, op), offset, length, g);
      ViewMatch(c, a, b, op, offset, op + mlen, op + mlen);
      CopyMatchPrefix(View(c, a, op), offset, mlen, length);
      PrefixOf(full, CopyMatch(View(c, a, op), offset, length), g.strict.out);
    }
  }

  lemma PrefixOf(a: seq<byte>, b: seq<byte>, c: seq<byte>)
    requires a <= b && b <= c
    ensures a <= c
  {
  }

  /** Three memcpy of 8, 8 and 2 bytes: any match of at most 18 bytes. */
  method EighteenBytes(dst: array<byte>, op: nat, offset: nat)
    requires 8 <= offset <= op && op + 18 <= dst.Length
    modifies dst
    ensures dst[..op] == old(dst[..op])
    ensures Periodic(dst[..], op, op + 18, offset)
  {
    ghost var m0 := dst[..];
    Stripe(dst, op, op, 8, offset);
    ghost var m1 := dst[..];
    Stripe(dst, op, op + 8, 8, offset);
    ghost var m2 := dst[..];
    Stripe(dst, op, op + 16, 2, offset);
    PrefixOfPrefix(m1, m2, op, op + 8);
    PrefixOfPrefix(m2, dst[..], op, op + 16);
  }

  /** Sixteen bytes on behalf of at most 14 literals, then the offset. */
  method ShortLiterals(c: Call, dst: array<byte>, ip: nat, op: nat, token: byte, ghost g: Goal)
    returns (ip': nat, op': nat, offset: nat)
    requires token / 16 != RUN_MASK && ip + 16 < |c.src| && c.lowPrefix <= op && op + 16 <= dst.Length
    requires Lit(c.src, ip, View(c, dst[..], op), token, token / 16, g)
    modifies dst
    ensures dst[..op] == old(dst[..op])
    ensures ip < ip' < |c.src| && op' == op + token / 16 && offset < KB64
    ensures Len(c.src, ip', View(c, dst[..], op'), token, offset, g)
  {
    var length := token / 16;
    ghost var a := dst[..];
    CopyIn(dst, op, c.src, ip, 16);
    ViewLiterals(c, a, dst[..], op, ip, length, 16);
    LiteralsInside(c.src, ip, View(c, a, op), token, length, g);
    ip', op' := ip + length, op + length;
    ReadOffset(c.src, ip', View(c, dst[..], op'), token, g);
    offset := LE16(c.src[ip'], c.src[ip' + 1]);
    ip' := ip' + 2;
  }

  /** A short match that does not overlap its output: 18 bytes on its behalf. */
  method ShortCopy(c: Call, dst: array<byte>, ip: nat, op: nat, token: byte, offset: nat, ghost g: Goal)
    requires token % 16 != ML_MASK && ip <= |c.src| && ValidCall(c, op) && op + 18 <= dst.Length
    requires 8 <= offset < KB64 && (c.mode == WithPrefix64k || offset <= op - c.lowPrefix)
    requires Len(c.src, ip, View(c, dst[..], op), token, offset, g)
    modifies dst
    ensures dst[..op] == old(dst[..op])
    ensures Tok(c.src, ip, View(c, dst[..], op + token % 16 + MINMATCH), g)
  {
    ghost var a := dst[..];
    ShortMatch(c.src, ip, View(c, a, op), token, offset, g);
    EighteenBytes(dst, op, offset);
    BlockMatchDone(c, a, dst[..], ip, op, offset, token % 16 + MINMATCH, op + 18, g);
  }

  /** Lines 1944-1974, once the shortcut is entered.  When the second stage
      does not apply, the sequence goes on at _copy_match. */
  method Shortcut(c: Call, dst: array<byte>, ip: nat, op: nat, token: byte, ghost g: Goal)
    returns (ip': nat, op': nat, offset: nat, done: bool)
    requires token / 16 != RUN_MASK && ip + 16 < |c.src| && ValidCall(c, op) && op + 14 + 18 <= dst.Length
    requires Lit(c.src, ip, View(c, dst[..], op), token, token / 16, g)
    modifies dst
    ensures dst[..op] == old(dst[..op])
    ensures ip < ip' < |c.src| && op <= op' <= dst.Length && offset < KB64
    ensures done ==> Tok(c.src, ip', View(c, dst[..], op'), g)
    ensures !done ==> Len(c.src, ip', View(c, dst[..], op'), token, offset, g) && op' + MFLIMIT <= dst.Length
  {
    hide Tok, Len, Lit, View;
    ip', op', offset := ShortLiterals(c, dst, ip, op, token, g);
    ghost var b := dst[..];
    done := false;
    if token % 16 != ML_MASK && offset >= 8 && (c.mode == WithPrefix64k || offset <= op' - c.lowPrefix) {
      ShortCopy(c, dst, ip', op', token, offset, g);
      PrefixOfPrefix(b, dst[..], op, op');
      op' := op' + token % 16 + MINMATCH;
      done := true;
    }
  }

  // ---------------------------------------------------------------------
  // The safe loop
  // ---------------------------------------------------------------------

  /** Where the fast loop hands over: at a token, at the label
      safe_literal_copy, or at the label safe_match_copy. */
  datatype Entry =
    | AtToken
    | AtLiteralCopy(token: byte, literals: nat)
    | AtMatchCopy(offset: nat, length: nat)

  predicate EntryState(c: Call, a: seq<byte>, ip: nat, op: nat, e: Entry, full: seq<byte>, g: Goal)
    requires c.lowPrefix <= op <= |a| && ip <= |c.src|
  {
    match e
    case AtToken => ip < |c.src| && Tok(c.src, ip, full, g) && Cut(c, a, op, full)
    case AtLiteralCopy(token, n) =>
      && Cut(c, a, op, full)
      && (Lit(c.src, ip, full, token, n, g) || (!g.strict.Done? && ip + n > |c.src|))
    case AtMatchCopy(offset, n) =>
      && ip < |c.src| && offset < KB64 && n >= MINMATCH
      && op + MFLIMIT <= |a|
      && Mat(c.src, ip, View(c, a, op), offset, n, g)
  }

  /** From the label _copy_match to the end of the sequence. */
  method CopyMatchStep(c: Call, dst: array<byte>, ip: nat, op: nat, token: byte, offset: nat, ghost g: Goal)
    returns (ip': nat, op': nat, stop: Stop, ghost full: seq<byte>)
    requires ip < |c.src| && ValidCall(c, op) && op <= dst.Length && offset < KB64
    requires !c.partialDecoding ==> op + MFLIMIT <= dst.Length
    requires Len(c.src, ip, View(c, dst[..], op), token, offset, g) && LengthsFit(c.src, g)
    modifies dst
    ensures dst[..op] == old(dst[..op])
    ensures ip <= ip' <= |c.src| && op <= op' <= dst.Length
    ensures stop == Failed ==> Refusal(c, dst.Length, g)
    ensures stop == Finished ==> Success(c, dst[..], op', g)
    ensures stop == Running ==> ip' < |c.src| && Tok(c.src, ip', full, g) && Cut(c, dst[..], op', full)
  {
    hide Tok, Len, Mat, View, Cut, Success;
    var length, ok;
    ip', length, ok := ReadMatchLength(c, ip, token, offset, g, View(c, dst[..], op));
    if !ok {
      return ip, op, Failed, [];
    }
    op', stop, full := SafeMatch(c, dst, ip', op, offset, length, g);
  }

  /** The literals from the label safe_literal_copy, and the match after them. */
  method LiteralsAndMatch(c: Call, dst: array<byte>, ip: nat, op: nat, token: byte, length: nat, ghost g: Goal, ghost full0: seq<byte>)
    returns (ip': nat, op': nat, stop: Stop, ghost full: seq<byte>)
    requires ip <= |c.src| && ValidCall(c, op) && op <= dst.Length && LengthsFit(c.src, g)
    requires Lit(c.src, ip, full0, token, length, g) || (!g.strict.Done? && ip + length > |c.src|)
    requires Cut(c, dst[..], op, full0)
    modifies dst
    ensures dst[..op] == old(dst[..op])
    ensures ip <= ip' <= |c.src| && op <= op' <= dst.Length
    ensures stop == Failed ==> Refusal(c, dst.Length, g)
    ensures stop == Finished ==> Success(c, dst[..], op', g)
    ensures stop == Running ==> ip' < |c.src| && Tok(c.src, ip', full, g) && Cut(c, dst[..], op', full)
  {
    hide Tok, Lit, Len, Off, View, Cut, Success, Refusal;
    full := [];
    ip', op', stop := SafeLiterals(c, dst, ip, op, token, length, g, full0);
    if stop == Running {
      ghost var m := dst[..];
      ReadOffset(c.src, ip', View(c, m, op'), token, g);
      var offset := LE16(c.src[ip'], c.src[ip' + 1]);
      var op1 := op';
      ip', op', stop, full := CopyMatchStep(c, dst, ip' + 2, op1, token, offset, g);
      PrefixOfPrefix(m, dst[..], op, op1);
    }
  }

  /** One round of the main loop, from a token on. */
  method SafeRound(c: Call, dst: array<byte>, ip: nat, op: nat, ghost g: Goal, ghost full0: seq<byte>)
    returns (ip': nat, op': nat, stop: Stop, ghost full: seq<byte>)
    requires ip < |c.src| && ValidCall(c, op) && op <= dst.Length && LengthsFit(c.src, g)
    requires Tok(c.src, ip, full0, g) && Cut(c, dst[..], op, full0)
    modifies dst
    ensures dst[..op] == old(dst[..op])
    ensures ip < ip' <= |c.src| && op <= op' <= dst.Length
    ensures stop == Failed ==> Refusal(c, dst.Length, g)
    ensures stop == Finished ==> Success(c, dst[..], op', g)
    ensures stop == Running ==> ip' < |c.src| && Tok(c.src, ip', full, g) && Cut(c, dst[..], op', full)
  {
    var token, length := c.src[ip], c.src[ip] / 16;
    full := [];
    if length != RUN_MASK {
      ShortToken(c.src, ip, full0, g);
      if ip + 1 < |c.src| - 16 && op <= dst.Length - 32 {
        ip', op', stop, full := ShortcutRound(c, dst, ip + 1, op, token, g, full0);
      } else {
        ip', op', stop, full := LiteralsAndMatch(c, dst, ip + 1, op, token, length, g, full0);
      }
    } else {
      var ok;
      ip', length, ok := ReadLiteralLength(c, ip, g, full0);
      if !ok {
        return ip + 1, op, Failed, full;
      }
      ip', op', stop, full := LiteralsAndMatch(c, dst, ip', op, token, length, g, full0);
    }
  }

  method ShortcutRound(c: Call, dst: array<byte>, ip: nat, op: nat, token: byte, ghost g: Goal, ghost full0: seq<byte>)
    returns (ip': nat, op': nat, stop: Stop, ghost full: seq<byte>)
    requires ip + 16 < |c.src| && ValidCall(c, op) && op + 32 <= dst.Length && LengthsFit(c.src, g)
    requires token / 16 != RUN_MASK && Lit(c.src, ip, full0, token, token / 16, g) && Cut(c, dst[..], op, full0)
    modifies dst
    ensures dst[..op] == old(dst[..op])
    ensures ip <= ip' <= |c.src| && op <= op' <= dst.Length
    ensures stop == Failed ==> Refusal(c, dst.Length, g)
    ensures stop == Finished ==> Success(c, dst[..], op', g)
    ensures stop == Running ==> ip' < |c.src| && Tok(c.src, ip', full, g) && Cut(c, dst[..], op', full)
  {
    hide Tok, Lit, Len, View, Success, Refusal;
    var offset, done;
    ip', op', offset, done := Shortcut(c, dst, ip, op, token, g);
    stop, full := Running, View(c, dst[..], op');
    if !done {
      ghost var m := dst[..];
      var op1 := op';
      ip', op', stop, full := CopyMatchStep(c, dst, ip', op1, token, offset, g);
      PrefixOfPrefix(m, dst[..], op, op1);
    }
  }

  /** From safe_decode, or from one of the two labels inside the main loop, to
      the end.  The result is the number of bytes produced, or negative. */
  method SafeDecode(c: Call, dst: array<byte>, start: nat, ip0: nat, op0: nat, e: Entry, ghost g: Goal, ghost full0: seq<byte>)
    returns (result: int)
    requires ValidCall(c, start) && start <= op0 <= dst.Length && ip0 <= |c.src| && LengthsFit(c.src, g)
    requires EntryState(c, dst[..], ip0, op0, e, full0, g)
    modifies dst
    ensures dst[..op0] == old(dst[..op0])
    ensures result < 0 ==> Refusal(c, dst.Length, g)
    ensures result >= 0 ==> op0 <= start + result <= dst.Length && Success(c, dst[..], start + result, g)
  {
    hide Tok, Lit, Mat, Len, View, Cut, Success, Refusal;
    var ip, op, stop := ip0, op0, Running;
    ghost var full := full0;
    match e {
      case AtToken =>
      case AtLiteralCopy(token, n) =>
        ip, op, stop, full := LiteralsAndMatch(c, dst, ip, op, token, n, g, full);
      case AtMatchCopy(offset, n) =>
        op, stop, full := SafeMatch(c, dst, ip, op, offset, n, g);
    }
    while stop == Running
      invariant ip <= |c.src| && op0 <= op <= dst.Length
      invariant dst[..op0] == old(dst[..op0])
      invariant stop == Failed ==> Refusal(c, dst.Length, g)
      invariant stop == Finished ==> Success(c, dst[..], op, g)
      invariant stop == Running ==> ip < |c.src| && Tok(c.src, ip, full, g) && Cut(c, dst[..], op, full)
      decreases |c.src| - ip, stop == Running
    {
      ghost var m := dst[..];
      var op1 := op;
      ip, op, stop, full := SafeRound(c, dst, ip, op, g, full);
      PrefixOfPrefix(m, dst[..], op0, op1);
    }
    result := if stop == Finished then op - start else -ip - 1;
  }

  // ---------------------------------------------------------------------
  // The fast loop
  // ---------------------------------------------------------------------

  /** LZ4_wildCopy32(op, ip, cpy), out of the input: 2 x 16 bytes at a time. */
  method WildLiterals32(c: Call, dst: array<byte>, ip: nat, op: nat, length: nat)
    requires c.lowPrefix <= op && op + length + 32 <= dst.Length && ip + length + 32 <= |c.src|
    modifies dst
    ensures dst[..op] == old(dst[..op])
    ensures View(c, dst[..], op + length) == View(c, old(dst[..]), op) + c.src[ip..ip + length]
  {
    var n := 0;
    while n == 0 || n < length
      invariant 0 <= n <= length + 32
      invariant dst[..op] == old(dst[..op])
      invariant dst[op..op + n] == c.src[ip..ip + n]
      decreases length + 1 - n
    {
      ghost var was := dst[..];
      CopyIn(dst, op + n, c.src, ip + n, 16);
      ghost var mid := dst[..];
      CopyIn(dst, op + n + 16, c.src, ip + n + 16, 16);
      TwoLiteralStripes(was, mid, dst[..], c.src, op, ip, n);
      n := n + 32;
    }
    ViewLiterals(c, old(dst[..]), dst[..], op, ip, length, n);
  }

  lemma TwoLiteralStripes(a: seq<byte>, m: seq<byte>, b: seq<byte>, src: seq<byte>, op: nat, ip: nat, n: nat)
    requires op + n + 32 <= |a| && |m| == |b| == |a| && ip + n + 32 <= |src|
    requires a[..op + n] == m[..op + n] && a[op..op + n] == src[ip..ip + n]
    requires m[op + n..op + n + 16] == src[ip + n..ip + n + 16]
    requires m[..op + n + 16] == b[..op + n + 16]
    requires b[op + n + 16..op + n + 32] == src[ip + n + 16..ip + n + 32]
    ensures a[..op] == b[..op] && b[op..op + n + 32] == src[ip..ip + n + 32]
  {
    PrefixOfPrefix(a, m, op, op + n);
    PrefixOfPrefix(m, b, op, op + n + 16);
    assert a[op..op + n] == a[..op + n][op..] && m[op..op + n] == m[..op + n][op..];
    assert m[op..op + n + 16] == m[op..op + n] + m[op + n..op + n + 16];
    assert m[op..op + n + 16] == m[..op + n + 16][op..] && b[op..op + n + 16] == b[..op + n + 16][op..];
    assert b[op..op + n + 32] == b[op..op + n + 16] + b[op + n + 16..op + n + 32];
  }

  datatype FastExit = Continue | Leave(entry: Entry) | Error

  /** Lines 1881-1923: a match whose end is far from the end of the output. */
  method FastMatch(c: Call, dst: array<byte>, ip: nat, op: nat, offset: nat, length: nat, ghost g: Goal) returns (ok: bool)
    requires ip <= |c.src| && ValidCall(c, op) && offset < KB64
    requires length >= MINMATCH && op + length < dst.Length - FASTLOOP_SAFE_DISTANCE
    requires Mat(c.src, ip, View(c, dst[..], op), offset, length, g)
    modifies dst
    ensures dst[..op] == old(dst[..op])
    ensures !ok ==> Refusal(c, dst.Length, g)
    ensures ok ==> Tok(c.src, ip, View(c, dst[..], op + length), g)
  {
    ghost var a := dst[..];
    ok := true;
    if |c.dict| < KB64 && offset > |c.dict| + op - c.lowPrefix {
      FarMatch(c.src, ip, View(c, a, op), offset, length, g);
      ok := false;
    } else if c.mode == UsingExtDict && offset > op - c.lowPrefix {
      CopyExtDict(c, dst, op, offset, length);
      CopiedMatch(c.src, ip, View(c, a, op), offset, length, View(c, dst[..], op + length), g);
    } else {
      if offset < 16 {
        MemcpyUsingOffset(dst, op, offset, op + length);
      } else {
        WildCopy32(dst, op, offset, op + length);
      }
      BlockMatchDone(c, a, dst[..], ip, op, offset, length, op + length, g);
    }
  }

  /** Lines 1848-1923: the match length, then the match. */
  method FastMatchStep(c: Call, dst: array<byte>, ip: nat, op: nat, token: byte, offset: nat, ghost g: Goal)
    returns (ip': nat, op': nat, exit: FastExit)
    requires ip < |c.src| && ValidCall(c, op) && op + 32 <= dst.Length && offset < KB64
    requires Len(c.src, ip, View(c, dst[..], op), token, offset, g) && LengthsFit(c.src, g)
    modifies dst
    ensures dst[..op] == old(dst[..op])
    ensures ip <= ip' <= |c.src| && op <= op' <= dst.Length
    ensures exit == Error ==> Refusal(c, dst.Length, g)
    ensures exit.Leave? ==> EntryState(c, dst[..], ip', op', exit.entry, View(c, dst[..], op'), g)
    ensures exit == Continue ==>
              ip' < |c.src| && op' + FASTLOOP_SAFE_DISTANCE <= dst.Length && Tok(c.src, ip', View(c, dst[..], op'), g)
  {
    ghost var out := View(c, dst[..], op);
    ip', op', exit := ip, op, Error;
    if token % 16 == ML_MASK && |c.dict| < KB64 && offset > |c.dict| + op - c.lowPrefix {
      FarMatchLength(c.src, ip, out, token, offset, g);
      return;
    }
    hide Tok, Len, Mat, Refusal;
    var length, ok;
    ip', length, ok := ReadMatchLength(c, ip, token, offset, g, out);
    if !ok {
      StrictBroken(c, dst.Length, g);
      return ip, op, Error;
    }
    if op + length >= dst.Length - FASTLOOP_SAFE_DISTANCE {
      exit := Leave(AtMatchCopy(offset, length));
      return;
    }
    if token % 16 != ML_MASK && offset >= 8 && (c.mode == WithPrefix64k || offset <= op - c.lowPrefix) {
      FastShortCopy(c, dst, ip', op, offset, length, g);
    } else {
      ok := FastMatch(c, dst, ip', op, offset, length, g);
      if !ok { return; }
    }
    op', exit := op + length, Continue;
  }

  lemma StrictBroken(c: Call, oend: nat, g: Goal)
    requires !g.strict.Done?
    ensures Refusal(c, oend, g)
  {
  }

  method FastShortCopy(c: Call, dst: array<byte>, ip: nat, op: nat, offset: nat, length: nat, ghost g: Goal)
    requires ip <= |c.src| && ValidCall(c, op) && op + 18 <= dst.Length && MINMATCH <= length <= 18
    requires 8 <= offset < KB64 && (c.mode == WithPrefix64k || offset <= op - c.lowPrefix)
    requires Mat(c.src, ip, View(c, dst[..], op), offset, length, g)
    modifies dst
    ensures dst[..op] == old(dst[..op])
    ensures Tok(c.src, ip, View(c, dst[..], op + length), g)
  {
    ghost var a := dst[..];
    EighteenBytes(dst, op, offset);
    BlockMatchDone(c, a, dst[..], ip, op, offset, length, op + 18, g);
  }

  /** Literals of a long run, when both buffers have 32 bytes to spare. */
  method FastLongLiterals(c: Call, dst: array<byte>, ip: nat, op: nat, token: byte, length: nat, ghost g: Goal)
    returns (ip': nat, offset: nat)
    requires c.lowPrefix <= op && op + length + 32 <= dst.Length && ip + length + 32 <= |c.src|
    requires Lit(c.src, ip, View(c, dst[..], op), token, length, g)
    modifies dst
    ensures dst[..op] == old(dst[..op])
    ensures ip < ip' < |c.src| && offset < KB64
    ensures Len(c.src, ip', View(c, dst[..], op + length), token, offset, g)
  {
    LiteralsInside(c.src, ip, View(c, dst[..], op), token, length, g);
    WildLiterals32(c, dst, ip, op, length);
    ip' := ip + length;
    ReadOffset(c.src, ip', View(c, dst[..], op + length), token, g);
    offset := LE16(c.src[ip'], c.src[ip' + 1]);
    ip' := ip' + 2;
  }

  /** One round of the fast loop. */
  method FastRound(c: Call, dst: array<byte>, ip: nat, op: nat, ghost g: Goal)
    returns (ip': nat, op': nat, exit: FastExit)
    requires ip < |c.src| && ValidCall(c, op) && op + FASTLOOP_SAFE_DISTANCE <= dst.Length
    requires Tok(c.src, ip, View(c, dst[..], op), g) && LengthsFit(c.src, g)
    modifies dst
    ensures dst[..op] == old(dst[..op])
    ensures ip < ip' <= |c.src| && op <= op' <= dst.Length
    ensures exit == Error ==> Refusal(c, dst.Length, g)
    ensures exit.Leave? ==> EntryState(c, dst[..], ip', op', exit.entry, View(c, dst[..], op'), g)
    ensures exit == Continue ==>
              ip' < |c.src| && op' + FASTLOOP_SAFE_DISTANCE <= dst.Length && Tok(c.src, ip', View(c, dst[..], op'), g)
  {
    var token, length := c.src[ip], c.src[ip] / 16;
    var offset;
    if length == RUN_MASK {
      var ok;
      ip', length, ok := ReadLiteralLength(c, ip, g, View(c, dst[..], op));
      if !ok {
        return ip + 1, op, Error;
      }
      if op + length > dst.Length - 32 || ip' + length > |c.src| - 32 {
        return ip', op, Leave(AtLiteralCopy(token, length));
      }
      ip', offset := FastLongLiterals(c, dst, ip', op, token, length, g);
    } else {
      ShortToken(c.src, ip, View(c, dst[..], op), g);
      if ip + 1 > |c.src| - (16 + 1) {
        return ip + 1, op, Leave(AtLiteralCopy(token, length));
      }
      ip', op', offset := ShortLiterals(c, dst, ip + 1, op, token, g);
    }
    ghost var m := dst[..];
    var op1 := op + length;
    ip', op', exit := FastMatchStep(c, dst, ip', op1, token, offset, g);
    PrefixOfPrefix(m, dst[..], op, op1);
  }

  /** The fast loop: as long as 64 bytes of output remain. */
  method FastLoop(c: Call, dst: array<byte>, start: nat, ghost g: Goal)
    returns (ip: nat, op: nat, exit: FastExit)
    requires 0 < |c.src| && ValidCall(c, start) && start + FASTLOOP_SAFE_DISTANCE <= dst.Length
    requires Tok(c.src, 0, View(c, dst[..], start), g) && LengthsFit(c.src, g)
    modifies dst
    ensures dst[..start] == old(dst[..start])
    ensures exit != Continue && ip <= |c.src| && start <= op <= dst.Length
    ensures exit == Error ==> Refusal(c, dst.Length, g)
    ensures exit.Leave? ==> EntryState(c, dst[..], ip, op, exit.entry, View(c, dst[..], op), g)
  {
    hide Tok, Refusal, EntryState, View;
    ip, op, exit := 0, start, Continue;
    while exit == Continue
      invariant ip <= |c.src| && start <= op <= dst.Length
      invariant dst[..start] == old(dst[..start])
      invariant exit == Error ==> Refusal(c, dst.Length, g)
      invariant exit.Leave? ==> EntryState(c, dst[..], ip, op, exit.entry, View(c, dst[..], op), g)
      invariant exit == Continue ==>
                  ip < |c.src| && op + FASTLOOP_SAFE_DISTANCE <= dst.Length && Tok(c.src, ip, View(c, dst[..], op), g)
      decreases |c.src| - ip
    {
      ghost var m := dst[..];
      var op1 := op;
      ip, op, exit := FastRound(c, dst, ip, op, g);
      PrefixOfPrefix(m, dst[..], start, op1);
    }
  }

  // ---------------------------------------------------------------------
  // LZ4_decompress_generic and its instances
  // ---------------------------------------------------------------------

  /** What the block means after the history that is in place before the call. */
  function GoalOf(c: Call, a: seq<byte>, start: nat, total: nat): Goal
    requires c.lowPrefix <= start <= |a|
  {
    var h := View(c, a, start);
    Goal(if c.partialDecoding then ZeroOffset else Decode(c.src, 0, h, Lenient),
         Decode(c.src, 0, h, Strict(total)), total)
  }

  lemma GoalStarts(c: Call, a: seq<byte>, start: nat, total: nat)
    requires c.lowPrefix <= start <= |a|
    ensures Tok(c.src, 0, View(c, a, start), GoalOf(c, a, start, total))
  {
  }

  /** LZ4_decompress_generic.  The output is dst[start..]; its end is the end
      of the declared capacity. */
  method DecompressGeneric(c: Call, dst: array<byte>, start: nat, ghost total: nat) returns (result: int)
    requires ValidCall(c, start) && start <= dst.Length
    requires LengthsFit(c.src, GoalOf(c, dst[..], start, total))
    modifies dst
    ensures dst[..start] == old(dst[..start])
    ensures result < 0 ==> Refusal(c, dst.Length, GoalOf(c, old(dst[..]), start, total))
    ensures result >= 0 ==> start + result <= dst.Length
    ensures result >= 0 ==> Success(c, dst[..], start + result, GoalOf(c, old(dst[..]), start, total))
  {
    ghost var g := GoalOf(c, dst[..], start, total);
    if dst.Length == start {
      EmptyOutput(c, dst[..], start, total);
      if c.partialDecoding { return 0; }
      return if |c.src| == 1 && c.src[0] == 0 then 0 else -1;
    }
    if |c.src| == 0 {
      return -1;
    }
    GoalStarts(c, dst[..], start, total);
    hide GoalOf, Tok, Refusal, Success, View;
    if dst.Length - start < FASTLOOP_SAFE_DISTANCE {
      ghost var full := View(c, dst[..], start);
      result := SafeDecode(c, dst, start, 0, start, AtToken, g, full);
      return;
    }
    var ip, op, exit := FastLoop(c, dst, start, g);
    if exit == Error {
      return -(ip as int) - 1;
    }
    ghost var m := dst[..];
    result := SafeDecode(c, dst, start, ip, op, exit.entry, g, View(c, dst[..], op));
    PrefixOfPrefix(m, dst[..], start, op);
  }

  /** With no room at all, only the empty block is accepted. */
  lemma EmptyOutput(c: Call, a: seq<byte>, start: nat, total: nat)
    requires ValidCall(c, start) && start == |a|
    ensures var g := GoalOf(c, a, start, total);
            && (c.partialDecoding || (|c.src| == 1 && c.src[0] == 0) ==> Success(c, a, start, g))
            && (!(|c.src| == 1 && c.src[0] == 0) && !c.partialDecoding ==> Refusal(c, |a|, g))
  {
    var g := GoalOf(c, a, start, total);
    var h := View(c, a, start);
    GoalStarts(c, a, start, total);
    if g.strict.Done? && c.partialDecoding {
      TokPrefix(c.src, 0, h, g);
    }
    if !c.partialDecoding {
      if |c.src| == 1 && c.src[0] == 0 {
        ShortToken(c.src, 0, h, g);
        LiteralsAtEnd(c.src, 1, h, 0, 0, g);
        assert h + c.src[1..] == h;
      } else if g.strict.Done? && total <= |h| {
        EmptyStrict(c.src, h, g);
      }
    }
  }

  lemma EmptyStrict(src: seq<byte>, h: seq<byte>, g: Goal)
    requires 0 < |src| && Tok(src, 0, h, g) && g.strict.Done? && g.total <= |h|
    ensures |src| == 1 && src[0] == 0
  {
    if src[0] / 16 != RUN_MASK {
      ShortToken(src, 0, h, g);
      StrictLiterals(src, 1, h, src[0], src[0] / 16, g);
    } else {
      LongTokenBound(src, 0, h, g);
    }
  }
}
