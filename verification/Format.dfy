/** The LZ4 block format: sequences, their byte encoding, and a decoder that
    copies one byte at a time.  Every encoder and decoder of the project is
    proved against the functions of this module. */
module Format {
  type byte = b: int | 0 <= b < 256

  const MINMATCH: int := 4
  const WILDCOPYLENGTH: int := 8
  const LASTLITERALS: int := 5
  const MFLIMIT: int := 12
  const ML_MASK: int := 15
  const RUN_MASK: int := 15
  const DISTANCE_MAX: int := 65535
  const MAX_INPUT_SIZE: int := 0x7E00_0000

  /** LZ4_COMPRESSBOUND for an input size in the supported range. */
  function CompressBound(n: int): int {
    if n < 0 || n > MAX_INPUT_SIZE then 0 else n + n / 255 + 16
  }

  /** One sequence: literals, then a match of mlen bytes, offset bytes back. */
  datatype Sequence = Sequence(lits: seq<byte>, offset: nat, mlen: nat)

  // ---------------------------------------------------------------------
  // Meaning of a list of sequences
  // ---------------------------------------------------------------------

  /** A match copy, one byte at a time, so that an overlapping match replicates. */
  function CopyMatch(out: seq<byte>, offset: nat, length: nat): (r: seq<byte>)
    requires 1 <= offset <= |out|
    ensures |r| == |out| + length
    ensures r[..|out|] == out
    decreases length
  {
    if length == 0 then out
    else CopyMatch(out + [out[|out| - offset]], offset, length - 1)
  }

  /** s[lo..hi] repeats what stands off bytes earlier. */
  predicate Periodic(s: seq<byte>, lo: nat, hi: nat, off: nat)
    requires hi <= |s|
  {
    forall j, k :: 0 <= j && lo <= k < hi && k == j + off ==> s[k] == s[j]
  }

  lemma {:induction false} CopyMatchPeriodic(out: seq<byte>, offset: nat, length: nat)
    requires 1 <= offset <= |out|
    ensures Periodic(CopyMatch(out, offset, length), |out|, |out| + length, offset)
    decreases length
  {
    if length > 0 {
      var next := out + [out[|out| - offset]];
      var r := CopyMatch(out, offset, length);
      assert r == CopyMatch(next, offset, length - 1);
      CopyMatchPeriodic(next, offset, length - 1);
      assert r[..|next|] == next;
      assert r[|out|] == next[|out|] && r[|out| - offset] == next[|out| - offset];
    }
  }

  /** The converse: a periodic extension of out is the match copy. */
  lemma {:induction false} PeriodicIsCopyMatch(out: seq<byte>, offset: nat, length: nat, s: seq<byte>)
    requires 1 <= offset <= |out|
    requires |s| == |out| + length && s[..|out|] == out
    requires Periodic(s, |out|, |s|, offset)
    ensures s == CopyMatch(out, offset, length)
    decreases length
  {
    if length > 0 {
      var next := out + [out[|out| - offset]];
      assert s[|out|] == s[|out| - offset];
      assert s[..|next|] == next;
      PeriodicIsCopyMatch(next, offset, length - 1, s);
    }
  }

  /** The bytes produced by ss after the history h; total even on bad offsets. */
  function Interp(ss: seq<Sequence>, h: seq<byte>): (r: seq<byte>)
    ensures |r| >= |h| && r[..|h|] == h
  {
    if ss == [] then h
    else
      var x := ss[|ss| - 1];
      var before := Interp(ss[..|ss| - 1], h) + x.lits;
      assert before[..|h|] == h;
      if 1 <= x.offset <= |before| then
        var r := CopyMatch(before, x.offset, x.mlen);
        assert r[..|h|] == r[..|before|][..|h|];
        r
      else before
  }

  /** Offsets point into the history, and the end-of-block restrictions hold
      for a block whose content (with history) is total bytes long. */
  predicate Good(ss: seq<Sequence>, h: seq<byte>, total: nat)
  {
    ss == [] ||
    (var x := ss[|ss| - 1];
     var before := |Interp(ss[..|ss| - 1], h)| + |x.lits|;
     && Good(ss[..|ss| - 1], h, total)
     && 1 <= x.offset <= DISTANCE_MAX
     && x.offset <= before
     && x.mlen >= MINMATCH
     && before + MFLIMIT <= total
     && before + x.mlen + LASTLITERALS <= total)
  }

  lemma {:induction false} InterpAppend(ss: seq<Sequence>, x: Sequence, h: seq<byte>)
    requires 1 <= x.offset <= |Interp(ss, h)| + |x.lits|
    ensures Interp(ss + [x], h) == CopyMatch(Interp(ss, h) + x.lits, x.offset, x.mlen)
  {
    assert (ss + [x])[..|ss|] == ss;
  }

  lemma {:induction false} GoodAppend(ss: seq<Sequence>, x: Sequence, h: seq<byte>, total: nat)
    requires Good(ss, h, total)
    requires 1 <= x.offset <= DISTANCE_MAX && x.mlen >= MINMATCH
    requires x.offset <= |Interp(ss, h)| + |x.lits|
    requires |Interp(ss, h)| + |x.lits| + MFLIMIT <= total
    requires |Interp(ss, h)| + |x.lits| + x.mlen + LASTLITERALS <= total
    ensures Good(ss + [x], h, total)
  {
    assert (ss + [x])[..|ss|] == ss;
  }

  lemma {:induction false} GoodLast(ss: seq<Sequence>, h: seq<byte>, total: nat)
    requires Good(ss, h, total)
    ensures ss != [] ==> |Interp(ss, h)| + LASTLITERALS <= total
  {
    if ss != [] {
      var x := ss[|ss| - 1];
      assert |Interp(ss, h)| == |Interp(ss[..|ss| - 1], h)| + |x.lits| + x.mlen;
    }
  }

  lemma {:induction false} GoodMonotone(ss: seq<Sequence>, h: seq<byte>, t: nat, u: nat)
    requires Good(ss, h, t) && t <= u
    ensures Good(ss, h, u)
    decreases |ss|
  {
    if ss != [] {
      GoodMonotone(ss[..|ss| - 1], h, t, u);
    }
  }

  // ---------------------------------------------------------------------
  // Byte encoding
  // ---------------------------------------------------------------------

  /** The bytes that extend a length field by n: 255, 255, ..., remainder. */
  function LenBytes(n: nat): (r: seq<byte>)
    ensures |r| == n / 255 + 1
    decreases n
  {
    if n < 255 then [n] else [255] + LenBytes(n - 255)
  }

  function LE16(b0: byte, b1: byte): nat {
    (b0 as int) + 256 * (b1 as int)
  }

  function Ext(n: nat): (r: seq<byte>)
    ensures |r| == if n < 15 then 0 else (n - 15) / 255 + 1
  {
    if n < 15 then [] else LenBytes(n - 15)
  }

  function Nibble(n: nat): (r: nat)
    ensures r <= 15
  {
    if n < 15 then n else 15
  }

  function Token(ll: nat, mcode: nat): byte {
    Nibble(ll) * 16 + Nibble(mcode)
  }

  /** Token and literal length. */
  function EncHead(ll: nat, mcode: nat): (r: seq<byte>)
    ensures |r| == 1 + |Ext(ll)|
  {
    [Token(ll, mcode)] + Ext(ll)
  }

  /** Offset and match length. */
  function EncTail(offset: nat, mcode: nat): (r: seq<byte>)
    requires offset <= DISTANCE_MAX
    ensures |r| == 2 + |Ext(mcode)|
  {
    [offset % 256, offset / 256] + Ext(mcode)
  }

  function EncSeq(x: Sequence): (r: seq<byte>)
    requires x.offset <= DISTANCE_MAX && x.mlen >= MINMATCH
    ensures |r| == 3 + |Ext(|x.lits|)| + |x.lits| + |Ext(x.mlen - MINMATCH)|
  {
    EncHead(|x.lits|, x.mlen - MINMATCH) + (x.lits + EncTail(x.offset, x.mlen - MINMATCH))
  }

  predicate Encodable(ss: seq<Sequence>) {
    forall i :: 0 <= i < |ss| ==> ss[i].offset <= DISTANCE_MAX && ss[i].mlen >= MINMATCH
  }

  function EncSeqs(ss: seq<Sequence>): seq<byte>
    requires Encodable(ss)
  {
    if ss == [] then []
    else EncSeqs(ss[..|ss| - 1]) + EncSeq(ss[|ss| - 1])
  }

  function EncLast(lits: seq<byte>): seq<byte> {
    EncHead(|lits|, 0) + lits
  }

  function EncBlock(ss: seq<Sequence>, last: seq<byte>): seq<byte>
    requires Encodable(ss)
  {
    EncSeqs(ss) + EncLast(last)
  }

  lemma {:induction false} EncAppend(ss: seq<Sequence>, x: Sequence)
    requires Encodable(ss) && x.offset <= DISTANCE_MAX && x.mlen >= MINMATCH
    ensures Encodable(ss + [x]) && EncSeqs(ss + [x]) == EncSeqs(ss) + EncSeq(x)
  {
    assert (ss + [x])[..|ss|] == ss;
  }

  lemma {:induction false} GoodIsEncodable(ss: seq<Sequence>, h: seq<byte>, total: nat)
    requires Good(ss, h, total)
    ensures Encodable(ss)
    decreases |ss|
  {
    if ss != [] {
      GoodIsEncodable(ss[..|ss| - 1], h, total);
      forall i | 0 <= i < |ss| ensures ss[i].offset <= DISTANCE_MAX && ss[i].mlen >= MINMATCH {
        if i < |ss| - 1 { assert ss[i] == ss[..|ss| - 1][i]; }
      }
    }
  }

  // ---------------------------------------------------------------------
  // The reference decoder
  // ---------------------------------------------------------------------

  /** Lenient: only what the format needs to be read.  Strict(total): the
      parsing restrictions of the end of the block hold as well, for a block
      whose content (with history) is total bytes long. */
  datatype Rules = Lenient | Strict(total: nat)

  /** ZeroOffset: a match with offset 0 was met, whose content is unspecified. */
  datatype Outcome = Bad | ZeroOffset | Done(out: seq<byte>)

  datatype Length = NoLength | Length(value: nat, next: nat)

  function ReadLen(src: seq<byte>, ip: nat): (r: Length)
    requires ip <= |src|
    ensures r.Length? ==> ip < r.next <= |src|
    decreases |src| - ip
  {
    if ip == |src| then NoLength
    else if src[ip] != 255 then Length(src[ip], ip + 1)
    else match ReadLen(src, ip + 1)
      case NoLength => NoLength
      case Length(n, next) => Length(n + 255, next)
  }

  /** Decode from a token on. */
  function Decode(src: seq<byte>, ip: nat, out: seq<byte>, r: Rules): Outcome
    requires ip <= |src|
    decreases |src| - ip, 3
  {
    if ip == |src| then Bad
    else
      var token := src[ip];
      if token / 16 != RUN_MASK then AtLiterals(src, ip + 1, out, token, token / 16, r)
      else match ReadLen(src, ip + 1)
        case NoLength => Bad
        case Length(n, next) => AtLiterals(src, next, out, token, n + RUN_MASK, r)
  }

  /** Decode once the literal length is known. */
  function AtLiterals(src: seq<byte>, ip: nat, out: seq<byte>, token: byte, length: nat, r: Rules): Outcome
    requires ip <= |src|
    decreases |src| - ip, 2
  {
    if ip + length > |src| then Bad
    else
      var out' := out + src[ip..ip + length];
      if ip + length == |src| then
        if r.Strict? && (|out'| != r.total || token % 16 != 0) then Bad else Done(out')
      else if r.Strict? && (|out'| + MFLIMIT > r.total || ip + length + 2 + 1 + LASTLITERALS > |src|) then Bad
      else AtOffset(src, ip + length, out', token, r)
  }

  /** Decode once the literals are copied. */
  function AtOffset(src: seq<byte>, ip: nat, out: seq<byte>, token: byte, r: Rules): Outcome
    requires ip <= |src|
    decreases |src| - ip, 1
  {
    if ip + 2 > |src| then Bad
    else
      AtMatchLength(src, ip + 2, out, token, LE16(src[ip], src[ip + 1]), r)
  }

  /** Decode once the offset is read. */
  function AtMatchLength(src: seq<byte>, ip: nat, out: seq<byte>, token: byte, offset: nat, r: Rules): Outcome
    requires ip <= |src|
    decreases |src| - ip, 5
  {
    if token % 16 != ML_MASK then AtMatch(src, ip, out, offset, token % 16 + MINMATCH, r)
    else match ReadLen(src, ip)
      case NoLength => Bad
      case Length(n, next) => AtMatch(src, next, out, offset, n + ML_MASK + MINMATCH, r)
  }

  /** Decode once the whole sequence is known. */
  function AtMatch(src: seq<byte>, ip: nat, out: seq<byte>, offset: nat, length: nat, r: Rules): Outcome
    requires ip <= |src|
    decreases |src| - ip, 4
  {
    if offset == 0 then ZeroOffset
    else if offset > |out| then Bad
    else if r.Strict? && |out| + length + LASTLITERALS > r.total then Bad
    else Decode(src, ip, CopyMatch(out, offset, length), r)
  }

  // ---------------------------------------------------------------------
  // Decoding an encoding
  // ---------------------------------------------------------------------

  lemma {:induction false} ReadLenBytes(src: seq<byte>, ip: nat, n: nat)
    requires ip + |LenBytes(n)| <= |src|
    requires src[ip..ip + |LenBytes(n)|] == LenBytes(n)
    ensures ReadLen(src, ip) == Length(n, ip + |LenBytes(n)|)
    decreases n
  {
    var b := LenBytes(n);
    assert src[ip] == src[ip..ip + |b|][0] == b[0];
    if n >= 255 {
      assert b[1..] == LenBytes(n - 255);
      assert src[ip + 1..ip + |b|] == src[ip..ip + |b|][1..];
      ReadLenBytes(src, ip + 1, n - 255);
    }
  }

  /** p, then what precedes, is found in src at ip. */
  predicate Here(src: seq<byte>, ip: nat, p: seq<byte>) {
    ip + |p| <= |src| && src[ip..ip + |p|] == p
  }

  lemma HereSplit(src: seq<byte>, ip: nat, p: seq<byte>, q: seq<byte>)
    requires Here(src, ip, p + q)
    ensures Here(src, ip, p) && Here(src, ip + |p|, q)
  {
    var w := src[ip..ip + |p + q|];
    assert w[..|p|] == p && w[|p|..] == q;
    assert src[ip..ip + |p|] == w[..|p|];
    assert src[ip + |p|..ip + |p| + |q|] == w[|p|..];
  }

  lemma {:induction false} TokenParts(ll: nat, mcode: nat)
    ensures Token(ll, mcode) / 16 == Nibble(ll) && Token(ll, mcode) % 16 == Nibble(mcode)
  {
  }

  /** Reading the token and literal length of an encoded sequence. */
  lemma {:induction false} DecodeLiteralLength(src: seq<byte>, ip: nat, out: seq<byte>, ll: nat, mcode: nat, r: Rules)
    requires Here(src, ip, EncHead(ll, mcode))
    ensures Decode(src, ip, out, r) == AtLiterals(src, ip + 1 + |Ext(ll)|, out, Token(ll, mcode), ll, r)
  {
    HereSplit(src, ip, [Token(ll, mcode)], Ext(ll));
    assert src[ip] == src[ip..ip + 1][0];
    TokenParts(ll, mcode);
    if ll >= 15 {
      ReadLenBytes(src, ip + 1, ll - 15);
    }
  }

  lemma {:induction false} DecodeMatchLength(src: seq<byte>, ip: nat, out: seq<byte>, token: byte, offset: nat, mlen: nat, r: Rules)
    requires mlen >= MINMATCH && token % 16 == Nibble(mlen - MINMATCH)
    requires 1 <= offset <= |out|
    requires Here(src, ip, Ext(mlen - MINMATCH))
    ensures AtMatchLength(src, ip, out, token, offset, r)
         == AtMatch(src, ip + |Ext(mlen - MINMATCH)|, out, offset, mlen, r)
  {
    if mlen - MINMATCH >= 15 {
      ReadLenBytes(src, ip, mlen - MINMATCH - 15);
    }
  }

  /** Where the fields of an encoded sequence stand. */
  lemma {:induction false} EncSeqParts(src: seq<byte>, ip: nat, x: Sequence)
    requires x.offset <= DISTANCE_MAX && x.mlen >= MINMATCH
    requires Here(src, ip, EncSeq(x))
    ensures Here(src, ip, EncHead(|x.lits|, x.mlen - MINMATCH))
    ensures Here(src, ip + 1 + |Ext(|x.lits|)|, x.lits)
    ensures Here(src, ip + 1 + |Ext(|x.lits|)| + |x.lits|, EncTail(x.offset, x.mlen - MINMATCH))
  {
    var mcode := x.mlen - MINMATCH;
    var head, tail := EncHead(|x.lits|, mcode), EncTail(x.offset, mcode);
    HereSplit(src, ip, head, x.lits + tail);
    HereSplit(src, ip + |head|, x.lits, tail);
  }

  /** Reading the offset and match length of an encoded sequence. */
  lemma {:induction false} DecodeTail(src: seq<byte>, ip: nat, out: seq<byte>, token: byte, offset: nat, mlen: nat, r: Rules)
    requires mlen >= MINMATCH && token % 16 == Nibble(mlen - MINMATCH)
    requires 1 <= offset <= DISTANCE_MAX && offset <= |out|
    requires Here(src, ip, EncTail(offset, mlen - MINMATCH))
    ensures AtOffset(src, ip, out, token, r)
         == AtMatch(src, ip + 2 + |Ext(mlen - MINMATCH)|, out, offset, mlen, r)
  {
    var b := [offset % 256, offset / 256];
    HereSplit(src, ip, b, Ext(mlen - MINMATCH));
    assert src[ip] == src[ip..ip + 2][0] && src[ip + 1] == src[ip..ip + 2][1];
    DecodeMatchLength(src, ip + 2, out, token, offset, mlen, r);
  }

  lemma {:induction false} AtMatchStep(src: seq<byte>, ip: nat, out: seq<byte>, offset: nat, length: nat, r: Rules)
    requires ip <= |src| && 1 <= offset <= |out|
    requires r.Strict? ==> |out| + length + LASTLITERALS <= r.total
    ensures AtMatch(src, ip, out, offset, length, r) == Decode(src, ip, CopyMatch(out, offset, length), r)
  {
  }

  lemma {:induction false} DecodeLiterals(src: seq<byte>, ip: nat, out: seq<byte>, token: byte, lits: seq<byte>, r: Rules)
    requires Here(src, ip, lits) && ip + |lits| < |src|
    requires r.Strict? ==> |out| + |lits| + MFLIMIT <= r.total && ip + |lits| + 3 + LASTLITERALS <= |src|
    ensures AtLiterals(src, ip, out, token, |lits|, r) == AtOffset(src, ip + |lits|, out + lits, token, r)
  {
  }

  lemma {:induction false} DecodeUpToOffset(src: seq<byte>, ip: nat, out: seq<byte>, lits: seq<byte>, mcode: nat, r: Rules)
    requires Here(src, ip, EncHead(|lits|, mcode)) && Here(src, ip + 1 + |Ext(|lits|)|, lits)
    requires ip + 1 + |Ext(|lits|)| + |lits| < |src|
    requires r.Strict? ==> |out| + |lits| + MFLIMIT <= r.total
    requires r.Strict? ==> ip + 1 + |Ext(|lits|)| + |lits| + 3 + LASTLITERALS <= |src|
    ensures Decode(src, ip, out, r)
         == AtOffset(src, ip + 1 + |Ext(|lits|)| + |lits|, out + lits, Token(|lits|, mcode), r)
  {
    DecodeLiteralLength(src, ip, out, |lits|, mcode, r);
    DecodeLiterals(src, ip + 1 + |Ext(|lits|)|, out, Token(|lits|, mcode), lits, r);
  }

  /** One encoded sequence is decoded in one round. */
  lemma {:induction false} DecodeSequence(src: seq<byte>, ip: nat, out: seq<byte>, x: Sequence, r: Rules)
    requires 1 <= x.offset <= DISTANCE_MAX && x.mlen >= MINMATCH
    requires x.offset <= |out| + |x.lits|
    requires Here(src, ip, EncSeq(x))
    requires ip + |EncSeq(x)| + 1 <= |src|
    requires r.Strict? ==> ip + |EncSeq(x)| + 1 + LASTLITERALS <= |src|
    requires r.Strict? ==> |out| + |x.lits| + MFLIMIT <= r.total
    requires r.Strict? ==> |out| + |x.lits| + x.mlen + LASTLITERALS <= r.total
    ensures Decode(src, ip, out, r)
         == Decode(src, ip + |EncSeq(x)|, CopyMatch(out + x.lits, x.offset, x.mlen), r)
  {
    hide *;
    var mcode := x.mlen - MINMATCH;
    EncSeqParts(src, ip, x);
    DecodeUpToOffset(src, ip, out, x.lits, mcode, r);
    TokenParts(|x.lits|, mcode);
    var i2 := ip + 1 + |Ext(|x.lits|)| + |x.lits|;
    var next := ip + |EncSeq(x)|;
    assert next == i2 + 2 + |Ext(mcode)|;
    var before := out + x.lits;
    DecodeTail(src, i2, before, Token(|x.lits|, mcode), x.offset, x.mlen, r);
    AtMatchStep(src, next, before, x.offset, x.mlen, r);
  }

  lemma {:induction false} DecodeLast(src: seq<byte>, ip: nat, out: seq<byte>, last: seq<byte>, r: Rules)
    requires Here(src, ip, EncLast(last)) && ip + |EncLast(last)| == |src|
    requires r.Strict? ==> |out| + |last| == r.total
    ensures Decode(src, ip, out, r) == Done(out + last)
  {
    HereSplit(src, ip, EncHead(|last|, 0), last);
    DecodeLiteralLength(src, ip, out, |last|, 0, r);
  }

  lemma NoSequence(h: seq<byte>)
    ensures Encodable([]) && EncSeqs([]) == [] && Interp([], h) == h
  {
  }

  lemma EncBlockParts(ss: seq<Sequence>, last: seq<byte>)
    requires Encodable(ss)
    ensures |EncLast(last)| >= 1 + |last|
    ensures |EncBlock(ss, last)| == |EncSeqs(ss)| + |EncLast(last)|
    ensures Here(EncBlock(ss, last), 0, EncSeqs(ss) + EncLast(last))
  {
    assert EncBlock(ss, last)[0..] == EncSeqs(ss) + EncLast(last);
  }

  /** What Good, Interp and EncSeqs say of the last sequence. */
  lemma {:induction false} LastSequence(ss: seq<Sequence>, h: seq<byte>, total: nat)
    requires ss != [] && Good(ss, h, total) && Encodable(ss)
    ensures var front, x := ss[..|ss| - 1], ss[|ss| - 1];
            && Encodable(front) && Good(front, h, total)
            && 1 <= x.offset <= DISTANCE_MAX && x.mlen >= MINMATCH
            && x.offset <= |Interp(front, h)| + |x.lits|
            && |Interp(front, h)| + |x.lits| + MFLIMIT <= total
            && |Interp(front, h)| + |x.lits| + x.mlen + LASTLITERALS <= total
            && EncSeqs(ss) == EncSeqs(front) + EncSeq(x)
            && Interp(ss, h) == CopyMatch(Interp(front, h) + x.lits, x.offset, x.mlen)
  {
  }

  /** A prefix of encoded sequences moves the decoder to its end. */
  lemma {:induction false} DecodeSequences(src: seq<byte>, ss: seq<Sequence>, h: seq<byte>, total: nat, r: Rules)
    requires Good(ss, h, total) && Encodable(ss)
    requires r.Strict? ==> r.total == total
    requires Here(src, 0, EncSeqs(ss))
    requires |EncSeqs(ss)| + 1 <= |src|
    requires r.Strict? && ss != [] ==> |EncSeqs(ss)| + 1 + LASTLITERALS <= |src|
    ensures Decode(src, 0, h, r) == Decode(src, |EncSeqs(ss)|, Interp(ss, h), r)
    decreases |ss|
  {
    hide *;
    if ss == [] {
      NoSequence(h);
    } else {
      var front, x := ss[..|ss| - 1], ss[|ss| - 1];
      LastSequence(ss, h, total);
      HereSplit(src, 0, EncSeqs(front), EncSeq(x));
      DecodeSequences(src, front, h, total, r);
      DecodeSequence(src, |EncSeqs(front)|, Interp(front, h), x, r);
    }
  }

  /** Round trip of the format: any good list of sequences with a last run of
      literals is decoded, under the lenient and under the strict rules, to
      what the list means. */
  lemma {:induction false} DecodeBlock(ss: seq<Sequence>, last: seq<byte>, h: seq<byte>, r: Rules)
    requires Good(ss, h, |Interp(ss, h)| + |last|) && Encodable(ss)
    requires r.Strict? ==> r.total == |Interp(ss, h)| + |last|
    ensures Decode(EncBlock(ss, last), 0, h, r) == Done(Interp(ss, h) + last)
  {
    hide *;
    var src := EncBlock(ss, last);
    EncBlockParts(ss, last);
    GoodLast(ss, h, |Interp(ss, h)| + |last|);
    HereSplit(src, 0, EncSeqs(ss), EncLast(last));
    DecodeSequences(src, ss, h, |Interp(ss, h)| + |last|, r);
    DecodeLast(src, |EncSeqs(ss)|, Interp(ss, h), last, r);
  }
}
