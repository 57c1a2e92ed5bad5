/** Writing sequences into an output buffer: the stores that the encoders of
    lz4.c and lz4hc.c share, and what the bytes written so far stand for. */
module Emit {
  import opened Format
  import opened Memory

  /** The decoder, given history h, turns bytes back into content, also under
      the end-of-block restrictions. */
  predicate Decodes(bytes: seq<byte>, h: seq<byte>, content: seq<byte>) {
    && Decode(bytes, 0, h, Lenient) == Done(h + content)
    && Decode(bytes, 0, h, Strict(|h| + |content|)) == Done(h + content)
  }

  /** The size of a block that holds n bytes as literals: a token, length bytes, and
      the bytes themselves. */
  function PlainSize(n: nat): (size: nat)
    ensures n < size && (n <= MAX_INPUT_SIZE ==> size <= CompressBound(n))
  {
    1 + |Ext(n)| + n
  }

  /** Compressing n bytes is never worse than keeping them: no larger result, and
      no failure where literals would fit. */
  predicate AsGoodAsPlain(n: nat, cap: nat, result: nat) {
    && result <= PlainSize(n)
    && (n <= MAX_INPUT_SIZE && PlainSize(n) <= cap ==> result > 0)
    && (n > MAX_INPUT_SIZE ==> result == 0)
  }

  /** Of a source of n bytes at least as many went into cap bytes as would fit there
      as literals. */
  ghost predicate FilledAsPlain(n: nat, cap: nat, consumed: nat) {
    forall k: nat :: k <= n && PlainSize(k) <= cap ==> k <= consumed
  }

  /** a[..op] encodes the list ss, which means src[..anchor]; a block of at
      least `need` bytes of content respects the end-of-block restrictions. */
  predicate Emitted(a: seq<byte>, op: nat, ss: seq<Sequence>, h: seq<byte>, src: seq<byte>, anchor: nat, need: nat) {
    && op <= |a| && anchor <= |src|
    && Encodable(ss) && a[..op] == EncSeqs(ss)
    && Good(ss, h, |h| + need)
    && Interp(ss, h) == h + src[..anchor]
  }

  /** The window in which matches are looked for: history, then source. */
  function Window(h: seq<byte>, src: seq<byte>): seq<byte> {
    h + src
  }

  /** A match of len bytes at src[ip], offset bytes back, is real. */
  predicate RealMatch(h: seq<byte>, src: seq<byte>, ip: nat, offset: nat, len: nat) {
    && 1 <= offset <= |h| + ip && ip + len <= |src|
    && Periodic(Window(h, src), |h| + ip, |h| + ip + len, offset)
  }

  lemma NothingEmitted(a: seq<byte>, h: seq<byte>, src: seq<byte>)
    ensures Emitted(a, 0, [], h, src, 0, 0)
  {
    assert a[..0] == [] && src[..0] == [];
  }

  lemma EmittedKept(a: seq<byte>, b: seq<byte>, op: nat, ss: seq<Sequence>, h: seq<byte>, src: seq<byte>, anchor: nat, need: nat)
    requires Emitted(a, op, ss, h, src, anchor, need) && op <= |b| && a[..op] == b[..op]
    ensures Emitted(b, op, ss, h, src, anchor, need)
  {
  }

  /** The literals and the match, put together. */
  lemma MatchMeaning(h: seq<byte>, src: seq<byte>, anchor: nat, ip: nat, offset: nat, len: nat)
    requires anchor <= ip && RealMatch(h, src, ip, offset, len)
    ensures offset <= |h + src[..anchor] + src[anchor..ip]|
    ensures CopyMatch(h + src[..anchor] + src[anchor..ip], offset, len) == h + src[..ip + len]
  {
    var win, out, s := Window(h, src), h + src[..ip], h + src[..ip + len];
    assert h + src[..anchor] + src[anchor..ip] == out;
    assert s == win[..|s|];
    assert out == win[..|out|] == s[..|out|];
    forall j, k | 0 <= j && |out| <= k < |s| && k == j + offset ensures s[k] == s[j] {
      assert s[k] == win[k] && s[j] == win[j];
    }
    PeriodicIsCopyMatch(out, offset, len, s);
  }

  /** One more sequence. */
  lemma EmitSequence(a: seq<byte>, b: seq<byte>, op: nat, op': nat, ss: seq<Sequence>, h: seq<byte>, src: seq<byte>,
                     anchor: nat, need: nat, ip: nat, offset: nat, len: nat, need': nat)
    requires Emitted(a, op, ss, h, src, anchor, need)
    requires anchor <= ip && RealMatch(h, src, ip, offset, len)
    requires offset <= DISTANCE_MAX && len >= MINMATCH
    requires ip + len <= |src|
    requires need <= need' && ip + MFLIMIT <= need' && ip + len + LASTLITERALS <= need'
    requires var x := Sequence(src[anchor..ip], offset, len);
             op' == op + |EncSeq(x)| && op' <= |b| && a[..op] == b[..op] && b[op..op'] == EncSeq(x)
    ensures Emitted(b, op', ss + [Sequence(src[anchor..ip], offset, len)], h, src, ip + len, need')
  {
    hide *;
    var x := Sequence(src[anchor..ip], offset, len);
    EmittedParts(a, op, ss, h, src, anchor, need);
    LengthOfContent(h, src, anchor, ip, offset, len, ss);
    GoodMonotone(ss, h, |h| + need, |h| + need');
    EncAppend(ss, x);
    assert b[..op'] == b[..op] + b[op..op'];
    MatchMeaning(h, src, anchor, ip, offset, len);
    InterpAppend(ss, x, h);
    GoodAppend(ss, x, h, |h| + need');
    EmittedFrom(b, op', ss + [x], h, src, ip + len, need');
  }

  lemma EmittedParts(a: seq<byte>, op: nat, ss: seq<Sequence>, h: seq<byte>, src: seq<byte>, anchor: nat, need: nat)
    requires Emitted(a, op, ss, h, src, anchor, need)
    ensures op <= |a| && anchor <= |src| && Encodable(ss) && a[..op] == EncSeqs(ss)
    ensures Good(ss, h, |h| + need) && Interp(ss, h) == h + src[..anchor]
  {
  }

  lemma LengthOfContent(h: seq<byte>, src: seq<byte>, anchor: nat, ip: nat, offset: nat, len: nat, ss: seq<Sequence>)
    requires anchor <= ip && RealMatch(h, src, ip, offset, len) && Interp(ss, h) == h + src[..anchor]
    ensures 1 <= offset <= |h| + ip && ip + len <= |src|
    ensures |Interp(ss, h)| + |src[anchor..ip]| == |h| + ip
  {
  }

  lemma EmittedFrom(b: seq<byte>, op: nat, ss: seq<Sequence>, h: seq<byte>, src: seq<byte>, anchor: nat, need: nat)
    requires op <= |b| && anchor <= |src| && Encodable(ss) && b[..op] == EncSeqs(ss)
    requires Good(ss, h, |h| + need) && Interp(ss, h) == h + src[..anchor]
    ensures Emitted(b, op, ss, h, src, anchor, need)
  {
  }

  /** The last run of literals closes the block. */
  lemma EmitLast(a: seq<byte>, b: seq<byte>, op: nat, ss: seq<Sequence>, h: seq<byte>, src: seq<byte>,
                 anchor: nat, need: nat, end: nat)
    requires Emitted(a, op, ss, h, src, anchor, need)
    requires anchor <= end <= |src| && need <= end
    requires op <= |b| && b[..op] == a[..op] && b[op..] == EncLast(src[anchor..end])
    ensures Decodes(b, h, src[..end]) && Encodable(ss) && b == EncBlock(ss, src[anchor..end])
  {
    hide Decode, Emitted, Good, Interp, EncLast, EncSeqs, Encodable;
    var last := src[anchor..end];
    EmittedParts(a, op, ss, h, src, anchor, need);
    GoodMonotone(ss, h, |h| + need, |h| + end);
    assert h + src[..anchor] + last == h + src[..end];
    assert |Interp(ss, h)| + |last| == |h| + end;
    DecodeBlock(ss, last, h, Lenient);
    DecodeBlock(ss, last, h, Strict(|h| + end));
    assert b == b[..op] + b[op..] == EncBlock(ss, last);
  }

  // ---------------------------------------------------------------------
  // Stores
  // ---------------------------------------------------------------------

  /** `for(; len >= 255 ; len -= 255) *op++ = 255; *op++ = (BYTE)len;` */
  method PutRun(dst: array<byte>, op: nat, n: nat) returns (op': nat)
    requires op + n / 255 + 1 <= dst.Length
    modifies dst
    ensures op' == op + |LenBytes(n)| && dst[op..op'] == LenBytes(n)
    ensures dst[..op] == old(dst[..op])
  {
    var p, len := op, n;
    while len >= 255
      invariant 0 <= len <= n && op <= p && p + len / 255 == op + n / 255
      invariant dst[..op] == old(dst[..op])
      invariant dst[op..p] + LenBytes(len) == LenBytes(n)
    {
      ghost var was := dst[..];
      One255(was[op..p], len);
      dst[p] := 255;
      Appended(was, dst[..], op, p - op, 1);
      p, len := p + 1, len - 255;
    }
    ghost var was := dst[..];
    dst[p] := len;
    op' := p + 1;
    Appended(was, dst[..], op, p - op, 1);
  }

  lemma One255(done: seq<byte>, n: nat)
    requires n >= 255
    ensures done + LenBytes(n) == done + [255] + LenBytes(n - 255)
  {
    assert LenBytes(n) == [255] + LenBytes(n - 255);
  }

  /** The match length: four 0xFF at a time, up to four bytes ahead. */
  method PutMatchRun(dst: array<byte>, op: nat, n: nat) returns (op': nat)
    requires op + n / 255 + 4 <= dst.Length
    modifies dst
    ensures op' == op + |LenBytes(n)| && dst[op..op'] == LenBytes(n)
    ensures dst[..op] == old(dst[..op])
  {
    hide LenBytes;
    var p, code := op, n;
    NoBytesYet(n);
    Write255(dst, p);
    while code >= 4 * 255
      invariant 0 <= code <= n && op <= p && p + code / 255 == op + n / 255
      invariant p + 4 <= dst.Length
      invariant dst[..op] == old(dst[..op])
      invariant dst[p..p + 4] == [255, 255, 255, 255]
      invariant dst[op..p] + LenBytes(code) == LenBytes(n)
    {
      ghost var was := dst[..];
      Four255(was[op..p], code);
      Appended(was, was, op, p - op, 4);
      p := p + 4;
      Write255(dst, p);
      Appended(was, dst[..], op, p - op, 0);
      code := code - 4 * 255;
    }
    p := FinishMatchRun(dst, op, p, code, n);
    op' := p;
  }

  lemma NoBytesYet(n: nat)
    ensures [] + LenBytes(n) == LenBytes(n)
  {
  }

  /** `op += matchCode / 255; *op++ = matchCode % 255`. */
  method FinishMatchRun(dst: array<byte>, op: nat, p: nat, code: nat, ghost n: nat) returns (op': nat)
    requires code < 4 * 255 && op <= p && p + 4 <= dst.Length && p + code / 255 == op + n / 255
    requires dst[p..p + 4] == [255, 255, 255, 255] && dst[op..p] + LenBytes(code) == LenBytes(n)
    modifies dst
    ensures op' == op + |LenBytes(n)| && dst[op..op'] == LenBytes(n)
    ensures dst[..op] == old(dst[..op])
  {
    var e := code / 255;
    ghost var was := dst[..];
    TailOf255(code);
    assert was[p..p + e] == was[p..p + 4][..e];
    dst[p + e] := code % 255;
    op' := p + e + 1;
    Appended(was, was, op, p - op, e);
    Appended(was, dst[..], op, p + e - op, 1);
    Regroup(was[op..p], was[p..p + e], [code % 255]);
  }

  lemma Regroup(a: seq<byte>, b: seq<byte>, c: seq<byte>)
    ensures a + (b + c) == a + b + c
  {
  }

  method Write255(dst: array<byte>, p: nat)
    requires p + 4 <= dst.Length
    modifies dst
    ensures dst[..p] == old(dst[..p]) && dst[p..p + 4] == [255, 255, 255, 255]
  {
    dst[p], dst[p + 1], dst[p + 2], dst[p + 3] := 255, 255, 255, 255;
  }

  lemma Four255(done: seq<byte>, n: nat)
    requires n >= 4 * 255
    ensures done + LenBytes(n) == done + [255, 255, 255, 255] + LenBytes(n - 4 * 255)
  {
    assert LenBytes(n) == [255] + LenBytes(n - 255);
    assert LenBytes(n - 255) == [255] + LenBytes(n - 510);
    assert LenBytes(n - 510) == [255] + LenBytes(n - 765);
    assert LenBytes(n - 765) == [255] + LenBytes(n - 1020);
    Regroup(done, [255, 255, 255, 255], LenBytes(n - 1020));
  }

  lemma TailOf255(n: nat)
    requires n < 4 * 255
    ensures LenBytes(n) == [255, 255, 255, 255][..n / 255] + [n % 255]
  {
    if n >= 255 { assert LenBytes(n) == [255] + LenBytes(n - 255); }
    if n >= 510 { assert LenBytes(n - 255) == [255] + LenBytes(n - 510); }
    if n >= 765 { assert LenBytes(n - 510) == [255] + LenBytes(n - 765); }
  }

  /** Token (high nibble), literal length. */
  method PutHead(dst: array<byte>, token: nat, litLength: nat) returns (op: nat)
    requires token + 1 + |Ext(litLength)| <= dst.Length
    modifies dst
    ensures op == token + |EncHead(litLength, 0)| && dst[token..op] == EncHead(litLength, 0)
    ensures dst[..token] == old(dst[..token])
  {
    op := token + 1;
    if litLength >= RUN_MASK {
      dst[token] := RUN_MASK * 16;
      ghost var was := dst[..];
      op := PutRun(dst, op, litLength - RUN_MASK);
      Appended(was, dst[..], token, 1, op - token - 1);
    } else {
      dst[token] := litLength * 16;
    }
  }

  /** Token, literal length and literals, the latter by a wild copy. */
  method PutLiterals(dst: array<byte>, token: nat, src: seq<byte>, anchor: nat, ip: nat) returns (op: nat)
    requires anchor <= ip && ip + 8 <= |src|
    requires token + 1 + |Ext(ip - anchor)| + (ip - anchor) + 7 <= dst.Length
    requires token + 1 + |Ext(ip - anchor)| + 8 <= dst.Length
    modifies dst
    ensures op == token + 1 + |Ext(ip - anchor)| + (ip - anchor)
    ensures dst[token..op] == EncHead(ip - anchor, 0) + src[anchor..ip]
    ensures dst[..token] == old(dst[..token])
  {
    var p := PutHead(dst, token, ip - anchor);
    ghost var m := dst[..];
    WildCopyIn(dst, p, src, anchor, ip - anchor);
    op := p + (ip - anchor);
    PrefixOfPrefix(m, dst[..], token, p);
    assert dst[token..p] == dst[..p][token..] == m[..p][token..] == m[token..p];
    assert dst[token..op] == dst[token..p] + dst[p..op];
  }

  /** LZ4_wildCopy8(op, anchor, op + n), out of the source. */
  method WildCopyIn(dst: array<byte>, op: nat, src: seq<byte>, from: nat, n: nat)
    requires op + n + 7 <= dst.Length && op + 8 <= dst.Length && from + n + 8 <= |src|
    modifies dst
    ensures dst[..op] == old(dst[..op])
    ensures dst[op..op + n] == src[from..from + n]
  {
    var k := 8;
    CopyIn(dst, op, src, from, 8);
    while k < n
      invariant 8 <= k && (k == 8 || k < n + 8)
      invariant dst[..op] == old(dst[..op])
      invariant dst[op..op + k] == src[from..from + k]
    {
      ghost var was := dst[..];
      CopyIn(dst, op + k, src, from + k, 8);
      Appended(was, dst[..], op, k, 8);
      Slice8(src, from, k);
      k := k + 8;
    }
    SliceStart(dst[..], src, op, from, n, k);
  }

  lemma Slice8(s: seq<byte>, from: nat, k: nat)
    requires from + k + 8 <= |s|
    ensures s[from..from + k + 8] == s[from..from + k] + s[from + k..from + k + 8]
  {
  }

  lemma SliceStart(a: seq<byte>, b: seq<byte>, i: nat, j: nat, n: nat, k: nat)
    requires n <= k && i + k <= |a| && j + k <= |b| && a[i..i + k] == b[j..j + k]
    ensures a[i..i + n] == b[j..j + n]
  {
    assert a[i..i + n] == a[i..i + k][..n] && b[j..j + n] == b[j..j + k][..n];
  }

  /** LZ4_writeLE16. */
  method PutOffset(dst: array<byte>, op: nat, offset: nat)
    requires offset <= DISTANCE_MAX && op + 2 <= dst.Length
    modifies dst
    ensures dst[..op] == old(dst[..op])
    ensures dst[op..op + 2] == [offset % 256, offset / 256]
  {
    dst[op] := offset % 256;
    dst[op + 1] := offset / 256;
  }

  /** The match length, in the token and after the offset. */
  method PutMatchLength(dst: array<byte>, token: nat, op: nat, ghost lits: seq<byte>, ghost offset: nat, code: nat) returns (op': nat)
    requires offset <= DISTANCE_MAX
    requires op == token + 3 + |Ext(|lits|)| + |lits| <= dst.Length
    requires dst[token..op] == EncHead(|lits|, 0) + lits + [offset % 256, offset / 256]
    requires code >= ML_MASK ==> op + (code - ML_MASK) / 255 + 4 <= dst.Length
    modifies dst
    ensures op' == op + |Ext(code)|
    ensures dst[..token] == old(dst[..token])
    ensures dst[token..op'] == EncSeq(Sequence(lits, offset, code + MINMATCH))
  {
    hide EncHead, EncSeq, LenBytes;
    ghost var w := dst[token..op];
    HeadToken(|lits|, lits, offset);
    BumpToken(dst, token, op, Nibble(code));
    ghost var m := dst[..];
    op' := op;
    if code >= ML_MASK {
      op' := PutMatchRun(dst, op, code - ML_MASK);
    }
    Appended(m, dst[..], token, op - token, op' - op);
    assert dst[op..op'] == Ext(code);
    SequenceBytes(dst[token..op'], w, lits, offset, code);
  }

  /** `*token += n`. */
  method BumpToken(dst: array<byte>, token: nat, op: nat, n: nat)
    requires token < op <= dst.Length && dst[token] + n < 256
    modifies dst
    ensures dst[..token] == old(dst[..token])
    ensures dst[token..op] == [old(dst[token]) + n] + old(dst[token..op])[1..]
  {
    dst[token] := dst[token] + n;
  }

  lemma HeadToken(ll: nat, lits: seq<byte>, offset: nat)
    requires offset <= DISTANCE_MAX
    ensures var w := EncHead(ll, 0) + lits + [offset % 256, offset / 256];
            w[0] == Nibble(ll) * 16
  {
  }

  lemma SequenceBytes(v: seq<byte>, w: seq<byte>, lits: seq<byte>, offset: nat, code: nat)
    requires offset <= DISTANCE_MAX
    requires w == EncHead(|lits|, 0) + lits + [offset % 256, offset / 256]
    requires v == [w[0] + Nibble(code)] + w[1..] + Ext(code)
    ensures v == EncSeq(Sequence(lits, offset, code + MINMATCH))
  {
    hide Ext, LenBytes, Nibble;
    var e, o := Ext(|lits|), [offset % 256, offset / 256];
    HeadToken(|lits|, lits, offset);
    WithoutToken(e, lits, o, Token(|lits|, 0));
    Associate(Token(|lits|, code), e, lits, o, Ext(code));
  }

  lemma WithoutToken(e: seq<byte>, l: seq<byte>, o: seq<byte>, t: byte)
    ensures ([t] + e + l + o)[1..] == e + l + o
  {
  }

  lemma Associate(t: byte, e: seq<byte>, l: seq<byte>, o: seq<byte>, x: seq<byte>)
    ensures [t] + (e + l + o) + x == ([t] + e) + (l + (o + x))
  {
  }

  /** Lines 1220-1230: the last run, copied exactly. */
  method PutLast(dst: array<byte>, op: nat, src: seq<byte>, anchor: nat, lastRun: nat) returns (op': nat)
    requires anchor + lastRun <= |src|
    requires op + 1 + |Ext(lastRun)| + lastRun <= dst.Length
    modifies dst
    ensures op' == op + 1 + |Ext(lastRun)| + lastRun
    ensures dst[..op] == old(dst[..op])
    ensures dst[op..op'] == EncLast(src[anchor..anchor + lastRun])
  {
    var p := PutHead(dst, op, lastRun);
    ghost var m := dst[..];
    CopyIn(dst, p, src, anchor, lastRun);
    op' := p + lastRun;
    PrefixOfPrefix(m, dst[..], op, p);
    assert dst[op..p] == dst[..p][op..] == m[..p][op..] == m[op..p];
    assert dst[op..op'] == dst[op..p] + dst[p..op'];
  }
}
