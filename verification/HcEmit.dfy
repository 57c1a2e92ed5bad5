/** How the parsers of lz4hc.c write a sequence, and how they finish a block. */
module HcEmit {
  import opened Format
  import opened Memory
  import opened Emit
  import opened MatchFinding
  import E = Encoder

  /** A match of the source: ip, the distance to ref, and ml. */
  datatype Match = Match(start: nat, off: nat, len: nat)

  function End(m: Match): nat {
    m.start + m.len
  }

  /** A match that may be emitted, as far as its end is concerned. */
  predicate Usable(p: Params, m: Match) {
    && m.off <= DISTANCE_MAX && m.len >= MINMATCH && End(m) + LASTLITERALS <= |p.src|
    && RealMatch(p.hist, p.src, m.start, m.off, m.len)
  }

  /** It also starts early enough. */
  predicate Emittable(p: Params, m: Match) {
    Usable(p, m) && m.start + MFLIMIT <= |p.src|
  }

  lemma Shorten(p: Params, m: Match, len: nat)
    requires Usable(p, m) && MINMATCH <= len <= m.len
    ensures Usable(p, Match(m.start, m.off, len))
  {
  }

  /** Moving the start forward keeps the distance. */
  lemma Postpone(p: Params, m: Match, n: nat)
    requires Usable(p, m) && n + MINMATCH <= m.len
    ensures Usable(p, Match(m.start + n, m.off, m.len - n))
  {
  }

  // ---------------------------------------------------------------------
  // Stores
  // ---------------------------------------------------------------------

  /** `for(; length >= 510 ; length -= 510)`: two bytes of 255 at a time. */
  method PutPairs(dst: array<byte>, op: nat, n: nat) returns (op': nat)
    requires op + n / 255 + 1 <= dst.Length
    modifies dst
    ensures op' == op + |LenBytes(n)| && dst[op..op'] == LenBytes(n)
    ensures dst[..op] == old(dst[..op])
  {
    hide LenBytes;
    var p, len := op, n;
    NoBytesYet(n);
    while len >= 510
      invariant 0 <= len <= n && op <= p && p + len / 255 == op + n / 255
      invariant dst[..op] == old(dst[..op])
      invariant dst[op..p] + LenBytes(len) == LenBytes(n)
    {
      ghost var was := dst[..];
      Two255(was[op..p], len);
      dst[p], dst[p + 1] := 255, 255;
      Appended(was, dst[..], op, p - op, 2);
      p, len := p + 2, len - 510;
    }
    op' := PutRest(dst, op, p, len);
  }

  /** `if (length >= 255) { length -= 255; *op++ = 255; } *op++ = (BYTE)length`. */
  method PutRest(dst: array<byte>, ghost op: nat, p: nat, len: nat) returns (op': nat)
    requires op <= p && len < 510 && p + len / 255 + 1 <= dst.Length
    modifies dst
    ensures op' == p + len / 255 + 1 && dst[op..op'] == old(dst[op..p]) + LenBytes(len)
    ensures dst[..op] == old(dst[..op])
  {
    hide LenBytes;
    ghost var was := dst[..];
    LastOfPairs(len);
    if len >= 255 {
      dst[p], dst[p + 1] := 255, len - 255;
      op' := p + 2;
    } else {
      dst[p] := len;
      op' := p + 1;
    }
    Appended(was, dst[..], op, p - op, op' - p);
  }

  lemma Two255(done: seq<byte>, n: nat)
    requires n >= 510
    ensures done + LenBytes(n) == done + [255, 255] + LenBytes(n - 510)
  {
    assert LenBytes(n) == [255] + LenBytes(n - 255);
    assert LenBytes(n - 255) == [255] + LenBytes(n - 510);
  }

  lemma LastOfPairs(n: nat)
    requires n < 510
    ensures LenBytes(n) == if n >= 255 then [255, n - 255] else [n]
  {
    if n >= 255 { assert LenBytes(n - 255) == [n - 255]; }
  }

  method PutExt(dst: array<byte>, op: nat, code: nat) returns (op': nat)
    requires op + |Ext(code)| <= dst.Length
    modifies dst
    ensures op' == op + |Ext(code)| && dst[op..op'] == Ext(code) && dst[..op] == old(dst[..op])
  {
    hide LenBytes;
    op' := op;
    if code >= ML_MASK {
      op' := PutPairs(dst, op, code - ML_MASK);
    }
  }

  /** The match length, in the token and after the offset. */
  method PutLength(dst: array<byte>, token: nat, op: nat, ghost lits: seq<byte>, ghost offset: nat, code: nat) returns (op': nat)
    requires offset <= DISTANCE_MAX
    requires op == token + 3 + |Ext(|lits|)| + |lits| <= dst.Length
    requires dst[token..op] == EncHead(|lits|, 0) + lits + [offset % 256, offset / 256]
    requires op + |Ext(code)| <= dst.Length
    modifies dst
    ensures op' == op + |Ext(code)|
    ensures dst[..token] == old(dst[..token])
    ensures dst[token..op'] == EncSeq(Sequence(lits, offset, code + MINMATCH))
  {
    hide EncHead, EncSeq, Ext;
    ghost var w := dst[token..op];
    HeadToken(|lits|, lits, offset);
    BumpToken(dst, token, op, Nibble(code));
    ghost var m := dst[..];
    op' := PutExt(dst, op, code);
    Appended(m, dst[..], token, op - token, op' - op);
    SequenceBytes(dst[token..op'], w, lits, offset, code);
  }

  // ---------------------------------------------------------------------
  // LZ4HC_encodeSequence
  // ---------------------------------------------------------------------

  /** What stands in for the checks when they are switched off. */
  predicate RoomUnchecked(p: Params, cap: nat, op: nat, anchor: nat, m: Match)
    requires anchor <= m.start && m.len >= MINMATCH
  {
    var op' := op + 3 + |Ext(m.start - anchor)| + (m.start - anchor) + |Ext(m.len - MINMATCH)|;
    p.output == NotLimited
    || (p.output == FillOutput && op + 1 + |Ext(m.start - anchor)| + (m.start - anchor) + 8 <= cap
        && op' + 6 <= cap && op' + MFLIMIT + 1 <= cap + m.len)
  }

  lemma RoomWhenChecked(p: Params, cap: nat, oend: int, op: nat, anchor: nat, m: Match, op2: nat, need: nat)
    requires E.Room(p, cap, op, anchor, need) && p.output != NotLimited
    requires anchor <= m.start && Emittable(p, m) && |p.src| <= MAX_INPUT_SIZE
    requires op2 == op + 3 + |Ext(m.start - anchor)| + (m.start - anchor)
    requires oend == if p.output == FillOutput then cap - LASTLITERALS else cap
    requires op2 + (m.len - MINMATCH) / 255 + (1 + LASTLITERALS) <= oend
    ensures op2 + |Ext(m.len - MINMATCH)| <= cap
    ensures E.Room(p, cap, op2 + |Ext(m.len - MINMATCH)|, End(m), E.Need(m.start, m.len))
  {
    hide RealMatch;
    if p.output == LimitedOutput {
      E.BoundMatch(|p.src|, op, anchor, m.start, m.len - MINMATCH);
    }
    if p.output == FillOutput {
      E.FillRunMonotone(9, cap - (op2 + |Ext(m.len - MINMATCH)|) - 1);
    }
  }

  lemma RoomWhenUnchecked(p: Params, cap: nat, op: nat, anchor: nat, m: Match, op2: nat, need: nat)
    requires E.Room(p, cap, op, anchor, need) && |p.src| <= MAX_INPUT_SIZE
    requires anchor <= m.start && Emittable(p, m) && op2 == op + 3 + |Ext(m.start - anchor)| + (m.start - anchor)
    requires RoomUnchecked(p, cap, op, anchor, m)
    ensures op2 + |Ext(m.len - MINMATCH)| <= cap
    ensures E.Room(p, cap, op2 + |Ext(m.len - MINMATCH)|, End(m), E.Need(m.start, m.len))
  {
    hide RealMatch;
    if p.output == NotLimited {
      E.BoundMatch(|p.src|, op, anchor, m.start, m.len - MINMATCH);
    } else {
      var r := cap - (op2 + |Ext(m.len - MINMATCH)|) - 1;
      E.FillRunMonotone(if m.len >= 7 then 5 else 12 - m.len, r);
    }
  }

  lemma RoomForLiterals(p: Params, cap: nat, oend: int, op: nat, anchor: nat, m: Match, limited: bool, need: nat)
    requires E.Room(p, cap, op, anchor, need) && |p.src| <= MAX_INPUT_SIZE
    requires anchor <= m.start && Emittable(p, m) && oend <= cap
    requires if limited then op + 1 + (m.start - anchor) / 255 + (m.start - anchor) + 8 <= oend else RoomUnchecked(p, cap, op, anchor, m)
    ensures op + 1 + |Ext(m.start - anchor)| + (m.start - anchor) + 7 <= cap
    ensures op + 1 + |Ext(m.start - anchor)| + 8 <= cap
  {
    hide RealMatch;
    if !limited && p.output == NotLimited {
      E.BoundLiterals(|p.src|, op, anchor, m.start);
    }
  }

  /** The checks only fail when less room was given than the promised bound. */
  lemma CheckFails(p: Params, cap: nat, oend: int, op: nat, anchor: nat, m: Match, need: nat)
    requires E.Room(p, cap, op, anchor, need) && |p.src| <= MAX_INPUT_SIZE && p.output == LimitedOutput
    requires anchor <= m.start && Emittable(p, m) && oend == cap
    requires || op + 1 + (m.start - anchor) / 255 + (m.start - anchor) + 8 > oend
             || op + 3 + |Ext(m.start - anchor)| + (m.start - anchor) + (m.len - MINMATCH) / 255 + 6 > oend
    ensures E.Tight(p, cap)
  {
    hide RealMatch;
    E.BoundLiterals(|p.src|, op, anchor, m.start);
    E.BoundMatch(|p.src|, op, anchor, m.start, m.len - MINMATCH);
  }

  /** Why a sequence may not have been written. */
  predicate NoRoom(p: Params, cap: nat) {
    p.output == FillOutput || E.Tight(p, cap)
  }

  /** The sequence that a match makes with the literals in front of it. */
  function Emitting(p: Params, anchor: nat, m: Match): Sequence
    requires anchor <= m.start <= |p.src|
  {
    Sequence(p.src[anchor..m.start], m.off, m.len)
  }

  /** LZ4HC_encodeSequence; limited says whether the space left is checked. */
  method EncodeSequence(p: Params, dst: array<byte>, op: nat, anchor: nat, m: Match, limited: bool, oend: int,
                        ghost ss: seq<Sequence>, ghost need: nat)
    returns (overflow: bool, op': nat, ghost ss': seq<Sequence>)
    requires |p.src| <= MAX_INPUT_SIZE && E.Written(p, dst[..], op, anchor, ss, need)
    requires anchor <= m.start && Emittable(p, m)
    requires oend == if p.output == FillOutput then dst.Length - LASTLITERALS else dst.Length
    requires if limited then p.output != NotLimited else RoomUnchecked(p, dst.Length, op, anchor, m)
    modifies dst
    ensures overflow ==> limited && dst[..op] == old(dst[..op]) && NoRoom(p, dst.Length)
    ensures !overflow ==> E.Written(p, dst[..], op', End(m), ss', E.Need(m.start, m.len)) && ss' == ss + [Emitting(p, anchor, m)]
  {
    hide E.Room, Emitted, RealMatch, EncHead, EncSeq, Ext, RoomUnchecked, E.Need;
    overflow, op', ss' := true, op, ss;
    var length := m.start - anchor;
    if limited && op + 1 + length / 255 + length + (2 + 1 + LASTLITERALS) > oend {
      if p.output == LimitedOutput { CheckFails(p, dst.Length, oend, op, anchor, m, need); }
      return;
    }
    RoomForLiterals(p, dst.Length, oend, op, anchor, m, limited, need);
    ghost var a := dst[..];
    var op1 := PutLiterals(dst, op, p.src, anchor, m.start);
    ghost var b := dst[..];
    PutOffset(dst, op1, m.off);
    OffsetAfter(p, b, dst[..], op, op1, anchor, m);
    EmittedKept(a, dst[..], op, ss, p.hist, p.src, anchor, need);
    var code := m.len - MINMATCH;
    if limited && op1 + 2 + code / 255 + (1 + LASTLITERALS) > oend {
      if p.output == LimitedOutput { CheckFails(p, dst.Length, oend, op, anchor, m, need); }
      return;
    }
    if limited {
      RoomWhenChecked(p, dst.Length, oend, op, anchor, m, op1 + 2, need);
    } else {
      RoomWhenUnchecked(p, dst.Length, op, anchor, m, op1 + 2, need);
    }
    op', ss' := CloseMatch(p, dst, op, op1 + 2, anchor, m, ss, need);
    overflow := false;
  }

  lemma OffsetAfter(p: Params, a: seq<byte>, b: seq<byte>, token: nat, op: nat, anchor: nat, m: Match)
    requires anchor <= m.start <= |p.src| && token <= op <= |a| && a[token..op] == EncHead(m.start - anchor, 0) + p.src[anchor..m.start]
    requires m.off <= DISTANCE_MAX && op + 2 <= |b| && a[..op] == b[..op] && b[op..op + 2] == [m.off % 256, m.off / 256]
    ensures b[..token] == a[..token]
    ensures b[token..op + 2] == EncHead(m.start - anchor, 0) + p.src[anchor..m.start] + [m.off % 256, m.off / 256]
  {
    hide EncHead;
    Appended(a, b, token, op - token, 2);
  }

  method CloseMatch(p: Params, dst: array<byte>, token: nat, op: nat, anchor: nat, m: Match, ghost ss: seq<Sequence>, ghost need: nat)
    returns (op': nat, ghost ss': seq<Sequence>)
    requires anchor <= m.start && Emittable(p, m) && need <= anchor + MFLIMIT && need <= |p.src|
    requires Emitted(dst[..], token, ss, p.hist, p.src, anchor, need)
    requires op == token + 3 + |Ext(m.start - anchor)| + (m.start - anchor)
    requires op + |Ext(m.len - MINMATCH)| <= dst.Length
    requires dst[token..op] == EncHead(m.start - anchor, 0) + p.src[anchor..m.start] + [m.off % 256, m.off / 256]
    requires E.Room(p, dst.Length, op + |Ext(m.len - MINMATCH)|, End(m), E.Need(m.start, m.len))
    modifies dst
    ensures E.Written(p, dst[..], op', End(m), ss', E.Need(m.start, m.len)) && ss' == ss + [Emitting(p, anchor, m)]
  {
    hide Emitted, RealMatch, E.Room, EncHead, EncSeq, Ext, E.Need;
    E.NeedCovers(m.start, m.len);
    ghost var a := dst[..];
    op' := PutLength(dst, token, op, p.src[anchor..m.start], m.off, m.len - MINMATCH);
    ss' := ss + [Sequence(p.src[anchor..m.start], m.off, m.len)];
    EmitSequence(a, dst[..], token, op', ss, p.hist, p.src, anchor, need, m.start, m.off, m.len, E.Need(m.start, m.len));
    NeedBounds(p, m);
  }

  lemma NeedBounds(p: Params, m: Match)
    requires Emittable(p, m)
    ensures E.Need(m.start, m.len) <= End(m) + MFLIMIT && E.Need(m.start, m.len) <= |p.src|
  {
    hide RealMatch;
  }

  lemma WrittenKept(p: Params, a: seq<byte>, b: seq<byte>, op: nat, anchor: nat, ss: seq<Sequence>, need: nat)
    requires E.Written(p, a, op, anchor, ss, need) && |a| == |b| && a[..op] == b[..op]
    ensures E.Written(p, b, op, anchor, ss, need)
  {
    hide E.Room;
  }

  /** LZ4HC_encodeSequence as the parsers call it: on a lack of space, op and
      anchor stay where they were. */
  method WriteMatch(p: Params, dst: array<byte>, op: nat, anchor: nat, m: Match, ghost ss: seq<Sequence>, ghost need: nat)
    returns (ok: bool, op': nat, anchor': nat, ghost ss': seq<Sequence>, ghost need': nat)
    requires |p.src| <= MAX_INPUT_SIZE && E.Written(p, dst[..], op, anchor, ss, need)
    requires anchor <= m.start && Emittable(p, m)
    modifies dst
    ensures E.Written(p, dst[..], op', anchor', ss', need')
    ensures if ok then anchor' == End(m) && ss' == ss + [Emitting(p, anchor, m)]
            else NoRoom(p, dst.Length) && anchor' == anchor && op' == op && ss' == ss
  {
    hide E.Written, Emittable;
    ghost var a := dst[..];
    WrittenOp(p, a, op, anchor, ss, need);
    var limited := p.output != NotLimited;
    if !limited { Unlimited(p, dst.Length, op, anchor, m); }
    var oend := if p.output == FillOutput then dst.Length - LASTLITERALS else dst.Length;
    var overflow;
    overflow, op', ss' := EncodeSequence(p, dst, op, anchor, m, limited, oend, ss, need);
    ok := !overflow;
    if overflow {
      WrittenKept(p, a, dst[..], op, anchor, ss, need);
      op', anchor', ss', need' := op, anchor, ss, need;
    } else {
      anchor', need' := End(m), E.Need(m.start, m.len);
    }
  }

  lemma WrittenOp(p: Params, a: seq<byte>, op: nat, anchor: nat, ss: seq<Sequence>, need: nat)
    requires E.Written(p, a, op, anchor, ss, need)
    ensures op <= |a|
  {
  }

  lemma Unlimited(p: Params, cap: nat, op: nat, anchor: nat, m: Match)
    requires p.output == NotLimited && anchor <= m.start && Emittable(p, m)
    ensures m.len >= MINMATCH && RoomUnchecked(p, cap, op, anchor, m)
  {
  }

  /** Label _dest_overflow under fillOutput: one more sequence, its match
      shortened, if the end of the block stays valid. */
  method FillOverflow(p: Params, dst: array<byte>, op: nat, anchor: nat, m: Match, ghost ss: seq<Sequence>, ghost need: nat)
    returns (op': nat, anchor': nat, ghost ss': seq<Sequence>, ghost need': nat)
    requires |p.src| <= MAX_INPUT_SIZE && E.Written(p, dst[..], op, anchor, ss, need) && p.output == FillOutput
    requires anchor <= m.start && Emittable(p, m)
    modifies dst
    ensures E.Written(p, dst[..], op', anchor', ss', need')
  {
    hide E.Written, RealMatch, E.Need;
    op', anchor', ss', need' := op, anchor, ss, need;
    var oend := dst.Length - LASTLITERALS;
    var ll := m.start - anchor;
    var cost := 1 + (ll + 240) / 255 + ll;
    var maxLitPos := oend - 3;
    if op + cost <= maxLitPos {
      var bytesLeftForMl := maxLitPos - (op + cost);
      var maxMlSize := MINMATCH + (ML_MASK - 1) + bytesLeftForMl * 255;
      var ml := if m.len > maxMlSize then maxMlSize else m.len;
      if (oend + LASTLITERALS) - (op + cost + 2) - 1 + ml >= MFLIMIT {
        Shorten(p, m, ml);
        var m' := Match(m.start, m.off, ml);
        UncheckedRoom(p, dst.Length, op, anchor, m');
        var overflow;
        overflow, op', ss' := EncodeSequence(p, dst, op, anchor, m', false, oend, ss, need);
        anchor', need' := End(m'), E.Need(m.start, ml);
      }
    }
  }

  lemma UncheckedRoom(p: Params, cap: nat, op: nat, anchor: nat, m: Match)
    requires p.output == FillOutput && anchor <= m.start && m.len >= MINMATCH
    requires var cost := 1 + (m.start - anchor + 240) / 255 + (m.start - anchor);
             && op + cost + 8 <= cap
             && m.len <= MINMATCH + (ML_MASK - 1) + (cap - 8 - (op + cost)) * 255
             && cap - (op + cost + 2) - 1 + m.len >= MFLIMIT
    ensures RoomUnchecked(p, cap, op, anchor, m)
  {
  }
}
