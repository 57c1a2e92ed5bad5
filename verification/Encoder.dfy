/** LZ4_compress_generic_validated: the greedy encoder, in its three output
    disciplines, over a fresh table or after a dictionary. */
module Encoder {
  import opened Format
  import opened Memory
  import opened Emit
  import opened MatchFinding
  import opened Greedy

  /** What becomes of a step: it is done; fillOutput rewinds to the last
      literals; limitedOutput gives up. */
  datatype Step = Go | Rewind | Overflow

  /** Line 1213: the literals that fit after a token when r bytes are left. */
  function FillRun(r: nat): (run: nat)
    ensures run <= r && run + |Ext(run)| <= r
    ensures r <= 255 ==> run >= r - 1
    ensures r <= 14 ==> run == r
  {
    r - (r + 241) / 256
  }

  /** Nothing longer fits. */
  lemma FillRunMost(cap: nat, run: nat)
    requires PlainSize(run) <= cap
    ensures run <= FillRun(cap - 1)
  {
  }

  /** What is lost by a token or a length byte was gained by a match: with no more
      than anchor + anchor / 255 bytes written, the rest is filled up to what
      literals alone would have reached. */
  lemma FilledUp(cap: nat, op: nat, anchor: nat)
    requires op <= anchor + anchor / 255 && op + 1 <= cap
    ensures FillRun(cap - 1) <= anchor + FillRun(cap - op - 1)
  {
    var r := cap - 1;
    assert (r + 241) / 256 >= (r - op + 241) / 256 + op / 256;
    assert op - op / 256 <= anchor;
  }

  lemma FillRunMonotone(r: nat, s: nat)
    requires r <= s
    ensures FillRun(r) <= FillRun(s)
  {
  }

  /** The room that is left once the sequences up to anchor are written. */
  predicate Room(p: Params, cap: nat, op: nat, anchor: nat, need: nat) {
    match p.output
    case NotLimited => op <= anchor + anchor / 255 && CompressBound(|p.src|) <= cap
    case LimitedOutput => op <= anchor + anchor / 255 && op <= cap
    case FillOutput => op <= anchor + anchor / 255 && op + 1 <= cap && need <= anchor + FillRun(cap - op - 1)
  }

  /** The only reason to give up: less room than the source would take as
      literals, which is less than LZ4_compressBound promises to be enough. */
  predicate Tight(p: Params, cap: nat) {
    p.output == LimitedOutput && cap < PlainSize(|p.src|)
  }

  lemma BoundLiterals(n: nat, token: nat, anchor: nat, ip: nat)
    requires token <= anchor + anchor / 255 && anchor <= ip && ip + MFLIMIT <= n <= MAX_INPUT_SIZE
    ensures token + 1 + |Ext(ip - anchor)| + (ip - anchor) + 10 <= CompressBound(n)
    ensures token + 1 + (ip - anchor) / 255 + (ip - anchor) + 8 <= PlainSize(n)
  {
  }

  lemma BoundMatch(n: nat, token: nat, anchor: nat, ip: nat, code: nat)
    requires token <= anchor + anchor / 255 && anchor <= ip
    requires ip + MFLIMIT <= n <= MAX_INPUT_SIZE && ip + MINMATCH + code + LASTLITERALS <= n
    ensures var op := token + 3 + |Ext(ip - anchor)| + (ip - anchor);
            var end := ip + MINMATCH + code;
            && op + |Ext(code)| <= end + end / 255
            && op + |Ext(code)| + 4 <= CompressBound(n)
            && op + 6 + |Ext(code)| <= PlainSize(n)
  {
  }

  /** Lines 1021-1046. */
  method EncodeLiterals(p: Params, dst: array<byte>, op: nat, anchor: nat, ip: nat, ghost need: nat)
    returns (op': nat, step: Step)
    requires |p.src| <= MAX_INPUT_SIZE && anchor <= ip && ip + MFLIMIT <= |p.src|
    requires Room(p, dst.Length, op, anchor, need)
    modifies dst
    ensures dst[..op] == old(dst[..op])
    ensures step == Go ==> op' == op + 1 + |Ext(ip - anchor)| + (ip - anchor) && op' <= dst.Length
    ensures step == Go ==> dst[op..op'] == EncHead(ip - anchor, 0) + p.src[anchor..ip]
    ensures step == Go && p.output == LimitedOutput ==> op' + 5 <= dst.Length
    ensures step == Rewind ==> p.output == FillOutput
    ensures step == Overflow ==> Tight(p, dst.Length)
  {
    var litLength, olimit := ip - anchor, dst.Length;
    if p.output != FillOutput {
      BoundLiterals(|p.src|, op, anchor, ip);
    }
    if p.output == LimitedOutput && op + 1 + litLength + (2 + 1 + LASTLITERALS) + litLength / 255 > olimit {
      return op, Overflow;
    }
    if p.output == FillOutput
       && op + 1 + (litLength + 240) / 255 + litLength + 2 + 1 + MFLIMIT - MINMATCH > olimit {
      return op, Rewind;
    }
    op' := PutLiterals(dst, op, p.src, anchor, ip);
    step := Go;
  }

  /** Lines 1097-1122: shorten a match that does not fit, or give up. */
  method LimitMatch(p: Params, cap: nat, op: nat, code: nat) returns (code': nat, step: Step)
    requires p.output == FillOutput ==> op + 9 <= cap
    requires p.output == LimitedOutput ==> op + 6 + |Ext(code)| <= PlainSize(|p.src|)
    ensures step != Rewind && code' <= code
    ensures step == Overflow ==> Tight(p, cap)
    ensures step == Go && p.output != NotLimited ==> op + 6 + |Ext(code')| <= cap
    ensures p.output != FillOutput ==> code' == code
    ensures code' < code ==> code' >= ML_MASK
  {
    code', step := code, Go;
    if p.output != NotLimited && op + (1 + LASTLITERALS) + (code + 240) / 255 > cap {
      if p.output == FillOutput {
        code' := 15 - 1 + (cap - op - 1 - LASTLITERALS) * 255;
      } else {
        step := Overflow;
      }
    }
  }

  /** Lines 1111-1117: no table entry at or beyond ip survives. */
  method ClearPositions(p: Params, table: array<nat>, ip: nat, filledIp: nat)
    requires ValidParams(p, table.Length) && p.output == FillOutput
    requires 1 <= ip <= filledIp && filledIp + MFLIMIT <= |p.src| && TableOk(p, table[..], filledIp + 1)
    modifies table
    ensures TableOk(p, table[..], ip)
  {
    var ptr := ip;
    while ptr <= filledIp
      invariant ip <= ptr <= filledIp + 1
      invariant TableOk(p, table[..], filledIp + 1)
      invariant forall i :: 0 <= i < table.Length ==> table[i] < ip || table[i] >= ptr
    {
      ghost var was := table[..];
      table[HashPosition(p, ptr)] := 0;
      Cleared(p, was, table[..], filledIp + 1, ip, ptr);
      ptr := ptr + 1;
    }
    forall i | 0 <= i < table.Length ensures EntryOk(p, table[i], ip) {
      assert EntryOk(p, table[..][i], filledIp + 1);
    }
  }

  lemma Cleared(p: Params, a: seq<nat>, b: seq<nat>, cur: nat, ip: nat, ptr: nat)
    requires p.startIndex == 0 && p.output == FillOutput && TableOk(p, a, cur) && 1 <= ip <= ptr < cur && ptr + 8 <= |p.src|
    requires |a| == |b| && HashPosition(p, ptr) < |a| && b == a[HashPosition(p, ptr) := 0]
    requires forall i :: 0 <= i < |a| ==> a[i] < ip || a[i] >= ptr
    ensures TableOk(p, b, cur)
    ensures forall i :: 0 <= i < |b| ==> b[i] < ip || b[i] >= ptr + 1
  {
    forall i | 0 <= i < |b| ensures EntryOk(p, b[i], cur) && OwnSlot(p, b[i], i) {
      assert i != HashPosition(p, ptr) ==> b[i] == a[i];
      assert EntryOk(p, a[i], cur) && OwnSlot(p, a[i], i);
    }
    forall i | 0 <= i < |b| ensures b[i] < ip || b[i] >= ptr + 1 {
      assert OwnSlot(p, a[i], i);
    }
  }

  /** Positions below this one may be in the table when a match at ip, found
      from filledIp, is encoded. */
  function Seen(ip: nat, filledIp: nat): nat {
    (if filledIp < ip then ip else filledIp) + 1
  }

  /** The end-of-block demand of a match at ip of length len. */
  function Need(ip: nat, len: nat): nat {
    if len >= MFLIMIT - LASTLITERALS then ip + len + LASTLITERALS else ip + MFLIMIT
  }

  lemma RoomAfterMatch(p: Params, cap: nat, token: nat, anchor: nat, ip: nat, code: nat, op: nat, need: nat)
    requires Room(p, cap, token, anchor, need)
    requires anchor <= ip && ip + MFLIMIT <= |p.src| <= MAX_INPUT_SIZE && ip + MINMATCH + code + LASTLITERALS <= |p.src|
    requires op == token + 3 + |Ext(ip - anchor)| + (ip - anchor) + |Ext(code)|
    requires p.output != NotLimited ==> op + 6 <= cap
    requires p.output == FillOutput && code < ML_MASK ==> op + 9 <= cap
    ensures Room(p, cap, op, ip + MINMATCH + code, Need(ip, MINMATCH + code))
    ensures code >= ML_MASK ==> op - |Ext(code)| + (code - ML_MASK) / 255 + 4 <= cap
  {
    BoundMatch(|p.src|, token, anchor, ip, code);
    if p.output == FillOutput {
      FillRunMonotone(if code < ML_MASK then 8 else 5, cap - op - 1);
    }
  }

  /** Lines 1097-1122 and 1140: after counting, the length that is emitted, the
      table cleaned up when the match was shortened below filledIp. */
  method SettleLength(p: Params, table: array<nat>, cap: nat, op: nat, ip: nat, m: int, code: nat, filledIp: nat)
    returns (code': nat, step: Step)
    requires ValidParams(p, table.Length) && (p.output == FillOutput ==> op + 9 <= cap)
    requires m < ip && ip + MFLIMIT <= |p.src| && filledIp + MFLIMIT <= |p.src|
    requires TableOk(p, table[..], Seen(ip, filledIp))
    requires RealMatch(p.hist, p.src, ip, ip - m, MINMATCH + code) && filledIp < ip + MINMATCH + code
    requires filledIp <= ip + code
    requires p.output == LimitedOutput ==> op + 6 + |Ext(code)| <= PlainSize(|p.src|)
    modifies table
    ensures step != Rewind && code' <= code
    ensures step == Overflow ==> Tight(p, cap)
    ensures p.output != FillOutput ==> table[..] == old(table[..]) && code' == code
    ensures step == Go ==> TableOk(p, table[..], ip + MINMATCH + code')
    ensures step == Go && p.output != NotLimited ==> op + 6 + |Ext(code')| <= cap
    ensures RealMatch(p.hist, p.src, ip, ip - m, MINMATCH + code')
  {
    code', step := LimitMatch(p, cap, op, code);
    ShorterMatch(p.hist, p.src, ip, ip - m, MINMATCH + code, MINMATCH + code');
    var end := ip + MINMATCH + code';
    if p.output == FillOutput && code' < code && end <= filledIp {
      ClearPositions(p, table, end, filledIp);
    } else if step == Go {
      TableLater(p, table[..], Seen(ip, filledIp), end);
    }
  }

  /** The match of an open sequence: its token and literals stand in dst from
      `token` to op.  Lines 1048-1140. */
  method EncodeMatch(p: Params, table: array<nat>, dst: array<byte>, token: nat, op: nat, anchor: nat, ip: nat, m: int,
                     filledIp: nat, ghost ss: seq<Sequence>, ghost need: nat)
    returns (op': nat, ip': nat, step: Step, ghost ss': seq<Sequence>)
    requires ValidParams(p, table.Length) && Opened(p, dst[..], token, op, anchor, ip)
    requires Emitted(dst[..], token, ss, p.hist, p.src, anchor, need) && Room(p, dst.Length, token, anchor, need)
    requires need <= ip + MFLIMIT && ip + MFLIMIT <= |p.src| && filledIp + MFLIMIT <= |p.src|
    requires MatchAt(p, ip, m, filledIp)
    requires TableOk(p, table[..], Seen(ip, filledIp))
    modifies dst, table
    ensures dst[..token] == old(dst[..token])
    ensures p.output != FillOutput ==> table[..] == old(table[..])
    ensures step == Rewind ==> p.output == FillOutput
    ensures step == Overflow ==> Tight(p, dst.Length)
    ensures step == Go ==> ip + MINMATCH <= ip' && ip' + LASTLITERALS <= |p.src| && op' <= dst.Length
    ensures step == Go ==> Emitted(dst[..], op', ss', p.hist, p.src, ip', Need(ip, ip' - ip))
    ensures step == Go ==> Room(p, dst.Length, op', ip', Need(ip, ip' - ip)) && TableOk(p, table[..], ip')
    ensures step == Go && p.output != NotLimited ==> op' + 6 <= dst.Length
    ensures step == Go ==>
              && ss' == ss + [Sequence(p.src[anchor..ip], ip - m, ip' - ip)] && RealMatch(p.hist, p.src, ip, ip - m, ip' - ip)
              && (p.output != FillOutput ==> Ends(p, ip, m, ip' - ip))
  {
    hide Emitted, RealMatch, Room, TableOk, Opened, EncHead, MatchAt, Ext, Need, Periodic, HashFits, Ends;
    op', ip', step, ss' := op, ip, Rewind, ss;
    if p.output == FillOutput && op + 2 + 1 + MFLIMIT - MINMATCH > dst.Length {
      return;
    }
    OpenedRoom(p, dst[..], token, op, anchor, ip, need);
    MatchAtReal(p, ip, m, filledIp);
    ghost var a := dst[..];
    PutOffset(dst, op, ip - m);
    OffsetPut(p, a, dst[..], token, op, anchor, ip, ip - m);
    EmittedKept(a, dst[..], token, ss, p.hist, p.src, anchor, need);
    var code := MatchCode(p, ip, m, if filledIp < ip then MINMATCH else filledIp - ip + MINMATCH);
    MatchWithinBound(p, dst.Length, token, op + 2, anchor, ip, code, need);
    code, step := SettleLength(p, table, dst.Length, op + 2, ip, m, code, filledIp);
    if step == Go {
      ip' := ip + MINMATCH + code;
      op', ss' := FinishMatch(p, dst, token, op + 2, anchor, ip, ip - m, code, ss, need);
    }
  }

  lemma MatchWithinBound(p: Params, cap: nat, token: nat, op: nat, anchor: nat, ip: nat, code: nat, need: nat)
    requires Room(p, cap, token, anchor, need) && anchor <= ip && ip + MFLIMIT <= |p.src| <= MAX_INPUT_SIZE
    requires ip + MINMATCH + code + LASTLITERALS <= |p.src| && op == token + 3 + |Ext(ip - anchor)| + (ip - anchor)
    ensures p.output == LimitedOutput ==> op + 6 + |Ext(code)| <= PlainSize(|p.src|)
  {
    if p.output == LimitedOutput {
      BoundMatch(|p.src|, token, anchor, ip, code);
    }
  }

  lemma MatchAtReal(p: Params, ip: nat, m: int, filledIp: nat)
    requires MatchAt(p, ip, m, filledIp)
    ensures -|p.hist| <= m < ip && ip - m <= DISTANCE_MAX
    ensures p.dict == UsingExtDict && m < 0 ==> m + MINMATCH <= 0
    ensures RealMatch(p.hist, p.src, ip, ip - m, if filledIp < ip then MINMATCH else filledIp - ip + MINMATCH)
  {
  }

  /** The match length is stored and the sequence is complete. */
  method FinishMatch(p: Params, dst: array<byte>, token: nat, op: nat, anchor: nat, ip: nat, offset: nat, code: nat,
                     ghost ss: seq<Sequence>, ghost need: nat)
    returns (op': nat, ghost ss': seq<Sequence>)
    requires |p.src| <= MAX_INPUT_SIZE && anchor <= ip && ip + MFLIMIT <= |p.src| && need <= ip + MFLIMIT
    requires Emitted(dst[..], token, ss, p.hist, p.src, anchor, need) && Room(p, dst.Length, token, anchor, need)
    requires op == token + 3 + |Ext(ip - anchor)| + (ip - anchor) <= dst.Length && offset <= DISTANCE_MAX
    requires dst[token..op] == EncHead(ip - anchor, 0) + p.src[anchor..ip] + [offset % 256, offset / 256]
    requires RealMatch(p.hist, p.src, ip, offset, MINMATCH + code) && ip + MINMATCH + code + LASTLITERALS <= |p.src|
    requires p.output != NotLimited ==> op + 6 + |Ext(code)| <= dst.Length
    requires p.output == FillOutput ==> op + 9 <= dst.Length
    modifies dst
    ensures dst[..token] == old(dst[..token])
    ensures op' <= dst.Length && ss' == ss + [Sequence(p.src[anchor..ip], offset, MINMATCH + code)]
    ensures Emitted(dst[..], op', ss', p.hist, p.src, ip + MINMATCH + code, Need(ip, MINMATCH + code))
    ensures Room(p, dst.Length, op', ip + MINMATCH + code, Need(ip, MINMATCH + code))
    ensures p.output != NotLimited ==> op' + 6 <= dst.Length
  {
    hide Emitted, RealMatch, Room, EncHead, EncSeq, Ext, Need;
    var len := MINMATCH + code;
    RoomAfterMatch(p, dst.Length, token, anchor, ip, code, op + |Ext(code)|, need);
    NeedCovers(ip, len);
    ghost var a := dst[..];
    op' := PutMatchLength(dst, token, op, p.src[anchor..ip], offset, code);
    ss' := ss + [Sequence(p.src[anchor..ip], offset, len)];
    EmitSequence(a, dst[..], token, op', ss, p.hist, p.src, anchor, need, ip, offset, len, Need(ip, len));
  }

  lemma NeedCovers(ip: nat, len: nat)
    ensures ip + MFLIMIT <= Need(ip, len) && ip + len + LASTLITERALS <= Need(ip, len)
  {
  }

  /** Token and literals are written; the match is not. */
  predicate Opened(p: Params, a: seq<byte>, token: nat, op: nat, anchor: nat, ip: nat) {
    && anchor <= ip <= |p.src| && op <= |a|
    && op == token + 1 + |Ext(ip - anchor)| + (ip - anchor)
    && a[token..op] == EncHead(ip - anchor, 0) + p.src[anchor..ip]
    && (p.output == LimitedOutput ==> op + 5 <= |a|)
  }

  /** A match at ip, at least as long as to cover filledIp and four bytes more. */
  predicate MatchAt(p: Params, ip: nat, m: int, filledIp: nat) {
    && -|p.hist| <= m < ip && ip - m <= DISTANCE_MAX
    && (p.dict == UsingExtDict && m < 0 ==> m + MINMATCH <= 0)
    && RealMatch(p.hist, p.src, ip, ip - m, if filledIp < ip then MINMATCH else filledIp - ip + MINMATCH)
  }

  lemma OpenedOrder(p: Params, a: seq<byte>, token: nat, op: nat, anchor: nat, ip: nat)
    requires Opened(p, a, token, op, anchor, ip)
    ensures anchor <= ip && token < op <= |a|
  {
  }

  lemma OpenedRoom(p: Params, a: seq<byte>, token: nat, op: nat, anchor: nat, ip: nat, need: nat)
    requires Opened(p, a, token, op, anchor, ip) && Room(p, |a|, token, anchor, need)
    requires ip + MFLIMIT <= |p.src| <= MAX_INPUT_SIZE
    requires p.output == FillOutput ==> op + 11 <= |a|
    ensures anchor <= ip && op + 2 <= |a|
    ensures op == token + 1 + |Ext(ip - anchor)| + (ip - anchor)
  {
    if p.output == NotLimited {
      BoundLiterals(|p.src|, token, anchor, ip);
    }
  }

  lemma OffsetPut(p: Params, a: seq<byte>, b: seq<byte>, token: nat, op: nat, anchor: nat, ip: nat, offset: nat)
    requires Opened(p, a, token, op, anchor, ip) && offset <= DISTANCE_MAX
    requires op + 2 <= |b| && a[..op] == b[..op] && b[op..op + 2] == [offset % 256, offset / 256]
    ensures token <= op <= |a|
    ensures b[..token] == a[..token]
    ensures b[token..op + 2] == EncHead(ip - anchor, 0) + p.src[anchor..ip] + [offset % 256, offset / 256]
  {
    Appended(a, b, token, op - token, 2);
  }

  /** Lines 1145-1200: fill the table and test the next position. */
  method TestNext(p: Params, table: array<nat>, ip: nat) returns (next: bool, m: int)
    requires ValidParams(p, table.Length) && 2 <= ip && ip + MFLIMIT <= |p.src| && TableOk(p, table[..], ip)
    modifies table
    ensures Grown(p, old(table[..]), table[..])
    ensures TableOk(p, table[..], ip + 1)
    ensures next <==> Candidate(p, ip, m)
    ensures var put, h := HashPosition(p, ip - 2), HashPosition(p, ip);
            && put < table.Length && h < table.Length
            && m == (if put == h then Stored(p, p.startIndex + ip - 2) else old(table[h])) - p.startIndex
    ensures var t := Entered(p, old(table[..]), ip - 2);
            m == t[HashPosition(p, ip)] - p.startIndex && table[..] == Entered(p, t, ip)
  {
    hide TableOk, EntryOk, Candidate, HashFits, HashPosition, Grown;
    ghost var before := table[..];
    HashInTable(p, table.Length, ip - 2);
    HashInTable(p, table.Length, ip);
    PutPosition(p, table, ip - 2, HashPosition(p, ip - 2), ip);
    ghost var was := table[..];
    var h := HashPosition(p, ip);
    var matchIndex := table[h];
    EntryIn(p, was, ip, h);
    TableLater(p, was, ip, ip + 1);
    PutPosition(p, table, ip, h, ip + 1);
    GrownMore(p, before, was, table[..]);
    next := Test(p, ip, matchIndex);
    m := matchIndex - p.startIndex;
  }

  // ---------------------------------------------------------------------
  // The main loop
  // ---------------------------------------------------------------------

  datatype Exit = More | ToLastLiterals | Failure

  /** The sequences up to anchor are written. */
  predicate Written(p: Params, a: seq<byte>, op: nat, anchor: nat, ss: seq<Sequence>, need: nat) {
    && Emitted(a, op, ss, p.hist, p.src, anchor, need)
    && Room(p, |a|, op, anchor, need)
    && op <= |a| && need <= anchor + MFLIMIT && need <= |p.src|
  }

  ghost predicate PhaseOk(p: Params, a: seq<byte>, table: seq<nat>, op: nat, anchor: nat, ip: nat, ph: Phase) {
    match ph
    case Search => 1 <= ip && anchor <= ip && ip + MFLIMIT <= |p.src| + 1 && TableOk(p, table, ip)
    case Next(m) =>
      && 1 <= ip == anchor && ip + MFLIMIT <= |p.src| && TableOk(p, table, ip + 1)
      && Candidate(p, ip, m)
      && (p.output != NotLimited ==> op + 6 <= |a|)
  }

  /** From a phase to an open sequence: search, catch up and write literals;
      or start a sequence without literals. */
  method OpenSequence(p: Params, table: array<nat>, dst: array<byte>, acceleration: nat, token: nat, anchor: nat,
                      ip0: nat, ph: Phase, ghost ss: seq<Sequence>, ghost need: nat)
    returns (exit: Exit, op: nat, ip: nat, m: int, filledIp: nat, ghost k: nat)
    requires ValidParams(p, table.Length) && acceleration >= 1 && PhaseOk(p, dst[..], table[..], token, anchor, ip0, ph)
    requires Room(p, dst.Length, token, anchor, need)
    modifies dst, table
    ensures dst[..token] == old(dst[..token]) && Grown(p, old(table[..]), table[..])
    ensures exit == More ==>
              && Opened(p, dst[..], token, op, anchor, ip) && ip + MFLIMIT <= |p.src| && filledIp + MFLIMIT <= |p.src|
              && MatchAt(p, ip, m, filledIp)
              && TableOk(p, table[..], Seen(ip, filledIp))
    ensures exit == Failure ==> Tight(p, dst.Length)
    ensures exit == ToLastLiterals ==> ph.Search? && (SearchEnds(p, old(table[..]), ip0, acceleration, k, false) || p.output == FillOutput)
    ensures exit == More && p.output != FillOutput ==>
              var t := Turn(anchor, ip0, ph, old(table[..]), ss);
              Chosen(p, acceleration, t, k, ip, m) && Searched(p, acceleration, t, k, table[..])
  {
    k := 0;
    match ph {
      case Next(m0) =>
        NextIsMatch(p, ip0, m0);
        hide TableOk, Opened, MatchAt, RealMatch;
        exit, op, ip, m, filledIp := More, token + 1, ip0, m0, 0;
        EmptyLiterals(p, dst, token, anchor);
      case Search =>
        exit, op, ip, m, filledIp, k := SearchSequence(p, table, dst, acceleration, token, anchor, ip0, need);
    }
  }

  lemma LiteralsOpen(p: Params, a: seq<byte>, token: nat, op: nat, anchor: nat, ip: nat)
    requires anchor <= ip <= |p.src| && op <= |a|
    requires op == token + 1 + |Ext(ip - anchor)| + (ip - anchor)
    requires a[token..op] == EncHead(ip - anchor, 0) + p.src[anchor..ip]
    requires p.output == LimitedOutput ==> op + 5 <= |a|
    ensures Opened(p, a, token, op, anchor, ip)
  {
  }

  lemma NextIsMatch(p: Params, ip: nat, m: int)
    requires Candidate(p, ip, m) && 1 <= ip
    ensures MatchAt(p, ip, m, 0)
  {
  }

  lemma CaughtUp(p: Params, ip: nat, m: int, filledIp: nat, m0: int)
    requires Candidate(p, filledIp, m0) && ip <= filledIp && ip - m == filledIp - m0 && -|p.hist| <= m
    requires p.dict == UsingExtDict ==> (m < 0 <==> m0 < 0)
    requires RealMatch(p.hist, p.src, ip, ip - m, filledIp - ip + MINMATCH)
    ensures MatchAt(p, ip, m, filledIp)
  {
  }

  lemma SearchFound(p: Params, table: seq<nat>, ip0: nat, acceleration: nat, k: nat)
    requires ValidParams(p, |table|) && SearchEnds(p, table, ip0, acceleration, k, true)
    ensures Hits(p, table, ip0, acceleration, k)
  {
  }

  method SearchSequence(p: Params, table: array<nat>, dst: array<byte>, acceleration: nat, token: nat, anchor: nat,
                        ip0: nat, ghost need: nat)
    returns (exit: Exit, op: nat, ip: nat, m: int, filledIp: nat, ghost k: nat)
    requires ValidParams(p, table.Length) && acceleration >= 1
    requires 1 <= ip0 && anchor <= ip0 && ip0 + MFLIMIT <= |p.src| + 1 && TableOk(p, table[..], ip0)
    requires Room(p, dst.Length, token, anchor, need)
    modifies dst, table
    ensures dst[..token] == old(dst[..token]) && Grown(p, old(table[..]), table[..])
    ensures exit == More ==>
              && Opened(p, dst[..], token, op, anchor, ip) && ip + MFLIMIT <= |p.src| && filledIp + MFLIMIT <= |p.src|
              && MatchAt(p, ip, m, filledIp)
              && TableOk(p, table[..], Seen(ip, filledIp))
    ensures exit == Failure ==> Tight(p, dst.Length)
    ensures SearchEnds(p, old(table[..]), ip0, acceleration, k, exit != ToLastLiterals) || p.output == FillOutput
    ensures exit == More ==>
              && Hits(p, old(table[..]), ip0, acceleration, k) && CaughtUpTo(p, old(table[..]), anchor, ip0, acceleration, k, ip, m)
              && Probed(p, old(table[..]), table[..], ip0, acceleration, k + 1)
  {
    hide TableOk, SearchEnds, Probed, RealMatch, Candidate, MatchAt, HashFits, Room, Grown, Opened, EncHead, Ext;
    exit, op, ip, m, filledIp := ToLastLiterals, token, ip0, 0, 0;
    var found;
    found, filledIp, m, k := FindMatch(p, table, ip0, acceleration);
    if found {
      ghost var m0 := m;
      ip, m := CatchUp(p, anchor, filledIp, m);
      CaughtUp(p, ip, m, filledIp, m0);
      SearchFound(p, old(table[..]), ip0, acceleration, k);
      assert Seen(ip, filledIp) == filledIp + 1;
      ghost var t := table[..];
      var step;
      op, step := EncodeLiterals(p, dst, token, anchor, ip, need);
      assert table[..] == t;
      if step == Go {
        LiteralsOpen(p, dst[..], token, op, anchor, ip);
      }
      exit := if step == Go then More else if step == Rewind then ToLastLiterals else Failure;
    }
  }

  /** `token = op++; *token = 0`. */
  method EmptyLiterals(p: Params, dst: array<byte>, token: nat, anchor: nat)
    requires anchor + MFLIMIT <= |p.src| <= MAX_INPUT_SIZE
    requires p.output != NotLimited ==> token + 6 <= dst.Length
    requires p.output == NotLimited ==> token <= anchor + anchor / 255 && CompressBound(|p.src|) <= dst.Length
    modifies dst
    ensures dst[..token] == old(dst[..token])
    ensures Opened(p, dst[..], token, token + 1, anchor, anchor)
  {
    if p.output == NotLimited {
      BoundLiterals(|p.src|, token, anchor, anchor);
    }
    dst[token] := 0;
    assert dst[token..token + 1] == [0] == EncHead(0, 0) + p.src[anchor..anchor];
  }

  /** One round of the main loop: one sequence. */
  method Round(p: Params, table: array<nat>, dst: array<byte>, acceleration: nat, op: nat, anchor: nat, ip: nat, ph: Phase,
               ghost ss: seq<Sequence>, ghost need: nat)
    returns (exit: Exit, op': nat, anchor': nat, ip': nat, ph': Phase, ghost ss': seq<Sequence>, ghost need': nat)
    requires ValidParams(p, table.Length) && acceleration >= 1
    requires Written(p, dst[..], op, anchor, ss, need) && PhaseOk(p, dst[..], table[..], op, anchor, ip, ph)
    modifies dst, table
    ensures p.output != FillOutput ==> Grown(p, old(table[..]), table[..])
    ensures exit == Failure ==> Tight(p, dst.Length)
    ensures exit != Failure ==> Written(p, dst[..], op', anchor', ss', need') && anchor <= anchor'
    ensures exit == More ==> anchor < anchor' <= |p.src| && PhaseOk(p, dst[..], table[..], op', anchor', ip', ph')
    ensures p.output != FillOutput && exit != Failure ==>
              var t, u := Turn(anchor, ip, ph, old(table[..]), ss), Turn(anchor', ip', ph', table[..], ss');
              if anchor' == anchor then exit == ToLastLiterals && ss' == ss && Over(p, acceleration, t)
              else Follows(p, acceleration, t, u) && (exit == ToLastLiterals ==> Over(p, acceleration, u))
  {
    hide Emitted, Opened, MatchAt, TableOk, Candidate, HashFits, Room, Need, Chosen, Searched, Makes, SearchEnds, HashPosition, Entered, Ends;
    ghost var a := dst[..];
    op', anchor', ip', ph', ss', need' := op, anchor, ip, ph, ss, need;
    var m, filledIp, op1;
    ghost var k;
    exit, op1, ip', m, filledIp, k := OpenSequence(p, table, dst, acceleration, op, anchor, ip, ph, ss, need);
    EmittedKept(a, dst[..], op, ss, p.hist, p.src, anchor, need);
    if exit != More { return; }
    exit, op', anchor', ss', need' := CloseSequence(p, table, dst, op, op1, anchor, ip', m, filledIp, ss, need);
    if exit != More { return; }
    ghost var at, m0, searched := ip', m, table[..];
    ip', ph' := anchor', Search;
    if anchor' + MFLIMIT > |p.src| {
      exit := ToLastLiterals;
      if p.output != FillOutput {
        NothingLeft(p, acceleration, Turn(anchor', ip', ph', table[..], ss'));
        RoundDone(p, acceleration, Turn(anchor, ip, ph, old(table[..]), ss), Turn(anchor', ip', ph', table[..], ss'), k, at, m0, searched);
      }
      return;
    }
    var next;
    next, m := TestNext(p, table, ip');
    if next {
      ph' := Next(m);
    } else {
      ip', ph' := ip' + 1, Search;
    }
    if p.output != FillOutput {
      RoundDone(p, acceleration, Turn(anchor, ip, ph, old(table[..]), ss), Turn(anchor', ip', ph', table[..], ss'), k, at, m0, searched);
    }
  }

  /** Too near the end for another probe. */
  lemma NothingLeft(p: Params, acceleration: nat, t: Turn)
    requires ValidParams(p, |t.table|) && t.ph == Search && t.ip + MFLIMIT > |p.src|
    ensures Over(p, acceleration, t)
  {
    hide HashFits;
    assert Probe(t.ip, acceleration, 0) == t.ip && Probe(t.ip, acceleration, 1) == t.ip + 1;
    assert SearchEnds(p, t.table, t.ip, acceleration, 0, false);
  }

  lemma RoundDone(p: Params, acceleration: nat, t: Turn, u: Turn, k: nat, at: nat, m: int, table: seq<nat>)
    requires ValidParams(p, |t.table|) && |table| == |t.table| && 2 <= u.anchor
    requires Chosen(p, acceleration, t, k, at, m) && Searched(p, acceleration, t, k, table) && GoesOn(p, table, u)
    requires Makes(p, Turn(t.anchor, 0, Search, [], t.ss), at, m, u.anchor, u.ss)
    ensures Follows(p, acceleration, t, u)
  {
    hide Chosen, Searched, GoesOn, RealMatch, Ends, HashFits;
    assert FollowsBy(p, acceleration, t, u, k, at, m, table);
  }

  method CloseSequence(p: Params, table: array<nat>, dst: array<byte>, token: nat, op: nat, anchor: nat, ip: nat, m: int,
                       filledIp: nat, ghost ss: seq<Sequence>, ghost need: nat)
    returns (exit: Exit, op': nat, anchor': nat, ghost ss': seq<Sequence>, ghost need': nat)
    requires ValidParams(p, table.Length) && Opened(p, dst[..], token, op, anchor, ip)
    requires Written(p, dst[..], token, anchor, ss, need)
    requires ip + MFLIMIT <= |p.src| && filledIp + MFLIMIT <= |p.src|
    requires MatchAt(p, ip, m, filledIp)
    requires TableOk(p, table[..], Seen(ip, filledIp))
    modifies dst, table
    ensures p.output != FillOutput ==> table[..] == old(table[..])
    ensures exit == Failure ==> Tight(p, dst.Length)
    ensures exit != Failure ==> Written(p, dst[..], op', anchor', ss', need') && anchor <= anchor'
    ensures exit == More ==> anchor + MINMATCH <= anchor' <= |p.src| && TableOk(p, table[..], anchor')
    ensures exit == More && p.output != NotLimited ==> op' + 6 <= dst.Length
    ensures exit == ToLastLiterals ==> p.output == FillOutput && anchor' == anchor
    ensures exit == More && p.output != FillOutput ==> Makes(p, Turn(anchor, 0, Search, [], ss), ip, m, anchor', ss')
  {
    hide RealMatch, Emitted, Opened, MatchAt, TableOk, HashFits, Room, Ends;
    ghost var a := dst[..];
    op', anchor', ss', need' := token, anchor, ss, need;
    OpenedOrder(p, a, token, op, anchor, ip);
    MatchAtReal(p, ip, m, filledIp);
    var op1, ip', step;
    ghost var ss1;
    op1, ip', step, ss1 := EncodeMatch(p, table, dst, token, op, anchor, ip, m, filledIp, ss, need);
    if step == Go {
      exit, op', anchor', ss', need' := More, op1, ip', ss1, Need(ip, ip' - ip);
    } else {
      exit := if step == Rewind then ToLastLiterals else Failure;
      EmittedKept(a, dst[..], token, ss, p.hist, p.src, anchor, need);
    }
  }

  // ---------------------------------------------------------------------
  // The last literals, and the whole
  // ---------------------------------------------------------------------

  /** Lines 1204-1231. */
  method LastLiterals(p: Params, dst: array<byte>, op: nat, anchor: nat, ghost ss: seq<Sequence>, ghost need: nat)
    returns (result: nat, consumed: nat)
    requires |p.src| <= MAX_INPUT_SIZE && Written(p, dst[..], op, anchor, ss, need)
    modifies dst
    ensures result == 0 ==> Tight(p, dst.Length)
    ensures result > 0 ==> result <= dst.Length && consumed <= |p.src| && Decodes(dst[..result], p.hist, p.src[..consumed])
    ensures result > 0 ==> anchor <= consumed && Encodable(ss) && dst[..result] == EncBlock(ss, p.src[anchor..consumed])
    ensures p.output != FillOutput ==> consumed == |p.src|
    ensures p.output != FillOutput ==> result <= PlainSize(|p.src|)
    ensures p.output == FillOutput ==> consumed == |p.src| || consumed >= FillRun(dst.Length - 1)
  {
    hide EncLast, EncBlock, Encodable, Decodes, Emitted, Room, FillRun;
    var lastRun, cap := |p.src| - anchor, dst.Length;
    WrittenRoom(p, dst[..], op, anchor, ss, need);
    if p.output != NotLimited && op + lastRun + 1 + (lastRun + 255 - RUN_MASK) / 255 > cap {
      if p.output == LimitedOutput {
        return 0, |p.src|;
      }
      lastRun := FillRun(cap - op - 1);
      FillRunShorter(cap - op - 1, |p.src| - anchor);
    }
    consumed := anchor + lastRun;
    LastFits(p, cap, op, anchor, need, lastRun);
    ghost var a := dst[..];
    result := PutLast(dst, op, p.src, anchor, lastRun);
    ghost var b := dst[..result];
    assert b[..op] == dst[..op];
    assert b[op..] == dst[op..result];
    EmitLast(a, b, op, ss, p.hist, p.src, anchor, need, consumed);
  }

  lemma WrittenRoom(p: Params, a: seq<byte>, op: nat, anchor: nat, ss: seq<Sequence>, need: nat)
    requires Written(p, a, op, anchor, ss, need)
    ensures anchor <= |p.src| && need <= |p.src| && op <= |a|
    ensures p.output == FillOutput ==> op + 1 <= |a|
    ensures var lastRun := |p.src| - anchor;
            p.output == LimitedOutput && |p.src| <= MAX_INPUT_SIZE
            ==> op + lastRun + 1 + (lastRun + 240) / 255 <= PlainSize(|p.src|)
  {
  }

  lemma FillRunShorter(r: nat, run: nat)
    requires run + (run + 240) / 255 > r
    ensures FillRun(r) <= run
  {
  }

  lemma LastFits(p: Params, cap: nat, op: nat, anchor: nat, need: nat, lastRun: nat)
    requires Room(p, cap, op, anchor, need) && anchor + lastRun <= |p.src| <= MAX_INPUT_SIZE && need <= |p.src|
    requires anchor + lastRun == |p.src| || (p.output == FillOutput && lastRun == FillRun(cap - op - 1))
    requires p.output != NotLimited && lastRun + anchor == |p.src| && !(p.output == FillOutput && lastRun == FillRun(cap - op - 1))
             ==> op + lastRun + 1 + (lastRun + 240) / 255 <= cap
    ensures op + 1 + |Ext(lastRun)| + lastRun <= cap && need <= anchor + lastRun
    ensures p.output != FillOutput ==> op + 1 + |Ext(lastRun)| + lastRun <= PlainSize(|p.src|)
    ensures p.output == FillOutput && lastRun == FillRun(cap - op - 1) ==> anchor + lastRun >= FillRun(cap - 1)
  {
  }

  /** LZ4_compress_generic_validated.  result is 0 when the block cannot be
      compressed within the output buffer; else the bytes written decode, after
      the dictionary, to the `consumed` first bytes of the source. */
  method CompressValidated(p: Params, table: array<nat>, dst: array<byte>, acceleration: nat)
    returns (result: nat, consumed: nat)
    requires ValidParams(p, table.Length) && acceleration >= 1
    requires forall i :: 0 <= i < table.Length ==>
               if table[i] < p.startIndex then OldEntry(p, table[i]) else p.startIndex == 0 && table[i] == 0
    requires p.output == NotLimited ==> CompressBound(|p.src|) <= dst.Length
    modifies dst, table
    ensures result > 0 ==> result <= dst.Length && consumed <= |p.src| && Decodes(dst[..result], p.hist, p.src[..consumed])
    ensures p.output != FillOutput ==> consumed == |p.src|
    ensures p.output != FillOutput ==> AsGoodAsPlain(|p.src|, dst.Length, result)
    ensures p.output == FillOutput && dst.Length >= 1 ==> result > 0 && FilledAsPlain(|p.src|, dst.Length, consumed)
    ensures p.output != FillOutput ==> Grown(p, old(table[..]), table[..])
    ensures p.output != FillOutput && result > 0 ==> GreedyBlock(p, acceleration, old(table[..]), dst[..result])
  {
    hide HashFits, Follows, Over, Decodes, Written, OldEntry, PhaseOk, Grown, FilledAsPlain, Entered, Encodable, EncSeqs, EncLast;
    if p.output == FillOutput && dst.Length < 1 {
      return 0, 0;
    }
    ghost var table0 := table[..];
    ghost var turns: seq<Turn> := [];
    NoProbe(p, table0, 0, acceleration);
    var op: nat, anchor: nat := 0, 0;
    ghost var ss: seq<Sequence>, need: nat := [], 0;
    NothingWritten(p, dst[..]);
    if |p.src| >= MFLIMIT + 1 {
      PutFirst(p, table);
      FirstPhase(p, dst[..], table[..]);
      var ip, ph, exit := 1, Search, More;
      ghost var first := Turn(0, 1, Search, table[..], []);
      turns := [first];
      while exit == More
        invariant p.output != FillOutput ==> Grown(p, old(table[..]), table[..])
        invariant exit == Failure ==> Tight(p, dst.Length)
        invariant exit != Failure ==> Written(p, dst[..], op, anchor, ss, need)
        invariant exit == More ==> anchor <= |p.src| && PhaseOk(p, dst[..], table[..], op, anchor, ip, ph)
        invariant exit == More && p.output != FillOutput ==>
                    Rounds(p, acceleration, first, turns) && turns[|turns| - 1] == Turn(anchor, ip, ph, table[..], ss)
        invariant exit == ToLastLiterals && p.output != FillOutput ==>
                    && Rounds(p, acceleration, first, turns)
                    && var u := turns[|turns| - 1]; u.anchor == anchor && u.ss == ss && Over(p, acceleration, u)
        decreases exit == More, |p.src| - anchor
      {
        ghost var before, was := anchor, table[..];
        exit, op, anchor, ip, ph, ss, need := Round(p, table, dst, acceleration, op, anchor, ip, ph, ss, need);
        if p.output != FillOutput { GrownMore(p, table0, was, table[..]); }
        if anchor > before { turns := turns + [Turn(anchor, ip, ph, table[..], ss)]; }
      }
      if exit == Failure {
        return 0, |p.src|;
      }
    }
    result, consumed := LastLiterals(p, dst, op, anchor, ss, need);
    if p.output == FillOutput { FilledEnough(|p.src|, dst.Length, consumed); }
    if p.output != FillOutput && result > 0 {
      assert p.src[anchor..consumed] == p.src[anchor..] && p.src[0..] == p.src;
      if |p.src| > MFLIMIT {
        assert turns[0] == Turn(0, 1, Search, Entered(p, table0, 0), []);
        assert Complete(p, acceleration, turns[0], turns, dst[..result]);
        assert GreedyBlock(p, acceleration, table0, dst[..result]);
      }
    }
  }

  lemma FilledEnough(n: nat, cap: nat, consumed: nat)
    requires cap >= 1 && (consumed == n || consumed >= FillRun(cap - 1))
    ensures FilledAsPlain(n, cap, consumed)
  {
    forall k: nat | k <= n && PlainSize(k) <= cap ensures k <= consumed {
      FillRunMost(cap, k);
    }
  }

  lemma NothingWritten(p: Params, a: seq<byte>)
    requires p.output == NotLimited ==> CompressBound(|p.src|) <= |a|
    requires p.output == FillOutput ==> 1 <= |a|
    ensures Written(p, a, 0, 0, [], 0)
  {
    NothingEmitted(a, p.hist, p.src);
  }

  lemma FirstPhase(p: Params, a: seq<byte>, table: seq<nat>)
    requires |p.src| >= MFLIMIT + 1 && TableOk(p, table, 1)
    ensures PhaseOk(p, a, table, 0, 0, 1, Search)
  {
    hide TableOk;
  }

  /** Line 924: the first position enters the table. */
  method PutFirst(p: Params, table: array<nat>)
    requires ValidParams(p, table.Length) && |p.src| > MFLIMIT
    requires forall i :: 0 <= i < table.Length ==>
               if table[i] < p.startIndex then OldEntry(p, table[i]) else p.startIndex == 0 && table[i] == 0
    modifies table
    ensures TableOk(p, table[..], 1) && Grown(p, old(table[..]), table[..]) && table[..] == Entered(p, old(table[..]), 0)
  {
    assert TableOk(p, table[..], 1);
    PutPosition(p, table, 0, HashPosition(p, 0), 1);
  }
}
