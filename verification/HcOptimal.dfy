/** LZ4HC_compress_optimal: the price-table parser, which reverses the chosen
    path inside its own table. */
module HcOptimal {
  import opened Format
  import opened Emit
  import opened MatchFinding
  import opened HcEmit
  import P = HcParser
  import F = HcFinder
  import E = Encoder

  const OPT_NUM: int := 4096
  const TRAILING_LITERALS: int := 3

  /** LZ4HC_optimal_t: how to arrive at a position, as a literal (mlen == 1) or
      by a match that ends there. */
  datatype Opt = Opt(price: int, off: nat, mlen: nat, litlen: nat)

  // ---------------------------------------------------------------------
  // Prices
  // ---------------------------------------------------------------------

  /** LZ4HC_literalsPrice. */
  function LiteralsPrice(litlen: nat): (price: nat) {
    if litlen >= RUN_MASK then litlen + 1 + (litlen - RUN_MASK) / 255 else litlen
  }

  /** LZ4HC_sequencePrice. */
  function SequencePrice(litlen: nat, mlen: nat): (price: nat) {
    1 + 2 + LiteralsPrice(litlen)
    + (if mlen >= ML_MASK + MINMATCH then 1 + (mlen - (ML_MASK + MINMATCH)) / 255 else 0)
  }

  /** The price of a sequence is the number of bytes that encode it. */
  lemma PriceIsSize(x: Sequence)
    requires x.offset <= DISTANCE_MAX && x.mlen >= MINMATCH
    ensures |EncSeq(x)| == SequencePrice(|x.lits|, x.mlen)
    ensures |EncHead(|x.lits|, 0) + x.lits| == 1 + LiteralsPrice(|x.lits|)
  {
  }

  // ---------------------------------------------------------------------
  // The table
  // ---------------------------------------------------------------------

  /** The entry at pos, counted from base, is a literal or a real match that
      ends at pos and does not begin before base. */
  predicate EntryOk(p: Params, base: nat, pos: nat, e: Opt) {
    e.mlen == 1 || (MINMATCH <= e.mlen <= pos && Emittable(p, Match(base + pos - e.mlen, e.off, e.mlen)))
  }

  /** The first n entries are in order. */
  predicate Filled(p: Params, base: nat, s: seq<Opt>, n: nat) {
    n <= |s| && forall pos :: 0 <= pos < n ==> EntryOk(p, base, pos, s[pos])
  }

  lemma FilledStore(p: Params, base: nat, s: seq<Opt>, n: nat, pos: nat, e: Opt)
    requires Filled(p, base, s, n) && pos <= n && pos < |s| && EntryOk(p, base, pos, e)
    ensures Filled(p, base, s[pos := e], if pos < n then n else n + 1)
  {
    hide EntryOk;
  }

  lemma FilledAt(p: Params, base: nat, s: seq<Opt>, n: nat, pos: nat)
    requires Filled(p, base, s, n) && pos < n
    ensures n <= |s| && EntryOk(p, base, pos, s[pos])
  {
  }

  lemma FilledFewer(p: Params, base: nat, s: seq<Opt>, n: nat, m: nat)
    requires Filled(p, base, s, n) && m <= n
    ensures Filled(p, base, s, m)
  {
  }

  lemma PrefixMatch(p: Params, base: nat, cur: nat, off: nat, len: nat, ml: nat, price: int, litlen: nat)
    requires Emittable(p, Match(base + cur, off, len)) && MINMATCH <= ml <= len
    ensures EntryOk(p, base, cur + ml, Opt(price, off, ml, litlen))
  {
    Shorten(p, Match(base + cur, off, len), ml);
  }

  /** Lines 1402-1410 and 1499-1506: literals after the last match. */
  method Trailing(p: Params, base: nat, opt: array<Opt>, last: nat)
    requires Filled(p, base, opt[..], last + 1) && last + TRAILING_LITERALS < opt.Length
    modifies opt
    ensures Filled(p, base, opt[..], last + TRAILING_LITERALS + 1)
  {
    hide Filled;
    var addLit := 1;
    while addLit <= TRAILING_LITERALS
      invariant 1 <= addLit <= TRAILING_LITERALS + 1
      invariant Filled(p, base, opt[..], last + addLit)
    {
      ghost var was := opt[..];
      var e := Opt(opt[last].price + LiteralsPrice(addLit), 0, 1, addLit);
      FilledStore(p, base, was, last + addLit, last + addLit, e);
      opt[last + addLit] := e;
      assert opt[..] == was[last + addLit := e];
      addLit := addLit + 1;
    }
  }

  /** Lines 1376-1410: the table after the first match. */
  method Init(p: Params, base: nat, opt: array<Opt>, llen: nat, off: nat, len: nat)
    requires Emittable(p, Match(base, off, len)) && len + TRAILING_LITERALS < opt.Length
    modifies opt
    ensures Filled(p, base, opt[..], len + TRAILING_LITERALS + 1)
  {
    hide Filled, Emittable;
    AtLeastFour(p, Match(base, off, len));
    var rPos := 0;
    FilledNone(p, base, opt[..]);
    while rPos < MINMATCH
      invariant 0 <= rPos <= MINMATCH && Filled(p, base, opt[..], rPos)
    {
      ghost var was := opt[..];
      var e := Opt(LiteralsPrice(llen + rPos), 0, 1, llen + rPos);
      FilledStore(p, base, was, rPos, rPos, e);
      opt[rPos] := e;
      assert opt[..] == was[rPos := e];
      rPos := rPos + 1;
    }
    var mlen := MINMATCH;
    while mlen <= len
      invariant MINMATCH <= mlen <= len + 1 && Filled(p, base, opt[..], mlen)
    {
      ghost var was := opt[..];
      var e := Opt(SequencePrice(llen, mlen), off, mlen, llen);
      PrefixMatch(p, base, 0, off, len, mlen, e.price, llen);
      FilledStore(p, base, was, mlen, mlen, e);
      opt[mlen] := e;
      assert opt[..] == was[mlen := e];
      mlen := mlen + 1;
    }
    Trailing(p, base, opt, len);
  }

  lemma AtLeastFour(p: Params, m: Match)
    requires Emittable(p, m)
    ensures m.len >= MINMATCH && End(m) + LASTLITERALS <= |p.src|
  {
  }

  lemma FilledNone(p: Params, base: nat, s: seq<Opt>)
    ensures Filled(p, base, s, 0)
  {
  }

  /** Lines 1448-1461: literals after position cur. */
  method ExtendLiterals(p: Params, base: nat, opt: array<Opt>, cur: nat, last: nat)
    requires cur < last && Filled(p, base, opt[..], last + TRAILING_LITERALS + 1)
    modifies opt
    ensures Filled(p, base, opt[..], last + TRAILING_LITERALS + 1)
  {
    hide Filled;
    FilledAt(p, base, opt[..], last + TRAILING_LITERALS + 1, cur);
    var baseLitlen := opt[cur].litlen;
    var litlen := 1;
    while litlen < MINMATCH
      invariant 1 <= litlen <= MINMATCH && Filled(p, base, opt[..], last + TRAILING_LITERALS + 1)
    {
      var price := opt[cur].price - LiteralsPrice(baseLitlen) + LiteralsPrice(baseLitlen + litlen);
      var pos := cur + litlen;
      if price < opt[pos].price {
        ghost var was := opt[..];
        var e := Opt(price, 0, 1, baseLitlen + litlen);
        FilledStore(p, base, was, last + TRAILING_LITERALS + 1, pos, e);
        opt[pos] := e;
        assert opt[..] == was[pos := e];
      }
      litlen := litlen + 1;
    }
  }

  /** Lines 1475-1482: what the sequence ending with a match of ml bytes at cur costs. */
  method PriceAt(opt: array<Opt>, cur: nat, ml: nat) returns (price: int, ll: nat)
    requires cur < opt.Length
    ensures if opt[cur].mlen == 1 then ll == opt[cur].litlen else ll == 0
  {
    if opt[cur].mlen == 1 {
      ll := opt[cur].litlen;
      price := (if cur > ll then opt[cur - ll].price else 0) + SequencePrice(ll, ml);
    } else {
      ll := 0;
      price := opt[cur].price + SequencePrice(0, ml);
    }
  }

  /** Lines 1463-1506: prices of the match of len bytes at cur. */
  method ExtendMatch(p: Params, base: nat, opt: array<Opt>, cur: nat, off: nat, len: nat, last: nat, favorDecSpeed: bool)
    returns (last': nat)
    requires opt.Length == OPT_NUM + TRAILING_LITERALS && cur < last && cur + len < OPT_NUM
    requires Emittable(p, Match(base + cur, off, len))
    requires Filled(p, base, opt[..], last + TRAILING_LITERALS + 1)
    modifies opt
    ensures last' == last || last' == cur + len > last
    ensures Filled(p, base, opt[..], last' + 1)
  {
    hide Filled, Emittable;
    last' := last;
    AtLeastFour(p, Match(base + cur, off, len));
    var ml := MINMATCH;
    ghost var n := last + TRAILING_LITERALS + 1;
    FilledAt(p, base, opt[..], n, cur);
    while ml <= len
      invariant MINMATCH <= ml <= len + 1
      invariant ml <= len ==> last' == last
      invariant last' == last || last' == cur + len > last
      invariant n == if cur + ml <= last + TRAILING_LITERALS + 1 then last + TRAILING_LITERALS + 1 else cur + ml
      invariant Filled(p, base, opt[..], n)
    {
      var pos := cur + ml;
      var price, ll := PriceAt(opt, cur, ml);
      var seen := false;
      if pos <= last' + TRAILING_LITERALS {
        seen := !(price <= opt[pos].price - (if favorDecSpeed then 1 else 0));
      }
      if !seen {
        if ml == len && last' < pos {
          last' := pos;
        }
        ghost var was := opt[..];
        var e := Opt(price, off, ml, ll);
        PrefixMatch(p, base, cur, off, len, ml, price, ll);
        FilledStore(p, base, was, n, pos, e);
        opt[pos] := e;
        assert opt[..] == was[pos := e];
        n := if pos < n then n else n + 1;
      }
      ml := ml + 1;
    }
    FilledFewer(p, base, opt[..], n, last' + 1);
  }

  // ---------------------------------------------------------------------
  // The path
  // ---------------------------------------------------------------------

  /** A step of n bytes at position x: a literal, or a real match that begins there. */
  predicate StepAt(p: Params, base: nat, x: nat, off: nat, n: nat) {
    n == 1 || Emittable(p, Match(base + x, off, n))
  }

  /** Read forward from x, the table leads to e exactly, step by step. */
  predicate Path(p: Params, base: nat, s: seq<Opt>, x: nat, e: nat)
    decreases e - x
  {
    x == e ||
    (x < e && x < |s| && 1 <= s[x].mlen <= e - x && StepAt(p, base, x, s[x].off, s[x].mlen)
     && Path(p, base, s, x + s[x].mlen, e))
  }

  lemma {:induction false} PathKept(p: Params, base: nat, s: seq<Opt>, t: seq<Opt>, x: nat, e: nat)
    requires Path(p, base, s, x, e) && |s| == |t| && forall y :: x <= y < |s| ==> s[y] == t[y]
    ensures Path(p, base, t, x, e)
    decreases e - x
  {
    hide StepAt;
    if x < e {
      PathKept(p, base, s, t, x + s[x].mlen, e);
    }
  }

  /** An entry read backward is a step from where it leads to. */
  lemma EntryIsStep(p: Params, base: nat, pos: nat, e: Opt)
    requires EntryOk(p, base, pos, e)
    ensures e.mlen <= pos ==> e.mlen >= 1 && StepAt(p, base, pos - e.mlen, e.off, e.mlen)
    ensures e.mlen > pos ==> pos == 0
  {
  }

  /** One step back: the entry at x is replaced by the step taken from x. */
  lemma StepBack(p: Params, base: nat, s: seq<Opt>, x: nat, off: nat, n: nat, e: nat)
    requires x < |s| && 1 <= n && x + n <= e && StepAt(p, base, x, off, n) && Path(p, base, s, x + n, e)
    requires Filled(p, base, s, x + 1)
    ensures var t := s[x := s[x].(off := off, mlen := n)];
            Path(p, base, t, x, e) && Filled(p, base, t, x) && EntryOk(p, base, x, s[x])
  {
    hide StepAt, EntryOk;
    PathKept(p, base, s, s[x := s[x].(off := off, mlen := n)], x + n, e);
  }

  /** Lines 1517-1532: the path that ends with a step of bestLen bytes at cur is
      turned round in place. */
  method Reverse(p: Params, base: nat, opt: array<Opt>, cur: nat, bestOff: nat, bestLen: nat)
    requires Filled(p, base, opt[..], cur + 1) && 1 <= bestLen && StepAt(p, base, cur, bestOff, bestLen)
    modifies opt
    ensures Path(p, base, opt[..], 0, cur + bestLen)
  {
    hide Filled, EntryOk, StepAt, Path;
    var x: nat, off: nat, n: nat := cur, bestOff, bestLen;
    FilledLength(p, base, opt[..], cur + 1);
    PathEnd(p, base, opt[..], cur + bestLen);
    while true
      invariant x <= cur && 1 <= n && x + n <= cur + bestLen
      invariant StepAt(p, base, x, off, n) && Path(p, base, opt[..], x + n, cur + bestLen)
      invariant Filled(p, base, opt[..], x + 1)
      decreases x
    {
      ghost var was := opt[..];
      StepBack(p, base, was, x, off, n, cur + bestLen);
      EntryIsStep(p, base, x, was[x]);
      var next := opt[x];
      opt[x] := opt[x].(off := off, mlen := n);
      assert opt[..] == was[x := was[x].(off := off, mlen := n)];
      if next.mlen > x {
        break;
      }
      FilledFewer(p, base, opt[..], x, x - next.mlen + 1);
      x, off, n := x - next.mlen, next.off, next.mlen;
    }
  }

  lemma FilledLength(p: Params, base: nat, s: seq<Opt>, n: nat)
    requires Filled(p, base, s, n)
    ensures n <= |s|
  {
  }

  lemma PathEnd(p: Params, base: nat, s: seq<Opt>, e: nat)
    ensures Path(p, base, s, e, e)
  {
  }

  lemma PathStep(p: Params, base: nat, s: seq<Opt>, x: nat, e: nat)
    requires Path(p, base, s, x, e) && x < e
    ensures x < |s| && 1 <= s[x].mlen && x + s[x].mlen <= e && Path(p, base, s, x + s[x].mlen, e)
    ensures s[x].mlen != 1 ==> Emittable(p, Match(base + x, s[x].off, s[x].mlen))
  {
  }

  // ---------------------------------------------------------------------
  // Searching and encoding
  // ---------------------------------------------------------------------

  /** LZ4HC_FindLongerMatch; len is 0 when there is none. */
  method FindLongerMatch(p: Params, ctx: F.Context, ip: nat, minLen: nat, nbSearches: nat, favorDecSpeed: bool)
    returns (off: nat, len: nat)
    requires P.Ready(ctx, p, ip) && ip + MFLIMIT <= |p.src| && 1 <= minLen && ip + minLen + LASTLITERALS <= |p.src|
    modifies ctx`next, ctx.hashTable, ctx.chainTable
    ensures P.Ready(ctx, p, ip)
    ensures len > 0 ==> Emittable(p, Match(ip, off, len))
    ensures var q := P.Wanted(p, ip, ip, minLen); var all := ctx.Candidates(q, nbSearches);
            old(P.Indexed(ctx, p)) && all != [] && !favorDecSpeed ==> ctx.AllBeaten(q, all[..1], if len > 0 then len else minLen)
  {
    hide F.Real, Usable, F.Context.AllBeaten, F.Context.Candidates, F.Context.Indexes;
    var q := P.Wanted(p, ip, ip, minLen);
    var b := ctx.InsertAndGetWiderMatch(q, nbSearches, true, true, favorDecSpeed);
    if b.longest <= minLen {
      return 0, 0;
    }
    P.InSource(p, b);
    off, len := b.start - b.at, b.longest;
    if favorDecSpeed && 18 < len <= 36 {
      Shorten(p, Match(ip, off, len), 18);
      len := 18;
    }
  }

  /** Lines 1534-1548: the path is written out, from its first step on. */
  method Replay(p: Params, opt: array<Opt>, dst: array<byte>, op: nat, anchor: nat, base: nat, last: nat, ghost e: nat,
                ghost ss: seq<Sequence>, ghost need: nat)
    returns (t: P.Step, op': nat, anchor': nat, ghost ss': seq<Sequence>, ghost need': nat)
    requires Path(p, base, opt[..], 0, e) && 1 <= last <= e && base + e <= |p.src|
    requires |p.src| <= MAX_INPUT_SIZE && anchor <= base && E.Written(p, dst[..], op, anchor, ss, need)
    modifies dst
    ensures E.Written(p, dst[..], op', anchor', ss', need') && P.StepOk(p, dst.Length, anchor', t)
    ensures t.Goto? ==> t.s.Main? && base + last <= t.s.ip
  {
    hide Path, E.Written, Emittable;
    op', anchor', ss', need' := op, anchor, ss, need;
    var rPos := 0;
    while rPos < last
      invariant rPos <= e && Path(p, base, opt[..], rPos, e) && anchor' <= base + rPos
      invariant E.Written(p, dst[..], op', anchor', ss', need')
    {
      PathStep(p, base, opt[..], rPos, e);
      var m := Match(base + rPos, opt[rPos].off, opt[rPos].mlen);
      rPos := rPos + m.len;
      if m.len != 1 {
        ghost var table := opt[..];
        var ok;
        ok, op', anchor', ss', need' := WriteMatch(p, dst, op', anchor', m, ss', need');
        assert opt[..] == table;
        if !ok {
          t := P.NoSpace(m);
          return;
        }
      }
    }
    t := P.Goto(P.Main(base + rPos));
  }

  /** Lines 1413-1507: one more position of the table.  stop: the match found
      there is long enough to be taken at once. */
  method Consider(p: Params, ctx: F.Context, opt: array<Opt>, base: nat, cur: nat, last: nat,
                  nbSearches: nat, sufficientLen: nat, fullUpdate: bool, favorDecSpeed: bool)
    returns (stop: bool, last': nat, off: nat, len: nat)
    requires opt.Length == OPT_NUM + TRAILING_LITERALS && 1 <= cur < last < OPT_NUM
    requires base + cur + MFLIMIT <= |p.src| && base + last + LASTLITERALS <= |p.src|
    requires P.Ready(ctx, p, base + cur) && Filled(p, base, opt[..], last + TRAILING_LITERALS + 1)
    modifies ctx`next, ctx.hashTable, ctx.chainTable, opt
    ensures P.Ready(ctx, p, base + cur)
    ensures stop ==> Emittable(p, Match(base + cur, off, len)) && Filled(p, base, opt[..], cur + 1)
    ensures !stop ==> last <= last' < OPT_NUM && base + last' + LASTLITERALS <= |p.src|
                      && Filled(p, base, opt[..], last' + TRAILING_LITERALS + 1)
  {
    hide Filled, Emittable, P.Ready;
    stop, last', off, len := false, last, 0, 0;
    FilledLength(p, base, opt[..], last + TRAILING_LITERALS + 1);
    if opt[cur + 1].price <= opt[cur].price && (fullUpdate ==> opt[cur + MINMATCH].price < opt[cur].price + 3) {
      return;
    }
    ghost var table := opt[..];
    off, len := FindLongerMatch(p, ctx, base + cur, if fullUpdate then MINMATCH - 1 else last - cur, nbSearches, favorDecSpeed);
    assert opt[..] == table;
    if len == 0 {
      return;
    }
    if len > sufficientLen || len + cur >= OPT_NUM {
      FilledFewer(p, base, opt[..], last + TRAILING_LITERALS + 1, cur + 1);
      stop := true;
      return;
    }
    last' := Extend(p, base, opt, cur, off, len, last, favorDecSpeed);
    assert P.Ready(ctx, p, base + cur);
  }

  method Extend(p: Params, base: nat, opt: array<Opt>, cur: nat, off: nat, len: nat, last: nat, favorDecSpeed: bool)
    returns (last': nat)
    requires opt.Length == OPT_NUM + TRAILING_LITERALS && cur < last < OPT_NUM && cur + len < OPT_NUM
    requires Emittable(p, Match(base + cur, off, len)) && base + last + LASTLITERALS <= |p.src|
    requires Filled(p, base, opt[..], last + TRAILING_LITERALS + 1)
    modifies opt
    ensures last <= last' < OPT_NUM && base + last' + LASTLITERALS <= |p.src|
    ensures Filled(p, base, opt[..], last' + TRAILING_LITERALS + 1)
  {
    hide Filled, Emittable;
    AtLeastFour(p, Match(base + cur, off, len));
    ExtendLiterals(p, base, opt, cur, last);
    last' := ExtendMatch(p, base, opt, cur, off, len, last, favorDecSpeed);
    Trailing(p, base, opt, last');
  }

  /** Lines 1376-1512: fill the table from the first match on, up to the step
      that ends the path: bestLen bytes at cur, where the replay stops at last. */
  method Choose(p: Params, ctx: F.Context, opt: array<Opt>, base: nat, llen: nat, off: nat, len: nat,
                nbSearches: nat, sufficientLen: nat, fullUpdate: bool, favorDecSpeed: bool)
    returns (cur: nat, bestOff: nat, bestLen: nat, last: nat)
    requires opt.Length == OPT_NUM + TRAILING_LITERALS && len < OPT_NUM && Emittable(p, Match(base, off, len))
    requires P.Ready(ctx, p, base)
    modifies ctx`next, ctx.hashTable, ctx.chainTable, opt
    ensures Filled(p, base, opt[..], cur + 1) && 1 <= bestLen && StepAt(p, base, cur, bestOff, bestLen)
    ensures 1 <= last <= cur + bestLen && base + cur + bestLen <= |p.src| && P.Ready(ctx, p, base + last)
  {
    hide Filled, Emittable, StepAt, P.Ready;
    AtLeastFour(p, Match(base, off, len));
    Init(p, base, opt, llen, off, len);
    assert P.Ready(ctx, p, base);
    last, cur := len, 1;
    ReadyLater(ctx, p, base, base + 1);
    while cur < last && base + cur + MFLIMIT <= |p.src|
      invariant 1 <= cur <= last < OPT_NUM && base + last + LASTLITERALS <= |p.src|
      invariant Filled(p, base, opt[..], last + TRAILING_LITERALS + 1) && P.Ready(ctx, p, base + cur)
      decreases OPT_NUM - cur
    {
      var stop;
      stop, last, bestOff, bestLen := Consider(p, ctx, opt, base, cur, last, nbSearches, sufficientLen, fullUpdate, favorDecSpeed);
      ReadyLater(ctx, p, base + cur, base + cur + 1);
      if stop {
        AtLeastFour(p, Match(base + cur, bestOff, bestLen));
        AStep(p, base, cur, bestOff, bestLen);
        last := cur + 1;
        return;
      }
      cur := cur + 1;
    }
    ReadyLater(ctx, p, base + cur, base + last);
    FilledAt(p, base, opt[..], last + TRAILING_LITERALS + 1, last);
    EntryIsStep(p, base, last, opt[last]);
    bestOff, bestLen := opt[last].off, opt[last].mlen;
    cur := last - bestLen;
    FilledFewer(p, base, opt[..], last + TRAILING_LITERALS + 1, cur + 1);
  }

  lemma ReadyLater(ctx: F.Context, p: Params, at: nat, at': nat)
    requires P.Ready(ctx, p, at) && at <= at'
    ensures P.Ready(ctx, p, at')
  {
  }

  lemma AStep(p: Params, base: nat, x: nat, off: nat, n: nat)
    requires Emittable(p, Match(base + x, off, n))
    ensures StepAt(p, base, x, off, n)
  {
  }

  /** One round of the main loop, from ip on. */
  method Round(p: Params, ctx: F.Context, opt: array<Opt>, dst: array<byte>, op: nat, anchor: nat, ip: nat,
               nbSearches: nat, sufficientLen: nat, fullUpdate: bool, favorDecSpeed: bool, ghost ss: seq<Sequence>, ghost need: nat)
    returns (t: P.Step, op': nat, anchor': nat, ghost ss': seq<Sequence>, ghost need': nat)
    requires opt.Length == OPT_NUM + TRAILING_LITERALS && sufficientLen < OPT_NUM
    requires anchor <= ip && ip + MFLIMIT <= |p.src| <= MAX_INPUT_SIZE && P.Ready(ctx, p, ip)
    requires E.Written(p, dst[..], op, anchor, ss, need)
    modifies ctx`next, ctx.hashTable, ctx.chainTable, opt, dst
    ensures E.Written(p, dst[..], op', anchor', ss', need') && P.StepOk(p, dst.Length, anchor', t)
    ensures t.Goto? ==> t.s.Main? && ip < t.s.ip && P.Ready(ctx, p, t.s.ip)
    ensures P.Ready(ctx, p, |p.src|)
  {
    hide E.Written, Emittable, Filled, StepAt, Path;
    op', anchor', ss', need' := op, anchor, ss, need;
    var off, len := FindLongerMatch(p, ctx, ip, MINMATCH - 1, nbSearches, favorDecSpeed);
    if len == 0 {
      t := P.Goto(P.Main(ip + 1));
      return;
    }
    AtLeastFour(p, Match(ip, off, len));
    if len > sufficientLen {
      var ok;
      ok, op', anchor', ss', need' := WriteMatch(p, dst, op, anchor, Match(ip, off, len), ss, need);
      t := if ok then P.Goto(P.Main(ip + len)) else P.NoSpace(Match(ip, off, len));
      return;
    }
    var cur, bestOff, bestLen, last := Choose(p, ctx, opt, ip, ip - anchor, off, len, nbSearches, sufficientLen, fullUpdate, favorDecSpeed);
    Reverse(p, ip, opt, cur, bestOff, bestLen);
    t, op', anchor', ss', need' := Replay(p, opt, dst, op, anchor, ip, last, cur + bestLen, ss, need);
  }

  /** LZ4HC_compress_optimal: as CompressHashChain. */
  method CompressOptimal(p: Params, ctx: F.Context, dst: array<byte>, nbSearches: nat, sufficientLen: nat, fullUpdate: bool, favorDecSpeed: bool)
    returns (result: nat, consumed: nat)
    requires |p.src| <= MAX_INPUT_SIZE && P.Ready(ctx, p, 0)
    requires p.output == NotLimited ==> CompressBound(|p.src|) <= dst.Length
    requires p.output == FillOutput ==> dst.Length >= 1
    modifies ctx`next, ctx.hashTable, ctx.chainTable, dst
    ensures result > 0 ==> result <= dst.Length && consumed <= |p.src| && Decodes(dst[..result], p.hist, p.src[..consumed])
    ensures p.output != FillOutput ==> consumed == |p.src|
    ensures p.output != FillOutput ==> AsGoodAsPlain(|p.src|, dst.Length, result)
    ensures p.output == FillOutput ==> result > 0 && FilledAsPlain(|p.src|, dst.Length, consumed)
    ensures P.Ready(ctx, p, |p.src|)
  {
    hide E.Written, Emittable;
    var opt := new Opt[OPT_NUM + TRAILING_LITERALS](_ => Opt(0, 0, 0, 0));
    var enough := if sufficientLen >= OPT_NUM then OPT_NUM - 1 else sufficientLen;
    var op, anchor := 0, 0;
    ghost var ss: seq<Sequence>, need: nat := [], 0;
    P.Begun(p, dst[..]);
    var t := P.Goto(P.Main(0));
    while t.Goto? && t.s.ip + MFLIMIT <= |p.src|
      invariant E.Written(p, dst[..], op, anchor, ss, need) && P.StepOk(p, dst.Length, anchor, t) && P.Ready(ctx, p, |p.src|)
      invariant t.Goto? ==> t.s.Main? && P.Ready(ctx, p, t.s.ip)
      decreases t.Goto?, if t.Goto? then |p.src| - t.s.ip else 0
    {
      t, op, anchor, ss, need := Round(p, ctx, opt, dst, op, anchor, t.s.ip, nbSearches, enough, fullUpdate, favorDecSpeed, ss, need);
    }
    if t.NoSpace? {
      if p.output == LimitedOutput {
        return 0, |p.src|;
      }
      op, anchor, ss, need := FillOverflow(p, dst, op, anchor, t.m, ss, need);
    }
    result, consumed := E.LastLiterals(p, dst, op, anchor, ss, need);
    if p.output == FillOutput { E.FilledEnough(|p.src|, dst.Length, consumed); }
  }
}
