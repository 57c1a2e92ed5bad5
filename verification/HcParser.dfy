/** LZ4HC_compress_hashChain: the lazy parser that keeps up to three overlapping
    matches.  The labels of the source become the phases of a state machine. */
module HcParser {
  import opened Format
  import opened Emit
  import opened MatchFinding
  import opened HcEmit
  import F = HcFinder
  import E = Encoder

  const OPTIMAL_ML: int := (ML_MASK - 1) + MINMATCH

  /** Looking for a first match from ip on; at _Search2 with ML1 at ip, and ML0
      saved; at _Search3 with ML1 at ip and ML2. */
  datatype Phase = Main(ip: nat) | Search2(ml1: Match, ml0: Match) | Search3(ml1: Match, ml2: Match)

  /** Every position from here on is still to be searched. */
  function Reach(s: Phase): nat {
    match s
    case Main(ip) => ip
    case Search2(m1, _) => End(m1)
    case Search3(_, m2) => End(m2)
  }

  /** What holds at each label: anchor <= ip, the matches are real, start and
      end early enough, and leave room for four bytes each once they are cut
      where they overlap. */
  ghost predicate PhaseOk(p: Params, anchor: nat, s: Phase) {
    match s
    case Main(ip) => anchor <= ip <= |p.src|
    case Search2(m1, m0) =>
      && Emittable(p, m1) && Emittable(p, m0)
      && anchor <= m0.start <= m1.start <= m0.start + 2 && m0.len <= m1.len
      && (m0.start < m1.start ==> m0.len < m1.len && End(m0) + MFLIMIT <= |p.src|)
    case Search3(m1, m2) =>
      && Emittable(p, m1) && Emittable(p, m2)
      && anchor <= m1.start && End(m1) + MFLIMIT <= |p.src|
      && m1.start + 2 <= m2.start <= End(m1) + 1
      && m2.start - m1.start + m2.len >= 2 * MINMATCH
      && (m2.start == End(m1) + 1 ==> m2.len > MINMATCH)
  }

  // ---------------------------------------------------------------------
  // Searching
  // ---------------------------------------------------------------------

  /** The finder is ready for every position from `at` on. */
  ghost predicate Ready(ctx: F.Context, p: Params, at: nat)
    reads ctx, ctx.hashTable, ctx.chainTable
  {
    ctx.Valid() && ctx.next <= ctx.low + |p.hist| + at
  }

  lemma InSource(p: Params, b: F.Best)
    requires F.Real(Window(p.hist, p.src), b.start, b.at, b.longest) && b.longest >= MINMATCH
    requires |p.hist| <= b.start && b.start + b.longest + LASTLITERALS <= |p.hist| + |p.src|
    ensures b.at <= b.start && Usable(p, Match(b.start - |p.hist|, b.start - b.at, b.longest))
  {
  }

  /** What is searched for: a match of the byte at ip, beginning at iLow or later
      and ending at matchlimit or earlier, longer than longest. */
  function Wanted(p: Params, ip: nat, iLow: nat, longest: nat): (q: F.Query)
    requires iLow <= ip && ip + MINMATCH + LASTLITERALS <= |p.src|
    requires ip - iLow < longest && iLow + longest + LASTLITERALS <= |p.src|
    ensures F.ValidQuery(q)
  {
    var d := |p.hist|;
    F.Query(Window(p.hist, p.src), d + ip, d + iLow, d + |p.src| - LASTLITERALS, longest)
  }

  /** None of the positions that the search looks at makes a match longer than best. */
  ghost predicate Exhausted(p: Params, ctx: F.Context, ip: nat, iLow: nat, longest: nat, maxNbAttempts: nat, best: nat)
    reads ctx`low
  {
    && iLow <= ip && ip + MINMATCH + LASTLITERALS <= |p.src|
    && ip - iLow < longest && iLow + longest + LASTLITERALS <= |p.src|
    && var q := Wanted(p, ip, iLow, longest);
       ctx.AllBeaten(q, ctx.Candidates(q, maxNbAttempts), best)
  }

  ghost predicate Indexed(ctx: F.Context, p: Params)
    reads ctx, ctx.hashTable, ctx.chainTable
  {
    ctx.Indexes(Window(p.hist, p.src))
  }

  /** LZ4HC_InsertAndGetWiderMatch with matchlimit. */
  method Wider(p: Params, ctx: F.Context, ip: nat, iLow: nat, longest: nat, maxNbAttempts: nat, patternAnalysis: bool)
    returns (found: bool, m: Match)
    requires Ready(ctx, p, ip) && iLow <= ip && ip + MINMATCH + LASTLITERALS <= |p.src|
    requires ip - iLow < longest && iLow + longest + LASTLITERALS <= |p.src|
    modifies ctx`next, ctx.hashTable, ctx.chainTable
    ensures Ready(ctx, p, ip)
    ensures found ==> Usable(p, m) && iLow <= m.start <= ip && ip + MINMATCH <= End(m) && m.len > longest
    ensures old(Indexed(ctx, p)) ==> Indexed(ctx, p)
    ensures old(Indexed(ctx, p)) && !patternAnalysis ==>
              Exhausted(p, ctx, ip, iLow, longest, maxNbAttempts, if found then m.len else longest)
  {
    hide F.Real, Usable, F.Context.AllBeaten, F.Context.Candidates, F.Context.Indexes;
    var d := |p.hist|;
    var q := Wanted(p, ip, iLow, longest);
    var b := ctx.InsertAndGetWiderMatch(q, maxNbAttempts, patternAnalysis, false, false);
    found, m := b.longest > longest, Match(0, 0, 0);
    if found {
      InSource(p, b);
      m := Match(b.start - d, b.start - b.at, b.longest);
    }
  }

  // ---------------------------------------------------------------------
  // Choosing among overlapping matches
  // ---------------------------------------------------------------------

  /** What Search2 does with a better match m2. */
  function AfterSearch2(m1: Match, m0: Match, m2: Match): Phase {
    var c := if m0.start < m1.start && m2.start < m1.start + m0.len then m0 else m1;
    if m2.start < c.start + 3 then Search2(m2, m0) else Search3(c, m2)
  }

  lemma Search2Keeps(p: Params, anchor: nat, m1: Match, m0: Match, m2: Match)
    requires PhaseOk(p, anchor, Search2(m1, m0)) && End(m1) + MFLIMIT <= |p.src|
    requires Usable(p, m2) && m1.start <= m2.start && m2.start + 2 <= End(m1) && End(m1) + 2 <= End(m2) && m2.len > m1.len
    ensures PhaseOk(p, anchor, AfterSearch2(m1, m0, m2))
  {
    hide RealMatch;
  }

  /** Lines 627-638: move the start of m2 so that ML1 keeps its best length. */
  function Correct(m1: Match, m2: Match): Match
    requires m1.start <= m2.start && MINMATCH <= m2.len
  {
    var d := m2.start - m1.start;
    if d < OPTIMAL_ML then
      var ml := if m1.len > OPTIMAL_ML then OPTIMAL_ML else m1.len;
      var ml' := if m1.start + ml > End(m2) - MINMATCH then d + m2.len - MINMATCH else ml;
      if ml' > d then Match(m2.start + (ml' - d), m2.off, m2.len - (ml' - d)) else m2
    else m2
  }

  /** ML2 follows ML1 with room for both. */
  ghost predicate Apart(p: Params, anchor: nat, m1: Match, m2: Match) {
    && PhaseOk(p, anchor, Search3(m1, m2))
    && m1.start + MINMATCH <= m2.start
  }

  lemma CorrectKeeps(p: Params, anchor: nat, m1: Match, m2: Match)
    requires PhaseOk(p, anchor, Search3(m1, m2))
    ensures Apart(p, anchor, m1, Correct(m1, m2)) && End(Correct(m1, m2)) == End(m2)
  {
    var m' := Correct(m1, m2);
    if m' != m2 {
      Postpone(p, m2, m'.start - m2.start);
    }
    hide Usable;
  }

  /** ML1, cut where ML2 begins. */
  function Cut(m1: Match, m2: Match): Match
    requires m1.start <= m2.start
  {
    if m2.start < End(m1) then Match(m1.start, m1.off, m2.start - m1.start) else m1
  }

  lemma CutKeeps(p: Params, anchor: nat, m1: Match, m2: Match)
    requires Apart(p, anchor, m1, m2)
    ensures var c := Cut(m1, m2);
            && Emittable(p, c) && c.start == m1.start && End(c) <= m2.start
  {
    if m2.start < End(m1) {
      Shorten(p, m1, m2.start - m1.start);
    }
    hide Usable;
  }

  /** What the third search may return. */
  ghost predicate Third(p: Params, m2: Match, m3: Match) {
    && Usable(p, m3) && End(m2) + MFLIMIT <= |p.src|
    && m2.start <= m3.start && m3.start + 3 <= End(m2) && End(m2) + 1 <= End(m3) && m3.len > m2.len
  }

  /** Lines 667-687: ML1 is written at once, and what is left of ML2 is saved. */
  function Saved(m1: Match, m2: Match, m3: Match): Match {
    if m2.start < End(m1) then
      var correction := End(m1) - m2.start;
      if m2.len < correction + MINMATCH then m3
      else Match(m2.start + correction, m2.off, m2.len - correction)
    else m2
  }

  lemma SavedKeeps(p: Params, anchor: nat, m1: Match, m2: Match, m3: Match)
    requires Apart(p, anchor, m1, m2) && Third(p, m2, m3) && End(m1) <= m3.start < End(m1) + 3
    ensures PhaseOk(p, End(m1), Search2(m3, Saved(m1, m2, m3)))
  {
    var m0 := Saved(m1, m2, m3);
    if m0 != m2 && m0 != m3 {
      Postpone(p, m2, End(m1) - m2.start);
    }
    hide Usable;
  }

  lemma DroppedKeeps(p: Params, anchor: nat, m1: Match, m2: Match, m3: Match)
    requires Apart(p, anchor, m1, m2) && Third(p, m2, m3) && m3.start < End(m1)
    ensures PhaseOk(p, anchor, Search3(m1, m3))
  {
    hide Usable;
  }

  /** Lines 702-716: the final length of ML1, before three ascending matches. */
  function FinalLength(m1: Match, m2: Match): (ml: nat)
    requires m1.start <= m2.start && MINMATCH <= m2.len
    ensures ml > m2.start - m1.start ==> m1.start + ml <= End(m2) - MINMATCH || m2.start >= End(m1)
  {
    var d := m2.start - m1.start;
    if m2.start >= End(m1) then m1.len
    else if d < OPTIMAL_ML then
      var ml := if m1.len > OPTIMAL_ML then OPTIMAL_ML else m1.len;
      if m1.start + ml > End(m2) - MINMATCH then d + m2.len - MINMATCH else ml
    else d
  }

  /** ML2 after that. */
  function Pushed(m1: Match, m2: Match): Match
    requires m1.start <= m2.start && MINMATCH <= m2.len
  {
    var e := m1.start + FinalLength(m1, m2);
    if m2.start < End(m1) && m2.start < e then Match(e, m2.off, m2.len - (e - m2.start)) else m2
  }

  lemma PushedKeeps(p: Params, anchor: nat, m1: Match, m2: Match, m3: Match)
    requires Apart(p, anchor, m1, m2) && Third(p, m2, m3) && End(m1) + 3 <= m3.start
    ensures var ml := FinalLength(m1, m2);
            && MINMATCH <= ml <= m1.len && Emittable(p, Match(m1.start, m1.off, ml))
            && PhaseOk(p, m1.start + ml, Search3(Pushed(m1, m2), m3))
  {
    var ml, m' := FinalLength(m1, m2), Pushed(m1, m2);
    Shorten(p, m1, ml);
    if m' != m2 {
      Postpone(p, m2, m'.start - m2.start);
    }
    hide Usable;
  }

  // ---------------------------------------------------------------------
  // One step from each label
  // ---------------------------------------------------------------------

  /** The next label, or the match for which there was no space. */
  datatype Step = Goto(s: Phase) | NoSpace(m: Match)

  ghost predicate StepOk(p: Params, cap: nat, anchor: nat, t: Step) {
    match t
    case Goto(s) => PhaseOk(p, anchor, s)
    case NoSpace(m) => NoRoom(p, cap) && anchor <= m.start && Emittable(p, m)
  }

  /** How far the finder may have gone when a label is reached. */
  function Searched(s: Phase): int {
    match s
    case Main(ip) => ip
    case Search2(m1, _) => End(m1) - 2
    case Search3(_, m2) => End(m2) - 3
  }

  ghost predicate Prepared(ctx: F.Context, p: Params, t: Step)
    reads ctx, ctx.hashTable, ctx.chainTable
  {
    Ready(ctx, p, |p.src|) && (t.Goto? ==> ctx.next <= ctx.low + |p.hist| + Searched(t.s))
  }

  /** From the head of the main loop. */
  method StepMain(p: Params, ctx: F.Context, ghost anchor: nat, ip: nat, maxNbAttempts: nat, patternAnalysis: bool) returns (s: Phase)
    requires Prepared(ctx, p, Goto(Main(ip))) && PhaseOk(p, anchor, Main(ip)) && ip + MFLIMIT <= |p.src|
    modifies ctx`next, ctx.hashTable, ctx.chainTable
    ensures PhaseOk(p, anchor, s) && Prepared(ctx, p, Goto(s)) && Reach(s) > ip
    ensures s == Main(ip + 1) || (s.Search2? && s.ml1 == s.ml0)
    ensures old(Indexed(ctx, p)) ==> Indexed(ctx, p)
    ensures old(Indexed(ctx, p)) && !patternAnalysis ==>
              Exhausted(p, ctx, ip, ip, MINMATCH - 1, maxNbAttempts, if s.Search2? then s.ml1.len else MINMATCH - 1)
  {
    hide Usable, Exhausted, Indexed;
    var found, m := Wider(p, ctx, ip, ip, MINMATCH - 1, maxNbAttempts, patternAnalysis);
    s := if found then Search2(m, m) else Main(ip + 1);
  }

  /** From _Search2. */
  method StepSearch2(p: Params, ctx: F.Context, dst: array<byte>, op: nat, anchor: nat, m1: Match, m0: Match,
                     maxNbAttempts: nat, patternAnalysis: bool, ghost ss: seq<Sequence>, ghost need: nat)
    returns (t: Step, op': nat, anchor': nat, ghost ss': seq<Sequence>, ghost need': nat)
    requires Prepared(ctx, p, Goto(Search2(m1, m0))) && PhaseOk(p, anchor, Search2(m1, m0))
    requires |p.src| <= MAX_INPUT_SIZE && E.Written(p, dst[..], op, anchor, ss, need)
    modifies ctx`next, ctx.hashTable, ctx.chainTable, dst
    ensures E.Written(p, dst[..], op', anchor', ss', need') && StepOk(p, dst.Length, anchor', t) && Prepared(ctx, p, t)
    ensures t.Goto? ==> Reach(t.s) > End(m1) || t.s == Main(End(m1))
    ensures t.Goto? && !t.s.Main? ==> ss' == ss && exists m2 :: t.s == AfterSearch2(m1, m0, m2)
    ensures t.Goto? && t.s.Main? ==> ss' == ss + [Emitting(p, anchor, m1)]
    ensures old(Indexed(ctx, p)) ==> Indexed(ctx, p)
    ensures old(Indexed(ctx, p)) && !patternAnalysis && t.Goto? && t.s.Main? && End(m1) + MFLIMIT <= |p.src| ==>
              Exhausted(p, ctx, End(m1) - 2, m1.start, m1.len, maxNbAttempts, m1.len)
  {
    hide E.Written, RealMatch, Exhausted, Indexed;
    op', anchor', ss', need' := op, anchor, ss, need;
    var found, m2 := false, m1;
    if End(m1) + MFLIMIT <= |p.src| {
      found, m2 := Wider(p, ctx, End(m1) - 2, m1.start, m1.len, maxNbAttempts, patternAnalysis);
    }
    if found {
      Search2Keeps(p, anchor, m1, m0, m2);
      t := Goto(AfterSearch2(m1, m0, m2));
      return;
    }
    var ok;
    ok, op', anchor', ss', need' := WriteMatch(p, dst, op, anchor, m1, ss, need);
    t := if ok then Goto(Main(End(m1))) else NoSpace(m1);
  }

  /** No third match: ML1, cut, and ML2 are written. */
  method WriteBoth(p: Params, dst: array<byte>, op: nat, anchor: nat, m1: Match, m2: Match, ghost ss: seq<Sequence>, ghost need: nat)
    returns (t: Step, op': nat, anchor': nat, ghost ss': seq<Sequence>, ghost need': nat)
    requires Apart(p, anchor, m1, m2) && |p.src| <= MAX_INPUT_SIZE && E.Written(p, dst[..], op, anchor, ss, need)
    modifies dst
    ensures E.Written(p, dst[..], op', anchor', ss', need') && StepOk(p, dst.Length, anchor', t)
    ensures ss <= ss'
    ensures t.Goto? ==>
              && t.s == Main(End(m2))
              && var c := Cut(m1, m2);
                 ss' == ss + [Emitting(p, anchor, c)] + [Emitting(p, End(c), m2)]
  {
    hide E.Written, Usable;
    var c := Cut(m1, m2);
    CutKeeps(p, anchor, m1, m2);
    var ok;
    ok, op', anchor', ss', need' := WriteMatch(p, dst, op, anchor, c, ss, need);
    if !ok {
      t := NoSpace(c);
      return;
    }
    ok, op', anchor', ss', need' := WriteMatch(p, dst, op', anchor', m2, ss', need');
    EndInside(p, m2);
    t := if ok then Goto(Main(End(m2))) else NoSpace(m2);
  }

  lemma EndInside(p: Params, m: Match)
    requires Usable(p, m)
    ensures End(m) <= |p.src|
  {
  }

  /** A third match is known: drop ML2, or write ML1. */
  method Advance(p: Params, dst: array<byte>, op: nat, anchor: nat, m1: Match, m2: Match, m3: Match,
                 ghost ss: seq<Sequence>, ghost need: nat)
    returns (t: Step, op': nat, anchor': nat, ghost ss': seq<Sequence>, ghost need': nat)
    requires Apart(p, anchor, m1, m2) && Third(p, m2, m3)
    requires |p.src| <= MAX_INPUT_SIZE && E.Written(p, dst[..], op, anchor, ss, need)
    modifies dst
    ensures E.Written(p, dst[..], op', anchor', ss', need') && StepOk(p, dst.Length, anchor', t)
    ensures t.Goto? ==> (t.s.Search3? && t.s.ml2 == m3) || (t.s.Search2? && t.s.ml1 == m3)
    ensures ss <= ss'
  {
    hide E.Written, Usable, Saved, Pushed, FinalLength;
    var ok;
    if m3.start < End(m1) + 3 {
      if m3.start >= End(m1) {
        SavedKeeps(p, anchor, m1, m2, m3);
        ok, op', anchor', ss', need' := WriteMatch(p, dst, op, anchor, m1, ss, need);
        t := if ok then Goto(Search2(m3, Saved(m1, m2, m3))) else NoSpace(m1);
      } else {
        DroppedKeeps(p, anchor, m1, m2, m3);
        t, op', anchor', ss', need' := Goto(Search3(m1, m3)), op, anchor, ss, need;
      }
    } else {
      PushedKeeps(p, anchor, m1, m2, m3);
      var c := Match(m1.start, m1.off, FinalLength(m1, m2));
      ok, op', anchor', ss', need' := WriteMatch(p, dst, op, anchor, c, ss, need);
      t := if ok then Goto(Search3(Pushed(m1, m2), m3)) else NoSpace(c);
    }
  }

  /** From _Search3. */
  method StepSearch3(p: Params, ctx: F.Context, dst: array<byte>, op: nat, anchor: nat, m1: Match, m2: Match,
                     maxNbAttempts: nat, patternAnalysis: bool, ghost ss: seq<Sequence>, ghost need: nat)
    returns (t: Step, op': nat, anchor': nat, ghost ss': seq<Sequence>, ghost need': nat)
    requires Prepared(ctx, p, Goto(Search3(m1, m2))) && PhaseOk(p, anchor, Search3(m1, m2))
    requires |p.src| <= MAX_INPUT_SIZE && E.Written(p, dst[..], op, anchor, ss, need)
    modifies ctx`next, ctx.hashTable, ctx.chainTable, dst
    ensures E.Written(p, dst[..], op', anchor', ss', need') && StepOk(p, dst.Length, anchor', t) && Prepared(ctx, p, t)
    ensures t.Goto? ==> Reach(t.s) > End(m2) || t.s == Main(End(m2))
    ensures ss <= ss' && (t.Goto? && t.s.Main? ==> ss' != [])
    ensures old(Indexed(ctx, p)) ==> Indexed(ctx, p)
    ensures var c := Correct(m1, m2);
            old(Indexed(ctx, p)) && !patternAnalysis && t.Goto? && t.s.Main? && End(c) + MFLIMIT <= |p.src| ==>
              Exhausted(p, ctx, End(c) - 3, c.start, c.len, maxNbAttempts, c.len)
  {
    hide E.Written, RealMatch, Correct, Exhausted, Indexed;
    CorrectKeeps(p, anchor, m1, m2);
    var m2' := Correct(m1, m2);
    var found, m3 := false, m2';
    if End(m2') + MFLIMIT <= |p.src| {
      found, m3 := Wider(p, ctx, End(m2') - 3, m2'.start, m2'.len, maxNbAttempts, patternAnalysis);
    }
    if found {
      t, op', anchor', ss', need' := Advance(p, dst, op, anchor, m1, m2', m3, ss, need);
    } else {
      t, op', anchor', ss', need' := WriteBoth(p, dst, op, anchor, m1, m2', ss, need);
    }
  }

  // ---------------------------------------------------------------------
  // The whole
  // ---------------------------------------------------------------------

  function Rank(s: Phase): nat {
    if s.Main? then 0 else 1
  }

  /** No position that the search looks at agrees with i on four bytes. */
  ghost predicate NoMatch(p: Params, ctx: F.Context, maxNbAttempts: nat, i: nat)
    reads ctx`low
  {
    Exhausted(p, ctx, i, i, MINMATCH - 1, maxNbAttempts, MINMATCH - 1)
  }

  /** So it is for every position below n. */
  ghost predicate Barren(p: Params, ctx: F.Context, maxNbAttempts: nat, n: int)
    reads ctx`low
  {
    forall i: nat :: i < n ==> NoMatch(p, ctx, maxNbAttempts, i)
  }

  /** A block without a match is one of a source in which no match could be found. */
  ghost predicate Thorough(p: Params, ctx: F.Context, maxNbAttempts: nat, bytes: seq<byte>)
    reads ctx`low
  {
    exists ss, last ::
      && Encodable(ss) && bytes == EncBlock(ss, last)
      && (ss == [] && |p.src| > MFLIMIT ==> Barren(p, ctx, maxNbAttempts, |p.src| - MFLIMIT + 1))
  }

  lemma IsThorough(p: Params, ctx: F.Context, maxNbAttempts: nat, bytes: seq<byte>, ss: seq<Sequence>, last: seq<byte>)
    requires Encodable(ss) && bytes == EncBlock(ss, last)
    requires ss == [] && |p.src| > MFLIMIT ==> Barren(p, ctx, maxNbAttempts, |p.src| - MFLIMIT + 1)
    ensures Thorough(p, ctx, maxNbAttempts, bytes)
  {
    hide Barren;
  }

  /** LZ4HC_compress_hashChain, for every number of attempts: result is 0 when
      limitedOutput leaves too little space; else the bytes written decode,
      after the history, to the `consumed` first bytes of the source. */
  method CompressHashChain(p: Params, ctx: F.Context, dst: array<byte>, maxNbAttempts: nat) returns (result: nat, consumed: nat)
    requires |p.src| <= MAX_INPUT_SIZE && Ready(ctx, p, 0)
    requires p.output == NotLimited ==> CompressBound(|p.src|) <= dst.Length
    requires p.output == FillOutput ==> dst.Length >= 1
    modifies ctx`next, ctx.hashTable, ctx.chainTable, dst
    ensures result > 0 ==> result <= dst.Length && consumed <= |p.src| && Decodes(dst[..result], p.hist, p.src[..consumed])
    ensures p.output != FillOutput ==> consumed == |p.src|
    ensures p.output != FillOutput ==> AsGoodAsPlain(|p.src|, dst.Length, result)
    ensures p.output == FillOutput ==> result > 0 && FilledAsPlain(|p.src|, dst.Length, consumed)
    ensures Ready(ctx, p, |p.src|)
    ensures old(Indexed(ctx, p)) && p.output != FillOutput && maxNbAttempts <= 128 && result > 0 ==> Thorough(p, ctx, maxNbAttempts, dst[..result])
  {
    hide E.Written, Usable, Exhausted, Indexed, EncBlock, Encodable, Thorough, Decodes, FilledAsPlain, PlainSize;
    var op: nat, anchor: nat := 0, 0;
    ghost var ss: seq<Sequence>, need: nat := [], 0;
    Begun(p, dst[..]);
    var t := Goto(Main(0));
    if |p.src| >= MFLIMIT + 1 {
      while t.Goto? && !(t.s.Main? && t.s.ip + MFLIMIT > |p.src|)
        invariant E.Written(p, dst[..], op, anchor, ss, need) && StepOk(p, dst.Length, anchor, t) && Prepared(ctx, p, t)
        invariant old(Indexed(ctx, p)) ==> Indexed(ctx, p)
        invariant old(Indexed(ctx, p)) && maxNbAttempts <= 128 && ss == [] && t.Goto? && t.s.Main? ==> Barren(p, ctx, maxNbAttempts, t.s.ip)
        decreases t.Goto?, if t.Goto? then |p.src| - Reach(t.s) else 0, if t.Goto? then Rank(t.s) else 0
      {
        match t.s {
          case Main(ip) =>
            var s := StepMain(p, ctx, anchor, ip, maxNbAttempts, maxNbAttempts > 128);
            t := Goto(s);
            if s.Main? && old(Indexed(ctx, p)) && maxNbAttempts <= 128 { assert NoMatch(p, ctx, maxNbAttempts, ip); }
          case Search2(m1, m0) =>
            t, op, anchor, ss, need := StepSearch2(p, ctx, dst, op, anchor, m1, m0, maxNbAttempts, maxNbAttempts > 128, ss, need);
          case Search3(m1, m2) =>
            t, op, anchor, ss, need := StepSearch3(p, ctx, dst, op, anchor, m1, m2, maxNbAttempts, maxNbAttempts > 128, ss, need);
        }
        if t.Goto? { ReachInside(p, anchor, t.s); }
      }
    }
    if t.NoSpace? {
      if p.output == LimitedOutput {
        return 0, |p.src|;
      }
      op, anchor, ss, need := FillOverflow(p, dst, op, anchor, t.m, ss, need);
    }
    result, consumed := E.LastLiterals(p, dst, op, anchor, ss, need);
    if result > 0 && old(Indexed(ctx, p)) && p.output != FillOutput && maxNbAttempts <= 128 {
      IsThorough(p, ctx, maxNbAttempts, dst[..result], ss, p.src[anchor..consumed]);
    }
    if p.output == FillOutput { E.FilledEnough(|p.src|, dst.Length, consumed); }
  }

  lemma ReachInside(p: Params, anchor: nat, s: Phase)
    requires PhaseOk(p, anchor, s)
    ensures Reach(s) <= |p.src|
  {
  }

  lemma Begun(p: Params, a: seq<byte>)
    requires p.output == NotLimited ==> CompressBound(|p.src|) <= |a|
    requires p.output == FillOutput ==> |a| >= 1
    ensures E.Written(p, a, 0, 0, [], 0)
  {
    NothingEmitted(a, p.hist, p.src);
  }
}
