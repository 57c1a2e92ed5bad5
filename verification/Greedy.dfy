/** The parse that the encoder of lz4.c makes, as a relation between the rounds of
    its main loop: the first probe that hits is taken, extended in both directions
    as far as the bytes agree.  The relation leaves nothing open, so that a source
    has one parse. */
module Greedy {
  import opened Format
  import opened Emit
  import opened MatchFinding

  /** Looking for a match from ip on, or at the label _next_match with the
      accepted match m at ip. */
  datatype Phase = Search | Next(m: int)

  /** The head of the main loop: the sequences ss stand for the source up to anchor. */
  datatype Turn = Turn(anchor: nat, ip: nat, ph: Phase, table: seq<nat>, ss: seq<Sequence>)

  /** What probe k found, caught up backwards as far as the bytes agree, not past
      anchor nor below the segment of the match. */
  predicate CaughtUpTo(p: Params, table: seq<nat>, anchor: nat, ip0: nat, acceleration: nat, k: nat, ip: nat, m: int)
    requires ValidParams(p, |table|) && InReach(p, ip0, acceleration, k)
  {
    var w, d, found, m0 := Window(p.hist, p.src), |p.hist|, Probe(ip0, acceleration, k), Met(p, table, ip0, acceleration, k);
    && anchor <= ip <= found && -d <= m < ip && ip - m == found - m0
    && (p.dict == UsingExtDict ==> (m < 0 <==> m0 < 0))
    && RealMatch(p.hist, p.src, ip, ip - m, found - ip + MINMATCH)
    && (ip == anchor || m == -d || (p.dict == UsingExtDict && m == 0) || w[d + ip - 1] != w[d + m - 1])
  }

  /** The match of this turn: at position `at`, taken from position m. */
  ghost predicate Chosen(p: Params, acceleration: nat, t: Turn, k: nat, at: nat, m: int)
    requires ValidParams(p, |t.table|)
  {
    match t.ph
    case Next(m0) => at == t.ip && m == m0 && k == 0
    case Search =>
      && Hits(p, t.table, t.ip, acceleration, k) && SearchEnds(p, t.table, t.ip, acceleration, k, true)
      && CaughtUpTo(p, t.table, t.anchor, t.ip, acceleration, k, at, m)
  }

  /** The sequence it makes: the match ends at e, and could not end later. */
  predicate Makes(p: Params, t: Turn, at: nat, m: int, e: nat, ss: seq<Sequence>) {
    && t.anchor <= at && m < at && at + MINMATCH <= e && e + LASTLITERALS <= |p.src|
    && RealMatch(p.hist, p.src, at, at - m, e - at) && Ends(p, at, m, e - at)
    && ss == t.ss + [Sequence(p.src[t.anchor..at], at - m, e - at)]
  }

  /** The table behind the search. */
  ghost predicate Searched(p: Params, acceleration: nat, t: Turn, k: nat, table: seq<nat>) {
    if t.ph.Search? then InReach(p, t.ip, acceleration, k) && Probed(p, t.table, table, t.ip, acceleration, k + 1)
    else table == t.table
  }

  /** Behind the match: two positions enter the table, and the next position is
      tested; near the end of the source there is nothing more to look for. */
  ghost predicate GoesOn(p: Params, table: seq<nat>, u: Turn)
    requires ValidParams(p, |table|) && 2 <= u.anchor
  {
    if u.anchor + MFLIMIT > |p.src| then
      u.table == table && u.ip == u.anchor && u.ph == Search
    else
      var t1 := Entered(p, table, u.anchor - 2);
      var m := t1[HashPosition(p, u.anchor)] - p.startIndex;
      && u.table == Entered(p, t1, u.anchor)
      && (if Candidate(p, u.anchor, m) then u.ph == Next(m) && u.ip == u.anchor else u.ph == Search && u.ip == u.anchor + 1)
  }

  ghost predicate FollowsBy(p: Params, acceleration: nat, t: Turn, u: Turn, k: nat, at: nat, m: int, table: seq<nat>)
    requires ValidParams(p, |t.table|)
  {
    && Chosen(p, acceleration, t, k, at, m) && Makes(p, t, at, m, u.anchor, u.ss)
    && |table| == |t.table| && Searched(p, acceleration, t, k, table) && GoesOn(p, table, u)
  }

  /** One round of the main loop. */
  ghost predicate Follows(p: Params, acceleration: nat, t: Turn, u: Turn) {
    ValidParams(p, |t.table|) && exists k, at, m, table :: FollowsBy(p, acceleration, t, u, k, at, m, table)
  }

  /** No probe hits: what is left are the last literals. */
  ghost predicate Over(p: Params, acceleration: nat, t: Turn) {
    ValidParams(p, |t.table|) && t.ph.Search? && exists k :: SearchEnds(p, t.table, t.ip, acceleration, k, false)
  }

  /** The rounds from the turn t on. */
  ghost predicate Rounds(p: Params, acceleration: nat, t: Turn, turns: seq<Turn>) {
    && turns != [] && turns[0] == t
    && forall i :: 0 < i < |turns| ==> Follows(p, acceleration, turns[i - 1], turns[i])
  }

  ghost predicate Complete(p: Params, acceleration: nat, t: Turn, turns: seq<Turn>, bytes: seq<byte>) {
    && Rounds(p, acceleration, t, turns)
    && var u := turns[|turns| - 1];
       && Over(p, acceleration, u) && u.anchor <= |p.src| && Encodable(u.ss)
       && bytes == EncBlock(u.ss, p.src[u.anchor..])
  }

  /** bytes is the block of the greedy parse, for a table that holds this; a short
      source is not searched. */
  ghost predicate GreedyBlock(p: Params, acceleration: nat, table: seq<nat>, bytes: seq<byte>) {
    if |p.src| <= MFLIMIT then bytes == EncBlock([], p.src)
    else
      && ValidParams(p, |table|)
      && exists turns :: Complete(p, acceleration, Turn(0, 1, Search, Entered(p, table, 0), []), turns, bytes)
  }

  // ---------------------------------------------------------------------
  // There is only one
  // ---------------------------------------------------------------------

  lemma OneProbe(p: Params, table: seq<nat>, ip: nat, acceleration: nat, k: nat, l: nat)
    requires ValidParams(p, |table|)
    requires SearchEnds(p, table, ip, acceleration, k, true) && SearchEnds(p, table, ip, acceleration, l, true)
    ensures k == l
  {
    hide Hits;
  }

  lemma {:induction false} ProbesGrow(ip0: nat, acceleration: nat, k: nat, l: nat)
    requires k <= l
    ensures Probe(ip0, acceleration, k) <= Probe(ip0, acceleration, l)
    decreases l
  {
    if k < l { ProbesGrow(ip0, acceleration, k, l - 1); }
  }

  lemma FoundOrNot(p: Params, table: seq<nat>, ip: nat, acceleration: nat, k: nat, l: nat)
    requires ValidParams(p, |table|)
    requires SearchEnds(p, table, ip, acceleration, k, true)
    ensures !SearchEnds(p, table, ip, acceleration, l, false)
  {
    hide Probe, Candidate, HashFits;
    if l <= k { ProbesGrow(ip, acceleration, l + 1, k + 1); }
  }

  /** Of two places to which a match can be caught up, the later one is not the end. */
  lemma OneStart(p: Params, t: Turn, acceleration: nat, k: nat, at: nat, m: int, at': nat, m': int)
    requires ValidParams(p, |t.table|) && InReach(p, t.ip, acceleration, k)
    requires CaughtUpTo(p, t.table, t.anchor, t.ip, acceleration, k, at, m)
    requires CaughtUpTo(p, t.table, t.anchor, t.ip, acceleration, k, at', m')
    ensures at' <= at
  {
    hide Probe, Met, HashFits, Periodic;
    if at < at' {
      var w, d := Window(p.hist, p.src), |p.hist|;
      PeriodicAt(w, d + at, d + Probe(t.ip, acceleration, k) + MINMATCH, at - m, d + at' - 1);
    }
  }

  lemma OneChoice(p: Params, acceleration: nat, t: Turn, k: nat, at: nat, m: int, k': nat, at': nat, m': int)
    requires ValidParams(p, |t.table|) && Chosen(p, acceleration, t, k, at, m) && Chosen(p, acceleration, t, k', at', m')
    ensures k == k' && at == at' && m == m'
  {
    hide SearchEnds, HashFits;
    if t.ph.Search? {
      OneProbe(p, t.table, t.ip, acceleration, k, k');
      OneStart(p, t, acceleration, k, at, m, at', m');
      OneStart(p, t, acceleration, k, at', m', at, m);
      SameDistance(p, t, acceleration, k, at, m, at', m');
    }
  }

  lemma SameDistance(p: Params, t: Turn, acceleration: nat, k: nat, at: nat, m: int, at': nat, m': int)
    requires ValidParams(p, |t.table|) && InReach(p, t.ip, acceleration, k)
    requires CaughtUpTo(p, t.table, t.anchor, t.ip, acceleration, k, at, m)
    requires CaughtUpTo(p, t.table, t.anchor, t.ip, acceleration, k, at', m')
    ensures at - m == at' - m'
  {
    hide Probe, Met, HashFits, RealMatch;
  }

  lemma OneEnd(p: Params, t: Turn, at: nat, m: int, e: nat, ss: seq<Sequence>, e': nat, ss': seq<Sequence>)
    requires Makes(p, t, at, m, e, ss) && Makes(p, t, at, m, e', ss')
    ensures e' <= e
  {
    hide Periodic;
    if e < e' {
      var d := |p.hist|;
      PeriodicAt(Window(p.hist, p.src), d + at, d + e', at - m, d + e);
    }
  }

  lemma OneTable(p: Params, acceleration: nat, t: Turn, k: nat, a: seq<nat>, b: seq<nat>)
    requires |a| == |b| && Searched(p, acceleration, t, k, a) && Searched(p, acceleration, t, k, b)
    ensures a == b
  {
    hide Slot, Probe;
  }

  lemma OneNext(p: Params, table: seq<nat>, u: Turn, v: Turn)
    requires ValidParams(p, |table|) && 2 <= u.anchor == v.anchor && u.ss == v.ss
    requires GoesOn(p, table, u) && GoesOn(p, table, v)
    ensures u == v
  {
    hide Candidate, HashFits, HashPosition;
  }

  /** A turn is followed by one turn only. */
  lemma OneTurn(p: Params, acceleration: nat, t: Turn, u: Turn, v: Turn)
    requires Follows(p, acceleration, t, u) && Follows(p, acceleration, t, v)
    ensures u == v
  {
    hide Chosen, Searched, GoesOn, RealMatch, HashFits, Ends;
    var k, at, m, table :| FollowsBy(p, acceleration, t, u, k, at, m, table);
    var k', at', m', table' :| FollowsBy(p, acceleration, t, v, k', at', m', table');
    OneChoice(p, acceleration, t, k, at, m, k', at', m');
    OneTable(p, acceleration, t, k, table, table');
    OneEnd(p, t, at, m, u.anchor, u.ss, v.anchor, v.ss);
    OneEnd(p, t, at, m, v.anchor, v.ss, u.anchor, u.ss);
    OneNext(p, table, u, v);
  }

  /** The last turn is not followed by any. */
  lemma OverIsOver(p: Params, acceleration: nat, t: Turn, u: Turn)
    requires Over(p, acceleration, t)
    ensures !Follows(p, acceleration, t, u)
  {
    hide SearchEnds, Makes, Searched, GoesOn, CaughtUpTo, Hits, HashFits;
    if Follows(p, acceleration, t, u) {
      var k, at, m, table :| FollowsBy(p, acceleration, t, u, k, at, m, table);
      var l :| SearchEnds(p, t.table, t.ip, acceleration, l, false);
      FoundOrNot(p, t.table, t.ip, acceleration, k, l);
    }
  }

  lemma {:induction false} OneRun(p: Params, acceleration: nat, t: Turn, us: seq<Turn>, vs: seq<Turn>, n: nat)
    requires Rounds(p, acceleration, t, us) && Rounds(p, acceleration, t, vs) && n < |us| && n < |vs|
    ensures us[n] == vs[n]
    decreases n
  {
    hide Follows;
    if n > 0 {
      OneRun(p, acceleration, t, us, vs, n - 1);
      OneTurn(p, acceleration, us[n - 1], us[n], vs[n]);
    }
  }

  lemma SameLength(p: Params, acceleration: nat, t: Turn, us: seq<Turn>, vs: seq<Turn>, a: seq<byte>, b: seq<byte>)
    requires Complete(p, acceleration, t, us, a) && Complete(p, acceleration, t, vs, b)
    ensures |vs| <= |us|
  {
    hide Follows, Over;
    if |us| < |vs| {
      OneRun(p, acceleration, t, us, vs, |us| - 1);
      OverIsOver(p, acceleration, us[|us| - 1], vs[|us|]);
    }
  }

  /** The greedy parse of a source, with a table and an acceleration, is one block. */
  lemma GreedyIsUnique(p: Params, acceleration: nat, table: seq<nat>, a: seq<byte>, b: seq<byte>)
    requires GreedyBlock(p, acceleration, table, a) && GreedyBlock(p, acceleration, table, b)
    ensures a == b
  {
    hide Complete, ValidParams, Entered;
    if |p.src| > MFLIMIT {
      var t := Turn(0, 1, Search, Entered(p, table, 0), []);
      var us :| Complete(p, acceleration, t, us, a);
      var vs :| Complete(p, acceleration, t, vs, b);
      SameLength(p, acceleration, t, us, vs, a, b);
      SameLength(p, acceleration, t, vs, us, b, a);
      SameBlock(p, acceleration, t, us, vs, a, b);
    }
  }

  lemma SameBlock(p: Params, acceleration: nat, t: Turn, us: seq<Turn>, vs: seq<Turn>, a: seq<byte>, b: seq<byte>)
    requires Complete(p, acceleration, t, us, a) && Complete(p, acceleration, t, vs, b) && |us| == |vs|
    ensures a == b
  {
    hide Follows, Over;
    OneRun(p, acceleration, t, us, vs, |us| - 1);
  }
}
