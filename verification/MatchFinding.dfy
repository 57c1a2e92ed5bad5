/** The match search of lz4.c: the hash table, the skipping search, catching up
    backwards and counting forwards. */
module MatchFinding {
  import opened Format
  import opened Emit

  const LIMIT_64K: int := 0x1_0000 + MFLIMIT - 1

  datatype OutputDirective = NotLimited | LimitedOutput | FillOutput
  datatype TableType = ByU32 | ByU16
  datatype DictDirective = NoDict | WithPrefix64k | UsingExtDict
  datatype DictIssue = NoDictIssue | DictSmall

  /** The constants of one call of LZ4_compress_generic_validated.  hist is the
      dictionary content that precedes src (in memory or elsewhere); an index
      idx of the hash table stands for the window position
      idx - startIndex + |hist|.  hash stands for LZ4_hash4 / LZ4_hash5: the
      result holds for any function of the bytes at the position. */
  datatype Params = Params(
    src: seq<byte>, hist: seq<byte>, startIndex: nat,
    output: OutputDirective, tableType: TableType, dict: DictDirective, issue: DictIssue,
    hash: seq<byte> -> nat)

  ghost predicate ValidParams(p: Params, tableLength: nat) {
    && 1 <= |p.src| <= MAX_INPUT_SIZE
    && (p.dict == NoDict ==> p.hist == [])
    && |p.hist| <= p.startIndex
    && (p.output == FillOutput ==> p.startIndex == 0)
    && p.startIndex + |p.src| <= 0xFFFF_FFFF
    && (p.tableType == ByU16 ==> |p.src| <= LIMIT_64K && (Indexable(p) || Unindexed(p)))
    && HashFits(p.hash, tableLength)
  }

  /** Every position that is stored has an index of 16 bits. */
  predicate Indexable(p: Params) {
    p.startIndex + |p.src| <= LIMIT_64K
  }

  /** No position has one: what is stored are the low bits, all of them below the
      window, where dictSmall turns them down. */
  predicate Unindexed(p: Params) {
    p.startIndex >= 0x1_0000 && p.issue == DictSmall && p.hist == []
  }

  /** LZ4_putIndexOnHash, as far as the width of the table goes. */
  function Stored(p: Params, idx: nat): (i: nat)
    ensures i <= idx && (p.tableType == ByU16 ==> i < 0x1_0000)
  {
    if p.tableType == ByU16 then idx % 0x1_0000 else idx
  }

  ghost predicate HashFits(hash: seq<byte> -> nat, tableLength: nat) {
    forall s: seq<byte> :: |s| <= 8 ==> hash(s) < tableLength
  }

  /** LZ4_hashPosition: reads 8 bytes, or 4 for a byU16 table. */
  function HashPosition(p: Params, pos: nat): nat
    requires pos + 8 <= |p.src|
  {
    p.hash(p.src[pos..pos + if p.tableType == ByU16 then 4 else 8])
  }

  /** An index that every test of the search turns down. */
  predicate Rejected(p: Params, idx: nat) {
    || (p.issue == DictSmall && idx + |p.hist| < p.startIndex)
    || (p.tableType == ByU32 && idx + DISTANCE_MAX < p.startIndex)
  }

  /** An index left by earlier calls is turned down, or it points into the
      dictionary (with four bytes to read, when that is elsewhere). */
  predicate OldEntry(p: Params, idx: nat) {
    || Rejected(p, idx)
    || (p.startIndex - |p.hist| <= idx && (p.dict == UsingExtDict ==> idx + MINMATCH <= p.startIndex))
  }

  /** The table before position cur is looked up. */
  ghost predicate TableOk(p: Params, table: seq<nat>, cur: nat) {
    && |p.src| > MFLIMIT
    && (forall i :: 0 <= i < |table| ==> EntryOk(p, table[i], cur))
    && (p.output == FillOutput ==> forall i :: 0 <= i < |table| ==> OwnSlot(p, table[i], i))
  }

  predicate EntryOk(p: Params, idx: nat, cur: nat) {
    if idx < p.startIndex then OldEntry(p, idx)
    else idx < p.startIndex + cur && idx + MFLIMIT <= p.startIndex + |p.src|
  }

  /** fillOutput removes positions again, so it matters where they stand. */
  predicate OwnSlot(p: Params, idx: nat, i: nat) {
    idx == 0 || (idx + 8 <= |p.src| && HashPosition(p, idx) == i)
  }

  lemma TableLater(p: Params, table: seq<nat>, cur: nat, cur': nat)
    requires TableOk(p, table, cur) && cur <= cur'
    ensures TableOk(p, table, cur')
  {
    forall i | 0 <= i < |table| ensures EntryOk(p, table[i], cur') {
      assert EntryOk(p, table[i], cur);
    }
  }

  /** LZ4_putIndexOnHash for the position pos of the source. */
  method PutPosition(p: Params, table: array<nat>, pos: nat, h: nat, ghost cur: nat)
    requires ValidParams(p, table.Length) && TableOk(p, table[..], cur)
    requires pos < cur && pos + MFLIMIT <= |p.src| && h == HashPosition(p, pos)
    modifies table
    ensures TableOk(p, table[..], cur)
    ensures h < table.Length && table[..] == Entered(p, old(table[..]), pos) == old(table[..])[h := Stored(p, p.startIndex + pos)]
    ensures forall i :: 0 <= i < table.Length ==> table[i] == old(table[i]) || table[i] == Stored(p, p.startIndex + pos)
    ensures Grown(p, old(table[..]), table[..])
  {
    assert Stored(p, p.startIndex + pos) == p.startIndex + pos || (p.tableType == ByU16 && Unindexed(p));
    ghost var before := table[..];
    table[h] := Stored(p, p.startIndex + pos);
    forall i | 0 <= i < table.Length ensures EntryOk(p, table[i], cur) {
      assert i != h ==> table[i] == before[i];
    }
    if p.output == FillOutput {
      forall i | 0 <= i < table.Length ensures OwnSlot(p, table[i], i) {
        assert i != h ==> table[i] == before[i];
      }
    }
  }

  /** The table when position pos has entered it. */
  function Entered(p: Params, table: seq<nat>, pos: nat): (t: seq<nat>)
    requires pos + 8 <= |p.src|
    ensures |t| == |table|
  {
    if HashPosition(p, pos) < |table| then table[HashPosition(p, pos) := Stored(p, p.startIndex + pos)] else table
  }

  /** Every slot is as before, or holds a position of this source that is at
      least 12 bytes before its end (or was cleared, under fillOutput). */
  predicate Grown(p: Params, before: seq<nat>, after: seq<nat>) {
    && |before| == |after|
    && forall i :: 0 <= i < |after| ==>
      || after[i] == before[i]
      || (&& after[i] + MFLIMIT <= p.startIndex + |p.src|
          && (p.startIndex <= after[i] || 0x1_0000 <= p.startIndex)
          && (p.tableType == ByU16 ==> after[i] < 0x1_0000))
  }

  /** A candidate that passed the tests: inside the window, close enough, and
      equal on four bytes. */
  predicate Candidate(p: Params, ip: nat, m: int) {
    && -|p.hist| <= m < ip && ip - m <= DISTANCE_MAX
    && (p.dict == UsingExtDict && m < 0 ==> m + MINMATCH <= 0)
    && RealMatch(p.hist, p.src, ip, ip - m, MINMATCH)
  }

  /** LZ4_read32(match) == LZ4_read32(ip). */
  predicate Same32(p: Params, ip: nat, m: int)
    requires -|p.hist| <= m < ip && ip + 4 <= |p.src|
  {
    var w, d := Window(p.hist, p.src), |p.hist|;
    w[d + m] == w[d + ip] && w[d + m + 1] == w[d + ip + 1] && w[d + m + 2] == w[d + ip + 2] && w[d + m + 3] == w[d + ip + 3]
  }

  lemma SameIsReal(p: Params, ip: nat, m: int)
    requires -|p.hist| <= m < ip && ip + 4 <= |p.src|
    ensures Same32(p, ip, m) <==> RealMatch(p.hist, p.src, ip, ip - m, MINMATCH)
  {
    var w, at := Window(p.hist, p.src), |p.hist| + ip;
    if RealMatch(p.hist, p.src, ip, ip - m, MINMATCH) {
      PeriodicAt(w, at, at + 4, ip - m, at);
      PeriodicAt(w, at, at + 4, ip - m, at + 1);
      PeriodicAt(w, at, at + 4, ip - m, at + 2);
      PeriodicAt(w, at, at + 4, ip - m, at + 3);
    }
  }

  /** The tests of lines 1001-1013 (and 1187-1189) on the entry matchIndex. */
  method Test(p: Params, ip: nat, matchIndex: nat) returns (accepted: bool)
    requires |p.src| <= MAX_INPUT_SIZE && (p.tableType == ByU16 ==> ip <= DISTANCE_MAX && (p.startIndex + ip <= DISTANCE_MAX || Unindexed(p)))
    requires EntryOk(p, matchIndex, ip) && ip + MFLIMIT <= |p.src| && |p.hist| <= p.startIndex
    ensures accepted <==> Candidate(p, ip, matchIndex - p.startIndex)
  {
    hide RealMatch, Same32;
    var current := p.startIndex + ip;
    if p.issue == DictSmall && matchIndex < p.startIndex - |p.hist| {
      return false;
    }
    if p.tableType != ByU16 && matchIndex + DISTANCE_MAX < current {
      return false;
    }
    accepted := Same32(p, ip, matchIndex - p.startIndex);
    SameIsReal(p, ip, matchIndex - p.startIndex);
  }

  /** How far a search moves after its probe k: by one, then by steps that grow
      by one every 64 probes. */
  function Stride(acceleration: nat, k: nat): nat {
    if k == 0 then 1 else (acceleration * 64 + k - 1) / 64
  }

  /** The position of probe k of a search that starts at ip0. */
  function Probe(ip0: nat, acceleration: nat, k: nat): (ip: nat)
    ensures ip0 <= ip
  {
    if k == 0 then ip0 else Probe(ip0, acceleration, k - 1) + Stride(acceleration, k - 1)
  }

  /** Probe k is far enough from the end of the source to be made. */
  predicate InReach(p: Params, ip0: nat, acceleration: nat, k: nat) {
    Probe(ip0, acceleration, k) + MFLIMIT <= |p.src|
  }

  /** What slot h holds after k probes: the newest of their positions with the hash
      h, or what it held before. */
  function Slot(p: Params, table: seq<nat>, ip0: nat, acceleration: nat, h: nat, k: nat): nat
    requires h < |table| && (k > 0 ==> InReach(p, ip0, acceleration, k - 1))
  {
    if k == 0 then table[h]
    else if HashPosition(p, Probe(ip0, acceleration, k - 1)) == h then Stored(p, p.startIndex + Probe(ip0, acceleration, k - 1))
    else Slot(p, table, ip0, acceleration, h, k - 1)
  }

  /** The position that probe k finds under its hash. */
  function Met(p: Params, table: seq<nat>, ip0: nat, acceleration: nat, k: nat): int
    requires ValidParams(p, |table|) && InReach(p, ip0, acceleration, k)
  {
    Slot(p, table, ip0, acceleration, HashPosition(p, Probe(ip0, acceleration, k)), k) - p.startIndex
  }

  /** Probe k is made, since the next one is not beyond the last position that may
      be searched, and finds a match that may be used. */
  ghost predicate Hits(p: Params, table: seq<nat>, ip0: nat, acceleration: nat, k: nat)
    requires ValidParams(p, |table|)
  {
    InReach(p, ip0, acceleration, k) && Probe(ip0, acceleration, k + 1) + MFLIMIT <= |p.src| + 1
    && Candidate(p, Probe(ip0, acceleration, k), Met(p, table, ip0, acceleration, k))
  }

  /** The table after k probes. */
  ghost predicate Probed(p: Params, before: seq<nat>, after: seq<nat>, ip0: nat, acceleration: nat, k: nat)
    requires k > 0 ==> InReach(p, ip0, acceleration, k - 1)
  {
    |after| == |before| && forall h :: 0 <= h < |after| ==> after[h] == Slot(p, before, ip0, acceleration, h, k)
  }

  lemma ProbedOne(p: Params, before: seq<nat>, t: seq<nat>, ip0: nat, acceleration: nat, k: nat)
    requires ValidParams(p, |before|) && InReach(p, ip0, acceleration, k) && (k > 0 ==> InReach(p, ip0, acceleration, k - 1))
    requires Probed(p, before, t, ip0, acceleration, k)
    ensures var ip := Probe(ip0, acceleration, k); var h := HashPosition(p, ip);
            && h < |t| && t[h] - p.startIndex == Met(p, before, ip0, acceleration, k)
            && Probed(p, before, t[h := Stored(p, p.startIndex + ip)], ip0, acceleration, k + 1)
  {
    hide Probe, HashPosition;
    HashInTable(p, |t|, Probe(ip0, acceleration, k));
  }

  lemma NoProbe(p: Params, table: seq<nat>, ip0: nat, acceleration: nat)
    ensures Probed(p, table, table, ip0, acceleration, 0) && Grown(p, table, table)
  {
  }

  lemma HashInTable(p: Params, tableLength: nat, pos: nat)
    requires ValidParams(p, tableLength) && pos + 8 <= |p.src|
    ensures HashPosition(p, pos) < tableLength
  {
  }

  /** The probes of a search that ends with probe k: found, or too near the end. */
  ghost predicate SearchEnds(p: Params, table: seq<nat>, ip0: nat, acceleration: nat, k: nat, found: bool)
    requires ValidParams(p, |table|)
  {
    && (forall j: nat :: j < k ==> !Hits(p, table, ip0, acceleration, j))
    && (found ==> Hits(p, table, ip0, acceleration, k))
    && (!found ==> Probe(ip0, acceleration, k + 1) + MFLIMIT > |p.src| + 1)
  }

  /** Lines 954-1015: probe with growing steps until a candidate is accepted,
      or too little of the source is left.  The first probe that hits is taken. */
  method FindMatch(p: Params, table: array<nat>, ip0: nat, acceleration: nat) returns (found: bool, ip: nat, m: int, ghost k: nat)
    requires ValidParams(p, table.Length) && acceleration >= 1
    requires 1 <= ip0 && ip0 + MFLIMIT <= |p.src| + 1 && TableOk(p, table[..], ip0)
    modifies table
    ensures Grown(p, old(table[..]), table[..])
    ensures found ==> ip0 <= ip && ip + MFLIMIT <= |p.src| && Candidate(p, ip, m) && TableOk(p, table[..], ip + 1)
    ensures SearchEnds(p, old(table[..]), ip0, acceleration, k, found)
    ensures found ==> ip == Probe(ip0, acceleration, k) && m == Met(p, old(table[..]), ip0, acceleration, k)
    ensures found ==> InReach(p, ip0, acceleration, k) && Probed(p, old(table[..]), table[..], ip0, acceleration, k + 1)
  {
    hide TableOk, Candidate, HashFits, Grown, Probed, HashPosition, Slot;
    ghost var before := table[..];
    k := 0;
    NoProbe(p, before, ip0, acceleration);
    var forwardIp, step, searchMatchNb := ip0, 1, acceleration * 64;
    var forwardH := HashPosition(p, forwardIp);
    ip, m := ip0, 0;
    while true
      invariant forwardIp == Probe(ip0, acceleration, k) && forwardIp + MFLIMIT <= |p.src| + 1
      invariant step == Stride(acceleration, k) && searchMatchNb == acceleration * 64 + k
      invariant (k > 0 ==> InReach(p, ip0, acceleration, k - 1)) && Probed(p, before, table[..], ip0, acceleration, k)
      invariant forall j: nat :: j < k ==> !Hits(p, before, ip0, acceleration, j)
      invariant forwardH == HashPosition(p, forwardIp)
      invariant TableOk(p, table[..], forwardIp)
      invariant Grown(p, old(table[..]), table[..])
      decreases |p.src| - forwardIp
    {
      var h := forwardH;
      HashInTable(p, table.Length, forwardIp);
      var matchIndex := table[h];
      ip := forwardIp;
      forwardIp := forwardIp + step;
      step := searchMatchNb / 64;
      searchMatchNb := searchMatchNb + 1;
      if forwardIp > |p.src| - MFLIMIT + 1 {
        return false, ip, 0, k;
      }
      forwardH := HashPosition(p, forwardIp);
      ghost var t := table[..];
      EntryIn(p, t, ip, h);
      ProbedOne(p, before, t, ip0, acceleration, k);
      TableLater(p, t, ip, ip + 1);
      PutPosition(p, table, ip, h, ip + 1);
      GrownMore(p, before, t, table[..]);
      var accepted := Test(p, ip, matchIndex);
      if accepted {
        return true, ip, matchIndex - p.startIndex, k;
      }
      TableLater(p, table[..], ip + 1, forwardIp);
      k := k + 1;
    }
  }

  // ---------------------------------------------------------------------
  // Extending a match
  // ---------------------------------------------------------------------

  lemma EntryIn(p: Params, table: seq<nat>, cur: nat, h: nat)
    requires TableOk(p, table, cur) && h < |table|
    ensures EntryOk(p, table[h], cur)
  {
  }

  lemma GrownMore(p: Params, a: seq<nat>, b: seq<nat>, c: seq<nat>)
    requires Grown(p, a, b) && Grown(p, b, c)
    ensures Grown(p, a, c)
  {
  }

  lemma ExtendBack(h: seq<byte>, src: seq<byte>, ip: nat, offset: nat, len: nat)
    requires RealMatch(h, src, ip, offset, len) && 1 <= ip && offset < |h| + ip
    requires Window(h, src)[|h| + ip - 1] == Window(h, src)[|h| + ip - 1 - offset]
    ensures RealMatch(h, src, ip - 1, offset, len + 1)
  {
  }

  /** Lines 1017-1019: catch up, not past anchor nor below the segment of the match. */
  method CatchUp(p: Params, anchor: nat, ip0: nat, m0: int) returns (ip: nat, m: int)
    requires anchor <= ip0 && ip0 + MFLIMIT <= |p.src| && Candidate(p, ip0, m0)
    ensures anchor <= ip <= ip0 && ip - m == ip0 - m0 && -|p.hist| <= m
    ensures p.dict == UsingExtDict ==> (m < 0 <==> m0 < 0)
    ensures RealMatch(p.hist, p.src, ip, ip - m, ip0 - ip + MINMATCH)
    ensures var w, d := Window(p.hist, p.src), |p.hist|;
            ip == anchor || m == -d || (p.dict == UsingExtDict && m == 0) || w[d + ip - 1] != w[d + m - 1]
  {
    ip, m := ip0, m0;
    var w, d := Window(p.hist, p.src), |p.hist|;
    var lowLimit := if p.dict == UsingExtDict && m0 >= 0 then 0 else -d;
    while ip > anchor && m > lowLimit && w[d + ip - 1] == w[d + m - 1]
      invariant anchor <= ip <= ip0 && ip - m == ip0 - m0 && lowLimit <= m
      invariant RealMatch(p.hist, p.src, ip, ip - m, ip0 - ip + MINMATCH)
      decreases ip
    {
      ExtendBack(p.hist, p.src, ip, ip - m, ip0 - ip + MINMATCH);
      ip, m := ip - 1, m - 1;
    }
  }

  /** LZ4_NbCommonBytes of the difference of two words: the length of their
      common beginning (the words are read in little-endian order). */
  function CommonBytes(u: seq<byte>, v: seq<byte>): (n: nat)
    requires |u| == |v|
    ensures n <= |u| && u[..n] == v[..n]
    ensures n < |u| ==> u[n] != v[n]
  {
    if |u| == 0 || u[0] != v[0] then 0
    else
      var n := CommonBytes(u[1..], v[1..]);
      assert u[..n + 1] == [u[0]] + u[1..][..n] && v[..n + 1] == [v[0]] + v[1..][..n];
      n + 1
  }

  lemma PeriodicMore(w: seq<byte>, i: nat, e: nat, off: nat, k: nat)
    requires off <= i <= e && e + k <= |w| && Periodic(w, i, e, off)
    requires w[e..e + k] == w[e - off..e - off + k]
    ensures Periodic(w, i, e + k, off)
  {
    forall j, x | 0 <= j && i <= x < e + k && x == j + off ensures w[x] == w[j] {
      if x >= e {
        assert w[e..e + k][x - e] == w[e - off..e - off + k][x - e];
      }
    }
  }

  /** LZ4_count(pIn = w[i], pMatch = offset bytes before): eight bytes at a
      time, then 4, 2 and 1.  The result is the end of the agreement. */
  method Count(w: seq<byte>, i: nat, offset: nat, limit: nat) returns (e: nat)
    requires 1 <= offset <= i <= limit <= |w|
    ensures i <= e <= limit && Periodic(w, i, e, offset)
    ensures e < limit ==> w[e] != w[e - offset]
  {
    e := i;
    while e + 7 < limit
      invariant i <= e <= limit && Periodic(w, i, e, offset)
      decreases limit - e
    {
      var c := CommonWord(w, e, offset);
      PeriodicMore(w, i, e, offset, c);
      e := e + c;
      if c < 8 { return; }
    }
    e := CountTail(w, i, e, offset, limit);
  }

  method CommonWord(w: seq<byte>, e: nat, offset: nat) returns (c: nat)
    requires 1 <= offset <= e && e + 8 <= |w|
    ensures c <= 8 && w[e..e + c] == w[e - offset..e - offset + c]
    ensures c < 8 ==> w[e + c] != w[e + c - offset]
  {
    var u, v := w[e..e + 8], w[e - offset..e - offset + 8];
    c := CommonBytes(u, v);
    assert w[e..e + c] == u[..c] && w[e - offset..e - offset + c] == v[..c];
    assert c < 8 ==> w[e + c] == u[c] && w[e + c - offset] == v[c];
  }

  method CountTail(w: seq<byte>, ghost i: nat, e0: nat, offset: nat, limit: nat) returns (e: nat)
    requires 1 <= offset <= i <= e0 <= limit <= |w| && limit <= e0 + 7 && Periodic(w, i, e0, offset)
    ensures i <= e <= limit && Periodic(w, i, e, offset)
    ensures e < limit ==> w[e] != w[e - offset]
  {
    hide Periodic, Same;
    e := e0;
    if e0 + 3 < limit {
      FourFromParts(w, e0, offset);
    }
    if e + 3 < limit && Same(w, e, offset, 4) {
      PeriodicSame(w, i, e, offset, 4);
      e := e + 4;
    }
    ghost var e4 := e;
    if e4 + 1 < limit {
      TwoFromParts(w, e4, offset);
    }
    if e + 1 < limit && Same(w, e, offset, 2) {
      PeriodicSame(w, i, e, offset, 2);
      e := e + 2;
    }
    e := CountByte(w, i, e, offset, limit);
    assert e == e4 + 3 && e4 == e0 && e < limit ==> !Same(w, e0, offset, 4);
    assert e == e4 + 3 ==> Same(w, e4, offset, 2) && w[e4 + 2] == w[e4 + 2 - offset];
  }

  method CountByte(w: seq<byte>, ghost i: nat, e0: nat, offset: nat, limit: nat) returns (e: nat)
    requires 1 <= offset <= i <= e0 <= limit <= |w| && Periodic(w, i, e0, offset)
    ensures e0 <= e <= limit && Periodic(w, i, e, offset)
    ensures if e0 < limit && w[e0] == w[e0 - offset] then e == e0 + 1 else e == e0
  {
    e := e0;
    if e < limit && w[e] == w[e - offset] {
      PeriodicMore(w, i, e, offset, 1);
      e := e + 1;
    }
  }

  predicate Same(w: seq<byte>, e: nat, offset: nat, k: nat)
    requires offset <= e && e + k <= |w|
  {
    w[e..e + k] == w[e - offset..e - offset + k]
  }

  lemma PeriodicSame(w: seq<byte>, i: nat, e: nat, off: nat, k: nat)
    requires off <= i <= e && e + k <= |w| && Periodic(w, i, e, off) && Same(w, e, off, k)
    ensures Periodic(w, i, e + k, off)
  {
    PeriodicMore(w, i, e, off, k);
  }

  lemma TwoFromParts(w: seq<byte>, e: nat, offset: nat)
    requires offset <= e && e + 2 <= |w|
    ensures w[e] == w[e - offset] && w[e + 1] == w[e + 1 - offset] ==> Same(w, e, offset, 2)
  {
  }

  lemma FourFromParts(w: seq<byte>, e: nat, offset: nat)
    requires offset <= e && e + 4 <= |w|
    ensures Same(w, e, offset, 2) && w[e + 2] == w[e + 2 - offset] && w[e + 3] == w[e + 3 - offset]
            ==> Same(w, e, offset, 4)
  {
    var u, v := w[e..e + 4], w[e - offset..e - offset + 4];
    assert u[..2] == w[e..e + 2] && v[..2] == w[e - offset..e - offset + 2];
    assert u == u[..2] + [u[2], u[3]] && v == v[..2] + [v[2], v[3]];
  }

  /** A match of this length ends at the last five bytes, or it cannot be made longer. */
  predicate Ends(p: Params, ip: nat, m: int, len: nat) {
    var w, d := Window(p.hist, p.src), |p.hist|;
    ip + len + LASTLITERALS < |p.src| && -d <= m < ip ==> w[d + ip + len] != w[d + m + len]
  }

  /** Lines 1078-1095: the length of the match, counted in one or two segments.
      atLeast is what the search already knows. */
  method MatchCode(p: Params, ip: nat, m: int, ghost atLeast: nat) returns (matchCode: nat)
    requires -|p.hist| <= m < ip && ip + MFLIMIT <= |p.src| && (p.dict == UsingExtDict && m < 0 ==> m + MINMATCH <= 0)
    requires atLeast >= MINMATCH && ip + atLeast + LASTLITERALS <= |p.src|
    requires RealMatch(p.hist, p.src, ip, ip - m, atLeast)
    ensures matchCode + MINMATCH >= atLeast && ip + MINMATCH + matchCode + LASTLITERALS <= |p.src|
    ensures RealMatch(p.hist, p.src, ip, ip - m, MINMATCH + matchCode)
    ensures Ends(p, ip, m, MINMATCH + matchCode)
  {
    var w, d, offset := Window(p.hist, p.src), |p.hist|, ip - m;
    var matchlimit := |p.src| - LASTLITERALS;
    var start := d + ip + MINMATCH;
    var e;
    if p.dict == UsingExtDict && m < 0 {
      var limit := ip - m;   // where the match reaches the end of the dictionary
      if limit > matchlimit { limit := matchlimit; }
      e := Count(w, start, offset, d + limit);
      if e == d + limit {
        e := Count(w, d + limit, offset, d + matchlimit);   // goes on at the start of the source
      }
    } else {
      e := Count(w, start, offset, d + matchlimit);
    }
    matchCode := e - start;
    LongerMatch(p.hist, p.src, ip, offset, atLeast, e - d - ip);
  }

  lemma PeriodicAt(w: seq<byte>, lo: nat, hi: nat, off: nat, x: nat)
    requires hi <= |w| && off <= lo && Periodic(w, lo, hi, off)
    ensures lo <= x < hi ==> w[x] == w[x - off]
  {
  }

  lemma LongerMatch(h: seq<byte>, src: seq<byte>, ip: nat, offset: nat, atLeast: nat, len: nat)
    requires atLeast >= MINMATCH && len >= MINMATCH && ip + len <= |src| && ip + atLeast <= |src|
    requires RealMatch(h, src, ip, offset, atLeast)
    requires Periodic(Window(h, src), |h| + ip + MINMATCH, |h| + ip + len, offset)
    requires ip + len + LASTLITERALS < |src| ==> Window(h, src)[|h| + ip + len] != Window(h, src)[|h| + ip + len - offset]
    requires ip + len + LASTLITERALS <= |src| && ip + atLeast + LASTLITERALS <= |src|
    ensures len >= atLeast && RealMatch(h, src, ip, offset, len)
  {
    PeriodicAt(Window(h, src), |h| + ip, |h| + ip + atLeast, offset, |h| + ip + len);
  }

  lemma ShorterMatch(h: seq<byte>, src: seq<byte>, ip: nat, offset: nat, len: nat, len': nat)
    requires RealMatch(h, src, ip, offset, len) && len' <= len
    ensures RealMatch(h, src, ip, offset, len')
  {
  }
}
