/** The match finder of lz4hc.c over one prefix segment: hash table, chain table,
    and LZ4HC_InsertAndGetWiderMatch with its chain swap and its shortcut for
    repeated bytes.  Index low + k stands for byte k of the window. */
module HcFinder {
  import opened Format
  import opened Common
  import opened MatchFinding

  const MAXD: int := 0x1_0000
  const HASH_SIZE: int := 0x8000

  /** A match of len bytes at start, `start - at` bytes back, in the window w. */
  predicate Real(w: seq<byte>, start: nat, at: nat, len: nat) {
    && at < start && start - at <= DISTANCE_MAX && start + len <= |w|
    && Periodic(w, start, start + len, start - at)
  }

  /** longest, *matchpos and *startpos. */
  datatype Best = Best(longest: nat, at: nat, start: nat)

  /** The part of a search that does not change. */
  datatype Query = Query(w: seq<byte>, ip: nat, iLow: nat, iHigh: nat, longest: nat)

  predicate ValidQuery(q: Query) {
    && q.iLow <= q.ip && q.ip + MINMATCH <= q.iHigh < |q.w|
    && q.ip - q.iLow < q.longest <= q.iHigh - q.iLow
  }

  /** Whenever longest was raised, it was raised to a real match inside the limits. */
  predicate Sound(q: Query, b: Best) {
    && q.longest <= b.longest && q.iLow + b.longest <= q.iHigh
    && (b.longest > q.longest ==>
          && q.iLow <= b.start <= q.ip && b.start + b.longest <= q.iHigh
          && q.ip + MINMATCH <= b.start + b.longest && b.longest >= MINMATCH
          && Real(q.w, b.start, b.at, b.longest))
  }

  /** From start to e the window agrees with what is found by taking position m
      for q.ip; four bytes or more of it at q.ip and behind. */
  predicate Agrees(q: Query, m: nat, start: nat, e: nat)
    requires ValidQuery(q)
  {
    && m < q.ip && q.iLow <= start <= q.ip <= start + m && q.ip + MINMATCH <= e <= q.iHigh
    && Periodic(q.w, start, e, q.ip - m)
  }

  /** No match that takes position m for q.ip is longer than `longest`, whatever
      it has in front of q.ip. */
  ghost predicate Beaten(q: Query, m: nat, longest: nat)
    requires ValidQuery(q)
  {
    forall start: nat, e: nat :: Agrees(q, m, start, e) ==> e <= start + longest
  }

  lemma AgreesAt(q: Query, m: nat, start: nat, e: nat, k: nat)
    requires ValidQuery(q) && start <= k < e <= |q.w| && q.ip <= start + m && m < q.ip
    ensures Agrees(q, m, start, e) ==> q.w[k] == q.w[k - (q.ip - m)]
  {
  }

  lemma AgreesFour(q: Query, m: nat, start: nat, e: nat)
    requires ValidQuery(q) && m + 4 <= |q.w|
    ensures Agrees(q, m, start, e) ==> SameFour(q.w, m, q.ip)
  {
  }

  lemma StaysBeaten(q: Query, m: nat, longest: nat, longest': nat)
    requires ValidQuery(q) && Beaten(q, m, longest) && longest <= longest'
    ensures Beaten(q, m, longest')
  {
    hide Agrees;
  }

  // ---------------------------------------------------------------------
  // Candidates compared byte by byte
  // ---------------------------------------------------------------------

  /** LZ4HC_countBack, as a positive number. */
  method CountBack(w: seq<byte>, ip: nat, m: nat, iMin: nat, mMin: nat) returns (back: nat)
    requires mMin <= m < ip <= |w| && iMin <= ip
    ensures back <= ip - iMin && back <= m - mMin
    ensures Periodic(w, ip - back, ip, ip - m)
    ensures back == ip - iMin || back == m - mMin || w[ip - back - 1] != w[m - back - 1]
  {
    back := 0;
    var max := if ip - iMin < m - mMin then ip - iMin else m - mMin;
    while back < max && w[ip - back - 1] == w[m - back - 1]
      invariant back <= max
      invariant Periodic(w, ip - back, ip, ip - m)
    {
      back := back + 1;
    }
  }

  /** LZ4_read16 at both places. */
  predicate SamePair(w: seq<byte>, i: nat, j: nat)
    requires i + 2 <= |w| && j + 2 <= |w|
  {
    w[i] == w[j] && w[i + 1] == w[j + 1]
  }

  /** LZ4_read32 at both places. */
  predicate SameFour(w: seq<byte>, i: nat, j: nat)
    requires i + 4 <= |w| && j + 4 <= |w|
  {
    w[i] == w[j] && w[i + 1] == w[j + 1] && w[i + 2] == w[j + 2] && w[i + 3] == w[j + 3]
  }

  lemma Pieces(w: seq<byte>, m: nat, ip: nat, back: nat, e: nat)
    requires m < ip && back <= m && ip + 4 <= e <= |w|
    requires Periodic(w, ip - back, ip, ip - m) && SameFour(w, m, ip) && Periodic(w, ip + 4, e, ip - m)
    ensures Periodic(w, ip - back, e, ip - m)
  {
  }

  lemma Raised(q: Query, b: Best, m: nat, back: nat, e: nat)
    requires ValidQuery(q) && m < q.ip && q.ip - m <= DISTANCE_MAX && back <= m && back <= q.ip - q.iLow
    requires q.longest <= b.longest < e - q.ip + back && q.ip + MINMATCH <= e <= q.iHigh
    requires Periodic(q.w, q.ip - back, e, q.ip - m)
    ensures Sound(q, Best(e - q.ip + back, m - back, q.ip - back))
  {
    hide Periodic;
  }

  lemma Bounds(q: Query, b: Best)
    requires Sound(q, b)
    ensures q.longest <= b.longest && q.iLow + b.longest <= q.iHigh
  {
  }

  /** A stretch that cannot be extended on either side. */
  lemma Widest(q: Query, m: nat, back: nat, e: nat)
    requires ValidQuery(q) && m < q.ip && back <= q.ip - q.iLow && back <= m && q.ip + MINMATCH <= e <= q.iHigh
    requires back == q.ip - q.iLow || back == m || q.w[q.ip - back - 1] != q.w[m - back - 1]
    requires e < q.iHigh ==> q.w[e] != q.w[e - (q.ip - m)]
    ensures Beaten(q, m, e - q.ip + back)
  {
    hide Periodic;
    forall start: nat, e': nat | Agrees(q, m, start, e') ensures e' <= start + (e - q.ip + back) {
      if e' > e { AgreesAt(q, m, start, e', e); }
      if start < q.ip - back { AgreesAt(q, m, start, e', q.ip - back - 1); }
    }
  }

  lemma NotFour(q: Query, m: nat, longest: nat)
    requires ValidQuery(q) && m < q.ip && !SameFour(q.w, m, q.ip)
    ensures Beaten(q, m, longest)
  {
    forall start: nat, e: nat ensures !Agrees(q, m, start, e) {
      AgreesFour(q, m, start, e);
    }
  }

  /** A longer match would cover both bytes of the first test. */
  lemma NotPair(q: Query, m: nat, longest: nat)
    requires ValidQuery(q) && m < q.ip && q.longest <= longest <= q.iHigh - q.iLow
    requires !SamePair(q.w, q.iLow + longest - 1, m - (q.ip - q.iLow) + longest - 1)
    ensures Beaten(q, m, longest)
  {
    var k, j := q.iLow + longest - 1, m - (q.ip - q.iLow) + longest - 1;
    forall start: nat, e: nat | Agrees(q, m, start, e) ensures e <= start + longest {
      if k + 1 < e {
        AgreesAt(q, m, start, e, k);
        AgreesAt(q, m, start, e, k + 1);
      }
    }
  }

  /** Lines 281-294: afterwards the best match is as long as any that the
      candidate m makes. */
  method TryCandidate(q: Query, m: nat, b: Best) returns (b': Best, matchLength: nat)
    requires ValidQuery(q) && Sound(q, b) && m < q.ip && q.ip - m <= DISTANCE_MAX
    ensures Sound(q, b') && b.longest <= b'.longest
    ensures Beaten(q, m, b'.longest)
  {
    hide Sound, Periodic, SameFour, SamePair, Beaten;
    b', matchLength := b, 0;
    var lookBack := q.ip - q.iLow;
    Bounds(q, b);
    if !SamePair(q.w, q.iLow + b.longest - 1, m - lookBack + b.longest - 1) {
      NotPair(q, m, b.longest);
    } else {
      if !SameFour(q.w, m, q.ip) {
        NotFour(q, m, b.longest);
      } else {
        var back := 0;
        if lookBack != 0 {
          back := CountBack(q.w, q.ip, m, q.iLow, 0);
        } else {
          NoBack(q.w, q.ip, m);
        }
        var e := Count(q.w, q.ip + MINMATCH, q.ip - m, q.iHigh);
        Pieces(q.w, m, q.ip, back, e);
        Widest(q, m, back, e);
        matchLength := e - q.ip + back;
        if matchLength > b.longest {
          Raised(q, b, m, back, e);
          b' := Best(matchLength, m - back, q.ip - back);
        } else {
          StaysBeaten(q, m, matchLength, b.longest);
        }
      }
    }
  }

  lemma NoBack(w: seq<byte>, ip: nat, m: nat)
    requires m < ip <= |w|
    ensures Periodic(w, ip - 0, ip, ip - m)
  {
  }

  // ---------------------------------------------------------------------
  // Repeated patterns
  // ---------------------------------------------------------------------

  /** w[lo..hi] repeats pat, from its first byte on. */
  predicate Repeats(w: seq<byte>, lo: nat, hi: nat, pat: seq<byte>)
    requires hi <= |w| && |pat| == 4
  {
    forall x :: lo <= x < hi ==> w[x] == pat[(x - lo) % 4]
  }

  /** Byte k of the pattern, wherever its copies begin. */
  lemma InPattern(pat: seq<byte>, u: nat, k: nat)
    requires |pat| == 4 && k < 8
    ensures (4 * u + k) % 4 == k % 4 && (pat + pat)[k] == pat[k % 4]
  {
  }

  lemma RepeatsMore(w: seq<byte>, lo: nat, u: nat, pat: seq<byte>, n: nat)
    requires lo + 4 * u + n <= |w| && |pat| == 4 && n <= 8
    requires Repeats(w, lo, lo + 4 * u, pat)
    requires forall k :: 0 <= k < n ==> w[lo + 4 * u + k] == (pat + pat)[k]
    ensures Repeats(w, lo, lo + 4 * u + n, pat)
  {
    var hi := lo + 4 * u;
    forall x | lo <= x < hi + n ensures w[x] == pat[(x - lo) % 4] {
      if x >= hi {
        assert w[hi + (x - hi)] == (pat + pat)[x - hi];
        InPattern(pat, u, x - hi);
      }
    }
  }

  /** LZ4HC_countPattern: how far pat, a pattern of period 1, 2 or 4, repeats from i on. */
  method CountPattern(w: seq<byte>, i: nat, iEnd: nat, pat: seq<byte>) returns (n: nat)
    requires i <= iEnd <= |w| && |pat| == 4
    ensures i + n <= iEnd && Repeats(w, i, i + n, pat)
    ensures i + n < iEnd ==> w[i + n] != pat[n % 4]
  {
    hide Repeats;
    var p := i;
    ghost var u := 0;
    NoRepeats(w, i, pat);
    while p + 7 < iEnd
      invariant p == i + 4 * u <= iEnd && Repeats(w, i, p, pat)
      decreases iEnd - p
    {
      var c := Agreement(w, p, pat);
      RepeatsMore(w, i, u, pat, c);
      if c < 8 {
        InPattern(pat, u, c);
        return p + c - i;
      }
      p, u := p + 8, u + 2;
    }
    var k := 0;
    while p + k < iEnd && w[p + k] == (pat + pat)[k]
      invariant p + k <= iEnd
      invariant forall j :: 0 <= j < k ==> w[p + j] == (pat + pat)[j]
    {
      k := k + 1;
    }
    RepeatsMore(w, i, u, pat, k);
    InPattern(pat, u, k);
    n := p + k - i;
  }

  lemma NoRepeats(w: seq<byte>, i: nat, pat: seq<byte>)
    requires i <= |w| && |pat| == 4
    ensures Repeats(w, i, i, pat)
  {
  }

  /** A word against the doubled pattern. */
  method Agreement(w: seq<byte>, p: nat, pat: seq<byte>) returns (c: nat)
    requires p + 8 <= |w| && |pat| == 4
    ensures c <= 8 && forall k :: 0 <= k < c ==> w[p + k] == (pat + pat)[k]
    ensures c < 8 ==> w[p + c] != (pat + pat)[c]
  {
    var word := w[p..p + 8];
    c := CommonBytes(word, pat + pat);
    forall k | 0 <= k < c ensures w[p + k] == (pat + pat)[k] {
      assert w[p + k] == word[..c][k] == (pat + pat)[..c][k];
    }
  }

  /** w[lo..hi] repeats pat, up to its last byte. */
  predicate RepeatsBack(w: seq<byte>, lo: nat, hi: nat, pat: seq<byte>)
    requires hi <= |w| && |pat| == 4
  {
    forall x :: lo <= x < hi ==> w[x] == pat[3 - (hi - 1 - x) % 4]
  }

  /** LZ4HC_reverseCountPattern.  The byte pointer never leaves the pattern. */
  method ReverseCountPattern(w: seq<byte>, i: nat, iLow: nat, pat: seq<byte>) returns (n: nat)
    requires iLow <= i <= |w| && |pat| == 4
    ensures i - n >= iLow && RepeatsBack(w, i - n, i, pat)
    ensures i - n > iLow ==> w[i - n - 1] != pat[3 - n % 4]
  {
    hide RepeatsBack;
    var p := i;
    ghost var u := 0;
    NoRepeatsBack(w, i, pat);
    while p >= iLow + 4 && w[p - 4..p] == pat
      invariant iLow <= p && p + 4 * u == i && RepeatsBack(w, p, i, pat)
    {
      assert pat == pat[0..];
      BackMore(w, p, u, pat, 4);
      p, u := p - 4, u + 1;
    }
    var k := LastBytes(w, p, iLow, pat);
    BackMore(w, p, u, pat, k);
    n := i - (p - k);
    FourUp(u, k);
  }

  /** Byte by byte, since four do not match any more. */
  method LastBytes(w: seq<byte>, p: nat, iLow: nat, pat: seq<byte>) returns (k: nat)
    requires iLow <= p <= |w| && |pat| == 4 && !(p >= iLow + 4 && w[p - 4..p] == pat)
    ensures k <= 3 && iLow <= p - k && w[p - k..p] == pat[4 - k..]
    ensures p - k > iLow ==> w[p - k - 1] != pat[3 - k]
  {
    k := 0;
    assert pat[0..] == pat;
    while p - k > iLow && w[p - k - 1] == pat[3 - k]
      invariant iLow <= p - k && k <= 3 && w[p - k..p] == pat[4 - k..]
      decreases p - k
    {
      OneMore(w, p, pat, k);
      k := k + 1;
    }
  }

  lemma FourUp(u: nat, k: nat)
    requires k <= 3
    ensures (4 * u + k) % 4 == k
  {
  }

  lemma OneMore(w: seq<byte>, p: nat, pat: seq<byte>, k: nat)
    requires k <= 3 && k < p <= |w| && |pat| == 4
    requires w[p - k..p] == pat[4 - k..] && w[p - k - 1] == pat[3 - k]
    ensures w[p - k - 1..p] == pat[3 - k..]
  {
    assert w[p - k - 1..p] == [w[p - k - 1]] + w[p - k..p];
    assert pat[3 - k..] == [pat[3 - k]] + pat[4 - k..];
  }

  lemma NoRepeatsBack(w: seq<byte>, i: nat, pat: seq<byte>)
    requires i <= |w| && |pat| == 4
    ensures RepeatsBack(w, i, i, pat)
  {
  }

  lemma BackMore(w: seq<byte>, p: nat, u: nat, pat: seq<byte>, n: nat)
    requires n <= p && p + 4 * u <= |w| && |pat| == 4 && n <= 4
    requires RepeatsBack(w, p, p + 4 * u, pat)
    requires w[p - n..p] == pat[4 - n..]
    ensures RepeatsBack(w, p - n, p + 4 * u, pat)
  {
    forall x | p - n <= x < p + 4 * u ensures w[x] == pat[3 - (p + 4 * u - 1 - x) % 4] {
      if x < p { BackByte(w, p, u, pat, n, x); }
    }
  }

  lemma BackByte(w: seq<byte>, p: nat, u: nat, pat: seq<byte>, n: nat, x: nat)
    requires n <= 4 && p <= |w| && |pat| == 4 && p < n + x + 1 && x < p && n <= p
    requires w[p - n..p] == pat[4 - n..]
    ensures w[x] == pat[3 - (p + 4 * u - 1 - x) % 4]
  {
    var j := p - 1 - x;
    assert w[x] == w[p - n..p][x - (p - n)] == pat[4 - n..][x - (p - n)] == pat[3 - j];
    FourUp(u, j);
    assert p + 4 * u - 1 - x == 4 * u + j;
  }

  /** w[lo..hi] is one byte, repeated. */
  predicate Run(w: seq<byte>, lo: nat, hi: nat, c: byte)
    requires hi <= |w|
  {
    forall x :: lo <= x < hi ==> w[x] == c
  }

  /** LZ4HC_protectDictEnd, in 32-bit arithmetic. */
  predicate ProtectDictEnd(dictLimit: nat, matchIndex: nat) {
    (dictLimit - 1 - matchIndex) % U32_RANGE >= 3
  }

  /** Two stretches of the same byte make a match. */
  lemma RunsAreReal(w: seq<byte>, ip: nat, n: nat, at: nat, e: nat, c: byte, len: nat)
    requires at < ip && ip - at <= DISTANCE_MAX && ip + n <= |w| && e <= |w|
    requires Run(w, ip, ip + n, c) && Run(w, at, e, c) && len <= n && at + len <= e
    ensures Real(w, ip, at, len)
  {
  }

  datatype Repeat = Untested | Not | Confirmed(srcPatternLength: nat)

  predicate RepeatOk(q: Query, r: Repeat)
    requires ValidQuery(q)
  {
    r.Confirmed? ==>
      && MINMATCH <= r.srcPatternLength && q.ip + r.srcPatternLength <= q.iHigh
      && Run(q.w, q.ip, q.ip + r.srcPatternLength, q.w[q.ip])
  }

  lemma RepeatsRun(w: seq<byte>, i: nat, n: nat, c: byte)
    requires i + 4 + n <= |w| && Repeats(w, i + 4, i + 4 + n, [c, c, c, c])
    requires w[i] == w[i + 1] == w[i + 2] == w[i + 3] == c
    ensures Run(w, i, i + 4 + n, c)
  {
    forall x | i <= x < i + 4 + n ensures w[x] == c {
      if x >= i + 4 { assert w[x] == [c, c, c, c][(x - (i + 4)) % 4]; }
    }
  }

  /** Lines 341-348: is the pattern at ip one byte, repeated? */
  method TestRepeat(q: Query, r: Repeat) returns (r': Repeat)
    requires ValidQuery(q) && RepeatOk(q, r)
    ensures RepeatOk(q, r')
  {
    hide Repeats, Run;
    r' := r;
    if r == Untested {
      var c := q.w[q.ip];
      if c == q.w[q.ip + 2] && q.w[q.ip + 1] == q.w[q.ip + 3] && c == q.w[q.ip + 3] {
        var n := CountPattern(q.w, q.ip + 4, q.iHigh, [c, c, c, c]);
        RepeatsRun(q.w, q.ip, n, c);
        r' := Confirmed(n + 4);
      } else {
        r' := Not;
      }
    }
  }

  lemma SegmentRun(w: seq<byte>, m: nat, forward: nat, back: nat, c: byte)
    requires back <= m && m + 4 + forward <= |w|
    requires Repeats(w, m + 4, m + 4 + forward, [c, c, c, c]) && RepeatsBack(w, m - back, m, [c, c, c, c])
    requires w[m] == w[m + 1] == w[m + 2] == w[m + 3] == c
    ensures Run(w, m - back, m + 4 + forward, c)
  {
    RepeatsRun(w, m, forward, c);
    forall x | m - back <= x < m + 4 + forward ensures w[x] == c {
      if x < m { assert w[x] == [c, c, c, c][3 - (m - 1 - x) % 4]; }
    }
  }

  lemma RunPart(w: seq<byte>, lo: nat, hi: nat, lo': nat, c: byte)
    requires hi <= |w| && Run(w, lo, hi, c) && lo <= lo'
    ensures Run(w, lo', hi, c)
  {
  }

  lemma FourOf(q: Query, m: nat, r: Repeat)
    requires ValidQuery(q) && RepeatOk(q, r) && r.Confirmed? && m + 4 <= |q.w| && SameFour(q.w, m, q.ip)
    ensures q.w[m] == q.w[m + 1] == q.w[m + 2] == q.w[m + 3] == q.w[q.ip]
  {
  }

  /** Lines 356-370: the stretch of the repeated byte around m, not below lowest. */
  method Segment(q: Query, r: Repeat, m: nat, lowest: nat) returns (forward: nat, back: nat)
    requires ValidQuery(q) && RepeatOk(q, r) && r.Confirmed? && lowest <= m < q.ip && SameFour(q.w, m, q.ip)
    ensures MINMATCH <= forward && m + forward <= q.iHigh && lowest + back <= m
    ensures Run(q.w, m - back, m + forward, q.w[q.ip])
  {
    hide Repeats, RepeatsBack, Run, SameFour;
    FourOf(q, m, r);
    var c := q.w[q.ip];
    var n := CountPattern(q.w, m + 4, q.iHigh, [c, c, c, c]);
    forward := n + 4;
    var all := ReverseCountPattern(q.w, m, 0, [c, c, c, c]);
    SegmentRun(q.w, m, n, all, c);
    back := m - (if m - all > lowest then m - all else lowest);
    RunPart(q.w, m - all, m + forward, m - back, c);
  }

  // ---------------------------------------------------------------------
  // The index
  // ---------------------------------------------------------------------

  function Hash(hash: seq<byte> -> nat, w: seq<byte>, i: nat): (h: nat)
    requires i + 4 <= |w|
    ensures h < HASH_SIZE
  {
    hash(w[i..i + 4]) % HASH_SIZE
  }

  /** The newest of the first k positions whose hash is h, as an index; 0 when there is none. */
  function Newest(hash: seq<byte> -> nat, w: seq<byte>, low: nat, k: nat, h: nat): (idx: nat)
    requires k + 3 <= |w|
    ensures k == 0 ==> idx == 0
    ensures k > 0 ==> idx < low + k
  {
    if k == 0 then 0
    else if Hash(hash, w, k - 1) == h then low + k - 1
    else Newest(hash, w, low, k - 1, h)
  }

  function Capped(n: nat): nat {
    if n > DISTANCE_MAX then DISTANCE_MAX else n
  }

  /** The hash table knows the newest position of each hash below next; the
      chain table knows, for the MAXD newest positions, how far back the
      previous one with the same hash is. */
  ghost predicate Indexed(hash: seq<byte> -> nat, w: seq<byte>, low: nat, next: nat, table: seq<nat>, chain: seq<nat>) {
    && low <= next && next - low + 3 <= |w| && |table| == HASH_SIZE && |chain| == MAXD
    && (forall h :: 0 <= h < HASH_SIZE ==> table[h] == Newest(hash, w, low, next - low, h))
    && (forall k :: 0 <= k < next - low <= k + MAXD ==> Linked(hash, w, low, chain, k))
  }

  ghost predicate Linked(hash: seq<byte> -> nat, w: seq<byte>, low: nat, chain: seq<nat>, k: nat)
    requires k + 4 <= |w| && |chain| == MAXD
  {
    chain[(low + k) % MAXD] == Capped(low + k - Newest(hash, w, low, k, Hash(hash, w, k)))
  }

  lemma {:induction false} Distinct(a: nat, b: nat)
    requires a < b < a + MAXD
    ensures a % MAXD != b % MAXD
  {
    var i, j := a / MAXD, b / MAXD;
    assert a == MAXD * i + a % MAXD && b == MAXD * j + b % MAXD;
  }

  /** One position more, as LZ4HC_Insert stores it. */
  lemma IndexedOne(hash: seq<byte> -> nat, w: seq<byte>, low: nat, next: nat, table: seq<nat>, chain: seq<nat>)
    requires Indexed(hash, w, low, next, table, chain) && next - low + 4 <= |w|
    ensures var h := Hash(hash, w, next - low);
            && next >= table[h]
            && Indexed(hash, w, low, next + 1, table[h := next], chain[next % MAXD := Capped(next - table[h])])
  {
    hide Newest, Hash, Capped;
    var k0 := next - low;
    var h := Hash(hash, w, k0);
    var table', chain' := table[h := next], chain[next % MAXD := Capped(next - table[h])];
    forall g | 0 <= g < HASH_SIZE ensures table'[g] == Newest(hash, w, low, k0 + 1, g) {
      NewestStep(hash, w, low, k0, g);
    }
    forall k | 0 <= k < k0 + 1 <= k + MAXD ensures Linked(hash, w, low, chain', k) {
      if k < k0 {
        assert Linked(hash, w, low, chain, k);
        Distinct(low + k, next);
      }
    }
  }

  lemma NewestStep(hash: seq<byte> -> nat, w: seq<byte>, low: nat, k: nat, h: nat)
    requires k + 4 <= |w|
    ensures Newest(hash, w, low, k + 1, h) == if Hash(hash, w, k) == h then low + k else Newest(hash, w, low, k, h)
  {
  }

  // Following a chain, and looking at every position instead.

  function Visit(chain: seq<nat>, m: nat, lowest: nat, attempts: nat): seq<nat>
    requires |chain| == MAXD <= lowest && forall i :: 0 <= i < MAXD ==> chain[i] <= DISTANCE_MAX
  {
    if m < lowest || attempts == 0 then [] else [m] + Visit(chain, m - chain[m % MAXD], lowest, attempts - 1)
  }

  function First(s: seq<nat>, n: nat): seq<nat> {
    if n <= |s| then s[..n] else s
  }

  function Scan(hash: seq<byte> -> nat, w: seq<byte>, low: nat, k: nat, lowest: nat, h: nat): seq<nat>
    requires k + 3 <= |w|
  {
    if k == 0 || low + k - 1 < lowest then []
    else
      var rest := Scan(hash, w, low, k - 1, lowest, h);
      if Hash(hash, w, k - 1) == h then [low + k - 1] + rest else rest
  }

  lemma {:induction false} VisitIsScan(hash: seq<byte> -> nat, w: seq<byte>, low: nat, next: nat, table: seq<nat>, chain: seq<nat>,
                                       k: nat, lowest: nat, h: nat, n: nat)
    requires Indexed(hash, w, low, next, table, chain) && k <= next - low
    requires forall i :: 0 <= i < MAXD ==> chain[i] <= DISTANCE_MAX
    requires MAXD <= low <= lowest && next <= lowest + DISTANCE_MAX
    ensures Visit(chain, Newest(hash, w, low, k, h), lowest, n) == First(Scan(hash, w, low, k, lowest, h), n)
    decreases k
  {
    hide Linked, Hash, Capped, Visit;
    VisitNothing(chain, Newest(hash, w, low, k, h), lowest, n);
    if n > 0 && k > 0 && low + k - 1 >= lowest {
      VisitIsScan(hash, w, low, next, table, chain, k - 1, lowest, h, n);
      if Hash(hash, w, k - 1) == h {
        VisitIsScan(hash, w, low, next, table, chain, k - 1, lowest, h, n - 1);
        LinkAt(hash, w, low, next, table, chain, k - 1);
        VisitLink(chain, low + k - 1, Newest(hash, w, low, k - 1, h), lowest, n);
      }
    }
  }

  lemma LinkAt(hash: seq<byte> -> nat, w: seq<byte>, low: nat, next: nat, table: seq<nat>, chain: seq<nat>, k: nat)
    requires Indexed(hash, w, low, next, table, chain) && k < next - low <= k + MAXD
    ensures k + 4 <= |w| && |chain| == MAXD
    ensures chain[(low + k) % MAXD] == Capped(low + k - Newest(hash, w, low, k, Hash(hash, w, k)))
  {
    assert Linked(hash, w, low, chain, k);
  }

  lemma VisitNothing(chain: seq<nat>, m: nat, lowest: nat, n: nat)
    requires |chain| == MAXD <= lowest && forall i :: 0 <= i < MAXD ==> chain[i] <= DISTANCE_MAX
    ensures m < lowest || n == 0 ==> Visit(chain, m, lowest, n) == []
  {
  }

  /** One link: to the previous position, or out of reach. */
  lemma VisitLink(chain: seq<nat>, m: nat, previous: nat, lowest: nat, n: nat)
    requires |chain| == MAXD <= lowest && forall i :: 0 <= i < MAXD ==> chain[i] <= DISTANCE_MAX
    requires lowest <= m < lowest + DISTANCE_MAX && previous <= m && chain[m % MAXD] == Capped(m - previous) && n > 0
    ensures Visit(chain, m, lowest, n) == [m] + Visit(chain, previous, lowest, n - 1)
  {
    VisitNothing(chain, previous, lowest, n - 1);
    VisitNothing(chain, m - chain[m % MAXD], lowest, n - 1);
  }

  /** Where a search stands. */
  datatype Cursor = Cursor(m: nat, chainPos: nat, rep: Repeat, best: Best)

  class Context {
    const hashTable: array<nat>
    const chainTable: array<nat>
    const hash: seq<byte> -> nat
    var low: nat
    var next: nat

    ghost predicate Valid()
      reads this, hashTable, chainTable
    {
      && hashTable != chainTable && hashTable.Length == HASH_SIZE && chainTable.Length == MAXD
      && MAXD <= low <= next
      && (forall h :: 0 <= h < HASH_SIZE ==> hashTable[h] < next)
      && (forall i :: 0 <= i < MAXD ==> chainTable[i] <= DISTANCE_MAX)
    }

    /** The index describes the first next - low positions of w. */
    ghost predicate Indexes(w: seq<byte>)
      reads this, hashTable, chainTable
    {
      Indexed(hash, w, low, next, hashTable[..], chainTable[..])
    }

    /** LZ4_initStreamHC, which zeroes the tables, and LZ4HC_init_internal. */
    constructor (hash: seq<byte> -> nat)
      ensures Valid() && low == next == MAXD && this.hash == hash && fresh(hashTable) && fresh(chainTable)
      ensures forall w: seq<byte> :: 3 <= |w| ==> Indexes(w)
    {
      hashTable := new nat[HASH_SIZE](_ => 0);
      chainTable := new nat[MAXD](_ => 0);
      this.hash := hash;
      low, next := MAXD, MAXD;
    }

    /** Whatever the number of attempts, a search among the positions indexed so
        far follows those in reach whose hash is h, all of them, the newest first. */
    lemma ChainIsScan(w: seq<byte>, h: nat, attempts: nat)
      requires Valid() && Indexes(w) && h < HASH_SIZE
      ensures Visit(chainTable[..], hashTable[h], Lowest(next - low), attempts)
              == First(Scan(hash, w, low, next - low, Lowest(next - low), h), attempts)
    {
      VisitIsScan(hash, w, low, next, hashTable[..], chainTable[..], next - low, Lowest(next - low), h, attempts);
    }

    /** LZ4_initStreamHC on a context that was used before. */
    method Zero()
      requires hashTable != chainTable && hashTable.Length == HASH_SIZE && chainTable.Length == MAXD
      modifies this, hashTable, chainTable
      ensures Valid() && low == next == MAXD
      ensures forall w: seq<byte> :: 3 <= |w| ==> Indexes(w)
    {
      forall h | 0 <= h < HASH_SIZE { hashTable[h] := 0; }
      forall i | 0 <= i < MAXD { chainTable[i] := 0; }
      low, next := MAXD, MAXD;
    }

    /** LZ4HC_init_internal on a context that was used before, whose segment ended
        at index `end` (0 when it was just initialised): old indexes fall below the
        new segment, or are cleared. */
    method Restart(end: nat)
      requires Valid() && (next <= end || (end == 0 && low == next == MAXD))
      modifies this, hashTable, chainTable
      ensures Valid() && low == next && low <= GB + MAXD && forall h :: 0 <= h < HASH_SIZE ==> hashTable[h] < low
      ensures low == if end > GB then MAXD else end + MAXD
    {
      var startingOffset := end;
      if startingOffset > GB {
        forall h | 0 <= h < HASH_SIZE { hashTable[h] := 0; }
        forall i | 0 <= i < MAXD { chainTable[i] := 0xFFFF; }
        startingOffset := 0;
      }
      startingOffset := startingOffset + MAXD;
      low, next := startingOffset, startingOffset;
    }

    /** DELTANEXTU16. */
    method Delta(index: nat) returns (d: nat)
      requires Valid()
      ensures d <= DISTANCE_MAX && d == chainTable[index % MAXD]
    {
      d := chainTable[index % MAXD];
    }

    /** LZ4HC_Insert. */
    method Insert(w: seq<byte>, ip: nat)
      requires Valid() && next <= low + ip && ip + 3 <= |w|
      modifies this`next, hashTable, chainTable
      ensures Valid() && next == low + ip
      ensures old(Indexes(w)) ==> Indexes(w)
    {
      while next < low + ip
        invariant Valid() && next <= low + ip
        invariant old(Indexes(w)) ==> Indexes(w)
      {
        InsertOne(w);
      }
    }

    method InsertOne(w: seq<byte>)
      requires Valid() && next - low + 4 <= |w|
      modifies this`next, hashTable, chainTable
      ensures Valid() && next == old(next) + 1
      ensures old(Indexes(w)) ==> Indexes(w)
    {
      hide Indexed;
      ghost var table, chain := hashTable[..], chainTable[..];
      var h := Hash(hash, w, next - low);
      var delta := next - hashTable[h];
      if delta > DISTANCE_MAX { delta := DISTANCE_MAX; }
      chainTable[next % MAXD] := delta;
      hashTable[h] := next;
      next := next + 1;
      if Indexed(hash, w, low, next - 1, table, chain) {
        IndexedOne(hash, w, low, next - 1, table, chain);
      }
    }

    ghost predicate CursorOk(q: Query, c: Cursor)
      requires ValidQuery(q)
      reads this
    {
      c.m < low + q.ip && Sound(q, c.best) && RepeatOk(q, c.rep)
    }

    /** Line 257. */
    function Lowest(ip: nat): (l: nat)
      reads `low
      ensures low <= l && low + ip <= l + DISTANCE_MAX
    {
      if low + DISTANCE_MAX + 1 > low + ip then low else low + ip - DISTANCE_MAX
    }

    /** Lines 313-335: the position of the match whose chain goes back farthest. */
    method BestChain(m: nat, longest: nat, chainPos: nat) returns (distance: nat, chainPos': nat)
      requires Valid()
      ensures 1 <= distance <= DISTANCE_MAX
      ensures distance == 1 ==> chainPos' == chainPos
      ensures distance > 1 ==> chainPos' + MINMATCH <= longest && distance == chainTable[(m + chainPos') % MAXD]
    {
      distance, chainPos' := 1, chainPos;
      var pos, step, accel := 0, 1, 16;
      while pos < longest - MINMATCH + 1
        invariant 1 <= distance <= DISTANCE_MAX && 1 <= step && 16 <= accel && 0 <= pos
        invariant distance == 1 ==> chainPos' == chainPos
        invariant distance > 1 ==> chainPos' + MINMATCH <= longest && distance == chainTable[(m + chainPos') % MAXD]
        decreases longest - pos
      {
        var candidate := Delta(m + pos);
        step := accel / 16;
        accel := accel + 1;
        if candidate > distance {
          distance, chainPos', accel := candidate, pos, 16;
        }
        pos := pos + step;
      }
    }

    /** Lines 371-404: jump inside the stretch of the repeated byte around
        `candidate`; `longest` may be raised without comparing bytes. */
    method PatternStep(q: Query, candidate: nat, r: Repeat, b: Best) returns (m': nat, b': Best, stop: bool)
      requires Valid() && ValidQuery(q) && Sound(q, b) && RepeatOk(q, r) && r.Confirmed?
      requires Lowest(q.ip) <= candidate < low + q.ip && SameFour(q.w, candidate - low, q.ip)
      ensures m' <= candidate && Sound(q, b') && b.longest <= b'.longest
    {
      hide Sound, Real, Run, SameFour, ProtectDictEnd, Lowest;
      b', stop := b, false;
      var n, lowest := r.srcPatternLength, Lowest(q.ip);
      var forward, back := Segment(q, r, candidate - low, lowest - low);
      if back + forward >= n && forward <= n {
        var fit := candidate + forward - n;
        m' := if ProtectDictEnd(low, fit) then fit else low;
      } else {
        m' := candidate - back;
        if !ProtectDictEnd(low, m') {
          m' := low;
        } else if q.ip == q.iLow {
          var maxML := if back + forward < n then back + forward else n;
          if b.longest < maxML {
            if low + q.ip - m' > DISTANCE_MAX {
              stop := true;
              return;
            }
            Bounds(q, b);
            RaisedByRun(q, b, r, m' - low, candidate - low + forward, maxML);
            b' := Best(maxML, m' - low, q.ip);
          }
          var d := Delta(m');
          m' := m' - d;
        }
      }
    }

    /** Line 278: near matches are slow to copy. */
    predicate Compared(q: Query, m: nat, favorDecSpeed: bool)
      reads `low
    {
      !(favorDecSpeed && low + q.ip < m + 8)
    }

    /** The positions a search for the match of q.ip looks at when it only follows
        the chain: those with the same hash, the newest first. */
    function Candidates(q: Query, maxNbAttempts: nat): seq<nat>
      requires ValidQuery(q)
      reads `low
    {
      First(Scan(hash, q.w, low, q.ip, Lowest(q.ip), Hash(hash, q.w, q.ip)), maxNbAttempts)
    }

    /** Every position in ms is beaten. */
    ghost predicate AllBeaten(q: Query, ms: seq<nat>, longest: nat)
      requires ValidQuery(q)
      reads `low
    {
      forall m <- ms :: low <= m && Beaten(q, m - low, longest)
    }

    /** One round of the main loop, lines 274-410. */
    method Attempt(q: Query, c: Cursor, patternAnalysis: bool, chainSwap: bool, favorDecSpeed: bool)
      returns (c': Cursor, stop: bool)
      requires Valid() && ValidQuery(q) && CursorOk(q, c) && Lowest(q.ip) <= c.m
      ensures CursorOk(q, c') && c.best.longest <= c'.best.longest
      ensures Compared(q, c.m, favorDecSpeed) ==> Beaten(q, c.m - low, c'.best.longest)
      ensures !patternAnalysis && !chainSwap && c.chainPos == 0 ==>
                !stop && c'.chainPos == 0 && c'.m == c.m - chainTable[c.m % MAXD]
    {
      hide Sound, RepeatOk, SameFour, ProtectDictEnd, Beaten, Lowest, Compared;
      c', stop := c, false;
      var b, matchLength := c.best, 0;
      if Compared(q, c.m, favorDecSpeed) {
        b, matchLength := TryCandidate(q, c.m - low, c.best);
      }
      var chainPos := c.chainPos;
      if chainSwap && matchLength == b.longest && c.m + b.longest <= low + q.ip {
        var distance;
        distance, chainPos := BestChain(c.m, b.longest, chainPos);
        if distance > 1 {
          c' := Cursor(c.m - distance, chainPos, c.rep, b);
          return;
        }
      }
      var rep := c.rep;
      var next := Delta(c.m);
      if patternAnalysis && next == 1 && chainPos == 0 {
        rep := TestRepeat(q, rep);
        var candidate := c.m - 1;
        if rep.Confirmed? && candidate >= Lowest(q.ip) && ProtectDictEnd(low, candidate) && SameFour(q.w, candidate - low, q.ip) {
          var m';
          ghost var b0 := b;
          m', b, stop := PatternStep(q, candidate, rep, b);
          if Compared(q, c.m, favorDecSpeed) { StaysBeaten(q, c.m - low, b0.longest, b.longest); }
          c' := Cursor(m', chainPos, rep, b);
          return;
        }
      }
      var d := Delta(c.m + chainPos);
      c' := Cursor(c.m - d, chainPos, rep, b);
    }

    /** What a search has seen, and what it would still see by following the chain. */
    ghost predicate Following(q: Query, c: Cursor, seen: seq<nat>, all: seq<nat>, nbAttempts: nat)
      requires Valid() && ValidQuery(q)
      reads this, hashTable, chainTable
    {
      all == seen + Visit(chainTable[..], c.m, Lowest(q.ip), nbAttempts) && AllBeaten(q, seen, c.best.longest)
    }

    lemma FollowOne(q: Query, c: Cursor, c': Cursor, seen: seq<nat>, all: seq<nat>, nbAttempts: nat)
      requires Valid() && ValidQuery(q) && nbAttempts > 0 && Lowest(q.ip) <= c.m && Following(q, c, seen, all, nbAttempts)
      requires c'.m == c.m - chainTable[c.m % MAXD] && c.best.longest <= c'.best.longest
      requires Beaten(q, c.m - low, c'.best.longest)
      ensures Following(q, c', seen + [c.m], all, nbAttempts - 1)
    {
      hide Beaten;
      var vs := Visit(chainTable[..], c'.m, Lowest(q.ip), nbAttempts - 1);
      assert Visit(chainTable[..], c.m, Lowest(q.ip), nbAttempts) == [c.m] + vs;
      assert seen + ([c.m] + vs) == seen + [c.m] + vs;
      forall m | m in seen + [c.m] ensures low <= m && Beaten(q, m - low, c'.best.longest) {
        if m in seen { StaysBeaten(q, m - low, c.best.longest, c'.best.longest); }
      }
    }

    lemma AllStay(q: Query, ms: seq<nat>, longest: nat, longest': nat)
      requires ValidQuery(q) && AllBeaten(q, ms, longest) && longest <= longest'
      ensures AllBeaten(q, ms, longest')
    {
      hide Beaten;
      forall m <- ms ensures Beaten(q, m - low, longest') {
        StaysBeaten(q, m - low, longest, longest');
      }
    }

    lemma NothingSeen(q: Query, c: Cursor, nbAttempts: nat)
      requires Valid() && ValidQuery(q)
      ensures Following(q, c, [], Visit(chainTable[..], c.m, Lowest(q.ip), nbAttempts), nbAttempts)
    {
      var all := Visit(chainTable[..], c.m, Lowest(q.ip), nbAttempts);
      assert all == [] + all;
    }

    lemma FirstSeen(q: Query, m: nat, longest: nat)
      requires ValidQuery(q) && low <= m && Beaten(q, m - low, longest)
      ensures AllBeaten(q, [m], longest)
    {
      hide Beaten;
    }

    lemma FollowedAll(q: Query, c: Cursor, seen: seq<nat>, all: seq<nat>, nbAttempts: nat)
      requires Valid() && ValidQuery(q) && Following(q, c, seen, all, nbAttempts) && (nbAttempts == 0 || c.m < Lowest(q.ip))
      ensures AllBeaten(q, all, c.best.longest)
    {
      VisitNothing(chainTable[..], c.m, Lowest(q.ip), nbAttempts);
      assert all == seen;
    }

    /** The first position of the chain. */
    lemma Newer(q: Query, maxNbAttempts: nat)
      requires Valid() && ValidQuery(q) && next == low + q.ip && Indexes(q.w)
      ensures var m := hashTable[Hash(hash, q.w, q.ip)];
              && Candidates(q, maxNbAttempts) == Visit(chainTable[..], m, Lowest(q.ip), maxNbAttempts)
              && (Candidates(q, maxNbAttempts) != [] <==> m >= Lowest(q.ip) && maxNbAttempts > 0)
              && (Candidates(q, maxNbAttempts) != [] ==> Candidates(q, maxNbAttempts)[0] == m)
    {
      ChainIsScan(q.w, Hash(hash, q.w, q.ip), maxNbAttempts);
    }

    /** LZ4HC_InsertAndGetWiderMatch: a raised `longest` comes with a match that
        is real, inside the limits and near enough; and none of the positions
        that had to be looked at makes a longer one. */
    method InsertAndGetWiderMatch(q: Query, maxNbAttempts: nat, patternAnalysis: bool, chainSwap: bool, favorDecSpeed: bool)
      returns (b: Best)
      requires Valid() && ValidQuery(q) && next <= low + q.ip
      modifies this`next, hashTable, chainTable
      ensures Valid() && next == low + q.ip && Sound(q, b)
      ensures old(Indexes(q.w)) ==> Indexes(q.w)
      ensures old(Indexes(q.w)) && !patternAnalysis && !chainSwap && !favorDecSpeed ==> AllBeaten(q, Candidates(q, maxNbAttempts), b.longest)
      ensures var all := Candidates(q, maxNbAttempts);
              old(Indexes(q.w)) && all != [] && Compared(q, all[0], favorDecSpeed) ==> AllBeaten(q, all[..1], b.longest)
    {
      hide Sound, Beaten, Visit, Candidates, AllBeaten, Following, Indexes, Lowest;
      Insert(q.w, q.ip);
      var c := Cursor(hashTable[Hash(hash, q.w, q.ip)], 0, Untested, Best(q.longest, 0, 0));
      Unraised(q, c.best);
      var nbAttempts, stop := maxNbAttempts, false;
      ghost var first, seen, follow := c.m, [], !patternAnalysis && !chainSwap && !favorDecSpeed;
      ghost var all := Visit(chainTable[..], first, Lowest(q.ip), maxNbAttempts);
      NothingSeen(q, c, maxNbAttempts);
      if old(Indexes(q.w)) { Newer(q, maxNbAttempts); }
      while c.m >= Lowest(q.ip) && nbAttempts > 0 && !stop
        invariant Valid() && next == low + q.ip && CursorOk(q, c) && (old(Indexes(q.w)) ==> Indexes(q.w))
        invariant 0 <= nbAttempts <= maxNbAttempts && (nbAttempts == maxNbAttempts ==> c.m == first && !stop)
        invariant nbAttempts < maxNbAttempts && Compared(q, first, favorDecSpeed) ==> AllBeaten(q, [first], c.best.longest)
        invariant follow ==> !stop && c.chainPos == 0 && Following(q, c, seen, all, nbAttempts)
        decreases nbAttempts
      {
        ghost var c0 := c;
        c, stop := Attempt(q, c, patternAnalysis, chainSwap, favorDecSpeed);
        if nbAttempts < maxNbAttempts && Compared(q, first, favorDecSpeed) {
          AllStay(q, [first], c0.best.longest, c.best.longest);
        } else if Compared(q, first, favorDecSpeed) {
          FirstSeen(q, first, c.best.longest);
        }
        if follow {
          FollowOne(q, c0, c, seen, all, nbAttempts);
          seen := seen + [c0.m];
        }
        nbAttempts := nbAttempts - 1;
      }
      b := c.best;
      if follow { FollowedAll(q, c, seen, all, nbAttempts); }
      assert all != [] ==> all[..1] == [all[0]];
    }

    /** LZ4HC_InsertAndFindBestMatch. */
    method InsertAndFindBestMatch(w: seq<byte>, ip: nat, iLimit: nat, maxNbAttempts: nat, patternAnalysis: bool) returns (b: Best)
      requires Valid() && next <= low + ip && ip + MINMATCH <= iLimit < |w|
      modifies this`next, hashTable, chainTable
      ensures Valid() && next == low + ip && b.longest >= MINMATCH - 1 && (old(Indexes(w)) ==> Indexes(w))
      ensures b.longest >= MINMATCH ==> b.start == ip && ip + b.longest <= iLimit && Real(w, ip, b.at, b.longest)
      ensures var q := Query(w, ip, ip, iLimit, MINMATCH - 1); var all := Candidates(q, maxNbAttempts);
              && (old(Indexes(w)) && !patternAnalysis ==> AllBeaten(q, all, b.longest))
              && (old(Indexes(w)) && all != [] ==> AllBeaten(q, all[..1], b.longest))
    {
      hide Candidates, AllBeaten, Indexes;
      b := InsertAndGetWiderMatch(Query(w, ip, ip, iLimit, MINMATCH - 1), maxNbAttempts, patternAnalysis, false, false);
    }
  }

  lemma Unraised(q: Query, b: Best)
    requires ValidQuery(q) && b.longest == q.longest
    ensures Sound(q, b)
  {
  }

  lemma RaisedByRun(q: Query, b: Best, r: Repeat, at: nat, e: nat, len: nat)
    requires ValidQuery(q) && RepeatOk(q, r) && r.Confirmed? && q.ip == q.iLow
    requires at < q.ip && q.ip - at <= DISTANCE_MAX && e <= |q.w| && Run(q.w, at, e, q.w[q.ip])
    requires q.longest <= b.longest < len <= r.srcPatternLength && at + len <= e && MINMATCH <= len
    ensures Sound(q, Best(len, at, q.ip))
  {
    hide Real, Run;
    RunsAreReal(q.w, q.ip, r.srcPatternLength, at, e, q.w[q.ip], len);
  }
}
