/** The copy routines of lz4.c: memcpy, the over-copying "wild" copies, and the
    replication of a match that overlaps its own output. */
module Memory {
  import opened Format
  import opened Common

  // ---------------------------------------------------------------------
  // Periods
  // ---------------------------------------------------------------------

  lemma PeriodicPrefix(a: seq<byte>, b: seq<byte>, lo: nat, hi: nat, off: nat)
    requires hi <= |a| && hi <= |b| && a[..hi] == b[..hi]
    requires Periodic(a, lo, hi, off)
    ensures Periodic(b, lo, hi, off)
  {
    forall j, k | 0 <= j && lo <= k < hi && k == j + off ensures b[k] == b[j] {
      assert a[..hi][k] == b[..hi][k] && a[..hi][j] == b[..hi][j];
    }
  }

  lemma PrefixOfPrefix(a: seq<byte>, b: seq<byte>, m: nat, n: nat)
    requires m <= n <= |a| && n <= |b| && a[..n] == b[..n]
    ensures a[..m] == b[..m]
  {
    assert a[..m] == a[..n][..m] && b[..m] == b[..n][..m];
  }

  /** m bytes stored right after n bytes that stay. */
  lemma Appended(a: seq<byte>, b: seq<byte>, op: nat, n: nat, m: nat)
    requires op + n + m <= |b| && op + n <= |a| && a[..op + n] == b[..op + n]
    ensures a[..op] == b[..op]
    ensures b[op..op + n + m] == a[op..op + n] + b[op + n..op + n + m]
  {
    PrefixOfPrefix(a, b, op, op + n);
    assert a[op..op + n] == a[..op + n][op..op + n] && b[op..op + n] == b[..op + n][op..op + n];
    assert b[op..op + n + m] == b[op..op + n] + b[op + n..op + n + m];
  }

  lemma PeriodicStripe(a: seq<byte>, lo: nat, d: nat, n: nat, off: nat)
    requires n <= off <= d && lo <= d && d + n <= |a|
    requires Periodic(a, lo, d, off) && a[d..d + n] == a[d - off..d - off + n]
    ensures Periodic(a, lo, d + n, off)
  {
    forall j, k | 0 <= j && lo <= k < d + n && k == j + off ensures a[k] == a[j] {
      if k >= d {
        assert a[d..d + n][k - d] == a[d - off..d - off + n][k - d];
      }
    }
  }

  /** n is a multiple of off. */
  predicate Multiple(n: nat, off: nat)
    requires off >= 1
    decreases n
  {
    n == 0 || (n >= off && Multiple(n - off, off))
  }

  /** Stepping back several periods, inside a stretch with period off. */
  lemma {:induction false} StepBack(a: seq<byte>, lo: nat, hi: nat, off: nat, k: nat, distance: nat)
    requires off >= 1 && hi <= |a| && Periodic(a, lo, hi, off)
    requires Multiple(distance, off)
    requires distance <= k < hi && (distance == 0 || lo + distance <= k + off)
    ensures a[k] == a[k - distance]
    decreases distance
  {
    if distance > 0 {
      assert a[k] == a[k - off];
      StepBack(a, lo, hi, off, k - off, distance - off);
    }
  }

  /** A stretch whose first b bytes have period off and whose other bytes
      repeat a multiple of off that is at most b + off has period off. */
  lemma {:induction false} PeriodicMultiple(a: seq<byte>, lo: nat, b: nat, hi: nat, off: nat, distance: nat)
    requires lo + b <= hi <= |a| && 1 <= off <= lo
    requires Multiple(distance, off) && 1 <= distance <= b + off
    requires Periodic(a, lo, lo + b, off) && Periodic(a, lo + b, hi, distance)
    ensures Periodic(a, lo, hi, off)
    decreases hi
  {
    if hi > lo + b {
      PeriodicMultiple(a, lo, b, hi - 1, off, distance);
      var k := hi - 1;
      assert a[k] == a[k - distance];
      StepBack(a, lo, hi - 1, off, k - off, distance - off);
    }
  }

  // ---------------------------------------------------------------------
  // memcpy and the wild copies
  // ---------------------------------------------------------------------

  /** memcpy within one buffer; the regions must not overlap. */
  method Copy(dst: array<byte>, d: nat, s: nat, n: nat)
    requires s + n <= d && d + n <= dst.Length
    modifies dst
    ensures dst[..d] == old(dst[..d])
    ensures dst[d..d + n] == dst[s..s + n]
    ensures dst[d + n..] == old(dst[d + n..])
  {
    forall k | 0 <= k < n { dst[d + k] := dst[s + k]; }
  }

  /** memcpy from the input. */
  method CopyIn(dst: array<byte>, d: nat, src: seq<byte>, s: nat, n: nat)
    requires s + n <= |src| && d + n <= dst.Length
    modifies dst
    ensures dst[..d] == old(dst[..d])
    ensures dst[d..d + n] == src[s..s + n]
    ensures dst[d + n..] == old(dst[d + n..])
  {
    Put(dst, d, src[s..s + n]);
  }

  /** One more stripe of n bytes, distance bytes after its source. */
  method Stripe(dst: array<byte>, lo: nat, d: nat, n: nat, distance: nat)
    requires n <= distance <= d && lo <= d && d + n <= dst.Length
    requires Periodic(dst[..], lo, d, distance)
    modifies dst
    ensures dst[..d] == old(dst[..d])
    ensures Periodic(dst[..], lo, d + n, distance)
  {
    ghost var before := dst[..];
    Copy(dst, d, d - distance, n);
    PeriodicPrefix(before, dst[..], lo, d, distance);
    PeriodicStripe(dst[..], lo, d, n, distance);
  }

  /** LZ4_wildCopy8: at least one stripe, and up to 7 bytes beyond e. */
  method WildCopy8(dst: array<byte>, d0: nat, distance: nat, e: nat)
    requires 8 <= distance <= d0 && d0 + 8 <= dst.Length && e + 7 <= dst.Length
    modifies dst
    ensures dst[..d0] == old(dst[..d0])
    ensures d0 <= e ==> Periodic(dst[..], d0, e, distance)
  {
    var d := d0;
    Stripe(dst, d0, d, 8, distance);
    d := d + 8;
    while d < e
      invariant d0 <= d && d <= dst.Length
      invariant dst[..d0] == old(dst[..d0])
      invariant Periodic(dst[..], d0, d, distance)
    {
      ghost var before := dst[..];
      Stripe(dst, d0, d, 8, distance);
      PrefixOfPrefix(before, dst[..], d0, d);
      d := d + 8;
    }
  }

  /** LZ4_wildCopy32: stripes of 2 x 16 bytes, up to 31 bytes beyond e. */
  method WildCopy32(dst: array<byte>, d0: nat, distance: nat, e: nat)
    requires 16 <= distance <= d0 && d0 + 32 <= dst.Length && e + 31 <= dst.Length
    modifies dst
    ensures dst[..d0] == old(dst[..d0])
    ensures d0 <= e ==> Periodic(dst[..], d0, e, distance)
  {
    var d := d0;
    TwoStripes(dst, d0, d, distance);
    d := d + 32;
    while d < e
      invariant d0 <= d && d <= dst.Length
      invariant dst[..d0] == old(dst[..d0])
      invariant Periodic(dst[..], d0, d, distance)
    {
      TwoStripes(dst, d0, d, distance);
      d := d + 32;
    }
  }

  method TwoStripes(dst: array<byte>, lo: nat, d: nat, distance: nat)
    requires 16 <= distance <= d && lo <= d && d + 32 <= dst.Length
    requires Periodic(dst[..], lo, d, distance)
    modifies dst
    ensures dst[..lo] == old(dst[..lo])
    ensures Periodic(dst[..], lo, d + 32, distance)
  {
    ghost var before := dst[..];
    Stripe(dst, lo, d, 16, distance);
    ghost var middle := dst[..];
    Stripe(dst, lo, d + 16, 16, distance);
    PrefixOfPrefix(before, middle, lo, d);
    PrefixOfPrefix(middle, dst[..], lo, d + 16);
  }

  // ---------------------------------------------------------------------
  // Overlapping matches
  // ---------------------------------------------------------------------

  const INC32TABLE: seq<int> := [0, 1, 2, 1, 0, 4, 4, 4]
  const DEC64TABLE: seq<int> := [0, 0, 0, -1, -4, 1, 2, 3]

  /** What the two tables are built for: after the first four bytes the source
      is a multiple of the offset away, and after the next four again. */
  lemma SmallOffsetTables(offset: nat)
    requires 1 <= offset < 8
    ensures var four := 4 + offset - INC32TABLE[offset];
            4 <= four <= 4 + offset && Multiple(four, offset)
    ensures var eight := 8 + offset - INC32TABLE[offset] + DEC64TABLE[offset];
            8 <= eight <= 8 + offset && Multiple(eight, offset)
  {
    if offset == 1 {
      assert Multiple(0, 1) && Multiple(1, 1) && Multiple(2, 1) && Multiple(3, 1) && Multiple(4, 1);
      assert Multiple(5, 1) && Multiple(6, 1) && Multiple(7, 1) && Multiple(8, 1);
    } else {
      assert Multiple(0, offset) && Multiple(offset, offset);
      assert Multiple(2 * offset, offset) && Multiple(3 * offset, offset) && Multiple(4 * offset, offset);
    }
  }

  /** Four bytes copied one at a time. */
  method FourBytes(dst: array<byte>, d: nat, offset: nat)
    requires offset < 8 && offset <= d && d + 4 <= dst.Length
    modifies dst
    ensures dst[..d] == old(dst[..d])
    ensures offset >= 1 ==> Periodic(dst[..], d, d + 4, offset)
  {
    dst[d], dst[d + 1], dst[d + 2], dst[d + 3] := 0, 0, 0, 0;   // LZ4_write32(op, 0)
    dst[d] := dst[d - offset];
    dst[d + 1] := dst[d + 1 - offset];
    dst[d + 2] := dst[d + 2 - offset];
    dst[d + 3] := dst[d + 3 - offset];
  }

  method NextFour(dst: array<byte>, d: nat, distance: nat, ghost offset: nat)
    requires offset < 8 && offset <= d && 4 <= distance <= d + 4 && d + 8 <= dst.Length
    requires offset >= 1 ==> distance <= 4 + offset && Multiple(distance, offset) && Periodic(dst[..], d, d + 4, offset)
    modifies dst
    ensures dst[..d] == old(dst[..d])
    ensures offset >= 1 ==> Periodic(dst[..], d, d + 8, offset)
  {
    ghost var before := dst[..];
    Stripe(dst, d + 4, d + 4, 4, distance);
    PrefixOfPrefix(before, dst[..], d, d + 4);
    if offset >= 1 {
      PeriodicPrefix(before, dst[..], d, d + 4, offset);
      PeriodicMultiple(dst[..], d, 4, d + 8, offset, distance);
    }
  }

  /** The first 8 bytes of a match with a small offset: 4 bytes one by one,
      then a table-driven 4-byte copy.  Returns the distance to copy from
      after those 8 bytes. */
  method SpreadSmallOffset(dst: array<byte>, d: nat, offset: nat) returns (distance: nat)
    requires offset < 8 && offset <= d && d + 8 <= dst.Length
    modifies dst
    ensures dst[..d] == old(dst[..d])
    ensures 8 <= distance <= d + 8
    ensures offset >= 1 ==> distance <= 8 + offset && Multiple(distance, offset) && Periodic(dst[..], d, d + 8, offset)
  {
    FourBytes(dst, d, offset);
    if offset >= 1 {
      SmallOffsetTables(offset);
    }
    var match_ := d - offset + INC32TABLE[offset];
    NextFour(dst, d, d + 4 - match_, offset);
    match_ := match_ - DEC64TABLE[offset];
    distance := d + 8 - match_;
  }

  /** The first 8 bytes of a match; the rest is copied from `distance` back. */
  method FirstEight(dst: array<byte>, d: nat, offset: nat) returns (distance: nat)
    requires offset <= d && d + 8 <= dst.Length
    modifies dst
    ensures dst[..d] == old(dst[..d])
    ensures 8 <= distance <= d + 8
    ensures offset >= 1 ==> distance <= 8 + offset && Multiple(distance, offset) && Periodic(dst[..], d, d + 8, offset)
  {
    if offset < 8 {
      distance := SpreadSmallOffset(dst, d, offset);
    } else {
      Stripe(dst, d, d, 8, offset);
      distance := offset;
      assert Multiple(0, offset);
    }
  }

  /** The wild copy after the first b bytes of a match. */
  method WildRest(dst: array<byte>, d: nat, b: nat, ghost offset: nat, distance: nat, e: nat)
    requires offset <= d && b >= 8 && d + b + 8 <= dst.Length && e + 7 <= dst.Length && 8 <= distance <= d + b
    requires offset >= 1 ==> distance <= b + offset && Multiple(distance, offset) && Periodic(dst[..], d, d + b, offset)
    modifies dst
    ensures dst[..d] == old(dst[..d])
    ensures offset >= 1 && d <= e ==> Periodic(dst[..], d, e, offset)
  {
    ghost var before := dst[..];
    WildCopy8(dst, d + b, distance, e);
    PrefixOfPrefix(before, dst[..], d, d + b);
    if offset >= 1 {
      PeriodicPrefix(before, dst[..], d, d + b, offset);
      if e > d + b {
        PeriodicMultiple(dst[..], d, b, e, offset, distance);
      }
    }
  }

  /** The buffer v[8] of LZ4_memcpy_using_offset. */
  function EightBytes(w: seq<byte>): (v: seq<byte>)
    requires |w| == 1 || |w| == 2 || |w| == 4
    ensures |v| == 8 && v[..|w|] == w
    ensures forall i, j :: 0 <= j && 0 <= i < 8 && i == j + |w| ==> v[i] == v[j]
  {
    if |w| == 1 then seq(8, i => w[0])
    else if |w| == 2 then w + w + w + w
    else w + w
  }

  /** The 8-byte pattern of the offsets 1, 2 and 4. */
  method WritePattern(dst: array<byte>, d: nat, offset: nat, e: nat)
    requires offset == 1 || offset == 2 || offset == 4
    requires offset <= d && d + 8 <= dst.Length && e + 7 <= dst.Length
    modifies dst
    ensures dst[..d] == old(dst[..d])
    ensures d <= e ==> Periodic(dst[..], d, e, offset)
  {
    var v := EightBytes(dst[d - offset..d]);
    ghost var before := dst[..];
    var p := d;
    CopyIn(dst, p, v, 0, 8);
    p := p + 8;
    while p < e
      invariant d + 8 <= p <= dst.Length
      invariant dst[..d] == before[..d]
      invariant dst[d..d + 8] == v && dst[p - 8..p] == v
      invariant Periodic(dst[..], d + 8, p, 8)
    {
      ghost var was := dst[..];
      CopyIn(dst, p, v, 0, 8);
      PatternStep(was, dst[..], d, p, v);
      p := p + 8;
    }
    PatternRepeats(dst[..], d, offset, p, v);
  }

  lemma PatternStep(a: seq<byte>, b: seq<byte>, d: nat, p: nat, v: seq<byte>)
    requires |v| == 8 && d + 8 <= p <= p + 8 <= |a| && |b| == |a|
    requires a[..p] == b[..p] && b[p..p + 8] == v[0..8]
    requires a[d..d + 8] == v && a[p - 8..p] == v
    requires Periodic(a, d + 8, p, 8)
    ensures a[..d] == b[..d]
    ensures b[d..d + 8] == v && b[p..p + 8] == v
    ensures Periodic(b, d + 8, p + 8, 8)
  {
    PrefixOfPrefix(a, b, d, p);
    assert a[d..d + 8] == a[..p][d..d + 8] && b[d..d + 8] == b[..p][d..d + 8];
    assert a[p - 8..p] == a[..p][p - 8..p] && b[p - 8..p] == b[..p][p - 8..p];
    PeriodicPrefix(a, b, d + 8, p, 8);
    PeriodicStripe(b, d + 8, p, 8, 8);
  }

  lemma PatternRepeats(a: seq<byte>, d: nat, offset: nat, p: nat, v: seq<byte>)
    requires offset == 1 || offset == 2 || offset == 4
    requires offset <= d && d + 8 <= p <= |a| && |v| == 8
    requires forall i, j :: 0 <= j && 0 <= i < 8 && i == j + offset ==> v[i] == v[j]
    requires v[..offset] == a[d - offset..d] && a[d..d + 8] == v
    requires Periodic(a, d + 8, p, 8)
    ensures Periodic(a, d, p, offset)
  {
    forall j, k | 0 <= j && d <= k < d + 8 && k == j + offset ensures a[k] == a[j] {
      assert a[k] == a[d..d + 8][k - d] == v[k - d];
      if j >= d {
        assert a[j] == a[d..d + 8][j - d] == v[j - d];
      } else {
        assert a[j] == a[d - offset..d][k - d] == v[..offset][k - d];
      }
    }
    EightIsMultiple(offset);
    PeriodicMultiple(a, d, 8, p, offset, 8);
  }

  lemma EightIsMultiple(offset: nat)
    requires offset == 1 || offset == 2 || offset == 4
    ensures Multiple(8, offset)
  {
    SmallOffsetTables(offset);
  }

  /** LZ4_memcpy_using_offset: any offset below 16, 0 included. */
  method MemcpyUsingOffset(dst: array<byte>, d: nat, offset: nat, e: nat)
    requires offset <= d && d + 16 <= dst.Length && d + 4 <= e && e + 8 <= dst.Length
    modifies dst
    ensures dst[..d] == old(dst[..d])
    ensures offset >= 1 ==> Periodic(dst[..], d, e, offset)
  {
    if offset == 1 || offset == 2 || offset == 4 {
      WritePattern(dst, d, offset, e);
    } else {
      var distance := FirstEight(dst, d, offset);
      WildRest(dst, d, 8, offset, distance, e);
    }
  }
}
