/** The margin of in-place decompression (lz4.h): the input stands at the end
    of the buffer that the output fills from its beginning. */
module InPlace {
  import opened Format

  function Margin(size: nat): nat {
    size / 256 + 32
  }

  function BufferSize(decompressedSize: nat): nat {
    decompressedSize + Margin(decompressedSize)
  }

  /** Bytes produced by the first k sequences. */
  function Written(ss: seq<Sequence>, k: nat): nat
    requires k <= |ss|
  {
    if k == 0 then 0 else Written(ss, k - 1) + |ss[k - 1].lits| + ss[k - 1].mlen
  }

  /** Bytes of input read by then. */
  function Read(ss: seq<Sequence>, k: nat): nat
    requires k <= |ss| && Encodable(ss)
  {
    if k == 0 then 0 else Read(ss, k - 1) + |EncSeq(ss[k - 1])|
  }

  lemma {:induction false} PrefixSums(ss: seq<Sequence>, n: nat, k: nat)
    requires k <= n <= |ss| && Encodable(ss)
    ensures Encodable(ss[..n]) && Written(ss[..n], k) == Written(ss, k) && Read(ss[..n], k) == Read(ss, k)
    decreases k
  {
    if k > 0 {
      PrefixSums(ss, n, k - 1);
    }
  }

  lemma SumsUnfold(ss: seq<Sequence>)
    requires Encodable(ss)
    ensures Encodable(ss) && |ss| == 0 ==> Read(ss, 0) == 0 && Written(ss, 0) == 0
    ensures |ss| > 0 ==>
              var n, x := |ss| - 1, ss[|ss| - 1];
              && x.offset <= DISTANCE_MAX && x.mlen >= MINMATCH
              && Written(ss, |ss|) == Written(ss, n) + |x.lits| + x.mlen
              && Read(ss, |ss|) == Read(ss, n) + |EncSeq(x)|
  {
  }

  /** Read and Written are what the encoding and the meaning say. */
  lemma {:induction false} SumsAreSizes(ss: seq<Sequence>, total: nat)
    requires Good(ss, [], total) && Encodable(ss)
    ensures Read(ss, |ss|) == |EncSeqs(ss)| && Written(ss, |ss|) == |Interp(ss, [])|
    decreases |ss|
  {
    hide *;
    if ss == [] {
      NoSequence([]);
      SumsUnfold(ss);
    } else {
      var n := |ss| - 1;
      LastSequence(ss, [], total);
      SumsAreSizes(ss[..n], total);
      PrefixSums(ss, n, n);
      SumsUnfold(ss);
    }
  }

  /** e bytes of encoding for c bytes of content: at most one more in 255. */
  predicate Within(e: int, c: int) {
    0 <= e && 0 <= c && e <= c + c / 255
  }

  lemma WithinSum(e: int, c: int, e': int, c': int)
    requires Within(e, c) && Within(e', c')
    ensures Within(e + e', c + c')
  {
  }

  /** How far encoding may exceed content, from the k-th sequence on. */
  lemma {:induction false} Excess(ss: seq<Sequence>, k: nat, n: nat)
    requires k <= n <= |ss| && Encodable(ss)
    ensures Within(Read(ss, n) - Read(ss, k), Written(ss, n) - Written(ss, k))
    decreases n
  {
    hide EncSeq, Within;
    if k < n {
      Excess(ss, k, n - 1);
      SequenceExcess(ss[n - 1]);
      WithinSum(Read(ss, n - 1) - Read(ss, k), Written(ss, n - 1) - Written(ss, k),
                |EncSeq(ss[n - 1])|, |ss[n - 1].lits| + ss[n - 1].mlen);
    } else {
      NothingWithin();
    }
  }

  lemma NothingWithin()
    ensures Within(0, 0)
  {
  }

  lemma SequenceExcess(x: Sequence)
    requires x.offset <= DISTANCE_MAX && x.mlen >= MINMATCH
    ensures Within(|EncSeq(x)|, |x.lits| + x.mlen)
  {
  }

  lemma FloorSum(a: nat, b: nat)
    ensures a / 255 + b / 255 <= (a + b) / 255
  {
  }

  /** The arithmetic of the margin: c compressed bytes, d bytes of content,
      r read and w written so far. */
  lemma MarginSuffices(c: nat, d: nat, r: nat, w: nat)
    requires r <= c < d && w <= d
    requires c - r <= d - w + (d - w) / 255 + 2
    ensures w <= BufferSize(d) - c + r
  {
  }

  /** In every block whose compressed size is smaller than its content, placed
      at the end of a buffer of LZ4_DECOMPRESS_INPLACE_BUFFER_SIZE bytes, the
      write position is not past the read position after any sequence. */
  lemma {:induction false} WriteNeverPassesRead(ss: seq<Sequence>, last: seq<byte>, k: nat)
    requires k <= |ss|
    requires Encodable(ss) && Good(ss, [], |Interp(ss, [])| + |last|)
    requires |EncBlock(ss, last)| < |Interp(ss, [])| + |last|
    ensures Encodable(ss[..k])
    ensures var readPos := BufferSize(|Interp(ss, [])| + |last|) - |EncBlock(ss, last)| + |EncSeqs(ss[..k])|;
            |Interp(ss[..k], [])| <= readPos
  {
    hide Good, Interp, EncSeqs, EncSeq, Read, Written, EncLast;
    var d := |Interp(ss, [])| + |last|;
    SumsAreSizes(ss, d);
    GoodPrefix(ss, [], d, k);
    PrefixSums(ss, k, k);
    SumsAreSizes(ss[..k], d);
    Excess(ss, k, |ss|);
    LastExcess(last);
    FloorSum(Written(ss, |ss|) - Written(ss, k), |last|);
    MarginSuffices(|EncBlock(ss, last)|, d, Read(ss, k), Written(ss, k));
  }

  lemma LastExcess(last: seq<byte>)
    ensures |EncLast(last)| <= |last| + |last| / 255 + 2
  {
  }

  lemma {:induction false} GoodPrefix(ss: seq<Sequence>, h: seq<byte>, total: nat, k: nat)
    requires k <= |ss| && Good(ss, h, total)
    ensures Good(ss[..k], h, total)
    decreases |ss|
  {
    if k < |ss| {
      GoodPrefix(ss[..|ss| - 1], h, total, k);
      assert ss[..|ss| - 1][..k] == ss[..k];
    } else {
      assert ss[..k] == ss;
    }
  }
}
