/** The dictionary of the frame decoder, as a value: what LZ4F_updateDict and the
    end of a call do to it, case by case. */
module FrameDictionary {
  import opened Format
  import opened Common
  import opened FrameFormat
  import opened FrameHistory
  import opened History

  /** Where the dictionary stands: at the start of tmpOutBuffer, or in the output
      buffer of the current call. */
  datatype Dict = NoDict | InTmp | InDst(start: nat)

  /** Outside FlushOut: the dictionary ends with the last 64 KB of h, the content
      handed out so far, dp bytes of it in this call. */
  predicate DictIs(dict: Dict, dictSize: nat, tmp: seq<byte>, dst: seq<byte>, dp: nat, h: seq<byte>) {
    match dict
    case NoDict => dictSize == 0 && h == []
    case InTmp => dictSize <= |tmp| && EndsAlike(tmp[..dictSize], h) && Sized(dictSize, h)
    case InDst(s) =>
      && s + dictSize == dp <= |dst| && dictSize <= |h| && Last(h, dictSize) == dst[s..dp]
      && (dictSize >= KB64 || dictSize == |h|)
  }

  /** How much of the history is needed in front of a block of n bytes. */
  function RoomBefore(n: nat): nat {
    if n >= KB64 then 0 else KB64 - n
  }

  /** In FlushOut: k bytes of the block at tmp[tmpOut..] were handed out after hist. */
  predicate FlushIs(dict: Dict, dictSize: nat, tmp: seq<byte>, tmpOut: nat, dst: seq<byte>, dp: nat, hist: seq<byte>, piece: seq<byte>, k: nat)
    requires k <= |piece|
  {
    && tmpOut + |piece| <= |tmp| && tmp[tmpOut..tmpOut + |piece|] == piece
    && Sized(tmpOut, hist) && Least(KB64, |hist|) <= tmpOut
    && match dict
       case NoDict => dictSize == 0 && hist == [] && k == 0
       case InTmp => dictSize == tmpOut + k && Front(tmp[..tmpOut], hist, RoomBefore(|piece|))
       case InDst(s) => DictIs(dict, dictSize, tmp, dst, dp, hist + piece[..k])
  }

  /** No dictionary means no history. */
  lemma EmptyDict(dict: Dict, dictSize: nat, tmp: seq<byte>, dst: seq<byte>, dp: nat, h: seq<byte>)
    requires DictIs(dict, dictSize, tmp, dst, dp, h) && dictSize == 0
    ensures h == []
  {
  }

  lemma EmptyWithout(dict: Dict, dictSize: nat, tmp: seq<byte>, dst: seq<byte>, dp: nat, h: seq<byte>)
    requires DictIs(dict, dictSize, tmp, dst, dp, h)
    ensures dict.NoDict? ==> dictSize == 0 && h == []
  {
  }

  lemma DictFitsTmp(dict: Dict, dictSize: nat, tmp: seq<byte>, dst: seq<byte>, dp: nat, h: seq<byte>)
    requires DictIs(dict, dictSize, tmp, dst, dp, h)
    ensures Least(KB64, |h|) <= dictSize && Sized(dictSize, h)
    ensures dict.InTmp? ==> dictSize <= |tmp| && EndsAlike(tmp[..dictSize], h)
    ensures dict.InDst? ==> dict.start + dictSize == dp <= |dst| && EndsAlike(dst[dict.start..dp], h)
  {
    if dict.InDst? {
      OutputIsDict(dst[dict.start..dp], h);
    }
  }

  /** Output that is still to come does not matter. */
  lemma DictSameOut(dict: Dict, dictSize: nat, tmp: seq<byte>, dst: seq<byte>, dp: nat, h: seq<byte>, dst': seq<byte>)
    requires dp <= |dst| == |dst'| && dst[..dp] == dst'[..dp]
    requires DictIs(dict, dictSize, tmp, dst, dp, h)
    ensures DictIs(dict, dictSize, tmp, dst', dp, h)
  {
    if dict.InDst? {
      assert dst[dict.start..dp] == dst[..dp][dict.start..] == dst'[dict.start..dp];
    }
  }

  lemma FlushSameOut(dict: Dict, dictSize: nat, tmp: seq<byte>, tmpOut: nat, dst: seq<byte>, dp: nat, hist: seq<byte>, piece: seq<byte>, k: nat, dst': seq<byte>)
    requires dp <= |dst| == |dst'| && dst[..dp] == dst'[..dp] && k <= |piece|
    requires FlushIs(dict, dictSize, tmp, tmpOut, dst, dp, hist, piece, k)
    ensures FlushIs(dict, dictSize, tmp, tmpOut, dst', dp, hist, piece, k)
  {
    if dict.InDst? {
      DictSameOut(dict, dictSize, tmp, dst, dp, hist + piece[..k], dst');
    }
  }

  /** Nor do bytes of the internal buffer behind the dictionary. */
  lemma DictSameTmp(dict: Dict, dictSize: nat, tmp: seq<byte>, dst: seq<byte>, dp: nat, h: seq<byte>, tmp': seq<byte>)
    requires |tmp'| == |tmp| && (dict.InTmp? ==> dictSize <= |tmp| && tmp'[..dictSize] == tmp[..dictSize])
    requires DictIs(dict, dictSize, tmp, dst, dp, h)
    ensures DictIs(dict, dictSize, tmp', dst, dp, h)
  {
  }

  /** The dictionary that a block is decoded with. */
  function DictBytes(dict: Dict, dictSize: nat, tmp: seq<byte>, dst: seq<byte>, dp: nat): (d: seq<byte>)
    requires dp <= |dst| && (dict.InTmp? ==> dictSize <= |tmp|) && (dict.InDst? ==> dict.start <= dp)
  {
    match dict
    case NoDict => []
    case InTmp => tmp[..dictSize]
    case InDst(s) => dst[s..dp]
  }

  /** Its end, when it is too long for an int. */
  function Trimmed(d: seq<byte>): (r: seq<byte>)
    ensures |r| <= |d| && d[|d| - |r|..] == r
  {
    if |d| > GB then Last(d, KB64) else d
  }

  /** It stands for all of the content so far. */
  lemma DictServes(dict: Dict, dictSize: nat, tmp: seq<byte>, dst: seq<byte>, dp: nat, h: seq<byte>)
    requires dp <= |dst| && DictIs(dict, dictSize, tmp, dst, dp, h)
    ensures (dict.InTmp? ==> dictSize <= |tmp|) && (dict.InDst? ==> dict.start <= dp)
    ensures Compatible(h, Trimmed(DictBytes(dict, dictSize, tmp, dst, dp)))
  {
    DictFitsTmp(dict, dictSize, tmp, dst, dp, h);
    var d := DictBytes(dict, dictSize, tmp, dst, dp);
    assert EndsAlike(d, h);
    if |d| > GB {
      FrontTrim(d, h, KB64, KB64);
    }
    AlikeCompatible(Trimmed(d), h);
  }

  // The cases of LZ4F_updateDict, for x = dst[dp..dp + n].

  lemma DictStarts(dst: seq<byte>, dp: nat, n: nat, tmp: seq<byte>)
    requires dp + n <= |dst|
    ensures DictIs(InDst(dp), n, tmp, dst, dp + n, dst[dp..dp + n])
  {
  }

  lemma DictGrows(s: nat, dictSize: nat, tmp: seq<byte>, dst: seq<byte>, dp: nat, h: seq<byte>, n: nat)
    requires DictIs(InDst(s), dictSize, tmp, dst, dp, h) && dp + n <= |dst|
    ensures DictIs(InDst(s), dictSize + n, tmp, dst, dp + n, h + dst[dp..dp + n])
  {
    hide Last;
    LastGrows(h, dictSize, dst[dp..dp + n]);
    assert dst[s..dp + n] == dst[s..dp] + dst[dp..dp + n];
  }

  lemma DictMoves(tmp: seq<byte>, dst: seq<byte>, dp: nat, h: seq<byte>, n: nat)
    requires dp + n <= |dst| && dp <= |h| && Last(h, dp) == dst[..dp] && dp + n >= KB64
    ensures DictIs(InDst(0), dp + n, tmp, dst, dp + n, h + dst[dp..dp + n])
  {
    hide Last;
    LastGrows(h, dp, dst[dp..dp + n]);
    assert dst[0..dp + n] == dst[..dp] + dst[dp..dp + n];
  }

  lemma DictAppended(tmp: seq<byte>, dictSize: nat, tmp': seq<byte>, h: seq<byte>, x: seq<byte>, dst: seq<byte>, dp: nat)
    requires dictSize <= |tmp| && dictSize + |x| <= |tmp'| && EndsAlike(tmp[..dictSize], h) && Sized(dictSize, h)
    requires tmp'[..dictSize + |x|] == tmp[..dictSize] + x
    ensures DictIs(InTmp, dictSize + |x|, tmp', dst, dp, h + x)
  {
    AlikeAppend(tmp[..dictSize], h, x);
  }

  lemma DictTrimmed(tmp: seq<byte>, dictSize: nat, tmp': seq<byte>, h: seq<byte>, x: seq<byte>, dst: seq<byte>, dp: nat)
    requires dictSize <= |tmp| && EndsAlike(tmp[..dictSize], h) && Sized(dictSize, h) && |x| < KB64 && dictSize >= KB64
    requires KB64 <= |tmp'| && tmp'[..KB64] == tmp[dictSize - (KB64 - |x|)..dictSize] + x
    ensures DictIs(InTmp, KB64, tmp', dst, dp, h + x)
  {
    hide Front;
    var d, n := tmp[..dictSize], KB64 - |x|;
    FrontLess(d, h, KB64, n);
    FrontTrim(d, h, n, n);
    assert Last(d, n) == tmp[dictSize - n..dictSize];
    FrontAppend(Last(d, n), h, x, KB64);
  }

  // In FlushOut, where the output is also in tmp.

  lemma FlushBegins(dict: Dict, dictSize: nat, tmp: seq<byte>, tmpOut: nat, dst: seq<byte>, dp: nat, hist: seq<byte>, piece: seq<byte>)
    requires DictIs(dict, dictSize, tmp, dst, dp, hist)
    requires tmpOut + |piece| <= |tmp| && tmp[tmpOut..tmpOut + |piece|] == piece
    requires tmpOut == if dict.InTmp? then dictSize else if dictSize < KB64 then dictSize else KB64
    ensures FlushIs(dict, dictSize, tmp, tmpOut, dst, dp, hist, piece, 0)
  {
    DictFitsTmp(dict, dictSize, tmp, dst, dp, hist);
    assert hist + piece[..0] == hist;
    if dict.InTmp? {
      FrontLess(tmp[..dictSize], hist, KB64, RoomBefore(|piece|));
    }
  }

  lemma FlushStarts(dict: Dict, tmp: seq<byte>, tmpOut: nat, dst: seq<byte>, dp: nat, hist: seq<byte>, piece: seq<byte>, k: nat, n: nat)
    requires k + n <= |piece| && FlushIs(dict, 0, tmp, tmpOut, dst, dp, hist, piece, k)
    requires dp + n <= |dst| && dst[dp..dp + n] == piece[k..k + n]
    ensures FlushIs(InDst(dp), n, tmp, tmpOut, dst, dp + n, hist, piece, k + n)
  {
    assert hist + piece[..k] == [];
    assert k == 0 && hist + piece[..n] == dst[dp..dp + n];
  }

  lemma FlushGrows(s: nat, dictSize: nat, tmp: seq<byte>, tmpOut: nat, dst: seq<byte>, dp: nat, hist: seq<byte>, piece: seq<byte>, k: nat, n: nat)
    requires k + n <= |piece| && FlushIs(InDst(s), dictSize, tmp, tmpOut, dst, dp, hist, piece, k)
    requires dp + n <= |dst| && dst[dp..dp + n] == piece[k..k + n]
    ensures FlushIs(InDst(s), dictSize + n, tmp, tmpOut, dst, dp + n, hist, piece, k + n)
  {
    DictGrows(s, dictSize, tmp, dst, dp, hist + piece[..k], n);
    assert (hist + piece[..k]) + piece[k..k + n] == hist + piece[..k + n];
  }

  lemma FlushToDst(dict: Dict, dictSize: nat, tmp: seq<byte>, tmpOut: nat, dst: seq<byte>, dp: nat, hist: seq<byte>, piece: seq<byte>, k: nat, n: nat)
    requires k + n <= |piece| && FlushIs(dict, dictSize, tmp, tmpOut, dst, dp, hist, piece, k)
    requires dp + n <= |dst| && dst[dp..dp + n] == piece[k..k + n] && dp + n >= KB64
    requires dp <= |hist| + k && Last(hist + piece[..k], dp) == dst[..dp]
    ensures FlushIs(InDst(0), dp + n, tmp, tmpOut, dst, dp + n, hist, piece, k + n)
  {
    DictMoves(tmp, dst, dp, hist + piece[..k], n);
    assert (hist + piece[..k]) + piece[k..k + n] == hist + piece[..k + n];
  }

  lemma FlushInTmp(dictSize: nat, tmp: seq<byte>, tmpOut: nat, dst: seq<byte>, dp: nat, hist: seq<byte>, piece: seq<byte>, k: nat, n: nat)
    requires k + n <= |piece| && FlushIs(InTmp, dictSize, tmp, tmpOut, dst, dp, hist, piece, k)
    ensures FlushIs(InTmp, dictSize + n, tmp, tmpOut, dst, dp + n, hist, piece, k + n)
  {
  }

  /** The block is handed out: what is in front of it, and the block, are the dictionary. */
  lemma FlushIsOver(dict: Dict, dictSize: nat, tmp: seq<byte>, tmpOut: nat, dst: seq<byte>, dp: nat, hist: seq<byte>, piece: seq<byte>)
    requires FlushIs(dict, dictSize, tmp, tmpOut, dst, dp, hist, piece, |piece|)
    ensures DictIs(dict, dictSize, tmp, dst, dp, hist + piece)
  {
    assert piece[..|piece|] == piece;
    if dict.InTmp? {
      FrontAppend(tmp[..tmpOut], hist, piece, KB64);
      assert tmp[..dictSize] == tmp[..tmpOut] + piece;
    } else if dict.NoDict? {
      assert hist + piece == [];
    }
  }

  // Before a block is decoded into the internal buffer.

  lemma DictShortened(dictSize: nat, tmp: seq<byte>, tmp': seq<byte>, dst: seq<byte>, dp: nat, h: seq<byte>)
    requires DictIs(InTmp, dictSize, tmp, dst, dp, h) && dictSize >= KB64 && |tmp'| == |tmp|
    requires tmp'[..KB64] == tmp[dictSize - KB64..dictSize]
    ensures DictIs(InTmp, KB64, tmp', dst, dp, h)
  {
    hide Front;
    var d := tmp[..dictSize];
    FrontTrim(d, h, KB64, KB64);
    assert Last(d, KB64) == tmp[dictSize - KB64..dictSize];
  }

  // At the end of a call, lines 1844-1874.

  lemma Relocated(s: nat, dictSize: nat, tmp: seq<byte>, dst: seq<byte>, dp: nat, h: seq<byte>, tmp': seq<byte>, n: nat, dst': seq<byte>)
    requires DictIs(InDst(s), dictSize, tmp, dst, dp, h) && n == (if dictSize < KB64 then dictSize else KB64) <= |tmp'|
    requires tmp'[..n] == dst[dp - n..dp]
    ensures DictIs(InTmp, n, tmp', dst', 0, h)
  {
    hide Front;
    var d := dst[s..dp];
    OutputIsDict(d, h);
    FrontTrim(d, h, KB64, n);
    assert Last(d, n) == dst[dp - n..dp];
  }

  lemma FlushPlaced(dict: Dict, dictSize: nat, tmp: seq<byte>, tmpOut: nat, dst: seq<byte>, dp: nat, hist: seq<byte>, piece: seq<byte>, k: nat)
    requires k <= |piece| && FlushIs(dict, dictSize, tmp, tmpOut, dst, dp, hist, piece, k) && dict.InDst?
    ensures dict.start + dictSize == dp <= |dst| && tmpOut <= |tmp|
  {
    hide Front, Sized, Last;
  }

  /** How many bytes are copied in front of tmpOut. */
  function CopySize(tmpOutSize: nat, preserveSize: nat): nat {
    if tmpOutSize > KB64 then 0 else if KB64 - tmpOutSize > preserveSize then preserveSize else KB64 - tmpOutSize
  }

  /** They are there, before what was handed out of the block. */
  lemma CopySource(s: nat, dictSize: nat, tmp: seq<byte>, tmpOut: nat, dst: seq<byte>, dp: nat, hist: seq<byte>, piece: seq<byte>, k: nat)
    requires k <= |piece| && FlushIs(InDst(s), dictSize, tmp, tmpOut, dst, dp, hist, piece, k)
    ensures var c := CopySize(|piece|, tmpOut);
            && Least(RoomBefore(|piece|), |hist|) <= c <= |hist| && c <= tmpOut
            && (c > 0 ==> k + c <= dictSize && dst[dp - k - c..dp - k] == Last(hist, c))
  {
    hide EndsAlike, Last;
    CopyFits(|piece|, tmpOut, hist);
    if |piece| <= KB64 {
      var c, x := CopySize(|piece|, tmpOut), piece[..k];
      DictFitsTmp(InDst(s), dictSize, tmp, dst, dp, hist + x);
      BeforeOutput(dst, s, dp, hist, x, c);
    }
  }

  lemma CopyFits(n: nat, tmpOut: nat, hist: seq<byte>)
    requires Sized(tmpOut, hist) && Least(KB64, |hist|) <= tmpOut
    ensures Least(RoomBefore(n), |hist|) <= CopySize(n, tmpOut) <= |hist| && CopySize(n, tmpOut) <= tmpOut
    ensures n <= KB64 ==> n + CopySize(n, tmpOut) <= KB64
  {
  }

  lemma BeforeOutput(dst: seq<byte>, s: nat, dp: nat, hist: seq<byte>, x: seq<byte>, c: nat)
    requires s <= dp <= |dst| && EndsAlike(dst[s..dp], hist + x) && |x| + c <= KB64 && c <= |hist|
    ensures |x| + c <= dp - s && dst[dp - |x| - c..dp - |x|] == Last(hist, c)
  {
    var d := dst[s..dp];
    FrontBefore(d, hist, x, c, KB64);
    SliceOfSlice(dst, s, dp, |d| - |x| - c, |d| - |x|);
  }

  lemma SliceOfSlice(a: seq<byte>, lo: nat, hi: nat, i: nat, j: nat)
    requires lo <= hi <= |a| && i <= j <= hi - lo
    ensures a[lo..hi][i..j] == a[lo + i..lo + j]
  {
    var b, c := a[lo..hi][i..j], a[lo + i..lo + j];
    assert |b| == |c| == j - i;
    forall k | 0 <= k < j - i ensures b[k] == c[k] {
      assert b[k] == a[lo..hi][i + k] == a[lo + i + k];
    }
  }

  lemma RelocatedFlush(s: nat, dictSize: nat, tmp: seq<byte>, tmpOut: nat, dst: seq<byte>, dp: nat, hist: seq<byte>, piece: seq<byte>, k: nat,
                       tmp': seq<byte>, dst': seq<byte>)
    requires k <= |piece| && FlushIs(InDst(s), dictSize, tmp, tmpOut, dst, dp, hist, piece, k) && |tmp'| == |tmp|
    requires var c := CopySize(|piece|, tmpOut);
             && c <= tmpOut && tmp'[tmpOut..] == tmp[tmpOut..]
             && (c > 0 ==> k + c <= dictSize && tmp'[tmpOut - c..tmpOut] == dst[dp - k - c..dp - k])
    ensures FlushIs(InTmp, tmpOut + k, tmp', tmpOut, dst', 0, hist, piece, k)
  {
    hide Last, EndsAlike;
    CopySource(s, dictSize, tmp, tmpOut, dst, dp, hist, piece, k);
    var c := CopySize(|piece|, tmpOut);
    assert tmp'[tmpOut..tmpOut + |piece|] == tmp'[tmpOut..][..|piece|] == tmp[tmpOut..][..|piece|] == piece;
    InFront(tmp'[..tmpOut], hist, c, RoomBefore(|piece|));
    assert tmp'[..tmpOut][tmpOut - c..] == tmp'[tmpOut - c..tmpOut];
  }

  /** c bytes of history stand at the end of d. */
  lemma InFront(d: seq<byte>, hist: seq<byte>, c: nat, room: nat)
    requires Least(room, |hist|) <= c <= |hist| && c <= |d|
    ensures (c > 0 ==> d[|d| - c..] == Last(hist, c)) ==> Front(d, hist, room)
  {
    var n := Least(room, |hist|);
    if c > 0 && d[|d| - c..] == Last(hist, c) {
      LastOfLast(d, n, c);
      LastOfLast(hist, n, c);
    }
  }
}
