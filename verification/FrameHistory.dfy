/** The history of linked blocks, as the frame decoder keeps it: whatever stands
    in front, a dictionary must end with the last 64 KB of the content so far. */
module FrameHistory {
  import opened Format
  import opened Common
  import opened FrameFormat
  import opened History

  /** The n last bytes. */
  function Last(s: seq<byte>, n: nat): (r: seq<byte>)
    requires n <= |s|
    ensures |r| == n
  {
    s[|s| - n..]
  }

  /** d ends with the last `room` bytes of h, or with all of h. */
  predicate Front(d: seq<byte>, h: seq<byte>, room: nat) {
    var n := Least(room, |h|);
    n <= |d| && Last(d, n) == Last(h, n)
  }

  predicate EndsAlike(d: seq<byte>, h: seq<byte>) {
    Front(d, h, KB64)
  }

  /** No byte in front of the history, or the history is long. */
  predicate Sized(dictSize: nat, h: seq<byte>) {
    dictSize <= |h| || |h| >= KB64
  }

  lemma LastOfLast(s: seq<byte>, n: nat, m: nat)
    requires n <= m <= |s|
    ensures Last(Last(s, m), n) == Last(s, n)
  {
  }

  lemma LastOfSum(s: seq<byte>, x: seq<byte>, n: nat)
    requires n <= |s| + |x|
    ensures Last(s + x, n) == if n <= |x| then Last(x, n) else Last(s, n - |x|) + x
  {
  }

  /** What is appended becomes part of the end. */
  lemma LastGrows(s: seq<byte>, n: nat, x: seq<byte>)
    requires n <= |s|
    ensures Last(s + x, n + |x|) == Last(s, n) + x
  {
    assert (s + x)[|s| - n..] == s[|s| - n..] + x;
  }

  lemma FrontLess(d: seq<byte>, h: seq<byte>, room: nat, less: nat)
    requires Front(d, h, room) && less <= room
    ensures Front(d, h, less)
  {
    var n, m := Least(less, |h|), Least(room, |h|);
    LastOfLast(d, n, m);
    LastOfLast(h, n, m);
  }

  /** With x behind, room for |x| more is there. */
  lemma FrontAppend(d: seq<byte>, h: seq<byte>, x: seq<byte>, room: nat)
    requires Front(d, h, if room <= |x| then 0 else room - |x|)
    ensures Front(d + x, h + x, room)
  {
    var n := Least(room, |h + x|);
    LastOfSum(d, x, n);
    LastOfSum(h, x, n);
  }

  lemma AlikeAppend(d: seq<byte>, h: seq<byte>, x: seq<byte>)
    requires EndsAlike(d, h)
    ensures EndsAlike(d + x, h + x)
  {
    FrontLess(d, h, KB64, if KB64 <= |x| then 0 else KB64 - |x|);
    FrontAppend(d, h, x, KB64);
  }

  /** Only the end of the dictionary is kept. */
  lemma FrontTrim(d: seq<byte>, h: seq<byte>, room: nat, n: nat)
    requires Front(d, h, room) && Least(room, |h|) <= n <= |d|
    ensures Front(Last(d, n), h, room)
  {
    LastOfLast(d, Least(room, |h|), n);
  }

  lemma AlikeCompatible(d: seq<byte>, h: seq<byte>)
    requires EndsAlike(d, h)
    ensures Compatible(h, d)
  {
    var n := Least(KB64, |h|);
    if |h| > KB64 {
      LastOfLast(d, DISTANCE_MAX, KB64);
      LastOfLast(h, DISTANCE_MAX, KB64);
    } else {
      assert Last(h, |h|) == h;
    }
  }

  /** Output that is all there is, or long enough, is a dictionary. */
  lemma OutputIsDict(d: seq<byte>, h: seq<byte>)
    requires |d| <= |h| && Last(h, |d|) == d && (|d| >= KB64 || |d| == |h|)
    ensures EndsAlike(d, h)
  {
    var n := Least(KB64, |h|);
    LastOfLast(h, n, |d|);
    assert Last(d, |d|) == d;
  }

  /** What ends with the history also ends with a stretch before its end. */
  lemma FrontBefore(d: seq<byte>, h: seq<byte>, x: seq<byte>, c: nat, room: nat)
    requires Front(d, h + x, room) && |x| + c <= Least(room, |h + x|)
    ensures |x| + c <= |d| && c <= |h| && d[|d| - |x| - c..|d| - |x|] == Last(h, c)
  {
    var n := |x| + c;
    LastOfLast(d, n, Least(room, |h + x|));
    LastOfLast(h + x, n, Least(room, |h + x|));
    LastOfSum(h, x, n);
    assert Last(d, n) == Last(h, c) + x;
    assert d[|d| - |x| - c..|d| - |x|] == Last(d, n)[..c];
  }
}
