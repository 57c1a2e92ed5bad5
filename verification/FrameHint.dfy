/** What LZ4F_decompress asks for: how many bytes of input are left of what is at
    hand in a frame, with the header of the next block. */
module FrameHint {
  import opened Format
  import opened Common
  import opened Emit
  import opened FrameFormat
  import opened FrameProgress

  // ---------------------------------------------------------------------
  // Places in a frame
  // ---------------------------------------------------------------------

  /** What the byte at some position of a frame belongs to, and how many bytes of
      that stand before it.  The end mark is a block header. */
  datatype Item = InHeader(done: nat) | InBlockHeader(done: nat) | InBlock(b: FrameFormat.Block, done: nat) | InSum(done: nat)

  /** The size of a block behind its header. */
  function BodySize(f: Info, b: FrameFormat.Block): (n: nat)
    ensures |BlockBytes(f, b)| == 4 + n
  {
    |b.payload| + |BlockFooter(f, b)|
  }

  /** Position pos of the blocks bs and what follows them. */
  function LocateIn(f: Info, bs: seq<FrameFormat.Block>, pos: nat): Item
    decreases |bs|
  {
    if pos < 4 then InBlockHeader(pos)
    else if bs == [] then InSum(pos - 4)
    else if pos < 4 + BodySize(f, bs[0]) then InBlock(bs[0], pos - 4)
    else LocateIn(f, bs[1..], pos - 4 - BodySize(f, bs[0]))
  }

  /** Position pos of a frame. */
  function Locate(f: Info, bs: seq<FrameFormat.Block>, pos: nat): Item
    requires ValidInfo(f)
  {
    if pos < |Header(f)| then InHeader(pos) else LocateIn(f, bs, pos - |Header(f)|)
  }

  /** The places behind the first i blocks. */
  lemma {:induction false} BlocksBefore(f: Info, bs: seq<FrameFormat.Block>, i: nat, x: nat)
    requires i <= |bs|
    ensures LocateIn(f, bs, |Body(f, bs[..i])| + x) == LocateIn(f, bs[i..], x)
    ensures |Body(f, bs)| == |Body(f, bs[..i])| + |Body(f, bs[i..])|
    decreases i
  {
    hide BlockFooter, BlockHeader, LE32;
    if i == 0 {
      assert bs[..0] == [] && bs[0..] == bs && Body(f, []) == [];
    } else {
      BlocksBefore(f, bs[1..], i - 1, x);
      assert bs[..i][0] == bs[0] && bs[..i][1..] == bs[1..][..i - 1];
      assert bs[1..][i - 1..] == bs[i..];
    }
  }

  /** Where each position belongs to, by the layout of the frame: in the header, in
      the header or the body of block i, in the end mark, or in the checksum. */
  lemma Located(f: Info, bs: seq<FrameFormat.Block>, i: nat, x: nat)
    requires ValidInfo(f) && i <= |bs|
    ensures x < |Header(f)| ==> Locate(f, bs, x) == InHeader(x)
    ensures x < 4 ==> Locate(f, bs, |Header(f)| + |Body(f, bs[..i])| + x) == InBlockHeader(x)
    ensures i < |bs| && x < BodySize(f, bs[i]) ==> Locate(f, bs, |Header(f)| + |Body(f, bs[..i])| + 4 + x) == InBlock(bs[i], x)
    ensures Locate(f, bs, |Header(f)| + |Body(f, bs)| + 4 + x) == InSum(x)
  {
    hide Header, Body, BlockBytes, BlockFooter;
    BlocksBefore(f, bs, i, x);
    BlocksBefore(f, bs, i, 4 + x);
    BlocksBefore(f, bs, |bs|, 4 + x);
    assert bs[|bs|..] == [] && bs[..|bs|] == bs;
    assert i < |bs| ==> bs[i..][0] == bs[i];
  }

  // ---------------------------------------------------------------------
  // Hints
  // ---------------------------------------------------------------------

  /** The rest of what is at hand, and the header of the next block behind it. */
  function Rest(f: Info, item: Item): int
    requires ValidInfo(f)
  {
    match item
    case InHeader(k) => |Header(f)| - k + BH_SIZE
    case InBlockHeader(k) => BH_SIZE - k
    case InBlock(b, k) => BodySize(f, b) - k + BH_SIZE
    case InSum(k) => 4 - k
  }

  /** What is returned.  now: the byte in front was consumed by this call. */
  function Hint(f: Info, item: Item, now: bool): int
    requires ValidInfo(f)
  {
    match item
    case InHeader(k) =>
      if k == 0 then MIN_FH_SIZE
      else if k < MIN_FH_SIZE then MIN_FH_SIZE - k + BH_SIZE
      else |Header(f)| - k + BH_SIZE
    case InBlockHeader(k) => BH_SIZE - k
    case InBlock(b, k) =>
      if b.raw then
        if k < |b.payload| then BodySize(f, b) - k + BH_SIZE else 1
      else
        BodySize(f, b) - k + BH_SIZE + (if k == 0 && now then 0 else |BlockFooter(f, b)|)
    case InSum(k) => 4 - k
  }

  /** The hint is what is left of the item at hand, with the next block header, but
      - before the size of the header is known, which only fits the shortest one,
        and without any input, where the block header is not counted;
      - in the checksum of a raw block, where it is 1;
      - in a compressed block with a checksum, which is counted twice unless this
        call just read the header of the block. */
  lemma HintIsRest(f: Info, item: Item, now: bool)
    requires ValidInfo(f)
    requires match item case InHeader(k) => k < |Header(f)| case InBlock(b, k) => k < BodySize(f, b) case _ => true
    ensures Hint(f, item, now) == Rest(f, item) <==>
              match item
              case InHeader(k) => k > 0 && (k >= MIN_FH_SIZE || |Header(f)| == MIN_FH_SIZE)
              case InBlock(b, k) => if b.raw then k < |b.payload| else !f.blockChecksum || (k == 0 && now)
              case _ => true
    ensures match item
            case InBlock(b, k) =>
              if b.raw && k >= |b.payload| then Hint(f, item, now) == 1
              else Hint(f, item, now) - Rest(f, item) in {0, 4}
            case _ => true
  {
    hide Header, LE32;
  }

  /** A reader that follows the hint arrives behind the next block header: the rest
      leads from a place in block i to the fifth byte of block i + 1. */
  lemma RestArrives(f: Info, bs: seq<FrameFormat.Block>, i: nat, x: nat)
    requires ValidInfo(f) && i < |bs| && x < BodySize(f, bs[i])
    ensures var pos := |Header(f)| + |Body(f, bs[..i])| + 4 + x;
            pos + Rest(f, Locate(f, bs, pos)) == |Header(f)| + |Body(f, bs[..i + 1])| + 4
  {
    hide Header, BlockBytes, BlockFooter, Locate;
    Located(f, bs, i, x);
    BodyAppend(f, bs[..i], bs[i]);
    assert bs[..i + 1] == bs[..i] + [bs[i]];
  }

  // ---------------------------------------------------------------------
  // The places of a decoder
  // ---------------------------------------------------------------------

  /** How many bytes of the frame were consumed. */
  function Position(g: Progress): int
    requires ValidInfo(g.f)
  {
    |StoredFrame(g.f, g.all, g.crc)| + |g.tail| - |g.rest|
  }

  /** The item at hand. */
  function AtHand(g: Progress): Item
    requires ValidInfo(g.f) && Position(g) >= 0
  {
    Locate(g.f, g.all, Position(g))
  }

  ghost predicate HintIs(g: Progress, hint: int, now: bool) {
    ValidInfo(g.f) && Position(g) >= 0 && hint == Hint(g.f, AtHand(g), now)
  }

  lemma PositionIs(g: Progress)
    requires Sane(g)
    ensures Position(g) == |Header(g.f)| + |Body(g.f, g.all[..|g.all| - |g.todo|])| + |After(g)| - |g.rest|
  {
    hide Header, Body;
    BlocksBefore(g.f, g.all, |g.all| - |g.todo|, 0);
  }

  lemma FreshHint(g: Progress, head: seq<byte>, now: bool)
    requires Fresh(g, head) && |head| < |Header(g.f)|
    ensures HintIs(g, if |head| == 0 then MIN_FH_SIZE else if |head| < MIN_FH_SIZE then MIN_FH_SIZE - |head| + BH_SIZE
                      else |Header(g.f)| - |head| + BH_SIZE, now)
  {
    hide Header, After;
    PositionIs(g);
    assert g.all[..0] == [] && Body(g.f, []) == [];
    assert |head + g.rest| == |head| + |g.rest|;
  }

  lemma BetweenHint(g: Progress, head: seq<byte>, now: bool)
    requires Between(g, head) && |head| < 4
    ensures HintIs(g, BH_SIZE - |head|, now)
  {
    hide Header, After, Locate, Body;
    PositionIs(g);
    Located(g.f, g.all, |g.all| - |g.todo|, |head|);
    assert |head + g.rest| == |head| + |g.rest|;
  }

  /** All but m bytes of the block at hand were consumed. */
  lemma InsideAt(g: Progress, m: nat)
    requires Inside(g) && 0 < m <= BodySize(g.f, g.cur) && |g.rest| == m + |After(g)|
    ensures Position(g) >= 0 && AtHand(g) == InBlock(g.cur, BodySize(g.f, g.cur) - m)
  {
    hide Header, After, Locate, BlockBytes, BlockFooter;
    PositionIs(g);
    var i := |g.all| - |g.todo| - 1;
    Located(g.f, g.all, i, BodySize(g.f, g.cur) - m);
    BodyAppend(g.f, g.all[..i], g.cur);
    assert g.all[..i + 1] == g.all[..i] + [g.cur];
  }

  lemma RawHint(g: Progress, k: nat, now: bool)
    requires InRaw(g, k) && k < |g.cur.payload|
    ensures HintIs(g, |g.cur.payload| - k + |BlockFooter(g.f, g.cur)| + BH_SIZE, now)
  {
    hide Header, After, BlockFooter, Position, AtHand;
    InsideAt(g, |g.cur.payload| - k + |BlockFooter(g.f, g.cur)|);
  }

  lemma CheckHint(g: Progress, head: seq<byte>, now: bool)
    requires BeforeCheck(g, head) && |head| < 4
    ensures HintIs(g, 1, now)
  {
    hide Header, After, Position, AtHand;
    assert |head + g.rest| == |head| + |g.rest|;
    InsideAt(g, 4 - |head|);
  }

  lemma CodedHint(g: Progress, head: seq<byte>, now: bool)
    requires InCoded(g, head) && |head| < BodySize(g.f, g.cur)
    ensures HintIs(g, BodySize(g.f, g.cur) - |head| + BH_SIZE + (if head == [] && now then 0 else |BlockFooter(g.f, g.cur)|), now)
  {
    hide Header, After, Position, AtHand, BlockFooter;
    assert |head + g.rest| == |head| + |g.rest|;
    InsideAt(g, BodySize(g.f, g.cur) - |head|);
  }

  lemma FlushHint(g: Progress, k: nat, now: bool)
    requires InFlush(g, k)
    ensures HintIs(g, BH_SIZE, now)
  {
    hide Header, After, Locate, Body;
    PositionIs(g);
    Located(g.f, g.all, |g.all| - |g.todo|, 0);
  }

  lemma SuffixHint(g: Progress, head: seq<byte>, now: bool)
    requires BeforeSuffix(g, head) && |head| < 4
    ensures HintIs(g, 4 - |head|, now)
  {
    hide Header, Locate, LE32;
    PositionIs(g);
    Located(g.f, g.all, |g.all|, |head|);
    assert g.all[..|g.all|] == g.all;
    assert |head + g.rest| == |head| + |g.rest|;
    AfterBlocks(g);
  }
}
