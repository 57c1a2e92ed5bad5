/** Where a decoder stands inside a frame: what is left of the bytes and of the
    content, at every kind of place it may stop at. */
module FrameProgress {
  import opened Format
  import opened Common
  import opened Emit
  import opened FrameFormat

  /** all: the blocks of the frame.  cur: the one at hand.  todo: those to come.
      hist: the content of the blocks before the current one.  rest: the bytes of
      the frame that were not consumed.  left: the content that was not handed out.
      tail: the bytes behind the frame.  crc: the content checksum that is stored.
      clean: the frame is not damaged. */
  datatype Progress = Progress(f: Info, all: seq<FrameFormat.Block>, total: seq<byte>, cur: FrameFormat.Block, todo: seq<FrameFormat.Block>,
                               hist: seq<byte>, rest: seq<byte>, left: seq<byte>, tail: seq<byte>,
                               crc: nat, clean: bool)

  function After(g: Progress): seq<byte> {
    Body(g.f, g.todo) + (Trailer(g.f, g.crc) + g.tail)
  }

  predicate Sane(g: Progress) {
    ValidInfo(g.f) && g.crc < U32_RANGE && |g.todo| <= |g.all| && g.all[|g.all| - |g.todo|..] == g.todo
  }

  /** Before a header; `head` was consumed and stored. */
  predicate Fresh(g: Progress, head: seq<byte>) {
    && Sane(g) && g.todo == g.all && g.hist == [] && g.total == g.left == Content(g.todo)
    && head + g.rest == Header(g.f) + After(g)
  }

  /** Before a block header or the end mark. */
  predicate Between(g: Progress, head: seq<byte>) {
    && Sane(g) && g.left == Content(g.todo) && g.total == g.hist + g.left
    && head + g.rest == After(g)
  }

  predicate Inside(g: Progress) {
    && Sane(g) && |g.todo| < |g.all| && g.all[|g.all| - |g.todo| - 1] == g.cur
    && g.total == g.hist + (g.cur.piece + Content(g.todo))
  }

  /** In the payload of a raw block, k bytes into it. */
  predicate InRaw(g: Progress, k: nat) {
    && Inside(g) && g.cur.raw && g.cur.payload == g.cur.piece && k <= |g.cur.payload|
    && g.rest == g.cur.payload[k..] + (BlockFooter(g.f, g.cur) + After(g))
    && g.left == g.cur.payload[k..] + Content(g.todo)
  }

  /** Before the checksum of a raw block. */
  predicate BeforeCheck(g: Progress, head: seq<byte>) {
    && Inside(g) && g.cur.raw && g.f.blockChecksum
    && head + g.rest == LE32(g.cur.sum) + After(g)
    && g.left == Content(g.todo)
  }

  /** In a compressed block and its checksum. */
  predicate InCoded(g: Progress, head: seq<byte>) {
    && Inside(g) && !g.cur.raw
    && head + g.rest == (g.cur.payload + BlockFooter(g.f, g.cur)) + After(g)
    && g.left == g.cur.piece + Content(g.todo)
  }

  /** A decoded block, k bytes of which were handed out. */
  predicate InFlush(g: Progress, k: nat) {
    && Inside(g) && k <= |g.cur.piece|
    && g.rest == After(g) && g.left == g.cur.piece[k..] + Content(g.todo)
  }

  /** Before the content checksum. */
  predicate BeforeSuffix(g: Progress, head: seq<byte>) {
    && Sane(g) && g.todo == [] && g.left == [] && g.total == g.hist
    && head + g.rest == (if g.f.contentChecksum then LE32(g.crc) else []) + g.tail
  }

  predicate Complete(g: Progress) {
    g.rest == g.tail && g.left == []
  }

  /** n bytes move from the input into a buffer that already holds head. */
  lemma Moves(head: seq<byte>, rest: seq<byte>, n: nat)
    requires n <= |rest|
    ensures (head + rest[..n]) + rest[n..] == head + rest
  {
    assert rest == rest[..n] + rest[n..];
  }

  lemma Ends(head: seq<byte>, rest: seq<byte>, a: seq<byte>, b: seq<byte>)
    requires head + rest == a + b && |head| == |a|
    ensures head == a && rest == b
  {
    assert head == (head + rest)[..|a|] == (a + b)[..|a|] == a;
    assert rest == (head + rest)[|a|..] == (a + b)[|a|..] == b;
  }

  lemma FreshMoves(g: Progress, head: seq<byte>, n: nat)
    requires Fresh(g, head) && n <= |g.rest|
    ensures Fresh(g.(rest := g.rest[n..]), head + g.rest[..n])
  {
    Moves(head, g.rest, n);
    AfterSame(g, g.(rest := g.rest[n..]));
  }

  lemma BetweenMoves(g: Progress, head: seq<byte>, n: nat)
    requires Between(g, head) && n <= |g.rest|
    ensures Between(g.(rest := g.rest[n..]), head + g.rest[..n])
  {
    hide After;
    Moves(head, g.rest, n);
    AfterSame(g, g.(rest := g.rest[n..]));
  }

  lemma CheckMoves(g: Progress, head: seq<byte>, n: nat)
    requires BeforeCheck(g, head) && n <= |g.rest|
    ensures BeforeCheck(g.(rest := g.rest[n..]), head + g.rest[..n])
  {
    hide After, Crc, LE32;
    Moves(head, g.rest, n);
    AfterSame(g, g.(rest := g.rest[n..]));
  }

  lemma CodedMoves(g: Progress, head: seq<byte>, n: nat)
    requires InCoded(g, head) && n <= |g.rest|
    ensures InCoded(g.(rest := g.rest[n..]), head + g.rest[..n])
  {
    hide After, BlockFooter;
    Moves(head, g.rest, n);
    AfterSame(g, g.(rest := g.rest[n..]));
  }

  lemma SuffixMoves(g: Progress, head: seq<byte>, n: nat)
    requires BeforeSuffix(g, head) && n <= |g.rest|
    ensures BeforeSuffix(g.(rest := g.rest[n..]), head + g.rest[..n])
  {
    hide LE32;
    Moves(head, g.rest, n);
  }

  /** A whole header is among the first bytes. */
  lemma HeaderInside(g: Progress, s: seq<byte>)
    requires Fresh(g, []) && s <= g.rest && |s| >= MAX_FH_SIZE
    ensures Header(g.f) <= s
  {
    hide Header, After;
    assert g.rest == [] + g.rest == Header(g.f) + After(g);
    assert s[..|Header(g.f)|] == g.rest[..|Header(g.f)|] == Header(g.f);
  }

  /** The first bytes of the frame, as stored, begin a header or are one. */
  lemma HeaderStored(g: Progress, head: seq<byte>)
    requires Fresh(g, head)
    ensures if |head| <= |Header(g.f)| then head <= Header(g.f) else Header(g.f) <= head
  {
    hide Header, After;
    var h, s := Header(g.f), head + g.rest;
    assert s[..|h|] == h;
    if |head| <= |h| {
      assert head == s[..|head|] == s[..|h|][..|head|] == h[..|head|];
    } else {
      assert head[..|h|] == s[..|h|] == h;
    }
  }

  // ---------------------------------------------------------------------
  // From place to place
  // ---------------------------------------------------------------------

  lemma HeaderRead(g: Progress, head: seq<byte>)
    requires Fresh(g, head) && |head| == |Header(g.f)|
    ensures head == Header(g.f) && Between(g, [])
  {
    Ends(head, g.rest, Header(g.f), After(g));
    assert [] + g.rest == g.rest;
    assert g.hist + g.left == g.left;
  }

  /** The first block of what is to come. */
  lemma FirstBlock(g: Progress)
    requires g.todo != []
    ensures var b, t := g.todo[0], g.(cur := g.todo[0], todo := g.todo[1..]);
            After(g) == LE32(BlockHeader(b)) + ((b.payload + BlockFooter(g.f, b)) + After(t))
            && Content(g.todo) == b.piece + Content(t.todo)
  {
    hide LE32, BlockHeader, BlockFooter, Trailer;
    var b, t := g.todo[0], g.(cur := g.todo[0], todo := g.todo[1..]);
    var x, y, z, w := LE32(BlockHeader(b)), b.payload + BlockFooter(g.f, b), Body(g.f, t.todo), Trailer(g.f, g.crc) + g.tail;
    assert After(g) == ((x + y) + z) + w;
    assert ((x + y) + z) + w == x + (y + (z + w));
  }

  lemma ToCome(all: seq<FrameFormat.Block>, todo: seq<FrameFormat.Block>)
    requires 0 < |todo| <= |all| && all[|all| - |todo|..] == todo
    ensures all[|all| - |todo|] == todo[0] && all[|all| - |todo| + 1..] == todo[1..]
  {
    assert all[|all| - |todo| + 1..] == all[|all| - |todo|..][1..];
  }

  lemma OpensInside(g: Progress)
    requires Sane(g) && g.todo != []
    ensures var t := g.(cur := g.todo[0], todo := g.todo[1..]);
            Sane(t) && |t.todo| < |t.all| && t.all[|t.all| - |t.todo| - 1] == t.cur
  {
    ToCome(g.all, g.todo);
  }

  /** At the first byte of a block. */
  lemma Starts(t: Progress)
    requires Inside(t) && t.rest == (t.cur.payload + BlockFooter(t.f, t.cur)) + After(t) && t.left == t.cur.piece + Content(t.todo)
    ensures if t.cur.raw then t.cur.payload == t.cur.piece ==> InRaw(t, 0) else InCoded(t, [])
  {
    hide BlockFooter, After, Inside;
    assert [] + t.rest == t.rest && t.cur.payload[0..] == t.cur.payload;
    assert (t.cur.payload + BlockFooter(t.f, t.cur)) + After(t) == t.cur.payload + (BlockFooter(t.f, t.cur) + After(t));
  }

  /** The header of the next block was read. */
  lemma BlockBegins(g: Progress, head: seq<byte>)
    requires Between(g, head) && g.todo != [] && |head| == 4 && BlockHeader(g.todo[0]) < U32_RANGE
    ensures var t := g.(cur := g.todo[0], todo := g.todo[1..]);
            && FromLE(head) == BlockHeader(t.cur)
            && (if t.cur.raw then t.cur.payload == t.cur.piece ==> InRaw(t, 0) else InCoded(t, []))
  {
    hide LE32, BlockHeader, BlockFooter, Trailer, FromLE, After, Sane;
    var t := g.(cur := g.todo[0], todo := g.todo[1..]);
    FirstBlock(g);
    OpensInside(g);
    Ends(head, g.rest, LE32(BlockHeader(t.cur)), (t.cur.payload + BlockFooter(g.f, t.cur)) + After(t));
    LE32RoundTrip(BlockHeader(t.cur));
    Starts(t);
  }

  lemma AfterBlocks(g: Progress)
    requires g.todo == []
    ensures After(g) == LE32(0) + ((if g.f.contentChecksum then LE32(g.crc) else []) + g.tail)
  {
    hide LE32;
    var crc := if g.f.contentChecksum then LE32(g.crc) else [];
    assert (LE32(0) + crc) + g.tail == LE32(0) + (crc + g.tail);
  }

  /** The end mark was read. */
  lemma EndMark(g: Progress, head: seq<byte>)
    requires Between(g, head) && g.todo == [] && |head| == 4
    ensures FromLE(head) == 0 && BeforeSuffix(g, [])
  {
    hide LE32, FromLE, Crc, After;
    AfterBlocks(g);
    LE32RoundTrip(0);
    Ends(head, g.rest, LE32(0), (if g.f.contentChecksum then LE32(g.crc) else []) + g.tail);
    assert [] + g.rest == g.rest && g.hist + [] == g.hist;
  }

  /** n bytes of a raw block are consumed and handed out. */
  lemma RawMoves(g: Progress, k: nat, n: nat)
    requires InRaw(g, k) && k + n <= |g.cur.payload|
    ensures n <= |g.rest| && n <= |g.left| && g.rest[..n] == g.left[..n] == g.cur.payload[k..k + n]
    ensures InRaw(g.(rest := g.rest[n..], left := g.left[n..]), k + n)
  {
    hide BlockFooter, After;
    var p := g.cur.payload;
    assert p[k..] == p[k..k + n] + p[k + n..];
    assert g.rest == p[k..k + n] + (p[k + n..] + (BlockFooter(g.f, g.cur) + After(g)));
    assert g.left == p[k..k + n] + (p[k + n..] + Content(g.todo));
    AfterSame(g, g.(rest := g.rest[n..], left := g.left[n..]));
  }

  /** A raw block is done. */
  lemma RawEnds(g: Progress)
    requires InRaw(g, |g.cur.payload|)
    ensures if g.f.blockChecksum then BeforeCheck(g, []) else Between(g.(hist := g.hist + g.cur.piece), [])
  {
    hide After, LE32;
    var p, t := g.cur.payload, g.(hist := g.hist + g.cur.piece);
    assert p[|p|..] == [] && [] + g.rest == g.rest;
    assert g.hist + (g.cur.piece + Content(g.todo)) == (g.hist + g.cur.piece) + Content(g.todo);
    assert [] + (BlockFooter(g.f, g.cur) + After(g)) == BlockFooter(g.f, g.cur) + After(g) && [] + Content(g.todo) == Content(g.todo);
    assert After(t) == After(g) by { AfterSame(g, t); }
    assert [] + After(g) == After(g);
  }

  lemma AfterSame(g: Progress, t: Progress)
    requires g.f == t.f && g.todo == t.todo && g.crc == t.crc && g.tail == t.tail
    ensures After(g) == After(t)
  {
  }

  /** So is its checksum. */
  lemma CheckEnds(g: Progress, head: seq<byte>)
    requires BeforeCheck(g, head) && |head| == 4 && g.cur.sum < U32_RANGE
    ensures g.f.blockChecksum && FromLE(head) == g.cur.sum && Between(g.(hist := g.hist + g.cur.piece), [])
  {
    hide After, LE32, FromLE;
    var t := g.(hist := g.hist + g.cur.piece);
    Ends(head, g.rest, LE32(g.cur.sum), After(g));
    LE32RoundTrip(g.cur.sum);
    assert g.hist + (g.cur.piece + Content(g.todo)) == (g.hist + g.cur.piece) + Content(g.todo);
    AfterSame(g, t);
    assert [] + g.rest == g.rest;
  }

  /** A compressed block and its checksum were read. */
  lemma CodedRead(g: Progress, head: seq<byte>)
    requires InCoded(g, head) && |head| == |g.cur.payload| + |BlockFooter(g.f, g.cur)| && g.cur.sum < U32_RANGE
    ensures head[..|g.cur.payload|] == g.cur.payload && InFlush(g, 0) && !g.cur.raw
    ensures g.f.blockChecksum ==> |head| == |g.cur.payload| + 4 && FromLE(head[|g.cur.payload|..]) == g.cur.sum
  {
    hide After, LE32, FromLE;
    Ends(head, g.rest, g.cur.payload + BlockFooter(g.f, g.cur), After(g));
    assert head[|g.cur.payload|..] == BlockFooter(g.f, g.cur);
    if g.f.blockChecksum { LE32RoundTrip(g.cur.sum); }
    assert g.cur.piece[0..] == g.cur.piece;
  }

  /** n bytes of a decoded block are handed out. */
  lemma FlushMoves(g: Progress, k: nat, n: nat)
    requires InFlush(g, k) && k + n <= |g.cur.piece|
    ensures n <= |g.left| && g.left[..n] == g.cur.piece[k..k + n] && InFlush(g.(left := g.left[n..]), k + n)
  {
    hide After;
    var p, t := g.cur.piece, g.(left := g.left[n..]);
    assert p[k..] == p[k..k + n] + p[k + n..];
    assert g.left == p[k..k + n] + (p[k + n..] + Content(g.todo));
    AfterSame(g, t);
  }

  /** A decoded block is handed out. */
  lemma FlushEnds(g: Progress)
    requires InFlush(g, |g.cur.piece|)
    ensures Between(g.(hist := g.hist + g.cur.piece), [])
  {
    hide After;
    var p, t := g.cur.piece, g.(hist := g.hist + g.cur.piece);
    assert p[|p|..] == [] && [] + Content(g.todo) == Content(g.todo) && [] + g.rest == g.rest;
    assert g.hist + (p + Content(g.todo)) == (g.hist + p) + Content(g.todo);
    AfterSame(g, t);
  }

  lemma SuffixRead(g: Progress, head: seq<byte>)
    requires BeforeSuffix(g, head) && g.f.contentChecksum && |head| == 4
    ensures FromLE(head) == g.crc && Complete(g)
  {
    hide LE32, FromLE;
    Ends(head, g.rest, LE32(g.crc), g.tail);
    LE32RoundTrip(g.crc);
  }

  // ---------------------------------------------------------------------
  // At every place
  // ---------------------------------------------------------------------

  /** What was not handed out is the end of the content. */
  predicate Behind(g: Progress) {
    |g.left| <= |g.total| && g.total[|g.total| - |g.left|..] == g.left
  }

  lemma AfterLonger(g: Progress)
    ensures |After(g)| >= 4 + |g.tail|
  {
  }

  lemma FreshPlace(g: Progress, head: seq<byte>)
    requires Fresh(g, head)
    ensures Behind(g) && (|head| < |Header(g.f)| + 4 ==> |g.rest| > |g.tail|)
  {
    hide Header, After;
    AfterLonger(g);
    assert |head + g.rest| == |head| + |g.rest|;
  }

  lemma BetweenPlace(g: Progress, head: seq<byte>)
    requires Between(g, head)
    ensures Behind(g) && (|head| < 4 ==> |g.rest| > |g.tail|)
  {
    hide After;
    AfterLonger(g);
    assert |head + g.rest| == |head| + |g.rest|;
  }

  lemma RawPlace(g: Progress, k: nat)
    requires InRaw(g, k)
    ensures Behind(g) && |g.rest| > |g.tail| && (k < |g.cur.payload| ==> g.left != [])
  {
    hide After, BlockFooter;
    AfterLonger(g);
    GivenAndLeft(g.hist, g.cur.piece, k, Content(g.todo));
  }

  lemma CheckPlace(g: Progress, head: seq<byte>)
    requires BeforeCheck(g, head)
    ensures Behind(g) && (|head| < 4 ==> |g.rest| > |g.tail|)
  {
    hide After, Crc, LE32;
    AfterLonger(g);
    assert |head + g.rest| == |head| + |g.rest|;
    assert g.total == (g.hist + g.cur.piece) + g.left;
  }

  lemma CodedPlace(g: Progress, head: seq<byte>)
    requires InCoded(g, head)
    ensures Behind(g) && (|head| < |g.cur.payload| + |BlockFooter(g.f, g.cur)| + 4 ==> |g.rest| > |g.tail|)
    ensures g.cur.piece != [] ==> g.left != []
  {
    hide After, BlockFooter;
    AfterLonger(g);
    assert |head + g.rest| == |head| + |g.rest|;
  }

  lemma FlushPlace(g: Progress, k: nat)
    requires InFlush(g, k)
    ensures Behind(g) && |g.rest| > |g.tail| && (k < |g.cur.piece| ==> g.left != [])
  {
    hide After;
    AfterLonger(g);
    GivenAndLeft(g.hist, g.cur.piece, k, Content(g.todo));
  }

  lemma SuffixPlace(g: Progress, head: seq<byte>)
    requires BeforeSuffix(g, head)
    ensures Behind(g) && (g.f.contentChecksum && |head| < 4 ==> |g.rest| > |g.tail|)
  {
    hide LE32;
    assert |head + g.rest| == |head| + |g.rest|;
  }

  /** k bytes of a piece were handed out. */
  lemma GivenAndLeft(hist: seq<byte>, piece: seq<byte>, k: nat, rest: seq<byte>)
    requires k <= |piece|
    ensures var total, left := hist + (piece + rest), piece[k..] + rest;
            && |left| <= |total| && total == (hist + piece[..k]) + left
            && total[..|total| - |left|] == hist + piece[..k] && total[|total| - |left|..] == left
  {
    assert piece == piece[..k] + piece[k..];
    assert hist + (piece + rest) == (hist + piece[..k]) + (piece[k..] + rest);
  }
}
