/** The sizes that lz4frame.c promises to be enough. */
module FrameBounds {
  import opened Format
  import opened Common
  import opened FrameFormat

  /** LZ4F_preferences_t; the block size identifier may be 0, the default. */
  datatype Prefs = Prefs(info: Info, level: int, autoFlush: bool, favorDecSpeed: bool)

  predicate ValidPrefs(p: Prefs) {
    (p.info.blockSizeID == 0 || 4 <= p.info.blockSizeID <= 7) && p.info.contentSize < U64_RANGE && p.info.dictID < U32_RANGE
  }

  /** Block header and checksum. */
  function BlockOverhead(p: Prefs): nat {
    BH_SIZE + BF_SIZE * Bit(p.info.blockChecksum)
  }

  /** End mark and content checksum. */
  function FrameEnd(p: Prefs): nat {
    BH_SIZE + BF_SIZE * Bit(p.info.contentChecksum)
  }

  /** nbBlocks blocks with that many bytes in them, and the end of the frame. */
  function Total(p: Prefs, nbBlocks: nat, bytes: nat): nat {
    BlockOverhead(p) * nbBlocks + bytes + FrameEnd(p)
  }

  /** nbFullBlocks, nbBlocks and lastBlockSize; the counts are 32 bits wide. */
  function NbFullBlocks(n: nat, blockSize: nat): nat
    requires blockSize > 0
  {
    n / blockSize % U32_RANGE
  }

  function LastBlockSize(n: nat, blockSize: nat, flush: bool): nat
    requires blockSize > 0
  {
    if flush then n % blockSize else 0
  }

  function NbBlocks(n: nat, blockSize: nat, flush: bool): nat
    requires blockSize > 0
  {
    (NbFullBlocks(n, blockSize) + Bit(LastBlockSize(n, blockSize, flush) > 0)) % U32_RANGE
  }

  function BlockedBytes(n: nat, blockSize: nat, flush: bool): nat
    requires blockSize > 0
  {
    blockSize * NbFullBlocks(n, blockSize) + LastBlockSize(n, blockSize, flush)
  }

  /** LZ4F_compressBound_internal. */
  function CompressBoundInternal(srcSize: nat, p: Prefs, alreadyBuffered: nat): nat
    requires ValidPrefs(p)
  {
    var flush := p.autoFlush || srcSize == 0;
    var blockSize := BlockSize(p.info.blockSizeID);
    var maxSrcSize := srcSize + Least(alreadyBuffered, blockSize - 1);
    Total(p, NbBlocks(maxSrcSize, blockSize, flush), BlockedBytes(maxSrcSize, blockSize, flush))
  }

  /** LZ4F_compressFrameBound. */
  function CompressFrameBound(srcSize: nat, p: Prefs): nat
    requires ValidPrefs(p)
  {
    MAX_FH_SIZE + CompressBoundInternal(srcSize, p.(autoFlush := true), 0)
  }

  /** The counts of blocks do not overflow. */
  predicate Countable(srcSize: nat, blockSize: nat)
    requires blockSize > 0
  {
    (srcSize + blockSize - 1) / blockSize + 1 < U32_RANGE
  }

  /** How many bytes are put into blocks, and into how many blocks, when n bytes
      are on hand: the full blocks, and the rest if it is flushed. */
  function Blocks(n: nat, blockSize: nat, flush: bool): nat
    requires blockSize > 0
  {
    n / blockSize + Bit(flush && n % blockSize > 0)
  }

  function Blocked(n: nat, blockSize: nat, flush: bool): nat
    requires blockSize > 0
  {
    if flush then n else n - n % blockSize
  }

  lemma WholeBlocks(n: nat, blockSize: nat)
    requires blockSize > 0
    ensures blockSize * (n / blockSize) == n - n % blockSize
  {
  }

  lemma Fewer(n: nat, m: nat, blockSize: nat)
    requires blockSize > 0 && n <= m
    ensures n / blockSize <= m / blockSize
    ensures n % blockSize > 0 && m % blockSize == 0 ==> n / blockSize < m / blockSize
  {
    WholeBlocks(n, blockSize);
    WholeBlocks(m, blockSize);
    Times(blockSize, m / blockSize + 1, n / blockSize);
    Times(blockSize, m / blockSize, n / blockSize);
    Next(blockSize, m / blockSize);
  }

  lemma Next(a: nat, x: nat)
    ensures a * (x + 1) == a * x + a
  {
  }

  lemma Times(a: nat, x: nat, y: nat)
    ensures x <= y ==> a * x <= a * y
  {
    if x <= y { assert a * y == a * x + a * (y - x); }
  }

  /** The bound is what the blocks and the end of the frame take, as long as the
      blocks can be counted. */
  lemma BoundIsTotal(srcSize: nat, p: Prefs, buffered: nat)
    requires ValidPrefs(p)
    ensures var blockSize, flush := BlockSize(p.info.blockSizeID), p.autoFlush || srcSize == 0;
            var n := srcSize + Least(buffered, blockSize - 1);
            Countable(srcSize, blockSize) ==>
              CompressBoundInternal(srcSize, p, buffered)
              == Total(p, Blocks(n, blockSize, flush), Blocked(n, blockSize, flush))
  {
    hide BlockSize, Total, NbBlocks, BlockedBytes, Blocks, Blocked;
    var blockSize, flush := BlockSize(p.info.blockSizeID), p.autoFlush || srcSize == 0;
    var n := srcSize + Least(buffered, blockSize - 1);
    Fewer(n, srcSize + blockSize - 1, blockSize);
    if Countable(srcSize, blockSize) {
      Counted(n, blockSize, flush);
    }
  }

  lemma Counted(n: nat, blockSize: nat, flush: bool)
    requires blockSize > 0 && n / blockSize + 1 < U32_RANGE
    ensures NbBlocks(n, blockSize, flush) == Blocks(n, blockSize, flush)
    ensures BlockedBytes(n, blockSize, flush) == Blocked(n, blockSize, flush)
  {
    WholeBlocks(n, blockSize);
    Small(n / blockSize);
    Small(Blocks(n, blockSize, flush));
  }

  lemma Small(n: nat)
    requires n < U32_RANGE
    ensures n % U32_RANGE == n
  {
  }

  /** Exactly when: the blocks must be fewer than 2^32.  Otherwise the bound is too small. */
  lemma BoundExact(srcSize: nat, p: Prefs, buffered: nat)
    requires ValidPrefs(p)
    ensures var blockSize, flush := BlockSize(p.info.blockSizeID), p.autoFlush || srcSize == 0;
            var n := srcSize + Least(buffered, blockSize - 1);
            var bound, total := CompressBoundInternal(srcSize, p, buffered), Total(p, Blocks(n, blockSize, flush), Blocked(n, blockSize, flush));
            bound <= total && (bound == total <==> Blocks(n, blockSize, flush) < U32_RANGE)
  {
    hide BlockSize, NbBlocks, BlockedBytes, Blocks, Blocked;
    var blockSize, flush := BlockSize(p.info.blockSizeID), p.autoFlush || srcSize == 0;
    var n := srcSize + Least(buffered, blockSize - 1);
    CountsWrap(n, blockSize, flush);
    Fewer32(BlockOverhead(p), NbBlocks(n, blockSize, flush), Blocks(n, blockSize, flush));
  }

  lemma CountsWrap(n: nat, blockSize: nat, flush: bool)
    requires blockSize > 0
    ensures NbBlocks(n, blockSize, flush) <= Blocks(n, blockSize, flush)
    ensures BlockedBytes(n, blockSize, flush) <= Blocked(n, blockSize, flush)
    ensures Blocks(n, blockSize, flush) < U32_RANGE ==>
              NbBlocks(n, blockSize, flush) == Blocks(n, blockSize, flush) && BlockedBytes(n, blockSize, flush) == Blocked(n, blockSize, flush)
    ensures Blocks(n, blockSize, flush) >= U32_RANGE ==>
              NbBlocks(n, blockSize, flush) < Blocks(n, blockSize, flush)
  {
    var q := n / blockSize;
    WholeBlocks(n, blockSize);
    Times(blockSize, q % U32_RANGE, q);
    if q < U32_RANGE {
      Small(q);
      if Blocks(n, blockSize, flush) < U32_RANGE { Small(Blocks(n, blockSize, flush)); }
    }
  }

  lemma Fewer32(a: nat, x: nat, y: nat)
    requires a > 0 && x <= y
    ensures a * x <= a * y && (a * x == a * y <==> x == y)
  {
    if x < y { assert a * y == a * x + a * (y - x); }
  }

  /** More bytes on hand never make the bound smaller. */
  lemma BoundMonotone(srcSize: nat, p: Prefs, a: nat, b: nat)
    requires ValidPrefs(p) && a <= b && Countable(srcSize, BlockSize(p.info.blockSizeID))
    ensures CompressBoundInternal(srcSize, p, a) <= CompressBoundInternal(srcSize, p, b)
  {
    hide CompressBoundInternal, BlockSize, BlockOverhead, FrameEnd, NbBlocks, BlockedBytes;
    BoundIsTotal(srcSize, p, a);
    BoundIsTotal(srcSize, p, b);
    var blockSize, flush := BlockSize(p.info.blockSizeID), p.autoFlush || srcSize == 0;
    var n, m := srcSize + Least(a, blockSize - 1), srcSize + Least(b, blockSize - 1);
    Fewer(n, m, blockSize);
    WholeBlocks(n, blockSize);
    WholeBlocks(m, blockSize);
    Times(blockSize, n / blockSize, m / blockSize);
    Times(BlockOverhead(p), Blocks(n, blockSize, flush), Blocks(m, blockSize, flush));
  }

  /** Where blocks cannot be counted in 32 bits, the bound is not one: 2^48 bytes
      in blocks of 64 KB are promised to fit into four. */
  lemma BoundOverflows()
    ensures var p := Prefs(Info(4, false, false, 0, false, 0), 0, true, false);
            CompressBoundInternal(0x1_0000_0000_0000, p, 0) == 4
  {
    hide NbBlocks, BlockedBytes;
    var n, b := 0x1_0000_0000_0000, 0x1_0000;
    Multiple(b, U32_RANGE);
    WholeBlocks(n, b);
    NoBlocks(n, b);
  }

  lemma NoBlocks(n: nat, b: nat)
    requires b > 0 && n / b == U32_RANGE && n % b == 0
    ensures NbBlocks(n, b, true) == 0 && BlockedBytes(n, b, true) == 0
  {
  }

  /** While k full blocks are out and bytes for another are on hand, it fits. */
  lemma RoomForFull(srcSize: nat, p: Prefs, buffered: nat, k: nat)
    requires ValidPrefs(p) && Countable(srcSize, BlockSize(p.info.blockSizeID)) && buffered < BlockSize(p.info.blockSizeID)
    requires BlockSize(p.info.blockSizeID) * k <= srcSize + buffered
    ensures Total(p, k, BlockSize(p.info.blockSizeID) * k) <= CompressBoundInternal(srcSize, p, buffered)
  {
    hide CompressBoundInternal, BlockSize, BlockOverhead, FrameEnd, NbBlocks, BlockedBytes;
    BoundIsTotal(srcSize, p, buffered);
    var b, n, flush := BlockSize(p.info.blockSizeID), srcSize + buffered, p.autoFlush || srcSize == 0;
    Fewer(b * k, n, b);
    Multiple(b, k);
    WholeBlocks(n, b);
    Times(b, k, n / b);
    Times(BlockOverhead(p), k, Blocks(n, b, flush));
  }

  /** So does what is left, when it is flushed. */
  lemma RoomForLast(srcSize: nat, p: Prefs, buffered: nat, k: nat)
    requires ValidPrefs(p) && Countable(srcSize, BlockSize(p.info.blockSizeID)) && buffered < BlockSize(p.info.blockSizeID)
    requires p.autoFlush && BlockSize(p.info.blockSizeID) * k < srcSize + buffered
    ensures Total(p, k + 1, srcSize + buffered) <= CompressBoundInternal(srcSize, p, buffered)
  {
    hide CompressBoundInternal, BlockSize, BlockOverhead, FrameEnd, NbBlocks, BlockedBytes;
    BoundIsTotal(srcSize, p, buffered);
    var b, n := BlockSize(p.info.blockSizeID), srcSize + buffered;
    Fewer(b * k, n, b);
    Multiple(b, k);
    WholeBlocks(n, b);
    if n % b == 0 { Times(b, n / b, k); }
    Times(BlockOverhead(p), k + 1, Blocks(n, b, true));
  }

  lemma Multiple(b: nat, k: nat)
    requires b > 0
    ensures b * k / b == k
  {
    var q := b * k / b;
    WholeBlocks(b * k, b);
    Times(b, q + 1, k);
    Times(b, k + 1, q);
    Next(b, q);
    Next(b, k);
  }

  // ---------------------------------------------------------------------
  // LZ4F_compressFrame_usingCDict
  // ---------------------------------------------------------------------

  /** LZ4F_optimalBSID: the smallest block size that holds the source at once,
      unless the requested one is smaller. */
  method OptimalBSID(requestedBSID: nat, srcSize: nat) returns (id: nat)
    requires requestedBSID == 0 || 4 <= requestedBSID <= 7
    ensures id == requestedBSID || (4 <= id < requestedBSID && srcSize <= BlockSize(id))
    ensures forall k :: 4 <= k < id ==> BlockSize(k) < srcSize
  {
    var proposedBSID, maxBlockSize := 4, 64 * KB;
    while requestedBSID > proposedBSID
      invariant 4 <= proposedBSID && (proposedBSID <= requestedBSID || requestedBSID <= 4)
      invariant if proposedBSID <= 7 then maxBlockSize == BlockSize(proposedBSID) else requestedBSID < proposedBSID
      invariant forall k :: 4 <= k < proposedBSID && k <= 7 ==> BlockSize(k) < srcSize
    {
      if srcSize <= maxBlockSize {
        return proposedBSID;
      }
      proposedBSID := proposedBSID + 1;
      maxBlockSize := maxBlockSize * 4;
    }
    id := requestedBSID;
  }

  /** The bound computed from the preferences of the caller passes the capacity
      check that is made after the block size was reduced. */
  lemma FrameBoundSuffices(srcSize: nat, p: Prefs, id: nat, linked: bool)
    requires ValidPrefs(p) && Countable(srcSize, BlockSize(p.info.blockSizeID))
    requires id == p.info.blockSizeID || (4 <= id < p.info.blockSizeID && srcSize <= BlockSize(id))
    ensures var q := p.(info := p.info.(blockSizeID := id, linked := linked));
            CompressFrameBound(srcSize, q) <= CompressFrameBound(srcSize, p)
  {
    hide CompressBoundInternal, BlockSize;
    var q := p.(info := p.info.(blockSizeID := id, linked := linked));
    var b, c := BlockSize(p.info.blockSizeID), BlockSize(id);
    assert Countable(srcSize, c) by {
      if id != p.info.blockSizeID { OneBlock(srcSize, c); }
    }
    BoundIsTotal(srcSize, p.(autoFlush := true), 0);
    BoundIsTotal(srcSize, q.(autoFlush := true), 0);
    if id != p.info.blockSizeID {
      OneBlock(srcSize, c);
      AtLeastOne(srcSize, b);
    }
    Times(BlockOverhead(p), Blocks(srcSize, c, true), Blocks(srcSize, b, true));
  }

  lemma OneBlock(n: nat, blockSize: nat)
    requires 2 <= blockSize && n <= blockSize
    ensures Blocks(n, blockSize, true) == (if n == 0 then 0 else 1) && Countable(n, blockSize)
  {
    if n == blockSize {
      assert n / blockSize == 1;
    } else {
      assert n / blockSize == 0 && n % blockSize == n;
    }
    assert (n + blockSize - 1) < 2 * blockSize;
    Fewer(n + blockSize - 1, 2 * blockSize, blockSize);
    Twice(blockSize);
  }

  lemma Twice(b: nat)
    requires b > 0
    ensures 2 * b / b == 2
  {
  }

  lemma AtLeastOne(n: nat, blockSize: nat)
    requires blockSize > 0
    ensures n > 0 ==> Blocks(n, blockSize, true) >= 1
  {
    if n < blockSize { assert n % blockSize == n; } else { Fewer(blockSize, n, blockSize); }
  }
}
