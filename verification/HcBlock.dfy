/** The block API of lz4hc.c: compression levels, one-shot calls, and a stream of
    blocks that follow each other in memory. */
module HcBlock {
  import opened Format
  import opened Common
  import opened Emit
  import opened MatchFinding
  import B = Block
  import F = HcFinder
  import P = HcParser
  import O = HcOptimal

  const CLEVEL_MIN: int := 3
  const CLEVEL_DEFAULT: int := 9
  const CLEVEL_MAX: int := 12

  datatype Strategy = HashChain(nbSearches: nat) | Optimal(nbSearches: nat, targetLength: nat)

  /** clTable. */
  function Strategies(cLevel: nat): Strategy {
    match cLevel
    case 0 => HashChain(2)
    case 1 => HashChain(2)
    case 2 => HashChain(2)
    case 3 => HashChain(4)
    case 4 => HashChain(8)
    case 5 => HashChain(16)
    case 6 => HashChain(32)
    case 7 => HashChain(64)
    case 8 => HashChain(128)
    case 9 => HashChain(256)
    case 10 => Optimal(96, 64)
    case 11 => Optimal(512, 128)
    case _ => Optimal(16384, O.OPT_NUM)
  }

  /** What a compressor promises: a failure only when the input is too large or
      the output limited, else a block for `consumed` bytes of the source. */
  ghost predicate Outcome(p: Params, a: seq<byte>, result: nat, consumed: nat) {
    && (result > 0 ==> result <= |a| && consumed <= |p.src| && Decodes(a[..result], p.hist, p.src[..consumed]))
    && (p.output != FillOutput ==> consumed == |p.src|)
    && (p.output != FillOutput ==> AsGoodAsPlain(|p.src|, |a|, result))
    && (p.output == FillOutput && 1 <= |a| && |p.src| <= MAX_INPUT_SIZE ==> result > 0 && FilledAsPlain(|p.src|, |a|, consumed))
  }

  /** LZ4HC_compress_generic_internal. */
  method CompressGeneric(p: Params, ctx: F.Context, dst: array<byte>, cLevel: int, favorDecSpeed: bool)
    returns (result: nat, consumed: nat)
    requires P.Ready(ctx, p, 0)
    requires p.output == NotLimited ==> CompressBound(|p.src|) <= dst.Length
    modifies ctx`next, ctx.hashTable, ctx.chainTable, dst
    ensures Outcome(p, dst[..], result, consumed) && P.Ready(ctx, p, if |p.src| <= MAX_INPUT_SIZE then |p.src| else 0)
    // no search of levels 1 to 8 leaves out a candidate for a repeated pattern
    ensures result > 0 && p.output != FillOutput && old(P.Indexed(ctx, p)) && 1 <= cLevel <= 8 ==>
              P.Thorough(p, ctx, Strategies(cLevel).nbSearches, dst[..result])
  {
    hide Decodes, P.Thorough, P.Indexed;
    if (p.output == FillOutput && dst.Length < 1) || |p.src| > MAX_INPUT_SIZE {
      return 0, |p.src|;
    }
    var level := if cLevel < 1 then CLEVEL_DEFAULT else if cLevel > CLEVEL_MAX then CLEVEL_MAX else cLevel;
    match Strategies(level) {
      case HashChain(nbSearches) =>
        result, consumed := P.CompressHashChain(p, ctx, dst, nbSearches);
      case Optimal(nbSearches, targetLength) =>
        result, consumed := O.CompressOptimal(p, ctx, dst, nbSearches, targetLength, level == CLEVEL_MAX, favorDecSpeed);
    }
  }

  /** The job of compressing src after the history hist. */
  function Job(src: seq<byte>, hist: seq<byte>, output: OutputDirective, hash: seq<byte> -> nat): Params {
    Params(src, hist, |hist|, output, ByU32, WithPrefix64k, NoDictIssue, hash)
  }

  /** LZ4_compress_HC. */
  method CompressHc(src: seq<byte>, dst: array<byte>, cLevel: int, hash: seq<byte> -> nat) returns (result: nat)
    modifies dst
    ensures result > 0 ==> result <= dst.Length && Decodes(dst[..result], [], src)
    ensures AsGoodAsPlain(|src|, dst.Length, result)
    ensures CompressBound(|src|) <= dst.Length ==> (result > 0 <==> |src| <= MAX_INPUT_SIZE) && result <= CompressBound(|src|)
  {
    hide Decodes;
    var ctx := new F.Context(hash);
    var p := Job(src, [], if dst.Length < CompressBound(|src|) then LimitedOutput else NotLimited, hash);
    var consumed;
    result, consumed := CompressGeneric(p, ctx, dst, cLevel, false);
    assert src[..|src|] == src;
  }

  /** LZ4_compress_HC_destSize. */
  method CompressHcDestSize(src: seq<byte>, dst: array<byte>, cLevel: int, hash: seq<byte> -> nat) returns (result: nat, consumed: nat)
    modifies dst
    ensures result > 0 ==> result <= dst.Length && consumed <= |src| && Decodes(dst[..result], [], src[..consumed])
    ensures dst.Length >= 1 && |src| <= MAX_INPUT_SIZE ==> result > 0 && FilledAsPlain(|src|, dst.Length, consumed)
  {
    hide Decodes;
    var ctx := new F.Context(hash);
    result, consumed := CompressGeneric(Job(src, [], FillOutput, hash), ctx, dst, cLevel, false);
  }

  /** Round trip at every level: lazy or optimal, into any output buffer. */
  method RoundTripHc(src: seq<byte>, dst: array<byte>, back: array<byte>, cLevel: int, hash: seq<byte> -> nat)
    returns (n: nat, r: int)
    requires back.Length == |src| && dst != back
    modifies dst, back
    ensures n > 0 ==> r == |src| && back[..] == src
    ensures PlainSize(|src|) <= dst.Length && |src| <= MAX_INPUT_SIZE ==> n > 0
  {
    hide Decodes;
    r := -1;
    n := CompressHc(src, dst, cLevel, hash);
    if n > 0 {
      r := B.DecompressSafe(dst[..n], back, src);
      assert back[..] == back[..r];
    }
  }

  /** A state for one-shot calls that is used again and again. */
  class StateHc {
    const ctx: F.Context
    var end: nat              // end - base
    var dirty: bool
    var favorDecSpeed: bool

    ghost predicate Valid()
      reads this, ctx, ctx.hashTable, ctx.chainTable
    {
      ctx.Valid() && end < U32_RANGE && (dirty || ctx.next <= end || (end == 0 && ctx.low == ctx.next == F.MAXD))
    }

    /** LZ4_createStreamHC. */
    constructor (hash: seq<byte> -> nat)
      ensures Valid() && end == 0 && !dirty && fresh(ctx) && fresh(ctx.hashTable) && fresh(ctx.chainTable)
    {
      ctx := new F.Context(hash);
      end, dirty, favorDecSpeed := 0, false, false;
    }

    /** LZ4_initStreamHC. */
    method Init()
      requires Valid()
      modifies this, ctx, ctx.hashTable, ctx.chainTable
      ensures Valid() && end == 0 && !dirty
    {
      ctx.Zero();
      end, dirty, favorDecSpeed := 0, false, false;
    }

    /** LZ4_resetStreamHC_fast: base becomes 0, and end is relative to it. */
    method ResetFast()
      requires Valid()
      modifies this, ctx, ctx.hashTable, ctx.chainTable
      ensures Valid() && !dirty
    {
      if dirty {
        Init();
      }
    }

    /** LZ4_compress_HC_extStateHC_fastReset, after any calls on the same state. */
    method FastReset(src: seq<byte>, dst: array<byte>, cLevel: int) returns (result: nat)
      requires Valid()
      modifies this, ctx, ctx.hashTable, ctx.chainTable, dst
      ensures Valid()
      ensures result > 0 ==> result <= dst.Length && Decodes(dst[..result], [], src)
      ensures AsGoodAsPlain(|src|, dst.Length, result)
    {
      hide Decodes;
      ResetFast();
      ctx.Restart(end);
      end := ctx.low;
      var p := Job(src, [], if dst.Length < CompressBound(|src|) then LimitedOutput else NotLimited, ctx.hash);
      var consumed;
      result, consumed := CompressGeneric(p, ctx, dst, cLevel, favorDecSpeed);
      assert src[..|src|] == src;
      if |src| <= MAX_INPUT_SIZE {
        end := end + |src|;
        dirty := result == 0;
      }
    }
  }

  const GB2: int := 0x8000_0000

  function Suffix(s: seq<byte>, n: nat): (r: seq<byte>)
    ensures |r| <= n && |r| <= |s| && r == s[|s| - |r|..]
  {
    if |s| <= n then s else s[|s| - n..]
  }

  /** LZ4_streamHC_t while the blocks stand one after the other in memory: the
      bytes from base + lowLimit to end are the window. */
  class StreamHc {
    var ctx: F.Context
    var window: seq<byte>
    var level: int
    var favorDecSpeed: bool

    /** Indexes stay below 2^32. */
    ghost predicate Valid()
      reads this, ctx, ctx.hashTable, ctx.chainTable
    {
      ctx.Valid() && ctx.next <= ctx.low + |window| && ctx.low + |window| <= GB2 + MAX_INPUT_SIZE < U32_RANGE
    }

    /** LZ4_initStreamHC and LZ4_setCompressionLevel. */
    constructor (level: int, favorDecSpeed: bool, hash: seq<byte> -> nat)
      ensures Valid() && window == [] && fresh(ctx) && fresh(ctx.hashTable) && fresh(ctx.chainTable)
    {
      ctx := new F.Context(hash);
      window, this.level, this.favorDecSpeed := [], level, favorDecSpeed;
    }

    /** LZ4_loadDictHC. */
    method LoadDict(dictionary: seq<byte>)
      requires Valid()
      modifies this
      ensures Valid() && window == Suffix(dictionary, KB64) && ctx.low + |window| <= GB2
      ensures fresh(ctx) && fresh(ctx.hashTable) && fresh(ctx.chainTable)
    {
      ctx := new F.Context(ctx.hash);
      window := Suffix(dictionary, KB64);
      if |window| >= 4 {
        ctx.Insert(window, |window| - 4 + 1);
      }
    }

    /** LZ4_compress_HC_continue: the block decodes after the window, which is
        what came before or, when indexes run high, its last 64 KB. */
    method Continue(src: seq<byte>, dst: array<byte>) returns (result: nat, ghost hist: seq<byte>)
      requires Valid()
      modifies this, ctx`next, ctx.hashTable, ctx.chainTable, dst
      ensures Valid() && (ctx == old(ctx) || (fresh(ctx) && fresh(ctx.hashTable) && fresh(ctx.chainTable)))
      ensures hist == old(window) || hist == Suffix(old(window), KB64)
      ensures |src| <= MAX_INPUT_SIZE ==> window == hist + src
      ensures |src| > MAX_INPUT_SIZE ==> result == 0 && window == hist
      ensures result > 0 ==> result <= dst.Length && Decodes(dst[..result], hist, src)
      ensures AsGoodAsPlain(|src|, dst.Length, result)
    {
      hide Decodes, Suffix;
      if ctx.low + |window| > GB2 {
        LoadDict(window);
      }
      hist := window;
      var p := Job(src, window, if dst.Length < CompressBound(|src|) then LimitedOutput else NotLimited, ctx.hash);
      var consumed;
      result, consumed := CompressGeneric(p, ctx, dst, level, favorDecSpeed);
      assert src[..|src|] == src;
      if |src| <= MAX_INPUT_SIZE {
        window := window + src;
      }
    }
  }
}
