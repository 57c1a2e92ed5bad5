/** The block API: compression into a buffer, safe, partial and dictionary
    decompression, and what they amount to together. */
module Block {
  import opened Format
  import opened Common
  import opened Emit
  import opened DecoderSteps
  import opened MatchFinding
  import G = Greedy
  import D = Decoder
  import E = Encoder

  const HASH_SIZE_U32: int := 4096
  const HASH_SIZE_U16: int := 8192
  const ACCELERATION_MAX: int := 65537

  // ---------------------------------------------------------------------
  // Compression
  // ---------------------------------------------------------------------

  /** Any hash, brought into the range of the table. */
  function Bounded(hash: seq<byte> -> nat, size: nat): seq<byte> -> nat
    requires size > 0
  {
    (s: seq<byte>) => hash(s) % size
  }

  /** What LZ4_compress_fast_extState chooses for a source without history. */
  function FreshParams(src: seq<byte>, output: OutputDirective, hash: seq<byte> -> nat): Params {
    Params(src, [], 0, output, if |src| < LIMIT_64K then ByU16 else ByU32, NoDict, NoDictIssue, Bounded(hash, FreshSize(src)))
  }

  function FreshSize(src: seq<byte>): (n: nat)
    ensures n > 0
  {
    if |src| < LIMIT_64K then HASH_SIZE_U16 else HASH_SIZE_U32
  }

  /** bytes is what the greedy parse makes of src, with a table just zeroed. */
  ghost predicate GreedyFresh(src: seq<byte>, output: OutputDirective, acceleration: nat, hash: seq<byte> -> nat, bytes: seq<byte>) {
    G.GreedyBlock(FreshParams(src, output, hash), acceleration, seq(FreshSize(src), _ => 0), bytes)
  }

  /** LZ4_compress_generic with a table just zeroed and no dictionary. */
  method CompressFresh(src: seq<byte>, dst: array<byte>, output: OutputDirective, acceleration: nat, hash: seq<byte> -> nat)
    returns (result: nat, consumed: nat)
    requires acceleration >= 1
    requires output == NotLimited ==> CompressBound(|src|) <= dst.Length
    modifies dst
    ensures result > 0 ==> result <= dst.Length && consumed <= |src| && Decodes(dst[..result], [], src[..consumed])
    ensures output != FillOutput ==> consumed == |src|
    ensures output != FillOutput ==> AsGoodAsPlain(|src|, dst.Length, result)
    ensures output != FillOutput && result > 0 ==> GreedyFresh(src, output, acceleration, hash, dst[..result])
    ensures output == FillOutput && dst.Length >= 1 && |src| <= MAX_INPUT_SIZE ==> result > 0 && FilledAsPlain(|src|, dst.Length, consumed)
  {
    if |src| > MAX_INPUT_SIZE {
      return 0, |src|;
    }
    if |src| == 0 {
      if output != NotLimited && dst.Length <= 0 {
        return 0, 0;
      }
      dst[0] := 0;
      EmptyBlock(dst[..1]);
      return 1, 0;
    }
    var table := new nat[FreshSize(src)](_ => 0);
    assert table[..] == seq(FreshSize(src), _ => 0);
    var p := FreshParams(src, output, hash);
    result, consumed := E.CompressValidated(p, table, dst, acceleration);
  }

  lemma EmptyBlock(a: seq<byte>)
    requires a == [0]
    ensures Decodes(a, [], [][..0]) && a == EncBlock([], [])
  {
    assert a == EncBlock([], []);
    DecodeBlock([], [], [], Lenient);
    DecodeBlock([], [], [], Strict(0));
  }

  /** The acceleration that is used. */
  function Accelerated(acceleration: int): (a: nat)
    ensures 1 <= a <= ACCELERATION_MAX
  {
    if acceleration < 1 then 1 else if acceleration > ACCELERATION_MAX then ACCELERATION_MAX else acceleration
  }

  /** LZ4_compress_fast: the greedy parse, in whichever form its room asks for. */
  method CompressFast(src: seq<byte>, dst: array<byte>, acceleration: int, hash: seq<byte> -> nat) returns (result: nat)
    modifies dst
    ensures result > 0 ==> result <= dst.Length && Decodes(dst[..result], [], src)
    ensures result > 0 ==> GreedyFresh(src, if dst.Length >= CompressBound(|src|) then NotLimited else LimitedOutput,
                                       Accelerated(acceleration), hash, dst[..result])
    ensures AsGoodAsPlain(|src|, dst.Length, result)
    ensures CompressBound(|src|) <= dst.Length ==> (result > 0 <==> |src| <= MAX_INPUT_SIZE) && result <= CompressBound(|src|)
  {
    hide Decodes, G.GreedyBlock;
    var a := Accelerated(acceleration);
    var consumed;
    if dst.Length >= CompressBound(|src|) {
      result, consumed := CompressFresh(src, dst, NotLimited, a, hash);
    } else {
      result, consumed := CompressFresh(src, dst, LimitedOutput, a, hash);
    }
    assert src[..|src|] == src;
  }

  /** LZ4_compress_destSize: as much of src as the encoder can put in dst. */
  method CompressDestSize(src: seq<byte>, dst: array<byte>, hash: seq<byte> -> nat) returns (result: nat, consumed: nat)
    modifies dst
    ensures result > 0 ==> result <= dst.Length && consumed <= |src| && Decodes(dst[..result], [], src[..consumed])
    ensures dst.Length >= 1 && |src| <= MAX_INPUT_SIZE ==> result > 0 && FilledAsPlain(|src|, dst.Length, consumed)
    ensures |src| <= MAX_INPUT_SIZE && CompressBound(|src|) <= dst.Length ==> consumed == |src|
  {
    if dst.Length >= CompressBound(|src|) {
      result := CompressFast(src, dst, 1, hash);
      consumed := |src|;
      assert src[..|src|] == src;
    } else {
      result, consumed := CompressFresh(src, dst, FillOutput, 1, hash);
    }
  }

  // ---------------------------------------------------------------------
  // Decompression
  // ---------------------------------------------------------------------

  /** LZ4_decompress_safe.  For every input: a success is the reading of the
      reference decoder, unless a zero offset was met.  A block that some
      encoder of the format wrote for content that fits is never refused. */
  method DecompressSafe(src: seq<byte>, dst: array<byte>, ghost content: seq<byte>) returns (result: int)
    requires |src| <= 0x100_0000 || (Decodes(src, [], content) && |content| < U32_RANGE)
    modifies dst
    ensures result >= 0 ==> result <= dst.Length
    ensures result >= 0 ==> Decode(src, 0, [], Lenient) == ZeroOffset || Decode(src, 0, [], Lenient) == Done(dst[..result])
    ensures Decodes(src, [], content) && |content| <= dst.Length ==> result == |content| && dst[..result] == content
  {
    var c := D.Call(src, 0, D.NoDict, [], false);
    assert D.View(c, dst[..], 0) == [];
    result := D.DecompressGeneric(c, dst, 0, |content|);
    if result >= 0 {
      assert D.View(c, dst[..], result) == dst[..result];
    }
    assert [] + content == content;
  }

  /** LZ4_decompress_safe_partial; dst is the part of the output buffer that
      the call may fill, min(targetOutputSize, dstCapacity) bytes. */
  method DecompressSafePartial(src: seq<byte>, dst: array<byte>, ghost content: seq<byte>) returns (result: int)
    requires |src| <= 0x100_0000 || (Decodes(src, [], content) && |content| < U32_RANGE)
    modifies dst
    ensures result >= 0 ==> result <= dst.Length
    ensures Decodes(src, [], content) ==>
              result == (if |content| < dst.Length then |content| else dst.Length) && dst[..result] == content[..result]
  {
    var c := D.Call(src, 0, D.NoDict, [], true);
    assert D.View(c, dst[..], 0) == [];
    result := D.DecompressGeneric(c, dst, 0, |content|);
    if result >= 0 {
      assert D.View(c, dst[..], result) == dst[..result];
    }
    assert [] + content == content;
  }

  /** LZ4_decompress_safe_usingDict: prefixSize bytes of dictionary stand in
      front of dst[start], or dict stands elsewhere. */
  method DecompressSafeUsingDict(src: seq<byte>, dst: array<byte>, start: nat, dict: seq<byte>, inPlace: bool, ghost content: seq<byte>)
    returns (result: int)
    requires start <= dst.Length
    requires inPlace ==> |dict| <= start && dst[start - |dict|..start] == dict
    requires |src| <= 0x100_0000 || (Decodes(src, dict, content) && |dict| + |content| < U32_RANGE)
    modifies dst
    ensures dst[..start] == old(dst[..start])
    ensures result >= 0 ==> start + result <= dst.Length
    ensures result >= 0 ==> Decode(src, 0, dict, Lenient) == ZeroOffset
                            || Decode(src, 0, dict, Lenient) == Done(dict + dst[start..start + result])
    ensures Decodes(src, dict, content) && start + |content| <= dst.Length ==>
              result == |content| && dst[start..start + result] == content
  {
    var low := if inPlace then start - |dict| else start;
    var mode := if !inPlace && |dict| > 0 then D.UsingExtDict
                else if |dict| >= KB64 - 1 then D.WithPrefix64k else D.NoDict;
    var c := D.Call(src, low, mode, if inPlace then [] else dict, false);
    SameView(c, dst[..], start, dict, inPlace);
    result := D.DecompressGeneric(c, dst, start, |dict| + |content|);
    if result >= 0 {
      ViewAfter(c, old(dst[..]), dst[..], start, dict, inPlace, result);
      if Decodes(src, dict, content) && start + |content| <= dst.Length {
        assert (dict + content)[|dict|..] == content;
        assert (dict + dst[start..start + result])[|dict|..] == dst[start..start + result];
      }
    }
  }

  lemma SameView(c: D.Call, a: seq<byte>, start: nat, dict: seq<byte>, inPlace: bool)
    requires start <= |a| && (inPlace ==> |dict| <= start && a[start - |dict|..start] == dict)
    requires c.lowPrefix == (if inPlace then start - |dict| else start) && c.dict == (if inPlace then [] else dict)
    ensures D.View(c, a, start) == dict
  {
  }

  lemma ViewAfter(c: D.Call, a: seq<byte>, b: seq<byte>, start: nat, dict: seq<byte>, inPlace: bool, n: nat)
    requires start <= |a| && start + n <= |b| && a[..start] == b[..start]
    requires inPlace ==> |dict| <= start && a[start - |dict|..start] == dict
    requires c.lowPrefix == (if inPlace then start - |dict| else start) && c.dict == (if inPlace then [] else dict)
    ensures D.View(c, b, start + n) == dict + b[start..start + n]
  {
    if inPlace {
      assert b[start - |dict|..start] == b[..start][start - |dict|..] == a[..start][start - |dict|..];
      assert b[start - |dict|..start + n] == b[start - |dict|..start] + b[start..start + n];
    }
  }

  // ---------------------------------------------------------------------
  // Together
  // ---------------------------------------------------------------------

  /** Block round trip: whatever the source, the acceleration, the hash and the
      size of the output buffer, a compressed block is restored exactly by the
      optimised decoder into a buffer of exactly the source size; and any cut
      of it by LZ4_decompress_safe_partial is the prefix of the source. */
  method RoundTrip(src: seq<byte>, dst: array<byte>, back: array<byte>, part: array<byte>, acceleration: int, hash: seq<byte> -> nat)
    returns (n: nat, r: int, q: int)
    requires back.Length == |src| && dst != back && dst != part && back != part
    modifies dst, back, part
    ensures n > 0 ==> r == |src| && back[..] == src
    ensures n > 0 ==> q == (if |src| < part.Length then |src| else part.Length) && part[..q] == src[..q]
    ensures PlainSize(|src|) <= dst.Length && |src| <= MAX_INPUT_SIZE ==> n > 0
  {
    r, q := -1, -1;
    n := CompressFast(src, dst, acceleration, hash);
    if n > 0 {
      assert |src| <= MAX_INPUT_SIZE;
      r := DecompressSafe(dst[..n], back, src);
      assert back[..] == back[..r];
      q := DecompressSafePartial(dst[..n], part, src);
    }
  }

  /** destSize: within any target of at least one byte, a block is written that
      restores a prefix of the source, in a buffer of exactly that size, and no
      shorter than what would fit the target as literals. */
  method DestSizeRoundTrip(src: seq<byte>, dst: array<byte>, hash: seq<byte> -> nat) returns (n: nat, back: array<byte>)
    requires |src| <= MAX_INPUT_SIZE && dst.Length >= 1
    modifies dst
    ensures 0 < n <= dst.Length && back.Length <= |src| && back[..] == src[..back.Length]
    ensures FilledAsPlain(|src|, dst.Length, back.Length)
    ensures PlainSize(|src|) <= dst.Length ==> back[..] == src
  {
    var consumed;
    n, consumed := CompressDestSize(src, dst, hash);
    back := new byte[consumed](_ => 0);
    var r := DecompressSafe(dst[..n], back, src[..consumed]);
    assert back[..] == back[..r];
    assert src[..|src|] == src;
  }
}
