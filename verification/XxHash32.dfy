/** XXH32 of xxhash.c: the one-shot form, the streaming form with its 16-byte
    buffer, and a reference definition that both are proved equal to.  Words are
    read in little-endian order. */
module XxHash32 {
  import opened Format
  import opened Common

  const PRIME1: bv32 := 2654435761
  const PRIME2: bv32 := 2246822519
  const PRIME3: bv32 := 3266489917
  const PRIME4: bv32 := 668265263
  const PRIME5: bv32 := 374761393

  function Rotl(x: bv32, r: bv32): bv32
    requires 0 < r < 32
  {
    (x << r) | (x >> (32 - r))
  }

  function Read32(s: seq<byte>): bv32
    requires |s| == 4
  {
    Word(s[0]) | (Word(s[1]) << 8) | (Word(s[2]) << 16) | (Word(s[3]) << 24)
  }

  /** A byte, as it is loaded. */
  function Word(b: byte): bv32 {
    (b as bv8) as bv32
  }

  function Round(acc: bv32, input: bv32): bv32 {
    Rotl(acc + input * PRIME2, 13) * PRIME1
  }

  function Avalanche(h: bv32): bv32 {
    var h1 := (h ^ (h >> 15)) * PRIME2;
    var h2 := (h1 ^ (h1 >> 13)) * PRIME3;
    h2 ^ (h2 >> 16)
  }

  function Process1(h: bv32, b: byte): bv32 {
    Rotl(h + Word(b) * PRIME5, 11) * PRIME1
  }

  function Process4(h: bv32, s: seq<byte>): bv32
    requires |s| == 4
  {
    Rotl(h + Read32(s) * PRIME3, 17) * PRIME4
  }

  function Low32(n: nat): bv32 {
    (n % U32_RANGE) as bv32
  }

  /** v1 .. v4 */
  datatype Lanes = Lanes(v1: bv32, v2: bv32, v3: bv32, v4: bv32)

  function Init(seed: bv32): Lanes {
    Lanes(seed + PRIME1 + PRIME2, seed + PRIME2, seed, seed - PRIME1)
  }

  function Stripe(v: Lanes, s: seq<byte>): Lanes
    requires |s| == 16
  {
    Lanes(Round(v.v1, Read32(s[0..4])), Round(v.v2, Read32(s[4..8])), Round(v.v3, Read32(s[8..12])), Round(v.v4, Read32(s[12..16])))
  }

  function Converge(v: Lanes): bv32 {
    Rotl(v.v1, 1) + Rotl(v.v2, 7) + Rotl(v.v3, 12) + Rotl(v.v4, 18)
  }

  // ---------------------------------------------------------------------
  // The reference definition
  // ---------------------------------------------------------------------

  /** All the whole stripes of s, in order. */
  function Stripes(v: Lanes, s: seq<byte>): Lanes
    decreases |s|
  {
    if |s| < 16 then v else Stripes(Stripe(v, s[..16]), s[16..])
  }

  /** What stands after the whole stripes. */
  function Rest(s: seq<byte>): (r: seq<byte>)
    ensures |r| == |s| % 16
  {
    s[|s| - |s| % 16..]
  }

  /** Words, then bytes. */
  function Tail(h: bv32, s: seq<byte>): bv32
    decreases |s|
  {
    if |s| >= 4 then Tail(Process4(h, s[..4]), s[4..])
    else if |s| >= 1 then Tail(Process1(h, s[0]), s[1..])
    else h
  }

  function Begin(seed: bv32, v: Lanes, large: bool): bv32 {
    if large then Converge(v) else Small(seed)
  }

  function Small(seed: bv32): bv32 {
    seed + PRIME5
  }

  function Plus(x: bv32, y: bv32): bv32 {
    x + y
  }

  function AddLength(h: bv32, n: nat): bv32 {
    Plus(h, Low32(n))
  }

  function Hash(seed: bv32, s: seq<byte>): bv32 {
    Avalanche(Tail(AddLength(Begin(seed, Stripes(Init(seed), s), |s| >= 16), |s|), Rest(s)))
  }

  /** Stripes of a concatenation, when the first part is whole. */
  lemma {:induction false} StripesAppend(v: Lanes, s: seq<byte>, t: seq<byte>)
    requires |s| % 16 == 0
    ensures Stripes(v, s + t) == Stripes(Stripes(v, s), t)
    decreases |s|
  {
    hide Stripe;
    if |s| == 0 {
      assert s + t == t;
    } else {
      assert (s + t)[..16] == s[..16] && (s + t)[16..] == s[16..] + t;
      StripesAppend(Stripe(v, s[..16]), s[16..], t);
    }
  }

  /** The rest does not matter to the lanes. */
  lemma {:induction false} StripesWhole(v: Lanes, s: seq<byte>)
    ensures Stripes(v, s) == Stripes(v, s[..|s| - |s| % 16])
  {
    hide Stripe;
    var w := s[..|s| - |s| % 16];
    assert s == w + Rest(s);
    StripesAppend(v, w, Rest(s));
  }

  lemma OneStripe(v: Lanes, s: seq<byte>)
    requires |s| == 16
    ensures Stripes(v, s) == Stripe(v, s)
  {
    hide Stripe;
    assert s[..16] == s && |s[16..]| == 0;
  }

  // ---------------------------------------------------------------------
  // XXH32_finalize
  // ---------------------------------------------------------------------

  method Step4(h: bv32, s: seq<byte>, i: nat) returns (h': bv32, i': nat)
    requires i + 4 <= |s|
    ensures i' == i + 4 && Tail(h', s[i'..]) == Tail(h, s[i..])
  {
    hide Process4;
    assert s[i..][..4] == s[i..i + 4] && s[i..][4..] == s[i + 4..];
    h', i' := Process4(h, s[i..i + 4]), i + 4;
  }

  method Step1(h: bv32, s: seq<byte>, i: nat) returns (h': bv32, i': nat)
    requires i < |s| < i + 4
    ensures i' == i + 1 && Tail(h', s[i'..]) == Tail(h, s[i..])
  {
    hide Process1;
    assert s[i..][0] == s[i] && s[i..][1..] == s[i + 1..];
    h', i' := Process1(h, s[i]), i + 1;
  }

  lemma TailEnd(h: bv32, s: seq<byte>, i: nat)
    requires i == |s|
    ensures Tail(h, s[i..]) == h
  {
  }

  /** The switch, with its cases falling through: k is len & 15. */
  method Finalize(h32: bv32, s: seq<byte>) returns (r: bv32)
    requires |s| < 16
    ensures r == Avalanche(Tail(h32, s))
  {
    hide Tail, Avalanche;
    var k := |s|;
    var h, i := h32, 0;
    assert s[0..] == s;
    if k == 12 || k == 8 || k == 4 {
      if k == 12 { h, i := Step4(h, s, i); }
      if k == 12 || k == 8 { h, i := Step4(h, s, i); }
      h, i := Step4(h, s, i);
    } else if k == 13 || k == 9 || k == 5 {
      if k == 13 { h, i := Step4(h, s, i); }
      if k == 13 || k == 9 { h, i := Step4(h, s, i); }
      h, i := Step4(h, s, i);
      h, i := Step1(h, s, i);
    } else if k == 14 || k == 10 || k == 6 {
      if k == 14 { h, i := Step4(h, s, i); }
      if k == 14 || k == 10 { h, i := Step4(h, s, i); }
      h, i := Step4(h, s, i);
      h, i := Step1(h, s, i);
      h, i := Step1(h, s, i);
    } else {
      if k == 15 { h, i := Step4(h, s, i); }
      if k == 15 || k == 11 { h, i := Step4(h, s, i); }
      if k == 15 || k == 11 || k == 7 { h, i := Step4(h, s, i); }
      if k == 15 || k == 11 || k == 7 || k == 3 { h, i := Step1(h, s, i); }
      if k == 15 || k == 11 || k == 7 || k == 3 || k == 2 { h, i := Step1(h, s, i); }
      if k != 0 { h, i := Step1(h, s, i); }
    }
    TailEnd(h, s, i);
    r := Avalanche(h);
  }

  // ---------------------------------------------------------------------
  // The one-shot form
  // ---------------------------------------------------------------------

  /** The main loop, from p on: the whole stripes of s[p..]. */
  method Consume(v0: Lanes, s: seq<byte>, p0: nat) returns (v: Lanes, p: nat)
    requires p0 + 16 <= |s|
    ensures p == |s| - (|s| - p0) % 16 && v == Stripes(v0, s[p0..])
  {
    hide Stripe;
    v, p := v0, p0;
    while true
      invariant p0 <= p && p + 16 <= |s| && (p - p0) % 16 == 0
      invariant Stripes(v, s[p..]) == Stripes(v0, s[p0..])
      decreases |s| - p
    {
      assert s[p..][..16] == s[p..p + 16] && s[p..][16..] == s[p + 16..];
      v, p := Stripe(v, s[p..p + 16]), p + 16;
      if p + 15 >= |s| { break; }
    }
    ModDown(|s| - p0, p - p0);
  }

  lemma ModDown(n: nat, m: nat)
    requires m <= n && n - m < 16 && m % 16 == 0
    ensures n % 16 == n - m
  {
  }

  lemma HashParts(seed: bv32, s: seq<byte>)
    ensures Hash(seed, s) == Avalanche(Tail(AddLength(Begin(seed, Stripes(Init(seed), s), |s| >= 16), |s|), Rest(s)))
  {
    hide Avalanche, Tail, Begin, Stripes, Init, AddLength, Rest;
  }

  lemma BeginParts(seed: bv32, v: Lanes, large: bool)
    ensures Begin(seed, v, large) == if large then Converge(v) else Small(seed)
  {
  }

  lemma RestFrom(s: seq<byte>, p: nat)
    requires p == if |s| >= 16 then |s| - |s| % 16 else 0
    ensures p <= |s| && s[p..] == Rest(s) && |s[p..]| < 16
  {
    assert p == |s| - |s| % 16;
    assert |Rest(s)| == |s| % 16;
  }

  /** XXH32. */
  method XXH32(input: seq<byte>, seed: bv32) returns (h: bv32)
    ensures h == Hash(seed, input)
  {
    hide *;
    HashParts(seed, input);
    var v, p := Init(seed), 0;
    assert input[0..] == input;
    if |input| >= 16 {
      v, p := Consume(v, input, 0);
      h := Converge(v);
    } else {
      h := Small(seed);
    }
    BeginParts(seed, Stripes(Init(seed), input), |input| >= 16);
    h := AddLength(h, |input|);
    RestFrom(input, p);
    h := Finalize(h, input[p..]);
  }

  // ---------------------------------------------------------------------
  // The streaming form
  // ---------------------------------------------------------------------

  /** The input fits into the buffer. */
  lemma Fits(v: Lanes, s: seq<byte>, t: seq<byte>)
    requires |s| % 16 + |t| < 16
    ensures Stripes(v, s + t) == Stripes(v, s) && Rest(s + t) == Rest(s) + t && |s + t| % 16 == |s| % 16 + |t|
  {
    hide Stripes;
    StripesWhole(v, s);
    StripesWhole(v, s + t);
    assert (s + t)[..|s| - |s| % 16] == s[..|s| - |s| % 16];
  }

  /** The buffer becomes full. */
  lemma Completed(v: Lanes, s: seq<byte>, t: seq<byte>, word: seq<byte>)
    requires var k := 16 - |s| % 16; k <= |t| && word == Rest(s) + t[..k]
    ensures |word| == 16 && Stripes(v, s + t) == Stripes(Stripe(Stripes(v, s), word), t[16 - |s| % 16..])
    ensures (|s| + (16 - |s| % 16)) % 16 == 0
  {
    hide Stripes, Stripe;
    var k, w := 16 - |s| % 16, s[..|s| - |s| % 16];
    StripesWhole(v, s);
    assert s + t == (w + word) + t[k..];
    StripesAppend(v, w + word, t[k..]);
    StripesAppend(v, w, word);
    OneStripe(Stripes(v, w), word);
  }

  lemma NoStripe(v: Lanes, s: seq<byte>)
    requires |s| < 16
    ensures Stripes(v, s) == v
  {
  }

  /** What is left once the whole stripes are consumed. */
  lemma Remainder(s: seq<byte>, t: seq<byte>, p: nat)
    requires p <= |t| < p + 16 && (|s| + p) % 16 == 0
    ensures |s + t| % 16 == |t| - p && Rest(s + t) == t[p..]
  {
  }

  lemma Aligned(m: nat, p: nat, n: nat)
    requires p <= n && (m + p) % 16 == 0
    ensures (m + (n - (n - p) % 16)) % 16 == 0
  {
  }

  /** Below 16 bytes, the third lane is still the seed. */
  lemma SmallLanes(seed: bv32, s: seq<byte>)
    requires |s| < 16
    ensures Stripes(Init(seed), s).v3 == seed
  {
  }

  /** The fields of a state that has been fed s since its reset. */
  ghost predicate Holds(total: nat, large: bool, v: Lanes, buffer: seq<byte>, seed: bv32, s: seq<byte>) {
    total == |s| % U32_RANGE && large == (|s| >= 16) && v == Stripes(Init(seed), s) && buffer == Rest(s)
  }

  lemma HoldsParts(total: nat, large: bool, v: Lanes, buffer: seq<byte>, seed: bv32, s: seq<byte>)
    requires Holds(total, large, v, buffer, seed, s)
    ensures total == |s| % U32_RANGE && large == (|s| >= 16) && v == Stripes(Init(seed), s) && buffer == Rest(s)
  {
    hide Stripes, Init, Rest;
  }

  lemma HoldsFrom(total: nat, large: bool, v: Lanes, buffer: seq<byte>, seed: bv32, s: seq<byte>)
    requires total == |s| % U32_RANGE && large == (|s| >= 16) && v == Stripes(Init(seed), s) && buffer == Rest(s)
    ensures Holds(total, large, v, buffer, seed, s)
  {
    hide Stripes, Init, Rest;
  }

  /** total_len_32 and large_len after an update. */
  lemma Counted(total: nat, large: bool, m: nat, n: nat)
    requires total == m % U32_RANGE && large == (m >= 16)
    ensures (total + n % U32_RANGE) % U32_RANGE == (m + n) % U32_RANGE
    ensures (large || n >= 16 || (m + n) % U32_RANGE >= 16) == (m + n >= 16)
  {
    Totals(m, n);
  }

  class State {
    var total: nat
    var large: bool
    var v: Lanes
    var mem: array<byte>
    var memsize: nat
    ghost var seed: bv32
    ghost var fed: seq<byte>

    ghost predicate Valid()
      reads this, mem
    {
      mem.Length == 16 && memsize < 16 && Holds(total, large, v, mem[..memsize], seed, fed)
    }

    /** XXH32_createState and a reset. */
    constructor (seed: bv32)
      ensures Valid() && this.seed == seed && fed == [] && fresh(mem)
    {
      hide Init;
      total, large, memsize := 0, false, 0;
      v := Init(seed);
      mem := new byte[16](_ => 0);
      this.seed, fed := seed, [];
    }

    /** XXH32_reset. */
    method Reset(seed: bv32)
      requires mem.Length == 16
      modifies this
      ensures Valid() && this.seed == seed && fed == [] && mem == old(mem)
    {
      hide Init;
      total, large, memsize := 0, false, 0;
      v := Init(seed);
      this.seed, fed := seed, [];
    }

    /** XXH32_update, for an input pointer that is not null. */
    method Update(input: seq<byte>)
      requires Valid()
      modifies this, mem
      ensures Valid() && seed == old(seed) && fed == old(fed) + input && mem == old(mem)
    {
      hide Stripes, Stripe, Init, Rest, Holds;
      ghost var s := fed;
      HoldsParts(total, large, v, mem[..memsize], seed, s);
      Counted(total, large, |s|, |input|);
      fed := fed + input;
      total := (total + |input| % U32_RANGE) % U32_RANGE;
      large := large || |input| >= 16 || total >= 16;
      Absorb(input, s);
      HoldsFrom(total, large, v, mem[..memsize], seed, s + input);
    }

    /** The lanes and the buffer move on. */
    method Absorb(input: seq<byte>, ghost s: seq<byte>)
      requires mem.Length == 16 && memsize == |s| % 16 && mem[..memsize] == Rest(s) && v == Stripes(Init(seed), s)
      modifies this`v, this`memsize, mem
      ensures memsize == |s + input| % 16 && mem[..memsize] == Rest(s + input) && v == Stripes(Init(seed), s + input)
    {
      hide Stripes, Stripe, Init, Rest;
      if memsize + |input| < 16 {
        Fits(Init(seed), s, input);
        Put(mem, memsize, input);
        memsize := memsize + |input|;
        assert mem[..memsize] == Rest(s) + input;
        return;
      }
      var p := CompleteBuffer(input, s);
      Aligned(|s|, p, |input|);
      if p + 16 <= |input| {
        v, p := Consume(v, input, p);
      } else {
        NoStripe(v, input[p..]);
      }
      Remainder(s, input, p);
      if p < |input| {
        Put(mem, 0, input[p..]);
        memsize := |input| - p;
      }
      assert mem[..memsize] == input[p..];
    }

    /** The buffer, if it holds anything, is filled up and consumed. */
    method CompleteBuffer(input: seq<byte>, ghost s: seq<byte>) returns (p: nat)
      requires mem.Length == 16 && memsize == |s| % 16 && mem[..memsize] == Rest(s) && v == Stripes(Init(seed), s)
      requires memsize + |input| >= 16
      modifies this`v, this`memsize, mem
      ensures memsize == 0 && p <= |input| && Stripes(Init(seed), s + input) == Stripes(v, input[p..])
      ensures (|s| + p) % 16 == 0
    {
      hide Stripes, Stripe, Init, Rest;
      p := 0;
      if memsize > 0 {
        p := 16 - memsize;
        Put(mem, memsize, input[..p]);
        assert mem[..] == Rest(s) + input[..p];
        Completed(Init(seed), s, input, mem[..]);
        v := Stripe(v, mem[..]);
        memsize := 0;
      } else {
        StripesAppend(Init(seed), s, input);
        assert input[0..] == input;
      }
    }

    /** XXH32_digest. */
    method Digest() returns (h: bv32)
      requires Valid()
      ensures h == Hash(seed, fed)
    {
      hide Stripe, Stripes, Init, Converge, Avalanche, Tail, AddLength, Hash, Begin, Small, Rest, Holds;
      HoldsParts(total, large, v, mem[..memsize], seed, fed);
      HashParts(seed, fed);
      BeginParts(seed, v, large);
      if large {
        h := Converge(v);
      } else {
        SmallLanes(seed, fed);
        h := Small(v.v3);
      }
      SameLow(h, |fed|);
      h := AddLength(h, total);
      h := Finalize(h, mem[..memsize]);
    }
  }

  /** The length is added modulo 2^32. */
  lemma SameLow(h: bv32, n: nat)
    ensures AddLength(h, n % U32_RANGE) == AddLength(h, n)
  {
    hide Low32, Plus;
    SameLow32(n);
  }

  lemma SameLow32(n: nat)
    ensures Low32(n % U32_RANGE) == Low32(n)
  {
    ModTwice(n, U32_RANGE);
  }

  lemma ModTwice(n: nat, m: nat)
    requires m > 0
    ensures (n % m) % m == n % m
  {
  }

  lemma Totals(m: nat, n: nat)
    ensures (m % U32_RANGE + n % U32_RANGE) % U32_RANGE == (m + n) % U32_RANGE
  {
  }

  function Joined(chunks: seq<seq<byte>>): seq<byte> {
    if chunks == [] then [] else Joined(chunks[..|chunks| - 1]) + chunks[|chunks| - 1]
  }

  /** Whatever the splitting of the input, reset, updates and digest give the
      one-shot hash. */
  method Streamed(chunks: seq<seq<byte>>, seed: bv32) returns (streamed: bv32, oneShot: bv32)
    ensures streamed == oneShot == Hash(seed, Joined(chunks))
  {
    hide Hash;
    var state := new State(seed);
    var i := 0;
    while i < |chunks|
      invariant 0 <= i <= |chunks| && state.Valid() && fresh(state) && fresh(state.mem)
      invariant state.seed == seed && state.fed == Joined(chunks[..i])
    {
      assert chunks[..i + 1][..i] == chunks[..i];
      state.Update(chunks[i]);
      i := i + 1;
    }
    assert chunks[..i] == chunks;
    streamed := state.Digest();
    oneShot := XXH32(Joined(chunks), seed);
  }
}
