/** XXH64 of xxhash.c: the one-shot form, the streaming form with its 32-byte
    buffer, and a reference definition that both are proved equal to.  Words are
    read in little-endian order. */
module XxHash64 {
  import opened Format
  import opened Common

  import X = XxHash32

  const PRIME1: bv64 := 11400714785074694791
  const PRIME2: bv64 := 14029467366897019727
  const PRIME3: bv64 := 1609587929392839161
  const PRIME4: bv64 := 9650029242287828579
  const PRIME5: bv64 := 2870177450012600261

  function Rotl(x: bv64, r: bv64): bv64
    requires 0 < r < 64
  {
    (x << r) | (x >> (64 - r))
  }

  function Read64(s: seq<byte>): bv64
    requires |s| == 8
  {
    (X.Read32(s[0..4]) as bv64) | ((X.Read32(s[4..8]) as bv64) << 32)
  }

  function Round(acc: bv64, input: bv64): bv64 {
    Rotl(acc + input * PRIME2, 31) * PRIME1
  }

  function MergeRound(acc: bv64, val: bv64): bv64 {
    (acc ^ Round(0, val)) * PRIME1 + PRIME4
  }

  function Avalanche(h: bv64): bv64 {
    var h1 := (h ^ (h >> 33)) * PRIME2;
    var h2 := (h1 ^ (h1 >> 29)) * PRIME3;
    h2 ^ (h2 >> 32)
  }

  function Process1(h: bv64, b: byte): bv64 {
    Rotl(h ^ ((X.Word(b) as bv64) * PRIME5), 11) * PRIME1
  }

  function Process4(h: bv64, s: seq<byte>): bv64
    requires |s| == 4
  {
    Rotl(h ^ ((X.Read32(s) as bv64) * PRIME1), 23) * PRIME2 + PRIME3
  }

  function Process8(h: bv64, s: seq<byte>): bv64
    requires |s| == 8
  {
    Rotl(h ^ Round(0, Read64(s)), 27) * PRIME1 + PRIME4
  }

  function Low64(n: nat): bv64 {
    (n % U64_RANGE) as bv64
  }

  /** v1 .. v4 */
  datatype Lanes = Lanes(v1: bv64, v2: bv64, v3: bv64, v4: bv64)

  function Init(seed: bv64): Lanes {
    Lanes(seed + PRIME1 + PRIME2, seed + PRIME2, seed, seed - PRIME1)
  }

  function Stripe(v: Lanes, s: seq<byte>): Lanes
    requires |s| == 32
  {
    Lanes(Round(v.v1, Read64(s[0..8])), Round(v.v2, Read64(s[8..16])), Round(v.v3, Read64(s[16..24])), Round(v.v4, Read64(s[24..32])))
  }

  function Merge(v: Lanes): bv64 {
    Rotl(v.v1, 1) + Rotl(v.v2, 7) + Rotl(v.v3, 12) + Rotl(v.v4, 18)
  }

  function Converge(v: Lanes): bv64 {
    MergeRound(MergeRound(MergeRound(MergeRound(Merge(v), v.v1), v.v2), v.v3), v.v4)
  }

  // ---------------------------------------------------------------------
  // The reference definition
  // ---------------------------------------------------------------------

  /** All the whole stripes of s, in order. */
  function Stripes(v: Lanes, s: seq<byte>): Lanes
    decreases |s|
  {
    if |s| < 32 then v else Stripes(Stripe(v, s[..32]), s[32..])
  }

  /** What stands after the whole stripes. */
  function Rest(s: seq<byte>): (r: seq<byte>)
    ensures |r| == |s| % 32
  {
    s[|s| - |s| % 32..]
  }

  /** Double words, then a word, then bytes. */
  function Tail(h: bv64, s: seq<byte>): bv64
    decreases |s|
  {
    if |s| >= 8 then Tail(Process8(h, s[..8]), s[8..])
    else if |s| >= 4 then Tail(Process4(h, s[..4]), s[4..])
    else if |s| >= 1 then Tail(Process1(h, s[0]), s[1..])
    else h
  }

  function Begin(seed: bv64, v: Lanes, large: bool): bv64 {
    if large then Converge(v) else Small(seed)
  }

  function Small(seed: bv64): bv64 {
    seed + PRIME5
  }

  function Plus(x: bv64, y: bv64): bv64 {
    x + y
  }

  function AddLength(h: bv64, n: nat): bv64 {
    Plus(h, Low64(n))
  }

  function Hash(seed: bv64, s: seq<byte>): bv64 {
    Avalanche(Tail(AddLength(Begin(seed, Stripes(Init(seed), s), |s| >= 32), |s|), Rest(s)))
  }

  /** Stripes of a concatenation, when the first part is whole. */
  lemma {:induction false} StripesAppend(v: Lanes, s: seq<byte>, t: seq<byte>)
    requires |s| % 32 == 0
    ensures Stripes(v, s + t) == Stripes(Stripes(v, s), t)
    decreases |s|
  {
    hide Stripe;
    if |s| == 0 {
      assert s + t == t;
    } else {
      assert (s + t)[..32] == s[..32] && (s + t)[32..] == s[32..] + t;
      StripesAppend(Stripe(v, s[..32]), s[32..], t);
    }
  }

  /** The rest does not matter to the lanes. */
  lemma {:induction false} StripesWhole(v: Lanes, s: seq<byte>)
    ensures Stripes(v, s) == Stripes(v, s[..|s| - |s| % 32])
  {
    hide Stripe;
    var w := s[..|s| - |s| % 32];
    assert s == w + Rest(s);
    StripesAppend(v, w, Rest(s));
  }

  lemma OneStripe(v: Lanes, s: seq<byte>)
    requires |s| == 32
    ensures Stripes(v, s) == Stripe(v, s)
  {
    hide Stripe;
    assert s[..32] == s && |s[32..]| == 0;
  }

  // ---------------------------------------------------------------------
  // XXH64_finalize
  // ---------------------------------------------------------------------

  method Step8(h: bv64, s: seq<byte>, i: nat) returns (h': bv64, i': nat)
    requires i + 8 <= |s|
    ensures i' == i + 8 && Tail(h', s[i'..]) == Tail(h, s[i..])
  {
    hide Process8, Process4, Process1;
    assert s[i..][..8] == s[i..i + 8] && s[i..][8..] == s[i + 8..];
    h', i' := Process8(h, s[i..i + 8]), i + 8;
  }

  method Step4(h: bv64, s: seq<byte>, i: nat) returns (h': bv64, i': nat)
    requires i + 4 <= |s| < i + 8
    ensures i' == i + 4 && Tail(h', s[i'..]) == Tail(h, s[i..])
  {
    hide Process8, Process4, Process1;
    assert s[i..][..4] == s[i..i + 4] && s[i..][4..] == s[i + 4..];
    h', i' := Process4(h, s[i..i + 4]), i + 4;
  }

  method Step1(h: bv64, s: seq<byte>, i: nat) returns (h': bv64, i': nat)
    requires i < |s| < i + 4
    ensures i' == i + 1 && Tail(h', s[i'..]) == Tail(h, s[i..])
  {
    hide Process8, Process4, Process1;
    assert s[i..][0] == s[i] && s[i..][1..] == s[i + 1..];
    h', i' := Process1(h, s[i]), i + 1;
  }

  lemma TailEnd(h: bv64, s: seq<byte>, i: nat)
    requires i == |s|
    ensures Tail(h, s[i..]) == h
  {
  }

  /** The double words at the head of every group of cases: `first` is the case
      with three of them, which falls through first - 8 and first - 16. */
  method Fall8(h0: bv64, s: seq<byte>, first: nat) returns (h: bv64, i: nat)
    requires first >= 24 && (|s| == first || |s| + 8 == first || |s| + 16 == first || |s| + 24 == first)
    ensures i + first == |s| + 24 && i <= |s| && Tail(h, s[i..]) == Tail(h0, s)
  {
    hide Tail;
    h, i := h0, 0;
    assert s[0..] == s;
    if |s| == first { h, i := Step8(h, s, i); }
    if |s| == first || |s| + 8 == first { h, i := Step8(h, s, i); }
    if |s| == first || |s| + 8 == first || |s| + 16 == first { h, i := Step8(h, s, i); }
  }

  /** The switch, with its cases falling through: k is len & 31. */
  method Finalize(h64: bv64, s: seq<byte>) returns (r: bv64)
    requires |s| < 32
    ensures r == Avalanche(Tail(h64, s))
  {
    hide Tail, Avalanche;
    var k := |s|;
    var h, i;
    if k == 24 || k == 16 || k == 8 {
      h, i := Fall8(h64, s, 24);
    } else if k == 28 || k == 20 || k == 12 || k == 4 {
      h, i := Fall8(h64, s, 28);
      h, i := Step4(h, s, i);
    } else if k == 25 || k == 17 || k == 9 {
      h, i := Fall8(h64, s, 25);
      h, i := Step1(h, s, i);
    } else if k == 29 || k == 21 || k == 13 || k == 5 {
      h, i := Fall8(h64, s, 29);
      h, i := Step4(h, s, i);
      h, i := Step1(h, s, i);
    } else if k == 26 || k == 18 || k == 10 {
      h, i := Fall8(h64, s, 26);
      h, i := Step1(h, s, i);
      h, i := Step1(h, s, i);
    } else if k == 30 || k == 22 || k == 14 || k == 6 {
      h, i := Fall8(h64, s, 30);
      h, i := Step4(h, s, i);
      h, i := Step1(h, s, i);
      h, i := Step1(h, s, i);
    } else if k == 27 || k == 19 || k == 11 {
      h, i := Fall8(h64, s, 27);
      h, i := Step1(h, s, i);
      h, i := Step1(h, s, i);
      h, i := Step1(h, s, i);
    } else {
      h, i := h64, 0;
      assert s[0..] == s;
      if k == 31 || k == 23 || k == 15 || k == 7 {
        h, i := Fall8(h64, s, 31);
        h, i := Step4(h, s, i);
      }
      if k >= 3 { h, i := Step1(h, s, i); }
      if k >= 2 { h, i := Step1(h, s, i); }
      if k >= 1 { h, i := Step1(h, s, i); }
    }
    TailEnd(h, s, i);
    r := Avalanche(h);
  }

  // ---------------------------------------------------------------------
  // The one-shot form
  // ---------------------------------------------------------------------

  /** The main loop, from p on: the whole stripes of s[p..]. */
  method Consume(v0: Lanes, s: seq<byte>, p0: nat) returns (v: Lanes, p: nat)
    requires p0 + 32 <= |s|
    ensures p == |s| - (|s| - p0) % 32 && v == Stripes(v0, s[p0..])
  {
    hide Stripe;
    v, p := v0, p0;
    while true
      invariant p0 <= p && p + 32 <= |s| && (p - p0) % 32 == 0
      invariant Stripes(v, s[p..]) == Stripes(v0, s[p0..])
      decreases |s| - p
    {
      assert s[p..][..32] == s[p..p + 32] && s[p..][32..] == s[p + 32..];
      v, p := Stripe(v, s[p..p + 32]), p + 32;
      if p + 31 >= |s| { break; }
    }
    ModDown(|s| - p0, p - p0);
  }

  lemma ModDown(n: nat, m: nat)
    requires m <= n && n - m < 32 && m % 32 == 0
    ensures n % 32 == n - m
  {
  }

  lemma HashParts(seed: bv64, s: seq<byte>)
    ensures Hash(seed, s) == Avalanche(Tail(AddLength(Begin(seed, Stripes(Init(seed), s), |s| >= 32), |s|), Rest(s)))
  {
    hide Avalanche, Tail, Begin, Stripes, Init, AddLength, Rest;
  }

  lemma BeginParts(seed: bv64, v: Lanes, large: bool)
    ensures Begin(seed, v, large) == if large then Converge(v) else Small(seed)
  {
  }

  lemma RestFrom(s: seq<byte>, p: nat)
    requires p == if |s| >= 32 then |s| - |s| % 32 else 0
    ensures p <= |s| && s[p..] == Rest(s) && |s[p..]| < 32
  {
    assert p == |s| - |s| % 32;
    assert |Rest(s)| == |s| % 32;
  }

  /** XXH64. */
  method XXH64(input: seq<byte>, seed: bv64) returns (h: bv64)
    ensures h == Hash(seed, input)
  {
    hide *;
    HashParts(seed, input);
    var v, p := Init(seed), 0;
    assert input[0..] == input;
    if |input| >= 32 {
      v, p := Consume(v, input, 0);
      h := Converge(v);
    } else {
      h := Small(seed);
    }
    BeginParts(seed, Stripes(Init(seed), input), |input| >= 32);
    h := AddLength(h, |input|);
    RestFrom(input, p);
    h := Finalize(h, input[p..]);
  }

  // ---------------------------------------------------------------------
  // The streaming form
  // ---------------------------------------------------------------------

  /** The input fits into the buffer. */
  lemma Fits(v: Lanes, s: seq<byte>, t: seq<byte>)
    requires |s| % 32 + |t| < 32
    ensures Stripes(v, s + t) == Stripes(v, s) && Rest(s + t) == Rest(s) + t && |s + t| % 32 == |s| % 32 + |t|
  {
    hide Stripes;
    StripesWhole(v, s);
    StripesWhole(v, s + t);
    assert (s + t)[..|s| - |s| % 32] == s[..|s| - |s| % 32];
  }

  /** The buffer becomes full. */
  lemma Completed(v: Lanes, s: seq<byte>, t: seq<byte>, word: seq<byte>)
    requires var k := 32 - |s| % 32; k <= |t| && word == Rest(s) + t[..k]
    ensures |word| == 32 && Stripes(v, s + t) == Stripes(Stripe(Stripes(v, s), word), t[32 - |s| % 32..])
    ensures (|s| + (32 - |s| % 32)) % 32 == 0
  {
    hide Stripes, Stripe;
    var k, w := 32 - |s| % 32, s[..|s| - |s| % 32];
    StripesWhole(v, s);
    assert s + t == (w + word) + t[k..];
    StripesAppend(v, w + word, t[k..]);
    StripesAppend(v, w, word);
    OneStripe(Stripes(v, w), word);
  }

  lemma NoStripe(v: Lanes, s: seq<byte>)
    requires |s| < 32
    ensures Stripes(v, s) == v
  {
  }

  /** What is left once the whole stripes are consumed. */
  lemma Remainder(s: seq<byte>, t: seq<byte>, p: nat)
    requires p <= |t| < p + 32 && (|s| + p) % 32 == 0
    ensures |s + t| % 32 == |t| - p && Rest(s + t) == t[p..]
  {
  }

  lemma Aligned(m: nat, p: nat, n: nat)
    requires p <= n && (m + p) % 32 == 0
    ensures (m + (n - (n - p) % 32)) % 32 == 0
  {
  }

  /** Below 32 bytes, the third lane is still the seed. */
  lemma SmallLanes(seed: bv64, s: seq<byte>)
    requires |s| < 32
    ensures Stripes(Init(seed), s).v3 == seed
  {
  }

  /** The fields of a state that has been fed s since its reset. */
  ghost predicate Holds(total: nat, v: Lanes, buffer: seq<byte>, seed: bv64, s: seq<byte>) {
    total == |s| % U64_RANGE && v == Stripes(Init(seed), s) && buffer == Rest(s)
  }

  lemma HoldsParts(total: nat, v: Lanes, buffer: seq<byte>, seed: bv64, s: seq<byte>)
    requires Holds(total, v, buffer, seed, s)
    ensures total == |s| % U64_RANGE && v == Stripes(Init(seed), s) && buffer == Rest(s)
  {
    hide Stripes, Init, Rest;
  }

  lemma HoldsFrom(total: nat, v: Lanes, buffer: seq<byte>, seed: bv64, s: seq<byte>)
    requires total == |s| % U64_RANGE && v == Stripes(Init(seed), s) && buffer == Rest(s)
    ensures Holds(total, v, buffer, seed, s)
  {
    hide Stripes, Init, Rest;
  }

  class State {
    var total: nat
    var v: Lanes
    var mem: array<byte>
    var memsize: nat
    ghost var seed: bv64
    ghost var fed: seq<byte>

    ghost predicate Valid()
      reads this, mem
    {
      mem.Length == 32 && memsize < 32 && Holds(total, v, mem[..memsize], seed, fed)
    }

    /** XXH64_createState and a reset. */
    constructor (seed: bv64)
      ensures Valid() && this.seed == seed && fed == [] && fresh(mem)
    {
      hide Init;
      total, memsize := 0, 0;
      v := Init(seed);
      mem := new byte[32](_ => 0);
      this.seed, fed := seed, [];
    }

    /** XXH64_reset. */
    method Reset(seed: bv64)
      requires mem.Length == 32
      modifies this
      ensures Valid() && this.seed == seed && fed == [] && mem == old(mem)
    {
      hide Init;
      total, memsize := 0, 0;
      v := Init(seed);
      this.seed, fed := seed, [];
    }

    /** XXH64_update, for an input pointer that is not null. */
    method Update(input: seq<byte>)
      requires Valid()
      modifies this, mem
      ensures Valid() && seed == old(seed) && fed == old(fed) + input && mem == old(mem)
    {
      hide Stripes, Stripe, Init, Rest, Holds;
      ghost var s := fed;
      HoldsParts(total, v, mem[..memsize], seed, s);
      Totals(|s|, |input|);
      fed := fed + input;
      total := (total + |input| % U64_RANGE) % U64_RANGE;
      Absorb(input, s);
      HoldsFrom(total, v, mem[..memsize], seed, s + input);
    }

    /** The lanes and the buffer move on. */
    method Absorb(input: seq<byte>, ghost s: seq<byte>)
      requires mem.Length == 32 && memsize == |s| % 32 && mem[..memsize] == Rest(s) && v == Stripes(Init(seed), s)
      modifies this`v, this`memsize, mem
      ensures memsize == |s + input| % 32 && mem[..memsize] == Rest(s + input) && v == Stripes(Init(seed), s + input)
    {
      hide Stripes, Stripe, Init, Rest;
      if memsize + |input| < 32 {
        Fits(Init(seed), s, input);
        Put(mem, memsize, input);
        memsize := memsize + |input|;
        assert mem[..memsize] == Rest(s) + input;
        return;
      }
      var p := CompleteBuffer(input, s);
      Aligned(|s|, p, |input|);
      if p + 32 <= |input| {
        v, p := Consume(v, input, p);
      } else {
        NoStripe(v, input[p..]);
      }
      Remainder(s, input, p);
      if p < |input| {
        Put(mem, 0, input[p..]);
        memsize := |input| - p;
      }
      assert mem[..memsize] == input[p..];
    }

    /** The buffer, if it holds anything, is filled up and consumed. */
    method CompleteBuffer(input: seq<byte>, ghost s: seq<byte>) returns (p: nat)
      requires mem.Length == 32 && memsize == |s| % 32 && mem[..memsize] == Rest(s) && v == Stripes(Init(seed), s)
      requires memsize + |input| >= 32
      modifies this`v, this`memsize, mem
      ensures memsize == 0 && p <= |input| && Stripes(Init(seed), s + input) == Stripes(v, input[p..])
      ensures (|s| + p) % 32 == 0
    {
      hide Stripes, Stripe, Init, Rest;
      p := 0;
      if memsize > 0 {
        p := 32 - memsize;
        Put(mem, memsize, input[..p]);
        assert mem[..] == Rest(s) + input[..p];
        Completed(Init(seed), s, input, mem[..]);
        v := Stripe(v, mem[..]);
        memsize := 0;
      } else {
        StripesAppend(Init(seed), s, input);
        assert input[0..] == input;
      }
    }

    /** XXH64_digest. */
    method Digest() returns (h: bv64)
      requires Valid()
      ensures |fed| < U64_RANGE ==> h == Hash(seed, fed)
    {
      hide Stripe, Stripes, Init, Converge, Avalanche, Tail, AddLength, Hash, Begin, Small, Rest, Holds;
      HoldsParts(total, v, mem[..memsize], seed, fed);
      HashParts(seed, fed);
      BeginParts(seed, v, total >= 32);
      if total >= 32 {
        h := Converge(v);
      } else {
        if |fed| < 32 { SmallLanes(seed, fed); }
        h := Small(v.v3);
      }
      SameLow(h, |fed|);
      h := AddLength(h, total);
      LowBits(|fed|);
      h := Finalize(h, mem[..total % 32]);
    }
  }

  lemma LowBits(n: nat)
    ensures (n % U64_RANGE) % 32 == n % 32
  {
    var q := n / U64_RANGE;
    assert n == 32 * (q * 0x800_0000_0000_0000) + n % U64_RANGE;
  }

  /** The length is added modulo 2^64. */
  lemma SameLow(h: bv64, n: nat)
    ensures AddLength(h, n % U64_RANGE) == AddLength(h, n)
  {
    hide Low64, Plus;
    SameLow64(n);
  }

  lemma SameLow64(n: nat)
    ensures Low64(n % U64_RANGE) == Low64(n)
  {
    X.ModTwice(n, U64_RANGE);
  }

  lemma Totals(m: nat, n: nat)
    ensures (m % U64_RANGE + n % U64_RANGE) % U64_RANGE == (m + n) % U64_RANGE
  {
  }

  /** Whatever the splitting of the input, reset, updates and digest give the
      one-shot hash, for every total size below 2^64. */
  method Streamed(chunks: seq<seq<byte>>, seed: bv64) returns (streamed: bv64, oneShot: bv64)
    ensures oneShot == Hash(seed, X.Joined(chunks))
    ensures |X.Joined(chunks)| < U64_RANGE ==> streamed == oneShot
  {
    hide Hash;
    var state := new State(seed);
    var i := 0;
    while i < |chunks|
      invariant 0 <= i <= |chunks| && state.Valid() && fresh(state) && fresh(state.mem)
      invariant state.seed == seed && state.fed == X.Joined(chunks[..i])
    {
      assert chunks[..i + 1][..i] == chunks[..i];
      state.Update(chunks[i]);
      i := i + 1;
    }
    assert chunks[..i] == chunks;
    streamed := state.Digest();
    oneShot := XXH64(X.Joined(chunks), seed);
  }
}
