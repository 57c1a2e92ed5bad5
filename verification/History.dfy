/** How much history a block needs: more of it changes nothing, and the last
    65535 bytes are enough. */
module History {
  import opened Format
  import opened Emit

  function Deeper(r: Rules, g: seq<byte>): Rules {
    match r
    case Lenient => Lenient
    case Strict(total) => Strict(|g| + total)
  }

  function Prepend(g: seq<byte>, o: Outcome): Outcome {
    match o
    case Done(out) => Done(g + out)
    case _ => o
  }

  lemma {:induction false} CopyDeeper(g: seq<byte>, out: seq<byte>, offset: nat, length: nat)
    requires 1 <= offset <= |out|
    ensures CopyMatch(g + out, offset, length) == g + CopyMatch(out, offset, length)
    decreases length
  {
    if length > 0 {
      var b := out[|out| - offset];
      assert (g + out)[|g + out| - offset] == b;
      assert (g + out) + [b] == g + (out + [b]);
      CopyDeeper(g, out + [b], offset, length - 1);
    }
  }

  /** Bytes g further back do not change what is decoded, when it was decoded
      without them, or when no offset can reach that far. */
  lemma {:induction false} DecodeDeeper(src: seq<byte>, ip: nat, out: seq<byte>, r: Rules, g: seq<byte>)
    requires ip <= |src| && (Decode(src, ip, out, r).Done? || |out| >= DISTANCE_MAX)
    ensures Decode(src, ip, g + out, Deeper(r, g)) == Prepend(g, Decode(src, ip, out, r))
    decreases |src| - ip, 3
  {
    hide AtLiterals, Deeper;
    if ip < |src| {
      var token := src[ip];
      if token / 16 != RUN_MASK {
        LiteralsDeeper(src, ip + 1, out, token, token / 16, r, g);
      } else if ReadLen(src, ip + 1).Length? {
        var l := ReadLen(src, ip + 1);
        LiteralsDeeper(src, l.next, out, token, l.value + RUN_MASK, r, g);
      }
    }
  }

  lemma {:induction false} LiteralsDeeper(src: seq<byte>, ip: nat, out: seq<byte>, token: byte, length: nat, r: Rules, g: seq<byte>)
    requires ip <= |src| && (AtLiterals(src, ip, out, token, length, r).Done? || |out| >= DISTANCE_MAX)
    ensures AtLiterals(src, ip, g + out, token, length, Deeper(r, g)) == Prepend(g, AtLiterals(src, ip, out, token, length, r))
    decreases |src| - ip, 2
  {
    hide AtOffset;
    if ip + length <= |src| {
      var lits := src[ip..ip + length];
      assert (g + out) + lits == g + (out + lits);
      if ip + length < |src|
         && !(r.Strict? && (|out + lits| + MFLIMIT > r.total || ip + length + 2 + 1 + LASTLITERALS > |src|)) {
        OffsetDeeper(src, ip + length, out + lits, token, r, g);
      }
    }
  }

  lemma {:induction false} OffsetDeeper(src: seq<byte>, ip: nat, out: seq<byte>, token: byte, r: Rules, g: seq<byte>)
    requires ip <= |src| && (AtOffset(src, ip, out, token, r).Done? || |out| >= DISTANCE_MAX)
    ensures AtOffset(src, ip, g + out, token, Deeper(r, g)) == Prepend(g, AtOffset(src, ip, out, token, r))
    decreases |src| - ip, 1
  {
    hide AtMatch, Deeper, LE16;
    if ip + 2 <= |src| {
      var offset := LE16(src[ip], src[ip + 1]);
      OffsetRange(src[ip], src[ip + 1]);
      if token % 16 != ML_MASK {
        MatchDeeper(src, ip + 2, out, offset, token % 16 + MINMATCH, r, g);
      } else if ReadLen(src, ip + 2).Length? {
        var l := ReadLen(src, ip + 2);
        MatchDeeper(src, l.next, out, offset, l.value + ML_MASK + MINMATCH, r, g);
      }
    }
  }

  lemma OffsetRange(b0: byte, b1: byte)
    ensures LE16(b0, b1) <= DISTANCE_MAX
  {
  }

  lemma {:induction false} MatchDeeper(src: seq<byte>, ip: nat, out: seq<byte>, offset: nat, length: nat, r: Rules, g: seq<byte>)
    requires ip <= |src| && offset <= DISTANCE_MAX && (AtMatch(src, ip, out, offset, length, r).Done? || |out| >= DISTANCE_MAX)
    ensures AtMatch(src, ip, g + out, offset, length, Deeper(r, g)) == Prepend(g, AtMatch(src, ip, out, offset, length, r))
    decreases |src| - ip, 4
  {
    hide Decode;
    if 1 <= offset <= |out| && !(r.Strict? && |out| + length + LASTLITERALS > r.total) {
      CopyDeeper(g, out, offset, length);
      DecodeDeeper(src, ip, CopyMatch(out, offset, length), r, g);
    }
  }

  /** A decoder that remembers more than the encoder used decodes the same. */
  lemma MoreHistory(bytes: seq<byte>, g: seq<byte>, h: seq<byte>, content: seq<byte>)
    requires Decodes(bytes, h, content)
    ensures Decodes(bytes, g + h, content)
  {
    hide Decode;
    DecodeDeeper(bytes, 0, h, Lenient, g);
    DecodeDeeper(bytes, 0, h, Strict(|h| + |content|), g);
    assert (g + h) + content == g + (h + content);
  }

  /** A decoder that remembers only the last 65535 bytes decodes the same. */
  lemma LessHistory(bytes: seq<byte>, g: seq<byte>, h: seq<byte>, content: seq<byte>)
    requires |h| >= DISTANCE_MAX && Decodes(bytes, g + h, content)
    ensures Decodes(bytes, h, content)
  {
    hide Decode;
    DecodeDeeper(bytes, 0, h, Lenient, g);
    DecodeDeeper(bytes, 0, h, Strict(|h| + |content|), g);
    assert (g + h) + content == g + (h + content);
    Unprepend(g, Decode(bytes, 0, h, Lenient), h + content);
    Unprepend(g, Decode(bytes, 0, h, Strict(|h| + |content|)), h + content);
  }

  lemma Unprepend(g: seq<byte>, o: Outcome, s: seq<byte>)
    requires Prepend(g, o) == Done(g + s)
    ensures o == Done(s)
  {
    assert o.out == (g + o.out)[|g|..] == (g + s)[|g|..];
  }

  /** The encoder saw h, the decoder remembers d: one ends with the other, or
      both end with the same 65535 bytes. */
  predicate Compatible(h: seq<byte>, d: seq<byte>) {
    || (|h| <= |d| && d[|d| - |h|..] == h)
    || (|h| >= DISTANCE_MAX && |d| >= DISTANCE_MAX && h[|h| - DISTANCE_MAX..] == d[|d| - DISTANCE_MAX..])
  }

  lemma CompatibleDecodes(bytes: seq<byte>, h: seq<byte>, d: seq<byte>, content: seq<byte>)
    requires Decodes(bytes, h, content) && Compatible(h, d)
    ensures Decodes(bytes, d, content)
  {
    hide Decodes;
    if |h| <= |d| && d[|d| - |h|..] == h {
      assert d == d[..|d| - |h|] + h;
      MoreHistory(bytes, d[..|d| - |h|], h, content);
    } else {
      var t := h[|h| - DISTANCE_MAX..];
      assert h == h[..|h| - DISTANCE_MAX] + t && d == d[..|d| - DISTANCE_MAX] + t;
      LessHistory(bytes, h[..|h| - DISTANCE_MAX], t, content);
      MoreHistory(bytes, d[..|d| - DISTANCE_MAX], t, content);
    }
  }
}
