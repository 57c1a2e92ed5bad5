/** How one field of a block moves the reference decoder: the facts from which
    the optimised decoder of lz4.c is proved, one per field. */
module DecoderSteps {
  import opened Format
  import opened Memory

  /** What the whole block decodes to, under the lenient and the strict rules. */
  datatype Goal = Goal(lenient: Outcome, strict: Outcome, total: nat)

  /** What remains has outcome l (lenient) and s (strict), unless that no longer
      matters: a zero offset was met, or the strict rules are already broken. */
  predicate Follows(g: Goal, l: Outcome, s: Outcome) {
    && (g.lenient == ZeroOffset || g.lenient == l)
    && (g.strict.Done? ==> g.strict == s)
  }

  predicate Tok(src: seq<byte>, ip: nat, out: seq<byte>, g: Goal)
    requires ip <= |src|
  {
    Follows(g, Decode(src, ip, out, Lenient), Decode(src, ip, out, Strict(g.total)))
  }

  predicate Lit(src: seq<byte>, ip: nat, out: seq<byte>, token: byte, length: nat, g: Goal)
    requires ip <= |src|
  {
    Follows(g, AtLiterals(src, ip, out, token, length, Lenient), AtLiterals(src, ip, out, token, length, Strict(g.total)))
  }

  predicate Off(src: seq<byte>, ip: nat, out: seq<byte>, token: byte, g: Goal)
    requires ip <= |src|
  {
    Follows(g, AtOffset(src, ip, out, token, Lenient), AtOffset(src, ip, out, token, Strict(g.total)))
  }

  predicate Len(src: seq<byte>, ip: nat, out: seq<byte>, token: byte, offset: nat, g: Goal)
    requires ip <= |src|
  {
    Follows(g, AtMatchLength(src, ip, out, token, offset, Lenient), AtMatchLength(src, ip, out, token, offset, Strict(g.total)))
  }

  predicate Mat(src: seq<byte>, ip: nat, out: seq<byte>, offset: nat, length: nat, g: Goal)
    requires ip <= |src|
  {
    Follows(g, AtMatch(src, ip, out, offset, length, Lenient), AtMatch(src, ip, out, offset, length, Strict(g.total)))
  }

  // ---------------------------------------------------------------------
  // Token and literals
  // ---------------------------------------------------------------------

  lemma ShortToken(src: seq<byte>, ip: nat, out: seq<byte>, g: Goal)
    requires ip < |src| && src[ip] / 16 != RUN_MASK && Tok(src, ip, out, g)
    ensures Lit(src, ip + 1, out, src[ip], src[ip] / 16, g)
  {
  }

  lemma LongToken(src: seq<byte>, ip: nat, out: seq<byte>, g: Goal)
    requires ip < |src| && src[ip] / 16 == RUN_MASK && Tok(src, ip, out, g)
    ensures match ReadLen(src, ip + 1)
            case Length(n, next) => Lit(src, next, out, src[ip], n + RUN_MASK, g)
            case NoLength => !g.strict.Done?
  {
  }

  /** Under the strict rules no literal length exceeds the block. */
  lemma LongTokenBound(src: seq<byte>, ip: nat, out: seq<byte>, g: Goal)
    requires ip < |src| && src[ip] / 16 == RUN_MASK && Tok(src, ip, out, g) && g.strict.Done?
    ensures var l := ReadLen(src, ip + 1);
            l.Length? && |out| + l.value + RUN_MASK <= g.total && l.next + l.value + RUN_MASK <= |src|
  {
    var l := ReadLen(src, ip + 1);
    LongToken(src, ip, out, g);
    StrictLiterals(src, l.next, out, src[ip], l.value + RUN_MASK, g);
  }

  lemma StrictLiterals(src: seq<byte>, ip: nat, out: seq<byte>, token: byte, length: nat, g: Goal)
    requires ip <= |src| && Lit(src, ip, out, token, length, g) && g.strict.Done?
    ensures ip + length <= |src| && |out| + length <= g.total
    ensures ip + length < |src| ==> |out| + length + MFLIMIT <= g.total && ip + length + 3 + LASTLITERALS <= |src|
    ensures ip + length == |src| ==> |out| + length == g.total && token % 16 == 0
  {
    if ip + length > |src| {
      LiteralsBeyond(src, ip, out, token, length, g);
    } else if ip + length == |src| {
      LiteralsAtEnd(src, ip, out, token, length, g);
    } else {
      LiteralsInside(src, ip, out, token, length, g);
    }
  }

  lemma LiteralsInside(src: seq<byte>, ip: nat, out: seq<byte>, token: byte, length: nat, g: Goal)
    requires ip + length < |src| && Lit(src, ip, out, token, length, g)
    ensures Off(src, ip + length, out + src[ip..ip + length], token, g)
    ensures g.strict.Done? ==> |out| + length + MFLIMIT <= g.total && ip + length + 3 + LASTLITERALS <= |src|
  {
  }

  lemma LiteralsAtEnd(src: seq<byte>, ip: nat, out: seq<byte>, token: byte, length: nat, g: Goal)
    requires ip + length == |src| && Lit(src, ip, out, token, length, g)
    ensures Follows(g, Done(out + src[ip..]), Done(out + src[ip..]))
    ensures g.strict.Done? ==> |out| + length == g.total && token % 16 == 0
  {
    assert src[ip..ip + length] == src[ip..];
  }

  lemma LiteralsBeyond(src: seq<byte>, ip: nat, out: seq<byte>, token: byte, length: nat, g: Goal)
    requires ip <= |src| < ip + length && Lit(src, ip, out, token, length, g)
    ensures !g.strict.Done?
  {
  }

  // ---------------------------------------------------------------------
  // Offset, match length, match
  // ---------------------------------------------------------------------

  lemma ReadOffset(src: seq<byte>, ip: nat, out: seq<byte>, token: byte, g: Goal)
    requires ip + 2 <= |src| && Off(src, ip, out, token, g)
    ensures Len(src, ip + 2, out, token, LE16(src[ip], src[ip + 1]), g)
  {
  }

  lemma ShortMatch(src: seq<byte>, ip: nat, out: seq<byte>, token: byte, offset: nat, g: Goal)
    requires ip <= |src| && token % 16 != ML_MASK && Len(src, ip, out, token, offset, g)
    ensures Mat(src, ip, out, offset, token % 16 + MINMATCH, g)
  {
  }

  lemma LongMatch(src: seq<byte>, ip: nat, out: seq<byte>, token: byte, offset: nat, g: Goal)
    requires ip <= |src| && token % 16 == ML_MASK && Len(src, ip, out, token, offset, g)
    ensures match ReadLen(src, ip)
            case Length(n, next) => Mat(src, next, out, offset, n + ML_MASK + MINMATCH, g)
            case NoLength => !g.strict.Done?
  {
  }

  /** Under the strict rules a match length fits the block, and is followed by
      a token and five literals at least. */
  lemma LongMatchBound(src: seq<byte>, ip: nat, out: seq<byte>, token: byte, offset: nat, g: Goal)
    requires ip <= |src| && token % 16 == ML_MASK && Len(src, ip, out, token, offset, g) && g.strict.Done?
    ensures var l := ReadLen(src, ip);
            && l.Length? && l.value + ML_MASK + MINMATCH <= g.total
            && l.next + 1 + LASTLITERALS <= |src|
  {
    var l := ReadLen(src, ip);
    assert l.Length?;
    StrictMatch(src, l.next, out, offset, l.value + ML_MASK + MINMATCH, g);
  }

  lemma StrictMatch(src: seq<byte>, ip: nat, out: seq<byte>, offset: nat, length: nat, g: Goal)
    requires ip <= |src| && g.strict.Done? && Mat(src, ip, out, offset, length, g)
    ensures 1 <= offset <= |out| && |out| + length + LASTLITERALS <= g.total
    ensures ip + 1 + LASTLITERALS <= |src|
  {
    StrictTail(src, ip, CopyMatch(out, offset, length), g.total);
  }

  /** What the strict rules still expect to be written must still be read. */
  lemma StrictTail(src: seq<byte>, ip: nat, out: seq<byte>, total: nat)
    requires ip <= |src| && Decode(src, ip, out, Strict(total)).Done?
    requires |out| + LASTLITERALS <= total
    ensures ip + 1 + LASTLITERALS <= |src|
  {
    var g := Goal(ZeroOffset, Decode(src, ip, out, Strict(total)), total);
    var token := src[ip];
    if token / 16 != RUN_MASK {
      ShortToken(src, ip, out, g);
      StrictLiterals(src, ip + 1, out, token, token / 16, g);
    } else {
      LongToken(src, ip, out, g);
      var l := ReadLen(src, ip + 1);
      StrictLiterals(src, l.next, out, token, l.value + RUN_MASK, g);
    }
  }

  /** An offset that points before the history is an error in every reading. */
  lemma FarMatch(src: seq<byte>, ip: nat, out: seq<byte>, offset: nat, length: nat, g: Goal)
    requires ip <= |src| && offset > |out| && Mat(src, ip, out, offset, length, g)
    ensures !g.strict.Done?
  {
  }

  lemma FarMatchLength(src: seq<byte>, ip: nat, out: seq<byte>, token: byte, offset: nat, g: Goal)
    requires ip <= |src| && offset > |out| && Len(src, ip, out, token, offset, g)
    ensures !g.strict.Done?
  {
    if token % 16 != ML_MASK {
      ShortMatch(src, ip, out, token, offset, g);
    } else {
      LongMatch(src, ip, out, token, offset, g);
    }
  }

  lemma CopiedMatch(src: seq<byte>, ip: nat, out: seq<byte>, offset: nat, length: nat, out': seq<byte>, g: Goal)
    requires ip <= |src| && offset <= |out| && Mat(src, ip, out, offset, length, g)
    requires offset >= 1 ==> out' == CopyMatch(out, offset, length)
    ensures Tok(src, ip, out', g)
  {
  }

  // ---------------------------------------------------------------------
  // What is decoded extends what was decoded before
  // ---------------------------------------------------------------------

  lemma {:induction false} DecodeExtends(src: seq<byte>, ip: nat, out: seq<byte>, r: Rules)
    requires ip <= |src| && Decode(src, ip, out, r).Done?
    ensures out <= Decode(src, ip, out, r).out
    decreases |src| - ip, 0
  {
    var token := src[ip];
    var (lit, length) := if token / 16 != RUN_MASK then (ip + 1, (token / 16) as nat)
                         else (ReadLen(src, ip + 1).next, ReadLen(src, ip + 1).value + RUN_MASK);
    assert Decode(src, ip, out, r) == AtLiterals(src, lit, out, token, length, r);
    LiteralsExtend(src, lit, out, token, length, r);
  }

  lemma {:induction false} LiteralsExtend(src: seq<byte>, ip: nat, out: seq<byte>, token: byte, length: nat, r: Rules)
    requires ip <= |src| && AtLiterals(src, ip, out, token, length, r).Done?
    ensures out <= AtLiterals(src, ip, out, token, length, r).out
    decreases |src| - ip, 1
  {
    if ip + length < |src| {
      var out' := out + src[ip..ip + length];
      var i := ip + length;
      assert AtLiterals(src, ip, out, token, length, r) == AtOffset(src, i, out', token, r);
      var offset := LE16(src[i], src[i + 1]);
      assert AtOffset(src, i, out', token, r) == AtMatchLength(src, i + 2, out', token, offset, r);
      var (next, mlen) := if token % 16 != ML_MASK then (i + 2, (token % 16 + MINMATCH) as nat)
                          else (ReadLen(src, i + 2).next, ReadLen(src, i + 2).value + ML_MASK + MINMATCH);
      assert AtMatchLength(src, i + 2, out', token, offset, r) == AtMatch(src, next, out', offset, mlen, r);
      MatchExtends(src, next, out', offset, mlen, r);
      assert out <= out';
    }
  }

  lemma {:induction false} MatchExtends(src: seq<byte>, ip: nat, out: seq<byte>, offset: nat, length: nat, r: Rules)
    requires ip <= |src| && AtMatch(src, ip, out, offset, length, r).Done?
    ensures 1 <= offset <= |out| && CopyMatch(out, offset, length) <= AtMatch(src, ip, out, offset, length, r).out
    ensures out <= AtMatch(src, ip, out, offset, length, r).out
    decreases |src| - ip, 1
  {
    DecodeExtends(src, ip, CopyMatch(out, offset, length), r);
  }

  /** In the strict reading of the goal, the bytes produced so far are a prefix. */
  lemma TokPrefix(src: seq<byte>, ip: nat, out: seq<byte>, g: Goal)
    requires ip <= |src| && g.strict.Done? && Tok(src, ip, out, g)
    ensures out <= g.strict.out
  {
    DecodeExtends(src, ip, out, Strict(g.total));
  }

  lemma LitPrefix(src: seq<byte>, ip: nat, out: seq<byte>, token: byte, length: nat, g: Goal)
    requires ip + length <= |src| && g.strict.Done? && Lit(src, ip, out, token, length, g)
    ensures out + src[ip..ip + length] <= g.strict.out
  {
    if ip + length < |src| {
      LiteralsInside(src, ip, out, token, length, g);
      OffPrefix(src, ip + length, out + src[ip..ip + length], token, g);
    } else {
      LiteralsAtEnd(src, ip, out, token, length, g);
      assert src[ip..ip + length] == src[ip..];
    }
  }

  lemma OffPrefix(src: seq<byte>, ip: nat, out: seq<byte>, token: byte, g: Goal)
    requires ip <= |src| && g.strict.Done? && Off(src, ip, out, token, g)
    ensures out <= g.strict.out
  {
    ReadOffset(src, ip, out, token, g);
    var offset := LE16(src[ip], src[ip + 1]);
    if token % 16 != ML_MASK {
      ShortMatch(src, ip + 2, out, token, offset, g);
      MatPrefix(src, ip + 2, out, offset, token % 16 + MINMATCH, g);
    } else {
      LongMatch(src, ip + 2, out, token, offset, g);
      var l := ReadLen(src, ip + 2);
      MatPrefix(src, l.next, out, offset, l.value + ML_MASK + MINMATCH, g);
    }
  }

  lemma MatPrefix(src: seq<byte>, ip: nat, out: seq<byte>, offset: nat, length: nat, g: Goal)
    requires ip <= |src| && g.strict.Done? && Mat(src, ip, out, offset, length, g)
    ensures 1 <= offset <= |out| && CopyMatch(out, offset, length) <= g.strict.out
    ensures out <= g.strict.out
  {
    MatchExtends(src, ip, out, offset, length, Strict(g.total));
  }
}
