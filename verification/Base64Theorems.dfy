/** What the base64 codec guarantees: round trips, the accepted language, chunk independence. */
module Base64Theorems {
  import opened Bytes
  import opened Seqs
  import opened Base64Spec

  // ---------- one block ----------

  lemma SextetOfLetter(v: Byte)
    requires v < 64
    ensures Sextet(Letter(v)) == v
    ensures Letter(v) != PAD && Letter(v) != LF
  {
  }

  lemma LetterOfSextet(c: Byte)
    requires IsBase64(c)
    ensures Sextet(c) < 64 && Letter(Sextet(c)) == c
    ensures c != PAD && c != LF
  {
  }

  lemma Low6(x: Byte)
    ensures x & 0x3F < 64
  {
  }

  lemma CharSextets(b0: Byte, b1: Byte, b2: Byte)
    ensures Sextet(Char0(b0)) == (b0 >> 2) & 0x3F
    ensures Sextet(Char1(b0, b1)) == ((b0 << 4) + (b1 >> 4)) & 0x3F
    ensures Sextet(Char2(b1, b2)) == ((b1 << 2) + (b2 >> 6)) & 0x3F
    ensures Sextet(Char3(b2)) == b2 & 0x3F
    ensures IsBase64(Char0(b0)) && IsBase64(Char1(b0, b1)) && IsBase64(Char2(b1, b2)) && IsBase64(Char3(b2))
    ensures Char2(b1, b2) != PAD && Char3(b2) != PAD
  {
    Low6(b0 >> 2);
    Low6((b0 << 4) + (b1 >> 4));
    Low6((b1 << 2) + (b2 >> 6));
    Low6(b2);
    SextetOfLetter((b0 >> 2) & 0x3F);
    SextetOfLetter(((b0 << 4) + (b1 >> 4)) & 0x3F);
    SextetOfLetter(((b1 << 2) + (b2 >> 6)) & 0x3F);
    SextetOfLetter(b2 & 0x3F);
  }

  /** The three bytes come back from the four sextets. */
  lemma BitsBack(b0: Byte, b1: Byte, b2: Byte)
    ensures (((b0 >> 2) & 0x3F) << 2) | ((((b0 << 4) + (b1 >> 4)) & 0x3F) >> 4) == b0
    ensures (((((b0 << 4) + (b1 >> 4)) & 0x3F) << 4) & 0xF0) | ((((b1 << 2) + (b2 >> 6)) & 0x3F) >> 2) == b1
    ensures (((((b1 << 2) + (b2 >> 6)) & 0x3F) << 6) & 0xC0) | (b2 & 0x3F) == b2
  {
  }

  lemma BytesBack(b0: Byte, b1: Byte, b2: Byte)
    ensures Byte0(Char0(b0), Char1(b0, b1)) == b0
    ensures Byte1(Char1(b0, b1), Char2(b1, b2)) == b1
    ensures Byte2(Char2(b1, b2), Char3(b2)) == b2
  {
    CharSextets(b0, b1, b2);
    BitsBack(b0, b1, b2);
    hide Char0, Char1, Char2, Char3, Sextet;
  }

  /** A block made by the encoder decodes to the bytes it was made from. */
  lemma QuadDecodes(b: seq<Byte>, p: nat, rest: seq<Byte>)
    requires p < |b| && (|b| - p < 3 ==> rest == [])
    ensures DecodeBlock(Quad(b, p) + rest) == Piece(true, if |b| - p < 3 then b[p..] else b[p..p + 3])
  {
    var n := |b| - p;
    var b0, b1, b2 := b[p], if n > 1 then b[p + 1] else 0, if n > 2 then b[p + 2] else 0;
    BytesBack(b0, b1, b2);
    CharSextets(b0, b1, b2);
    hide Char0, Char1, Char2, Char3, Byte0, Byte1, Byte2, Sextet;
  }

  lemma EncodeNext(b: seq<Byte>, p: nat)
    requires p < |b|
    ensures EncodeFrom(b, p) == Quad(b, p) + EncodeFrom(b, p + 3) && |Quad(b, p)| == 4
    ensures |b| - p < 3 ==> EncodeFrom(b, p + 3) == []
  {
  }

  lemma EncodeEnd(b: seq<Byte>, p: nat)
    requires |b| <= p <= |b| + 2
    ensures DecodeStrict(EncodeFrom(b, p)) == Piece(true, [])
  {
  }

  lemma StrictNext(quad: seq<Byte>, rest: seq<Byte>, bytes: seq<Byte>)
    requires |quad| == 4 && DecodeBlock(quad + rest) == Piece(true, bytes)
    ensures DecodeStrict(quad + rest) == Piece(DecodeStrict(rest).ok, bytes + DecodeStrict(rest).bytes)
  {
    hide DecodeBlock;
    SplitLeft(quad, rest, 4);
    EmptyLeft(rest);
  }

  lemma {:induction false} StrictRoundTripFrom(b: seq<Byte>, p: nat)
    requires p <= |b| + 2
    ensures DecodeStrict(EncodeFrom(b, p)) == Piece(true, if p < |b| then b[p..] else [])
    decreases |b| + 3 - p
  {
    hide *;
    if p < |b| {
      var rest := EncodeFrom(b, p + 3);
      EncodeNext(b, p);
      QuadDecodes(b, p, rest);
      StrictRoundTripFrom(b, p + 3);
      StrictNext(Quad(b, p), rest, if |b| - p < 3 then b[p..] else b[p..p + 3]);
      if p + 3 < |b| {
        Cut(b, p, p + 3);
      }
    } else {
      EncodeEnd(b, p);
    }
  }

  /** Decoding without a context undoes encoding, for every byte string. */
  lemma StrictRoundTrip(b: seq<Byte>)
    ensures DecodeStrict(Encode(b)) == Piece(true, b)
  {
    StrictRoundTripFrom(b, 0);
    assert b[0..] == b;
  }

  // ---------- streams and units ----------

  predicate Unpadded(s: seq<Byte>) { PAD !in s }

  /** Exactly when a newline-free text is accepted as a unit: the stream decoder accepts it, it ends
      on a group boundary, and there is no padding before the last group. The output is the same. */
  lemma {:induction false} StrictVersusStream(s: seq<Byte>)
    ensures DecodeStrict(s).ok <==>
              && DecodeGroups(s).ok && |s| % 4 == 0
              && (s == [] || Unpadded(s[..|s| - 4]))
    ensures DecodeStrict(s).ok ==> DecodeGroups(s) == Run(true, DecodeStrict(s).bytes, [])
  {
    if |s| >= 4 {
      StrictVersusStream(s[4..]);
      BlockOfMany(s);
      assert |s| % 4 == |s[4..]| % 4;
      hide DecodeBlock;
      if |s| >= 8 {
        assert s[..|s| - 4] == s[..4] + s[4..][..|s| - 8];
      }
    }
  }

  /** Further input changes the outcome of a block only by forbidding padding. */
  lemma BlockOfMany(s: seq<Byte>)
    requires |s| >= 4
    ensures DecodeBlock(s).ok <==> DecodeBlock(s[..4]).ok && (|s| == 4 || Unpadded(s[..4]))
    ensures DecodeBlock(s).ok ==> DecodeBlock(s) == DecodeBlock(s[..4])
  {
  }

  /** Newlines inserted anywhere into an encoding do not disturb a fresh context: the bytes come back
      and nothing is carried over. */
  lemma StreamRoundTrip(b: seq<Byte>, text: seq<Byte>)
    requires DropNewlines(text) == Encode(b)
    ensures Goal(true, [], text) == Run(true, b, [])
  {
    StrictRoundTrip(b);
    StrictVersusStream(Encode(b));
    EmptyLeft(DropNewlines(text));
  }

  // ---------- the accepted language ----------

  predicate AllBase64(s: seq<Byte>) { forall k :: 0 <= k < |s| ==> IsBase64(s[k]) }

  /** A last group: four letters, three and "=", or two and "==". */
  predicate LastGroup(t: seq<Byte>)
    requires |t| == 4
  {
    && IsBase64(t[0]) && IsBase64(t[1])
    && if t[2] == PAD then t[3] == PAD else IsBase64(t[2]) && (IsBase64(t[3]) || t[3] == PAD)
  }

  predicate InLanguage(s: seq<Byte>)
  {
    && |s| % 4 == 0
    && (s == [] || (AllBase64(s[..|s| - 4]) && LastGroup(s[|s| - 4..])))
  }

  lemma BlockLanguage(s: seq<Byte>)
    requires |s| >= 4
    ensures DecodeBlock(s).ok <==> if |s| == 4 then LastGroup(s) else AllBase64(s[..4])
  {
    LetterOfSextetAll();
  }

  lemma LetterOfSextetAll()
    ensures !IsBase64(PAD)
  {
  }

  lemma AllBase64Concat(a: seq<Byte>, b: seq<Byte>)
    ensures AllBase64(a + b) <==> AllBase64(a) && AllBase64(b)
  {
    hide IsBase64;
    assert forall i :: 0 <= i < |a| ==> (a + b)[i] == a[i];
    assert forall i :: 0 <= i < |b| ==> (a + b)[|a| + i] == b[i];
  }

  lemma {:induction false} StrictLanguage(s: seq<Byte>)
    ensures DecodeStrict(s).ok <==> InLanguage(s)
  {
    if |s| >= 4 {
      StrictLanguage(s[4..]);
      BlockLanguage(s);
      assert |s| % 4 == |s[4..]| % 4;
      hide DecodeBlock, LastGroup, IsBase64;
      if |s| >= 8 {
        var body := s[..|s| - 4];
        assert body == s[..4] + s[4..][..|s| - 8];
        assert s[4..][|s| - 8..] == s[|s| - 4..];
        AllBase64Concat(s[..4], s[4..][..|s| - 8]);
      } else if |s| == 4 {
        assert s[0..] == s;
      }
    }
  }

  // ---------- re-encoding ----------

  /** The bits of the last group that no byte uses are zero (section 3.5 of RFC 4648). */
  predicate UnusedBitsZero(t: seq<Byte>)
    requires |t| == 4
  {
    if t[2] == PAD then Sextet(t[1]) & 0x0F == 0
    else if t[3] == PAD then Sextet(t[2]) & 0x03 == 0
    else true
  }

  lemma SextetBits(s0: Byte, s1: Byte, s2: Byte, s3: Byte)
    requires s0 < 64 && s1 < 64 && s2 < 64 && s3 < 64
    ensures (((s0 << 2) | (s1 >> 4)) >> 2) & 0x3F == s0
    ensures ((((s0 << 2) | (s1 >> 4)) << 4) + ((((s1 << 4) & 0xF0) | (s2 >> 2)) >> 4)) & 0x3F == s1
    ensures (((((s1 << 4) & 0xF0) | (s2 >> 2)) << 2) + ((((s2 << 6) & 0xC0) | s3) >> 6)) & 0x3F == s2
    ensures (((s2 << 6) & 0xC0) | s3) & 0x3F == s3
    ensures ((((s0 << 2) | (s1 >> 4)) << 4) & 0x3F == s1) <==> s1 & 0x0F == 0
    ensures ((((s1 << 4) & 0xF0) | (s2 >> 2)) << 2) & 0x3F == s2 <==> s2 & 0x03 == 0
  {
  }

  lemma LetterIs(v: Byte, c: Byte)
    requires v < 64 && IsBase64(c)
    ensures Letter(v) == c <==> v == Sextet(c)
  {
    SextetOfLetter(v);
    LetterOfSextet(c);
    hide Letter, IsBase64;
  }

  lemma CharsBack(c0: Byte, c1: Byte, c2: Byte, c3: Byte)
    requires IsBase64(c0) && IsBase64(c1) && IsBase64(c2) && IsBase64(c3)
    ensures Char0(Byte0(c0, c1)) == c0
    ensures Char1(Byte0(c0, c1), Byte1(c1, c2)) == c1
    ensures Char2(Byte1(c1, c2), Byte2(c2, c3)) == c2
    ensures Char3(Byte2(c2, c3)) == c3
  {
    var s0, s1, s2, s3 := Sextet(c0), Sextet(c1), Sextet(c2), Sextet(c3);
    LetterOfSextet(c0);
    LetterOfSextet(c1);
    LetterOfSextet(c2);
    LetterOfSextet(c3);
    SextetBits(s0, s1, s2, s3);
    hide Letter, Sextet, IsBase64;
  }

  lemma LastCharsBack(c0: Byte, c1: Byte, c2: Byte)
    requires IsBase64(c0) && IsBase64(c1)
    ensures Char1(Byte0(c0, c1), 0) == c1 <==> Sextet(c1) & 0x0F == 0
    ensures IsBase64(c2) ==> (Char2(Byte1(c1, c2), 0) == c2 <==> Sextet(c2) & 0x03 == 0)
  {
    var s0, s1 := Sextet(c0), Sextet(c1);
    LetterOfSextet(c0);
    LetterOfSextet(c1);
    ShiftLow((Byte0(c0, c1) << 4));
    Low6((Byte0(c0, c1) << 4) + (0 >> 4));
    LetterIs(((Byte0(c0, c1) << 4) + (0 >> 4)) & 0x3F, c1);
    if IsBase64(c2) {
      LetterOfSextet(c2);
      SextetBits(s0, s1, Sextet(c2), 0);
      ShiftLow(Byte1(c1, c2) << 2);
      Low6((Byte1(c1, c2) << 2) + (0 >> 6));
      LetterIs(((Byte1(c1, c2) << 2) + (0 >> 6)) & 0x3F, c2);
    } else {
      SextetBits(s0, s1, 0, 0);
    }
    hide Letter, Sextet, IsBase64;
  }

  lemma ShiftLow(x: Byte)
    ensures x + (0 >> 4) == x == x + (0 >> 6)
  {
  }

  /** Encoding the bytes of an accepted block gives the block back exactly when its unused bits are 0. */
  lemma BlockReencode(t: seq<Byte>)
    requires |t| == 4 && DecodeBlock(t).ok
    ensures DecodeBlock(t).bytes != []
    ensures Quad(DecodeBlock(t).bytes, 0) == t <==> UnusedBitsZero(t)
    ensures |DecodeBlock(t).bytes| == 3 <==> Unpadded(t)
  {
    hide Char0, Char1, Char2, Char3, Byte0, Byte1, Byte2, Sextet, IsBase64;
    LetterOfSextetAll();
    if t[2] == PAD {
      LastCharsBack(t[0], t[1], t[0]);
      CharsBack(t[0], t[1], t[0], t[0]);
    } else if t[3] == PAD {
      LastCharsBack(t[0], t[1], t[2]);
      CharsBack(t[0], t[1], t[2], t[0]);
    } else {
      CharsBack(t[0], t[1], t[2], t[3]);
    }
  }

  lemma QuadShift(x: seq<Byte>, b: seq<Byte>, p: nat)
    requires p < |b|
    ensures Quad(x + b, |x| + p) == Quad(b, p)
  {
    hide Char0, Char1, Char2, Char3;
    assert (x + b)[|x| + p] == b[p];
    assert p + 1 < |b| ==> (x + b)[|x| + p + 1] == b[p + 1];
    assert p + 2 < |b| ==> (x + b)[|x| + p + 2] == b[p + 2];
  }

  lemma {:induction false} EncodeShift(x: seq<Byte>, b: seq<Byte>, p: nat)
    requires p <= |b| + 2
    ensures EncodeFrom(x + b, |x| + p) == EncodeFrom(b, p)
    decreases |b| + 3 - p
  {
    hide Quad;
    if p < |b| {
      QuadShift(x, b, p);
      EncodeShift(x, b, p + 3);
      var y := x + b;
      assert EncodeFrom(y, |x| + p) == Quad(y, |x| + p) + EncodeFrom(y, |x| + p + 3);
    } else {
      assert EncodeFrom(b, p) == [];
    }
  }

  /** Re-encoding splits at the first group. */
  lemma EncodeFirst(c: seq<Byte>, b: seq<Byte>)
    requires c != [] && |c| <= 3 && (|c| == 3 || b == [])
    ensures Encode(c + b) == Quad(c, 0) + Encode(b)
  {
    hide Quad;
    if |c| == 3 {
      EncodeShift(c, b, 0);
      QuadPrefix(c, b);
    } else {
      EmptyRight(c);
    }
  }

  lemma QuadPrefix(c: seq<Byte>, b: seq<Byte>)
    requires |c| == 3
    ensures Quad(c + b, 0) == Quad(c, 0)
  {
  }

  /** Encoding the result of a successful strict decoding gives the input back exactly when the
      unused bits of the last group are zero. */
  lemma {:induction false} Reencode(s: seq<Byte>)
    requires DecodeStrict(s).ok
    ensures |s| % 4 == 0
    ensures Encode(DecodeStrict(s).bytes) == s <==> s == [] || UnusedBitsZero(s[|s| - 4..])
  {
    hide DecodeBlock, Encode, Quad;
    if s != [] {
      var t, s' := s[..4], s[4..];
      BlockOfMany(s);
      BlockReencode(t);
      var c, b := DecodeBlock(t).bytes, DecodeStrict(s').bytes;
      assert DecodeStrict(s).bytes == c + b;
      Reencode(s');
      EncodeFirst(c, b);
      assert s == t + s';
      if |s| == 4 {
        assert s[0..] == t;
      } else {
        assert s'[|s'| - 4..] == s[|s| - 4..];
      }
    }
  }

  // ---------- chunks ----------

  /** Chunk after chunk through one context, stopping at the first failure. */
  function Feed(carry: seq<Byte>, chunks: seq<seq<Byte>>): Run
    decreases chunks
  {
    if chunks == [] then Run(true, [], carry)
    else
      var r := DecodeGroups(carry + DropNewlines(chunks[0]));
      if !r.ok then r
      else
        var r' := Feed(r.rest, chunks[1..]);
        Run(r'.ok, r.bytes + r'.bytes, r'.rest)
  }

  lemma {:induction false} GroupsSplit(s: seq<Byte>, t: seq<Byte>)
    ensures DecodeGroups(s + t) == if DecodeGroups(s).ok
                                   then Prepend(DecodeGroups(s).bytes, DecodeGroups(DecodeGroups(s).rest + t))
                                   else DecodeGroups(s)
  {
    hide DecodeBlock;
    if |s| < 4 {
      EmptyLeft(DecodeGroups(s + t).bytes);
    } else {
      SplitLeft(s, t, 4);
      GroupsSplit(s[4..], t);
      var r := DecodeGroups(s[4..]);
      Assoc(DecodeBlock(s[..4]).bytes, r.bytes, DecodeGroups(r.rest + t).bytes);
    }
  }

  /** However a stream is cut, feeding the pieces through one context gives what one call on the whole
      gives: the same verdict, the same bytes, the same carry. */
  lemma {:induction false} ChunkInvariance(carry: seq<Byte>, chunks: seq<seq<Byte>>)
    requires |carry| < 4
    ensures Feed(carry, chunks) == Goal(true, carry, Flat(chunks))
    decreases chunks
  {
    if chunks == [] {
      EmptyRight(carry);
    } else {
      var d, rest := DropNewlines(chunks[0]), Flat(chunks[1..]);
      DropNewlinesConcat(chunks[0], rest);
      Assoc(carry, d, DropNewlines(rest));
      GroupsSplit(carry + d, DropNewlines(rest));
      var r := DecodeGroups(carry + d);
      hide DecodeGroups, DropNewlines;
      if r.ok {
        ChunkInvariance(r.rest, chunks[1..]);
      }
    }
  }

  /** What is carried over after a successful stream is the length of the text modulo four, so the
      final flush succeeds exactly when the count of non-newline characters is a multiple of four. */
  lemma {:induction false} CarryLength(s: seq<Byte>)
    ensures DecodeGroups(s).ok ==> |DecodeGroups(s).rest| == |s| % 4
  {
    hide DecodeBlock;
    if |s| >= 4 {
      CarryLength(s[4..]);
      assert |s| % 4 == |s[4..]| % 4;
    }
  }

  // ---------- buffer sizes ----------

  lemma {:induction false} GroupsLength(s: seq<Byte>)
    ensures |DecodeGroups(s).bytes| <= 3 * (|s| / 4)
    ensures AllBase64(s) ==> DecodeGroups(s).ok && |DecodeGroups(s).bytes| == 3 * (|s| / 4)
  {
    if |s| >= 4 {
      GroupsLength(s[4..]);
      LetterOfSextetAll();
      hide IsBase64;
      assert |s| / 4 == |s[4..]| / 4 + 1;
    }
  }

  /** The length base64_decode_alloc_ctx allocates for an input of `n` characters. */
  function NeedLen(n: nat): nat { 3 * (n / 4) + 2 }

  /** Every input of `n` characters fits, after `k` carried ones, exactly when the carried characters
      do not complete an extra group. */
  lemma NeedLenSuffices(k: nat, n: nat)
    requires k < 4
    ensures k + n % 4 < 4 <==>
              forall carry: seq<Byte>, text: seq<Byte> :: |carry| == k && |text| == n ==>
                |Goal(true, carry, text).bytes| <= NeedLen(n)
  {
    hide DecodeGroups;
    if k + n % 4 < 4 {
      forall carry: seq<Byte>, text: seq<Byte> | |carry| == k && |text| == n
        ensures |Goal(true, carry, text).bytes| <= NeedLen(n)
      {
        GroupsLength(carry + DropNewlines(text));
        assert (k + n) / 4 == n / 4;
        assert |carry + DropNewlines(text)| / 4 <= (k + n) / 4;
      }
    } else {
      var a: Byte := 65;
      var carry, text := seq(k, _ => a), seq(n, _ => a);
      DropNewlinesNone(text);
      assert AllBase64(carry + text);
      GroupsLength(carry + text);
      assert (k + n) / 4 == n / 4 + 1;
      assert |Goal(true, carry, text).bytes| > NeedLen(n);
    }
  }

  /** One byte more than NeedLen is always enough. */
  lemma ChunkLength(carry: seq<Byte>, text: seq<Byte>)
    requires |carry| < 4
    ensures |Goal(true, carry, text).bytes| <= NeedLen(|text|) + 1
  {
    hide DecodeGroups;
    GroupsLength(carry + DropNewlines(text));
    assert |carry + DropNewlines(text)| / 4 <= (3 + |text|) / 4 <= |text| / 4 + 1;
  }

  lemma {:induction false} StrictLength(s: seq<Byte>)
    ensures |DecodeStrict(s).bytes| <= NeedLen(|s|)
  {
    hide IsBase64;
    if |s| >= 4 {
      StrictLength(s[4..]);
      assert |s| / 4 == |s[4..]| / 4 + 1;
    }
  }

  /** size_t arithmetic: the value of 1 + BASE64_LENGTH(n) computed modulo `w`. */
  function WrappedLength(n: nat, w: nat): nat
    requires w > 0
  {
    (1 + ((n + 2) % w) / 3 * 4 % w) % w
  }

  lemma TwiceOrMore(q: nat, w: nat)
    ensures q >= 2 ==> q * w >= 2 * w
    ensures q == 1 ==> q * w == w
  {
    if q >= 2 {
      assert (q - 2) * w >= 0;
    }
  }

  lemma ModOnce(x: nat, w: nat)
    requires 0 < w && x < 2 * w
    ensures x % w == if x < w then x else x - w
  {
    var q := x / w;
    assert x == q * w + x % w;
    TwiceOrMore(q, w);
  }

  /** The test `inlen > outlen` detects overflow exactly. */
  lemma OverflowTest(n: nat, w: nat)
    requires 16 <= w && w % 4 == 0 && n < w
    ensures n > WrappedLength(n, w) <==> 1 + (n + 2) / 3 * 4 >= w
    ensures n <= WrappedLength(n, w) ==> WrappedLength(n, w) == 1 + (n + 2) / 3 * 4
  {
    ModOnce(n + 2, w);
    var m := (n + 2) % w;
    var q := m / 3 * 4;
    ModOnce(q, w);
    ModOnce(1 + q % w, w);
  }
}
