/** Reference semantics of the base64 codec of base64/base64.c, on byte sequences. */
module Base64Spec {
  import opened Bytes
  import opened Seqs

  const PAD: Byte := 61

  /** Entry `v` of the table b64str. */
  function Letter(v: Byte): (c: Byte)
    requires v < 64
  {
    if v < 26 then v + 65
    else if v < 52 then v + 71
    else if v < 62 then v - 4
    else if v == 62 then 43
    else 47
  }

  /** The table b64; 0xFF is the bit pattern of its -1 entries. */
  function Sextet(c: Byte): (v: Byte)
  {
    if 65 <= c <= 90 then c - 65
    else if 97 <= c <= 122 then c - 71
    else if 48 <= c <= 57 then c + 4
    else if c == 43 then 62
    else if c == 47 then 63
    else 0xFF
  }

  predicate IsBase64(c: Byte) { Sextet(c) != 0xFF }

  // ---------- encoding ----------

  function Char0(b0: Byte): Byte { Letter((b0 >> 2) & 0x3F) }
  function Char1(b0: Byte, b1: Byte): Byte { Letter(((b0 << 4) + (b1 >> 4)) & 0x3F) }
  function Char2(b1: Byte, b2: Byte): Byte { Letter(((b1 << 2) + (b2 >> 6)) & 0x3F) }
  function Char3(b2: Byte): Byte { Letter(b2 & 0x3F) }

  /** The four output characters of the group of up to three bytes that starts at `b[p]`. */
  function Quad(b: seq<Byte>, p: nat): (s: seq<Byte>)
    requires p < |b|
    ensures |s| == 4
  {
    var n := |b| - p;
    var b1 := if n > 1 then b[p + 1] else 0;
    var b2 := if n > 2 then b[p + 2] else 0;
    [Char0(b[p]),
     Char1(b[p], b1),
     if n > 1 then Char2(b1, b2) else PAD,
     if n > 2 then Char3(b2) else PAD]
  }

  /** The encoding of `b[p..]`. */
  function EncodeFrom(b: seq<Byte>, p: nat): (s: seq<Byte>)
    requires p <= |b| + 2
    ensures |s| == if p < |b| then (|b| - p + 2) / 3 * 4 else 0
    decreases |b| + 3 - p
  {
    if p >= |b| then [] else Quad(b, p) + EncodeFrom(b, p + 3)
  }

  /** The length is BASE64_LENGTH(|b|). */
  function Encode(b: seq<Byte>): (s: seq<Byte>)
    ensures |s| == (|b| + 2) / 3 * 4
  {
    EncodeFrom(b, 0)
  }

  /** Group number `g` fills the characters from 4 * g on. */
  lemma {:induction false} QuadAt(b: seq<Byte>, p: nat, g: nat, k: nat)
    requires p + 3 * g < |b| && k < 4
    ensures 4 * g + 4 <= |EncodeFrom(b, p)|
    ensures |b| <= p + 3 * g + 3 ==> |EncodeFrom(b, p)| == 4 * g + 4
    ensures EncodeFrom(b, p)[4 * g + k] == Quad(b, p + 3 * g)[k]
    decreases g
  {
    hide Quad;
    if g > 0 {
      QuadAt(b, p + 3, g - 1, k);
    }
  }

  lemma EncodeQuadAt(b: seq<Byte>, g: nat)
    requires 3 * g < |b|
    ensures 4 * g + 4 <= |Encode(b)|
    ensures |b| <= 3 * g + 3 ==> |Encode(b)| == 4 * g + 4
    ensures forall k :: 4 * g <= k < 4 * g + 4 ==> Encode(b)[k] == Quad(b, 3 * g)[k - 4 * g]
  {
    hide Quad;
    QuadAt(b, 0, g, 0);
    forall k | 4 * g <= k < 4 * g + 4
      ensures Encode(b)[k] == Quad(b, 3 * g)[k - 4 * g]
    {
      QuadAt(b, 0, g, k - 4 * g);
    }
  }

  // ---------- decoding ----------

  function Byte0(c0: Byte, c1: Byte): Byte { (Sextet(c0) << 2) | (Sextet(c1) >> 4) }
  function Byte1(c1: Byte, c2: Byte): Byte { ((Sextet(c1) << 4) & 0xF0) | (Sextet(c2) >> 2) }
  function Byte2(c2: Byte, c3: Byte): Byte { ((Sextet(c2) << 6) & 0xC0) | Sextet(c3) }

  /** Success flag and the bytes produced, the latter also when decoding fails part-way. */
  datatype Piece = Piece(ok: bool, bytes: seq<Byte>)

  /** One block. `s` is everything the block decoder is told about: padding is only accepted when
      exactly four characters are left. */
  function DecodeBlock(s: seq<Byte>): (p: Piece)
    ensures p.ok ==> 4 <= |s|
    ensures |p.bytes| <= 3
    ensures !p.ok ==> |p.bytes| <= 2
  {
    if |s| < 2 || !IsBase64(s[0]) || !IsBase64(s[1]) then Piece(false, [])
    else
      var b0 := Byte0(s[0], s[1]);
      if |s| == 2 then Piece(false, [b0])
      else if s[2] == PAD then Piece(|s| == 4 && s[3] == PAD, [b0])
      else if !IsBase64(s[2]) then Piece(false, [b0])
      else
        var b1 := Byte1(s[1], s[2]);
        if |s| == 3 then Piece(false, [b0, b1])
        else if s[3] == PAD then Piece(|s| == 4, [b0, b1])
        else if !IsBase64(s[3]) then Piece(false, [b0, b1])
        else Piece(true, [b0, b1, Byte2(s[2], s[3])])
  }

  /** Decoding without a context: newlines are garbage and the input is one unit. */
  function DecodeStrict(s: seq<Byte>): (p: Piece)
  {
    if s == [] then Piece(true, [])
    else
      var p := DecodeBlock(s);
      if !p.ok then p
      else
        var q := DecodeStrict(s[4..]);
        Piece(q.ok, p.bytes + q.bytes)
  }

  /** Outcome of decoding a stream: `rest` is the incomplete group carried over on success. */
  datatype Run = Run(ok: bool, bytes: seq<Byte>, rest: seq<Byte>)

  /** Cut a newline-free stream into groups of four and decode each group on its own. */
  function DecodeGroups(s: seq<Byte>): (r: Run)
    ensures |r.rest| < 4
  {
    if |s| < 4 then Run(true, [], s)
    else
      var p := DecodeBlock(s[..4]);
      if !p.ok then Run(false, p.bytes, [])
      else
        var r := DecodeGroups(s[4..]);
        Run(r.ok, p.bytes + r.bytes, r.rest)
  }

  function Keep(c: Byte): seq<Byte> { if c == LF then [] else [c] }

  function DropNewlines(s: seq<Byte>): (t: seq<Byte>)
    ensures |t| <= |s|
    ensures LF !in t
  {
    if s == [] then [] else Keep(s[0]) + DropNewlines(s[1..])
  }

  predicate IsGarbage(c: Byte) { !IsBase64(c) && c != PAD }

  /** What clear_garbage leaves: alphabet and padding characters, in order. */
  function Clean(s: seq<Byte>): (t: seq<Byte>)
    ensures forall k :: 0 <= k < |t| ==> !IsGarbage(t[k])
    ensures |t| <= |s|
  {
    if s == [] then [] else (if IsGarbage(s[0]) then [] else [s[0]]) + Clean(s[1..])
  }

  // ---------- basic laws ----------

  lemma {:induction false} DropNewlinesConcat(s: seq<Byte>, t: seq<Byte>)
    ensures DropNewlines(s + t) == DropNewlines(s) + DropNewlines(t)
  {
    if s == [] {
      assert s + t == t;
    } else {
      assert (s + t)[1..] == s[1..] + t;
      DropNewlinesConcat(s[1..], t);
      Assoc(Keep(s[0]), DropNewlines(s[1..]), DropNewlines(t));
    }
  }

  lemma DropNewlinesSnoc(s: seq<Byte>, p: nat, k: nat)
    requires p <= k < |s|
    ensures DropNewlines(s[p..k + 1]) == DropNewlines(s[p..k]) + Keep(s[k])
  {
    DropNewlinesConcat(s[p..k], [s[k]]);
    assert s[p..k + 1] == s[p..k] + [s[k]];
    assert [s[k]][1..] == [];
  }

  lemma {:induction false} DropNewlinesNone(s: seq<Byte>)
    requires LF !in s
    ensures DropNewlines(s) == s
  {
    if s != [] {
      DropNewlinesNone(s[1..]);
    }
  }

  /** A successful block has no newline among its first four characters, and further input changes
      its outcome only through padding. */
  lemma BlockHasNoNewline(s: seq<Byte>)
    requires DecodeBlock(s).ok
    ensures LF !in s[..4]
    ensures DecodeBlock(s[..4]) == DecodeBlock(s)
  {
  }

  // ---------- what a call still has to produce ----------

  ghost function Prepend(b: seq<Byte>, r: Run): Run { Run(r.ok, b + r.bytes, r.rest) }

  /** What is still to be decoded with `carry` buffered and `s` unread: with newlines ignored the
      input is a stream, otherwise one unit. */
  ghost function Goal(ignoreNewlines: bool, carry: seq<Byte>, s: seq<Byte>): Run
  {
    if ignoreNewlines then DecodeGroups(carry + DropNewlines(s))
    else var p := DecodeStrict(s); Run(p.ok, p.bytes, [])
  }

  lemma PrependTwice(a: seq<Byte>, b: seq<Byte>, r: Run)
    ensures Prepend(a, Prepend(b, r)) == Prepend(a + b, r)
  {
    Assoc(a, b, r.bytes);
  }

  lemma GroupsCons(g: seq<Byte>, s: seq<Byte>)
    requires |g| == 4
    ensures DecodeGroups(g + s) == if DecodeBlock(g).ok then Prepend(DecodeBlock(g).bytes, DecodeGroups(s))
                                   else Run(false, DecodeBlock(g).bytes, [])
  {
    hide DecodeBlock;
    SplitLeft(g, s, 4);
    assert g[..4] == g && g[4..] + s == s;
  }

  lemma GoalFast(nl: bool, s: seq<Byte>)
    requires DecodeBlock(s).ok
    ensures Goal(nl, [], s) == Prepend(DecodeBlock(s).bytes, Goal(nl, [], s[4..]))
  {
    BlockHasNoNewline(s);
    hide DecodeBlock;
    if nl {
      assert s == s[..4] + s[4..];
      DropNewlinesConcat(s[..4], s[4..]);
      DropNewlinesNone(s[..4]);
      GroupsCons(s[..4], DropNewlines(s[4..]));
      EmptyLeft(DropNewlines(s));
      EmptyLeft(DropNewlines(s[4..]));
    }
  }

  lemma GoalNewline(carry: seq<Byte>, s: seq<Byte>)
    requires s != [] && s[0] == LF
    ensures Goal(true, carry, s) == Goal(true, carry, s[1..])
  {
    EmptyLeft(DropNewlines(s[1..]));
  }

  /** Reading up to position `q` completes the buffered characters to `block`. */
  lemma GoalBlock(carry: seq<Byte>, s: seq<Byte>, p: nat, q: nat, block: seq<Byte>)
    requires p <= q <= |s| && block == carry + DropNewlines(s[p..q])
    ensures Goal(true, carry, s[p..]) == DecodeGroups(block + DropNewlines(s[q..]))
  {
    Cut(s, p, q);
    DropNewlinesConcat(s[p..q], s[q..]);
    Assoc(carry, DropNewlines(s[p..q]), DropNewlines(s[q..]));
  }

  lemma GoalEnd(nl: bool, carry: seq<Byte>)
    requires |carry| < 4
    ensures Goal(nl, carry, []) == Run(true, [], if nl then carry else [])
  {
    EmptyRight(carry);
  }

  lemma GoalStuck(s: seq<Byte>)
    requires s != [] && !DecodeBlock(s).ok
    ensures Goal(false, [], s) == Run(false, DecodeBlock(s).bytes, [])
  {
  }

  /** The step through get_4: the completed block ends the call when it is bad, is used up when it
      is good, and becomes the new carry when the input ran out. */
  lemma GoalStep(carry: seq<Byte>, s: seq<Byte>, p: nat, q: nat, block: seq<Byte>)
    requires p <= q <= |s| && block == carry + DropNewlines(s[p..q])
    requires |block| == 4 || (|block| < 4 && q == |s|)
    ensures Goal(true, carry, s[p..])
         == if |block| < 4 then Run(true, [], block)
            else if DecodeBlock(block).ok then Prepend(DecodeBlock(block).bytes, Goal(true, [], s[q..]))
            else Run(false, DecodeBlock(block).bytes, [])
  {
    hide DecodeBlock;
    GoalBlock(carry, s, p, q, block);
    if |block| < 4 {
      assert DropNewlines(s[q..]) == [];
      EmptyRight(block);
    } else {
      GroupsCons(block, DropNewlines(s[q..]));
      EmptyLeft(DropNewlines(s[q..]));
    }
  }
}
