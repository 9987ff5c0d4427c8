/** The UTF-8 routines of str_utf8/str_utf8.c on NUL-free byte strings. */
module Utf8 {
  import opened Bytes
  import opened Seqs

  const SPACE: Byte := 32

  /** utf8_check: the length a lead byte announces (forms of section 2 of RFC 2279), 0 for none. */
  function Check(c: Byte): (n: nat)
    ensures n <= 6
  {
    if c & 0x80 == 0 then 1
    else if c & 0xE0 == 0xC0 then 2
    else if c & 0xF0 == 0xE0 then 3
    else if c & 0xF8 == 0xF0 then 4
    else if c & 0xFC == 0xF8 then 5
    else if c & 0xFE == 0xFC then 6
    else 0
  }

  predicate IsBreak(c: Byte) { c == CR || c == LF || c == TAB }

  /** A whole character starts `s`. */
  predicate CharAhead(s: seq<Byte>)
  {
    s != [] && 0 < Check(s[0]) <= |s|
  }

  /** What utf8_strlen counts: characters up to the first byte that starts none. */
  function Count(s: seq<Byte>): nat
  {
    if CharAhead(s) then 1 + Count(s[Check(s[0])..]) else 0
  }

  /** What utf8_strncpy copies. `blank` says that a space here would be leading or doubled. */
  function Cut(s: seq<Byte>, blank: bool, max: nat): seq<Byte>
  {
    if s == [] || max == 0 then []
    else if IsBreak(s[0]) then Cut(s[1..], blank, max)
    else if s[0] == SPACE then
      if blank then Cut(s[1..], true, max) else [SPACE] + Cut(s[1..], true, max - 1)
    else if CharAhead(s) then s[..Check(s[0])] + Cut(s[Check(s[0])..], false, max - 1)
    else []
  }

  /** Whole characters only, none of them a break, no space leading or after another space. */
  predicate Normal(s: seq<Byte>, blank: bool)
  {
    s == [] ||
    (CharAhead(s) && !IsBreak(s[0]) && (s[0] == SPACE ==> !blank)
     && Normal(s[Check(s[0])..], s[0] == SPACE))
  }

  // ---------- the routines ----------

  /** utf8_strlen. */
  method Utf8Strlen(src: seq<Byte>) returns (ulen: nat)
    ensures ulen == Count(src)
  {
    hide Check;
    ulen := 0;
    var i := 0;
    assert src[0..] == src;
    while i < |src|
      invariant i <= |src|
      invariant ulen + Count(src[i..]) == Count(src)
    {
      var tmp := Check(src[i]);
      if tmp > 0 && i + tmp <= |src| {
        assert src[i..][tmp..] == src[i + tmp..];
        i := i + tmp;
        ulen := ulen + 1;
      } else {
        break;
      }
    }
  }

  lemma CutAt(src: seq<Byte>, i: nat, blank: bool, m: nat)
    requires i < |src| && m > 0
    ensures Cut(src[i..], blank, m) ==
            if IsBreak(src[i]) then Cut(src[i + 1..], blank, m)
            else if src[i] == SPACE then
              if blank then Cut(src[i + 1..], true, m) else [SPACE] + Cut(src[i + 1..], true, m - 1)
            else if Check(src[i]) > 0 && i + Check(src[i]) <= |src| then
              src[i..i + Check(src[i])] + Cut(src[i + Check(src[i])..], false, m - 1)
            else []
  {
    hide *;
    var s := src[i..];
    CutNext(s, blank, m);
    assert s[0] == src[i] && s[1..] == src[i + 1..];
    var k := Check(s[0]);
    if k > 0 && i + k <= |src| {
      Seqs.Cut(src, i, i + k);
    }
  }

  lemma CutNext(s: seq<Byte>, blank: bool, m: nat)
    requires s != [] && m > 0
    ensures Cut(s, blank, m) ==
            if IsBreak(s[0]) then Cut(s[1..], blank, m)
            else if s[0] == SPACE then if blank then Cut(s[1..], true, m) else [SPACE] + Cut(s[1..], true, m - 1)
            else if 0 < Check(s[0]) <= |s| then s[..Check(s[0])] + Cut(s[Check(s[0])..], false, m - 1)
            else []
  {
    hide Check, IsBreak;
  }

  lemma CutEnd(src: seq<Byte>, i: nat, blank: bool, m: nat)
    requires i == |src| || (i < |src| && m == 0)
    ensures Cut(src[i..], blank, m) == []
  {
  }

  /** The characters of the cut, one by one. */
  lemma CutCounts(src: seq<Byte>, i: nat, blank: bool, m: nat)
    requires i < |src| && m > 0
    ensures src[i] == SPACE && !blank && !IsBreak(src[i]) ==>
              Count([SPACE] + Cut(src[i + 1..], true, m - 1)) == 1 + Count(Cut(src[i + 1..], true, m - 1))
    ensures var n := Check(src[i]);
            n > 0 && i + n <= |src| ==>
              Count(src[i..i + n] + Cut(src[i + n..], false, m - 1)) == 1 + Count(Cut(src[i + n..], false, m - 1))
  {
    var n := Check(src[i]);
    SpaceIsOneByte();
    hide Check, Cut, IsBreak;
    FirstOf([SPACE], Cut(src[i + 1..], true, m - 1));
    if n > 0 && i + n <= |src| {
      FirstOf(src[i..i + n], Cut(src[i + n..], false, m - 1));
    }
  }

  /** The state of the loop of utf8_strncpy: `done` is the part of `out` copied so far, in `n` characters, and
      `m` more may follow. */
  ghost predicate Copying(src: seq<Byte>, i: nat, blank: bool, m: nat, n: nat, done: seq<Byte>, out: seq<Byte>)
  {
    i <= |src| && done + Cut(src[i..], blank, m) == out && n + Count(Cut(src[i..], blank, m)) == Count(out)
  }

  lemma CopyStart(src: seq<Byte>, max: nat)
    ensures Copying(src, 0, true, max, 0, [], Cut(src, true, max))
  {
    assert src[0..] == src;
    EmptyLeft(Cut(src, true, max));
  }

  /** A turn that takes a character or a blank, `piece`, and leaves the text from `j` on. */
  lemma CopyPiece(src: seq<Byte>, i: nat, blank: bool, m: nat, n: nat, done: seq<Byte>, out: seq<Byte>,
                  j: nat, blank': bool, piece: seq<Byte>)
    requires m > 0 && i < j <= |src| && Copying(src, i, blank, m, n, done, out)
    requires Cut(src[i..], blank, m) == piece + Cut(src[j..], blank', m - 1)
    requires Count(piece + Cut(src[j..], blank', m - 1)) == 1 + Count(Cut(src[j..], blank', m - 1))
    ensures Copying(src, j, blank', m - 1, n + 1, done + piece, out) && |done + piece| <= |out|
  {
    hide Cut, Count;
    Assoc(done, piece, Cut(src[j..], blank', m - 1));
  }

  /** A turn that takes a byte that is left out. */
  lemma CopySkip(src: seq<Byte>, i: nat, blank: bool, m: nat, n: nat, done: seq<Byte>, out: seq<Byte>)
    requires m > 0 && i < |src| && Copying(src, i, blank, m, n, done, out)
    requires IsBreak(src[i]) || (src[i] == SPACE && blank)
    ensures Copying(src, i + 1, blank, m, n, done, out)
  {
    CutAt(src, i, blank, m);
    hide Cut, IsBreak, Count;
  }

  lemma CopySpace(src: seq<Byte>, i: nat, m: nat, n: nat, done: seq<Byte>, out: seq<Byte>)
    requires m > 0 && i < |src| && Copying(src, i, false, m, n, done, out)
    requires src[i] == SPACE && !IsBreak(src[i])
    ensures Copying(src, i + 1, true, m - 1, n + 1, done + [SPACE], out) && |done + [SPACE]| <= |out|
  {
    CutAt(src, i, false, m);
    CutCounts(src, i, false, m);
    assert src[i] == SPACE;
    hide *;
    CopyPiece(src, i, false, m, n, done, out, i + 1, true, [src[i]]);
  }

  lemma CopyChar(src: seq<Byte>, i: nat, blank: bool, m: nat, n: nat, done: seq<Byte>, out: seq<Byte>)
    requires m > 0 && i < |src| && Copying(src, i, blank, m, n, done, out)
    requires src[i] != SPACE && !IsBreak(src[i]) && 0 < Check(src[i]) <= |src| - i
    ensures var j := i + Check(src[i]);
            Copying(src, j, false, m - 1, n + 1, done + src[i..j], out) && |done + src[i..j]| <= |out|
  {
    hide *;
    CutAt(src, i, blank, m);
    CutCounts(src, i, blank, m);
    var j := i + Check(src[i]);
    CopyPiece(src, i, blank, m, n, done, out, j, false, src[i..j]);
  }

  lemma CopyBad(src: seq<Byte>, i: nat, blank: bool, m: nat, n: nat, done: seq<Byte>, out: seq<Byte>)
    requires m > 0 && i < |src| && Copying(src, i, blank, m, n, done, out)
    requires src[i] != SPACE && !IsBreak(src[i]) && !(0 < Check(src[i]) <= |src| - i)
    ensures done == out && n == Count(out)
  {
    CutAt(src, i, blank, m);
    hide Cut, Check, IsBreak;
    EmptyRight(done);
  }

  lemma CopyEnd(src: seq<Byte>, i: nat, blank: bool, m: nat, n: nat, done: seq<Byte>, out: seq<Byte>)
    requires (i == |src| || m == 0) && Copying(src, i, blank, m, n, done, out)
    ensures done == out && n == Count(out)
  {
    CutEnd(src, i, blank, m);
    EmptyRight(done);
  }

  /** The buffer `b` of utf8_strncpy, `was` before the call, with `done` in it. */
  ghost predicate Buffered(b: seq<Byte>, was: seq<Byte>, done: seq<Byte>)
  {
    |done| <= |b| == |was| && b[..|done|] == done && forall k :: |done| <= k < |b| ==> b[k] == was[k]
  }

  lemma BufferedStart(b: seq<Byte>)
    ensures Buffered(b, b, [])
  {
  }

  lemma BufferedMore(b: seq<Byte>, b': seq<Byte>, was: seq<Byte>, done: seq<Byte>, piece: seq<Byte>)
    requires Buffered(b, was, done) && |done + piece| <= |b| == |b'| && b'[..|done + piece|] == done + piece
    requires forall k :: |done + piece| <= k < |b| ==> b'[k] == b[k]
    ensures Buffered(b', was, done + piece)
  {
  }

  /** memcpy of a piece behind the bytes copied so far. */
  method Append(dest: array<Byte>, p: nat, piece: seq<Byte>, ghost was: seq<Byte>, ghost done: seq<Byte>)
    requires p == |done| && |done + piece| <= dest.Length && Buffered(dest[..], was, done)
    modifies dest
    ensures Buffered(dest[..], was, done + piece)
  {
    ghost var b := dest[..];
    forall k | 0 <= k < |piece| {
      dest[p + k] := piece[k];
    }
    assert forall k :: 0 <= k < p ==> dest[k] == b[k];
    BufferedMore(b, dest[..], was, done, piece);
  }

  /** One turn of the loop of utf8_strncpy; `ok` is false where it breaks. */
  method CopyTurn(dest: array<Byte>, src: seq<Byte>, p: nat, i: nat, n: nat, blank: bool, max: nat,
                  ghost was: seq<Byte>, ghost done: seq<Byte>, ghost out: seq<Byte>)
    returns (p': nat, i': nat, n': nat, blank': bool, ok: bool, ghost done': seq<Byte>)
    requires i < |src| && n < max && p == |done| && |out| < dest.Length
    requires Copying(src, i, blank, max - n, n, done, out) && Buffered(dest[..], was, done)
    modifies dest
    ensures n' <= max && p' == |done'| && i' <= |src| && Buffered(dest[..], was, done')
    ensures ok ==> i < i' && Copying(src, i', blank', max - n', n', done', out)
    ensures !ok ==> done' == out && n' == Count(out)
  {
    hide Cut, Check, IsBreak, Count, Copying, Buffered;
    p', i', n', blank', ok, done' := p, i, n, blank, true, done;
    if IsBreak(src[i]) {
      CopySkip(src, i, blank, max - n, n, done, out);
      i' := i + 1;
      return;
    }
    if src[i] == SPACE {
      if blank {
        CopySkip(src, i, blank, max - n, n, done, out);
      } else {
        CopySpace(src, i, max - n, n, done, out);
        Append(dest, p, [src[i]], was, done);
        done' := done + [SPACE];
        p', n', blank' := p + 1, n + 1, true;
      }
      i' := i + 1;
      return;
    }
    var tmp := Check(src[i]);
    if tmp > 0 && i + tmp <= |src| {
      CopyChar(src, i, blank, max - n, n, done, out);
      Append(dest, p, src[i..i + tmp], was, done);
      done' := done + src[i..i + tmp];
      p', i', n', blank' := p + tmp, i + tmp, n + 1, false;
    } else {
      CopyBad(src, i, blank, max - n, n, done, out);
      ok := false;
    }
  }

  /** utf8_strncpy into a buffer with room for the result and its NUL; `copied` is the number of
      characters it counted, which utf8_strlen finds in the result. */
  method Utf8Strncpy(dest: array<Byte>, src: seq<Byte>, max: nat) returns (ghost copied: nat)
    requires |Cut(src, true, max)| < dest.Length
    modifies dest
    ensures max > 0 ==> var out := Cut(src, true, max);
                        dest[..|out|] == out && dest[|out|] == 0
                        && forall k :: |out| < k < dest.Length ==> dest[k] == old(dest[k])
    ensures max == 0 ==> dest[..] == old(dest[..])
    ensures copied == Count(Cut(src, true, max))
  {
    if max == 0 {
      CutNothing(src, true);
      return 0;
    }
    hide Cut, Count, Copying, Buffered;
    ghost var out, was := Cut(src, true, max), dest[..];
    var p: nat, i: nat, n: nat, blank, ok := 0, 0, 0, true, true;
    ghost var done: seq<Byte> := [];
    CopyStart(src, max);
    BufferedStart(was);
    while ok && i < |src| && n < max
      invariant i <= |src| && n <= max && p == |done|
      invariant if ok then Copying(src, i, blank, max - n, n, done, out) else done == out && n == Count(out)
      invariant Buffered(dest[..], was, done)
      decreases ok, |src| - i
    {
      p, i, n, blank, ok, done := CopyTurn(dest, src, p, i, n, blank, max, was, done, out);
    }
    if ok {
      CopyEnd(src, i, blank, max - n, n, done, out);
    }
    BufferedParts(dest[..], was, out);
    dest[p] := 0;
    copied := n;
  }

  lemma BufferedParts(b: seq<Byte>, was: seq<Byte>, done: seq<Byte>)
    requires Buffered(b, was, done)
    ensures |done| <= |b| == |was| && b[..|done|] == done && forall k :: |done| <= k < |b| ==> b[k] == was[k]
  {
  }

  lemma CutNothing(s: seq<Byte>, blank: bool)
    ensures Cut(s, blank, 0) == [] && Count([]) == 0
  {
  }

  // ---------- what the cut guarantees ----------

  /** The masks of utf8_check are the byte ranges of RFC 2279. */
  lemma CheckRanges(c: Byte)
    ensures Check(c) == if c < 0x80 then 1 else if c < 0xC0 then 0 else if c < 0xE0 then 2 else if c < 0xF0 then 3
                        else if c < 0xF8 then 4 else if c < 0xFC then 5 else if c < 0xFE then 6 else 0
  {
    assert c < 0x80 <==> c & 0x80 == 0;
    assert 0xC0 <= c < 0xE0 <==> c & 0xE0 == 0xC0;
    assert 0xE0 <= c < 0xF0 <==> c & 0xF0 == 0xE0;
    assert 0xF0 <= c < 0xF8 <==> c & 0xF8 == 0xF0;
    assert 0xF8 <= c < 0xFC <==> c & 0xFC == 0xF8;
    assert 0xFC <= c < 0xFE <==> c & 0xFE == 0xFC;
  }

  lemma SpaceIsOneByte()
    ensures Check(SPACE) == 1 && !IsBreak(SPACE)
  {
  }

  /** The first character of a concatenation that starts with a whole character. */
  lemma FirstOf(ch: seq<Byte>, t: seq<Byte>)
    requires ch != [] && Check(ch[0]) == |ch|
    ensures CharAhead(ch + t) && (ch + t)[0] == ch[0] && (ch + t)[|ch|..] == t && (ch + t)[..|ch|] == ch
  {
  }

  /** The result is in normal form, and has at most `max` characters of at most six bytes. */
  lemma {:induction false} CutNormal(s: seq<Byte>, blank: bool, max: nat)
    ensures Normal(Cut(s, blank, max), blank)
    ensures Count(Cut(s, blank, max)) <= max
    ensures |Cut(s, blank, max)| <= 6 * max
    decreases |s|
  {
    hide Check, IsBreak;
    if s == [] || max == 0 {
    } else if IsBreak(s[0]) {
      CutNormal(s[1..], blank, max);
    } else if s[0] == SPACE {
      SpaceIsOneByte();
      CutNormal(s[1..], true, if blank then max else max - 1);
      FirstOf([SPACE], Cut(s[1..], true, max - 1));
    } else if CharAhead(s) {
      var n := Check(s[0]);
      CutNormal(s[n..], false, max - 1);
      FirstOf(s[..n], Cut(s[n..], false, max - 1));
    }
  }

  /** A cut keeps as many characters as there are to keep, up to `max`, and utf8_strlen counts them. */
  lemma {:induction false} CutCount(s: seq<Byte>, blank: bool, max: nat, all: nat)
    requires all >= |s|
    ensures Count(Cut(s, blank, max)) == Min(max, Count(Cut(s, blank, all)))
    decreases |s|
  {
    hide Check, IsBreak;
    if s == [] || max == 0 {
    } else if IsBreak(s[0]) {
      CutCount(s[1..], blank, max, all);
    } else if s[0] == SPACE {
      SpaceIsOneByte();
      if blank {
        CutCount(s[1..], true, max, all);
      } else {
        CutCount(s[1..], true, max - 1, all - 1);
        FirstOf([SPACE], Cut(s[1..], true, max - 1));
        FirstOf([SPACE], Cut(s[1..], true, all - 1));
      }
    } else if CharAhead(s) {
      var n := Check(s[0]);
      CutCount(s[n..], false, max - 1, all - 1);
      FirstOf(s[..n], Cut(s[n..], false, max - 1));
      FirstOf(s[..n], Cut(s[n..], false, all - 1));
    }
  }

  /** Texts left alone by the cut are exactly those in normal form that are short enough. */
  lemma {:induction false} CutFixed(s: seq<Byte>, blank: bool, max: nat)
    ensures Cut(s, blank, max) == s <==> Normal(s, blank) && Count(s) <= max
    decreases |s|
  {
    hide Check, IsBreak;
    CutNormal(s, blank, max);
    if Normal(s, blank) && Count(s) <= max && s != [] {
      var n := Check(s[0]);
      CutFixed(s[n..], s[0] == SPACE, max - 1);
      assert s == s[..n] + s[n..];
      if s[0] == SPACE {
        SpaceIsOneByte();
        assert s[..1] == [SPACE];
      }
    }
  }

  /** Cutting a cut text again gives the cut at the smaller limit; in particular a second pass changes
      nothing. */
  lemma {:induction false} CutTwice(s: seq<Byte>, blank: bool, max: nat, m: nat)
    requires m <= max
    ensures Cut(Cut(s, blank, max), blank, m) == Cut(s, blank, m)
    decreases |s|
  {
    hide Check, IsBreak;
    if s == [] || m == 0 {
    } else if IsBreak(s[0]) {
      CutTwice(s[1..], blank, max, m);
    } else if s[0] == SPACE {
      SpaceIsOneByte();
      if blank {
        CutTwice(s[1..], true, max, m);
      } else {
        CutTwice(s[1..], true, max - 1, m - 1);
        FirstOf([SPACE], Cut(s[1..], true, max - 1));
      }
    } else if CharAhead(s) {
      var n := Check(s[0]);
      CutTwice(s[n..], false, max - 1, m - 1);
      FirstOf(s[..n], Cut(s[n..], false, max - 1));
    }
  }

  /** A smaller limit gives a prefix. */
  lemma {:induction false} CutPrefix(s: seq<Byte>, blank: bool, m: nat, max: nat)
    requires m <= max
    ensures Cut(s, blank, m) <= Cut(s, blank, max)
    decreases |s|
  {
    hide Check, IsBreak;
    if s == [] || m == 0 {
    } else if IsBreak(s[0]) {
      CutPrefix(s[1..], blank, m, max);
    } else if s[0] == SPACE {
      if blank {
        CutPrefix(s[1..], true, m, max);
      } else {
        CutPrefix(s[1..], true, m - 1, max - 1);
      }
    } else if CharAhead(s) {
      CutPrefix(s[Check(s[0])..], false, m - 1, max - 1);
    }
  }

  // ---------- leading blanks ----------

  /** U+3000, the ideographic space. */
  const WIDE: seq<Byte> := [0xE3, 0x80, 0x80]

  function TrimLeft(s: seq<Byte>): seq<Byte>
  {
    if s != [] && s[0] == SPACE then TrimLeft(s[1..])
    else if WIDE <= s then TrimLeft(s[3..])
    else s
  }

  /** Blanks and wide blanks only. */
  predicate Blanks(s: seq<Byte>)
  {
    s == [] || (s[0] == SPACE && Blanks(s[1..])) || (WIDE <= s && Blanks(s[3..]))
  }

  predicate StartsBlank(s: seq<Byte>) { [SPACE] <= s || WIDE <= s }

  /** utf8_ltrim. */
  method Utf8Ltrim(s: seq<Byte>) returns (str: seq<Byte>)
    ensures str == TrimLeft(s)
  {
    str := s;
    while str != []
      invariant TrimLeft(str) == TrimLeft(s)
      decreases |str|
    {
      if str[0] == SPACE {
        str := str[1..];
      } else if WIDE <= str {
        str := str[3..];
      } else {
        break;
      }
    }
  }

  /** `t` is `s` without its leading blanks. */
  ghost predicate IsTrimmed(s: seq<Byte>, t: seq<Byte>)
  {
    |t| <= |s| && s[|s| - |t|..] == t && Blanks(s[..|s| - |t|]) && !StartsBlank(t)
  }

  lemma TrimSpace(s: seq<Byte>, t: seq<Byte>)
    requires s != [] && s[0] == SPACE && IsTrimmed(s[1..], t)
    ensures IsTrimmed(s, t)
  {
    hide StartsBlank;
    var k := |s| - |t|;
    assert s[..k][1..] == s[1..][..k - 1];
  }

  lemma TrimWide(s: seq<Byte>, t: seq<Byte>)
    requires WIDE <= s && IsTrimmed(s[3..], t)
    ensures IsTrimmed(s, t)
  {
    hide StartsBlank;
    var k := |s| - |t|;
    assert s[..k][3..] == s[3..][..k - 3];
    assert WIDE <= s[..k];
  }

  lemma NotBlank(s: seq<Byte>)
    requires !StartsBlank(s)
    ensures IsTrimmed(s, s)
  {
    assert s[0..] == s;
  }

  /** What is cut off is all blank, and what remains does not start blank. */
  lemma {:induction false} TrimLeftExact(s: seq<Byte>)
    ensures IsTrimmed(s, TrimLeft(s))
  {
    hide IsTrimmed, Blanks;
    if s != [] && s[0] == SPACE {
      TrimLeftExact(s[1..]);
      TrimSpace(s, TrimLeft(s[1..]));
    } else if WIDE <= s {
      TrimLeftExact(s[3..]);
      TrimWide(s, TrimLeft(s[3..]));
    } else {
      NotBlank(s);
    }
  }
}
