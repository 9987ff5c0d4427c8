/** The UTF-8 routines of str_utf8/str_utf8.c on texts of characters. */
module Utf8Text {
  import opened Bytes
  import opened Seqs
  import opened Utf8

  /** The length a lead byte announces in section 2 of RFC 2279, 0 for a byte that leads nothing. */
  function Announced(c: Byte): nat
  {
    if c < 0x80 then 1 else if c < 0xC0 then 0 else if c < 0xE0 then 2 else if c < 0xF0 then 3
    else if c < 0xF8 then 4 else if c < 0xFC then 5 else if c < 0xFE then 6 else 0
  }

  /** A whole character. */
  predicate IsChar(c: seq<Byte>) { c != [] && |c| == Announced(c[0]) }

  predicate AllChars(cs: seq<seq<Byte>>) { forall c :: c in cs ==> IsChar(c) }

  /** A text that no character starts. */
  predicate Broken(t: seq<Byte>) { t != [] ==> Announced(t[0]) == 0 || Announced(t[0]) > |t| }

  lemma AnnouncedIs(c: Byte)
    ensures Check(c) == Announced(c)
  {
    CheckRanges(c);
  }

  lemma CharFirst(c: seq<Byte>, more: seq<Byte>)
    requires IsChar(c)
    ensures Check((c + more)[0]) == |c| && (c + more)[0] == c[0] && CharAhead(c + more)
    ensures (c + more)[..|c|] == c && (c + more)[|c|..] == more
  {
    AnnouncedIs(c[0]);
    hide Announced;
  }

  lemma BrokenIs(t: seq<Byte>)
    requires Broken(t)
    ensures !CharAhead(t)
  {
    if t != [] {
      AnnouncedIs(t[0]);
    }
    hide Announced;
  }

  lemma FlatFirst(c: seq<Byte>, cs: seq<seq<Byte>>, tail: seq<Byte>)
    ensures Flat([c] + cs) + tail == c + (Flat(cs) + tail)
  {
    assert ([c] + cs)[1..] == cs;
    Assoc(c, Flat(cs), tail);
  }

  /** Every text is whole characters with something broken behind them, which may be nothing. */
  lemma {:induction false} TextOf(s: seq<Byte>) returns (cs: seq<seq<Byte>>, tail: seq<Byte>)
    ensures s == Flat(cs) + tail && AllChars(cs) && Broken(tail)
    decreases |s|
  {
    if Broken(s) {
      cs, tail := [], s;
      EmptyLeft(s);
    } else {
      var n := Announced(s[0]);
      var rest;
      rest, tail := TextOf(s[n..]);
      cs := [s[..n]] + rest;
      hide Announced;
      FlatFirst(s[..n], rest, tail);
      assert s == s[..n] + s[n..];
    }
  }

  /** utf8_strlen counts the characters, and stops at what is broken. */
  lemma {:induction false} CharsCounted(cs: seq<seq<Byte>>, tail: seq<Byte>)
    requires AllChars(cs) && Broken(tail)
    ensures Count(Flat(cs) + tail) == |cs|
  {
    if cs == [] {
      EmptyLeft(tail);
      BrokenIs(tail);
    } else {
      var more := Flat(cs[1..]) + tail;
      assert cs == [cs[0]] + cs[1..];
      FlatFirst(cs[0], cs[1..], tail);
      CharFirst(cs[0], more);
      CharsCounted(cs[1..], tail);
      hide Check, Announced;
    }
  }

  // ---------- what is copied ----------

  /** The characters without tabs, line feeds and carriage returns. */
  function WithoutBreaks(cs: seq<seq<Byte>>): (ds: seq<seq<Byte>>)
    ensures [9] !in ds && [10] !in ds && [13] !in ds
    ensures forall d :: d in ds ==> d in cs
  {
    if cs == [] then [] else (if cs[0] in {[9], [10], [13]} then [] else [cs[0]]) + WithoutBreaks(cs[1..])
  }

  /** The characters without spaces behind spaces; `blank` says that there is one in front. */
  function Squeezed(ds: seq<seq<Byte>>, blank: bool): (es: seq<seq<Byte>>)
    ensures forall e :: e in es ==> e in ds
  {
    if ds == [] then []
    else (if ds[0] == [32] && blank then [] else [ds[0]]) + Squeezed(ds[1..], ds[0] == [32])
  }

  function Kept(cs: seq<seq<Byte>>, blank: bool, max: nat): seq<seq<Byte>>
  {
    var es := Squeezed(WithoutBreaks(cs), blank);
    es[..Min(max, |es|)]
  }

  lemma KeptNext(cs: seq<seq<Byte>>, blank: bool, max: nat)
    requires cs != []
    ensures var c, rest := cs[0], cs[1..];
            Kept(cs, blank, max) == if c in {[9], [10], [13]} then Kept(rest, blank, max)
                                    else if c == [32] && blank then Kept(rest, true, max)
                                    else if max == 0 then []
                                    else [c] + Kept(rest, c == [32], max - 1)
  {
    var c, ds := cs[0], WithoutBreaks(cs[1..]);
    EmptyLeft(ds);
    if c !in {[9], [10], [13]} {
      assert ([c] + ds)[1..] == ds;
      var es := Squeezed(ds, c == [32]);
      EmptyLeft(es);
      hide Squeezed, WithoutBreaks;
      if max > 0 {
        assert ([c] + es)[..Min(max, |es| + 1)] == [c] + es[..Min(max - 1, |es|)];
      }
    }
  }

  lemma SmallChar(c: seq<Byte>)
    requires IsChar(c)
    ensures IsBreak(c[0]) <==> c in {[9], [10], [13]}
    ensures c[0] == SPACE <==> c == [32]
  {
    if c[0] < 0x80 {
      assert c == [c[0]];
    }
  }

  lemma CutNone(tail: seq<Byte>, blank: bool, max: nat)
    requires Broken(tail)
    ensures Utf8.Cut(tail, blank, max) == []
  {
    BrokenIs(tail);
    if tail != [] && max > 0 {
      AnnouncedIs(tail[0]);
      assert Announced(9) == Announced(10) == Announced(13) == Announced(32) == 1;
      CutNext(tail, blank, max);
    }
    hide Utf8.Cut, Check;
  }

  lemma CutChar(c: seq<Byte>, more: seq<Byte>, blank: bool, max: nat)
    requires IsChar(c) && max > 0
    ensures Utf8.Cut(c + more, blank, max) == if c in {[9], [10], [13]} then Utf8.Cut(more, blank, max)
                                              else if c == [32] && blank then Utf8.Cut(more, true, max)
                                              else c + Utf8.Cut(more, c == [32], max - 1)
  {
    hide Utf8.Cut, Check, Announced, IsBreak;
    CharFirst(c, more);
    SmallChar(c);
    CutNext(c + more, blank, max);
    assert c[0] == SPACE ==> (c + more)[1..] == more;
    assert IsBreak(c[0]) ==> (c + more)[1..] == more;
  }

  lemma FlatCons(c: seq<Byte>, cs: seq<seq<Byte>>)
    ensures Flat([c] + cs) == c + Flat(cs)
  {
    assert ([c] + cs)[1..] == cs;
  }

  /** utf8_strncpy copies the characters of a text up to what is broken, without tabs, line feeds and carriage
      returns, without spaces that lead or follow a space, and at most `max` of them. */
  lemma {:induction false} CutIsKept(cs: seq<seq<Byte>>, tail: seq<Byte>, blank: bool, max: nat)
    requires AllChars(cs) && Broken(tail)
    ensures Utf8.Cut(Flat(cs) + tail, blank, max) == Flat(Kept(cs, blank, max))
    decreases |cs|
  {
    hide Utf8.Cut, Kept, IsChar, Broken;
    if max == 0 {
      CutNothing(Flat(cs) + tail, blank);
      KeptNothing(cs, blank);
    } else if cs == [] {
      EmptyLeft(tail);
      CutNone(tail, blank, max);
      NothingKept(blank, max);
    } else {
      var c, rest := cs[0], cs[1..];
      assert cs == [c] + rest && IsChar(c) && AllChars(rest);
      hide *;
      FlatFirst(c, rest, tail);
      CutChar(c, Flat(rest) + tail, blank, max);
      KeptNext(cs, blank, max);
      if c in {[9], [10], [13]} {
        CutIsKept(rest, tail, blank, max);
      } else if c == [32] && blank {
        CutIsKept(rest, tail, true, max);
      } else {
        CutIsKept(rest, tail, c == [32], max - 1);
        FlatCons(c, Kept(rest, c == [32], max - 1));
      }
    }
  }

  lemma KeptNothing(cs: seq<seq<Byte>>, blank: bool)
    ensures Flat(Kept(cs, blank, 0)) == []
  {
  }

  lemma NothingKept(blank: bool, max: nat)
    ensures Flat(Kept([], blank, max)) == []
  {
  }

  /** So no character of the result is a tab, a line feed or a carriage return, and none is made up. */
  lemma NoBreakKept(cs: seq<seq<Byte>>, blank: bool, max: nat)
    requires AllChars(cs)
    ensures forall d: seq<Byte> :: d in Kept(cs, blank, max) ==> d in cs && d != [] && d[0] != 9 && d[0] != 10 && d[0] != 13
  {
    forall d: seq<Byte> | d in Kept(cs, blank, max) ensures d in cs && d != [] && d[0] != 9 && d[0] != 10 && d[0] != 13 {
      assert d in WithoutBreaks(cs);
      assert IsChar(d);
      if d[0] < 0x80 {
        assert d == [d[0]];
      }
    }
  }

  /** Nothing else is left out: a text of whole characters without these and without spaces is copied whole. */
  lemma {:induction false} AllKept(cs: seq<seq<Byte>>, blank: bool, max: nat)
    requires AllChars(cs) && |cs| <= max && [9] !in cs && [10] !in cs && [13] !in cs && [32] !in cs
    ensures Utf8.Cut(Flat(cs), blank, max) == Flat(cs)
    decreases |cs|
  {
    CutIsKept(cs, [], blank, max);
    EmptyRight(Flat(cs));
    KeepsAll(cs, blank, max);
    hide Utf8.Cut, Kept;
  }

  lemma {:induction false} KeepsAll(cs: seq<seq<Byte>>, blank: bool, max: nat)
    requires |cs| <= max && [9] !in cs && [10] !in cs && [13] !in cs && [32] !in cs
    ensures Kept(cs, blank, max) == cs
    decreases |cs|
  {
    if cs != [] {
      KeptNext(cs, blank, max);
      KeepsAll(cs[1..], false, max - 1);
      hide Kept;
    }
  }

  // ---------- leading blanks ----------

  /** The ideographic space is the three bytes 227, 128 and 128; it and the space are skipped, and nothing else. */
  lemma BlanksSkipped(s: seq<Byte>)
    ensures TrimLeft([32] + s) == TrimLeft(s) && TrimLeft([227, 128, 128] + s) == TrimLeft(s)
    ensures !([32] <= s) && !([227, 128, 128] <= s) ==> TrimLeft(s) == s
  {
    assert ([32] + s)[1..] == s && ([227, 128, 128] + s)[3..] == s;
    assert [227, 128, 128] <= [227, 128, 128] + s;
    if s != [] && s[0] == 32 {
      assert [32] <= s;
    }
  }
}
