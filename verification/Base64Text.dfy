/** Whole texts for base64/base64.c: newlines, garbage, and what begins well. */
module Base64Text {
  import opened Bytes
  import opened Seqs
  import opened Base64Spec
  import opened Base64Theorems
  import opened Base64Alphabet
  import opened Base64Groups

  // ---------- newlines and garbage ----------

  /** Byte 10, and no other, is left out wherever it stands. */
  lemma {:induction false} TenIsDropped(a: seq<Byte>, b: seq<Byte>)
    requires 10 !in a && 10 !in b
    ensures DropNewlines(a + [10] + b) == a + b
  {
    DropNewlinesNone(a);
    DropNewlinesNone(b);
    DropNewlinesConcat(a + [10], b);
    DropNewlinesConcat(a, [10]);
    assert [10][1..] == [];
    EmptyRight(a);
  }

  /** With a context such a byte changes nothing, wherever it stands in whatever text; without one it stays, and
      the text is refused. */
  lemma NewlineIgnored(carry: seq<Byte>, a: seq<Byte>, b: seq<Byte>)
    ensures Goal(true, carry, a + [10] + b) == Goal(true, carry, a + b)
    ensures !Goal(false, carry, a + [10] + b).ok
  {
    DropNewlinesConcat(a + [10], b);
    DropNewlinesConcat(a, [10]);
    DropNewlinesConcat(a, b);
    assert [10][1..] == [];
    EmptyRight(DropNewlines(a));
    StrictLanguage(a + [10] + b);
    NotInLanguage(a + [10] + b, |a|);
    hide DropNewlines, DecodeGroups, DecodeStrict;
  }

  lemma NotInLanguage(s: seq<Byte>, k: nat)
    requires k < |s| && s[k] == 10
    ensures !InLanguage(s)
  {
    TenIsNoLetter();
    hide IsBase64, LastGroup;
    if |s| % 4 == 0 {
      var n := |s| - 4;
      if k < n {
        assert s[..n][k] == 10;
      } else {
        TenEndsNothing(s[n..], k - n);
      }
    }
  }

  lemma TenIsNoLetter()
    ensures !IsBase64(10) && PAD != 10
  {
  }

  lemma TenEndsNothing(t: seq<Byte>, k: nat)
    requires |t| == 4 && k < 4 && t[k] == 10
    ensures !LastGroup(t)
  {
    hide IsBase64;
    TenIsNoLetter();
  }

  /** clear_garbage keeps the characters of the alphabet and equals signs, and nothing else. */
  lemma {:induction false} CleanKeeps(a: seq<Byte>, c: Byte, b: seq<Byte>)
    ensures Clean(a + [c] + b) == Clean(a) + (if (exists v :: Stands(c, v)) || c == 61 then [c] else []) + Clean(b)
  {
    CleanConcat(a + [c], b);
    CleanConcat(a, [c]);
    assert [c][1..] == [];
    EmptyRight([c]);
    EmptyRight(Clean(a));
    if IsBase64(c) {
      SextetStands(c, Sextet(c) as nat);
    }
    forall v: nat | Stands(c, v) ensures IsBase64(c) {
      SextetStands(c, v);
    }
    hide Stands, Sextet;
  }

  lemma {:induction false} CleanConcat(a: seq<Byte>, b: seq<Byte>)
    ensures Clean(a + b) == Clean(a) + Clean(b)
  {
    hide IsGarbage;
    if a == [] {
      EmptyLeft(b);
      EmptyLeft(Clean(b));
    } else {
      assert (a + b)[1..] == a[1..] + b;
      CleanConcat(a[1..], b);
      Assoc(if IsGarbage(a[0]) then [] else [a[0]], Clean(a[1..]), Clean(b));
    }
  }

  // ---------- texts that begin well ----------

  /** What follows whole encoded groups is decoded on its own, and what went before it is not lost when it is
      refused. */
  lemma {:induction false} DecodedPrefix(b: seq<Byte>, p: nat, rest: seq<Byte>)
    requires p <= |b| && (|b| - p) % 3 == 0
    ensures DecodeGroups(EncodeFrom(b, p) + rest) == Prepend(b[p..], DecodeGroups(rest))
    ensures DecodeStrict(EncodeFrom(b, p) + rest) == Piece(DecodeStrict(rest).ok, b[p..] + DecodeStrict(rest).bytes)
    decreases |b| - p
  {
    hide *;
    if p == |b| {
      NothingEncoded(b, rest);
    } else {
      EncodeNext(b, p);
      var quad, more, x, y := Quad(b, p), EncodeFrom(b, p + 3), b[p..p + 3], b[p + 3..];
      Cut(b, p, p + 3);
      QuadDecodesBefore(b, p, more + rest);
      DecodedPrefix(b, p + 3, rest);
      OneMoreGroup(quad, more, rest, x, y);
    }
  }

  lemma OneMoreGroup(quad: seq<Byte>, more: seq<Byte>, rest: seq<Byte>, x: seq<Byte>, y: seq<Byte>)
    requires |quad| == 4 && DecodeBlock(quad + (more + rest)) == Piece(true, x) == DecodeBlock(quad)
    requires DecodeGroups(more + rest) == Prepend(y, DecodeGroups(rest))
    requires DecodeStrict(more + rest) == Piece(DecodeStrict(rest).ok, y + DecodeStrict(rest).bytes)
    ensures DecodeGroups((quad + more) + rest) == Prepend(x + y, DecodeGroups(rest))
    ensures DecodeStrict((quad + more) + rest) == Piece(DecodeStrict(rest).ok, (x + y) + DecodeStrict(rest).bytes)
  {
    hide *;
    Assoc(quad, more, rest);
    StrictNext(quad, more + rest, x);
    GroupsCons(quad, more + rest);
    PrependTwice(x, y, DecodeGroups(rest));
    Assoc(x, y, DecodeStrict(rest).bytes);
  }

  lemma NothingEncoded(b: seq<Byte>, rest: seq<Byte>)
    ensures DecodeGroups(EncodeFrom(b, |b|) + rest) == Prepend(b[|b|..], DecodeGroups(rest))
    ensures DecodeStrict(EncodeFrom(b, |b|) + rest) == Piece(DecodeStrict(rest).ok, b[|b|..] + DecodeStrict(rest).bytes)
  {
    EmptyLeft(rest);
    EmptyLeft(DecodeGroups(rest).bytes);
    EmptyLeft(DecodeStrict(rest).bytes);
    hide DecodeGroups, DecodeStrict;
  }

  lemma QuadDecodesBefore(b: seq<Byte>, p: nat, rest: seq<Byte>)
    requires p + 3 <= |b|
    ensures DecodeBlock(Quad(b, p) + rest) == Piece(true, b[p..p + 3]) == DecodeBlock(Quad(b, p))
  {
    QuadDecodes(b, p, rest);
    QuadDecodes(b, p, []);
    hide DecodeBlock;
    EmptyRight(Quad(b, p));
  }

  /** Without a context needlen is used up to the last byte by some text of any length that is three more than
      a multiple of four. */
  lemma NeedLenTight(g: nat)
    ensures exists text: seq<Byte> :: |text| == 4 * g + 3 && |DecodeStrict(text).bytes| == 3 * g + 2 == NeedLen(|text|)
  {
    var b, z: seq<Byte> := seq(3 * g, _ => 65), [65, 65, 65];
    ThreeLetters();
    hide *;
    DecodedPrefix(b, 0, z);
    var text := EncodeFrom(b, 0) + z;
    assert |text| == 4 * g + 3 && b[0..] == b;
    NeedLenOf(g);
  }

  lemma NeedLenOf(g: nat)
    ensures NeedLen(4 * g + 3) == 3 * g + 2
  {
  }

  lemma ThreeLetters()
    ensures |DecodeStrict([65, 65, 65]).bytes| == 2
  {
    SextetCode(65);
  }
}
