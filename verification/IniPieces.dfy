/** Which characters of a text iniparser_load_mem of confparser/iniparser.c gets to see. */
module IniPieces {
  import opened Seqs
  import opened IniLoad

  // ---------- no text is lost ----------

  /** Characters within a line. */
  predicate PlainText(s: string) { forall k :: 0 <= k < |s| ==> s[k] != '\0' && s[k] != '\r' && s[k] != '\n' }

  /** The last line has no end. */
  predicate EndsInLine(text: string) { text != [] && text[|text| - 1] != '\r' && text[|text| - 1] != '\n' }

  predicate PlainAt(text: string, i: nat, n: nat)
    requires i + n <= |text|
  {
    PlainText(text[i..i + n])
  }

  /** No line of the text, without its end, has `n` characters or more. */
  ghost predicate LinesBelow(text: string, n: nat) { forall i: nat :: i + n <= |text| ==> !PlainAt(text, i, n) }

  lemma LineOfText(t: string)
    ensures var e := ToEnd(t + ['\0']);
            && e <= |t| && (e < |t| ==> t[e] in {'\r', '\n', '\0'})
            && ('\0' !in t ==> PlainText(t[..e]))
  {
    hide ToEnd;
    var s := t + ['\0'];
    var e := ToEnd(s);
    assert s[|t|] == '\0';
    assert forall k :: 0 <= k < |t| ==> s[k] == t[k];
    forall k | 0 <= k < |t[..e]| ensures t[..e][k] != '\0' && t[..e][k] != '\r' && t[..e][k] != '\n' {
      assert t[..e][k] == s[k] && !EndsLine(s[k]);
    }
  }

  /** The piece at the front of a text. */
  lemma PieceOfText(t: string)
    requires '\0' !in t && t != [] && ToEnd(t + ['\0']) < 1024
    ensures var e, r := ToEnd(t + ['\0']), PieceLength(t + ['\0'], 1024);
            && 0 < r && (e < |t| ==> r <= |t|)
            && (e == |t| ==> r == if e == 1023 then |t| else |t| + 1)
            && (e < |t| && e < 1023 && r == |t| ==> !EndsInLine(t))
            && r <= e + 2 && (e < |t| && r == e + 2 ==> t[e + 1] == '\n')
  {
    hide ToEnd, PieceLength;
    LineOfText(t);
    PieceAt(t + ['\0']);
  }

  lemma PieceAt(s: string)
    requires ToEnd(s) < |s| && ToEnd(s) < 1024
    ensures var e := ToEnd(s);
            PieceLength(s, 1024) == if s[e] == '\r' && e + 1 < |s| && s[e + 1] == '\n' && e < 1022 then e + 2
                                    else if e < 1023 then e + 1 else e
  {
    hide ToEnd;
  }

  lemma PlainTail(text: string, k: nat, i: nat, n: nat)
    requires k <= |text| && i + n <= |text[k..]|
    ensures PlainAt(text[k..], i, n) <==> PlainAt(text, k + i, n)
  {
    assert text[k..][i..i + n] == text[k + i..k + i + n];
  }

  lemma LinesBelowTail(text: string, n: nat, k: nat)
    requires LinesBelow(text, n) && k <= |text|
    ensures LinesBelow(text[k..], n)
  {
    hide PlainAt;
    forall i: nat | i + n <= |text[k..]| ensures !PlainAt(text[k..], i, n) {
      PlainTail(text, k, i, n);
    }
  }

  lemma FirstLinePlain(t: string, n: nat)
    requires '\0' !in t && n <= ToEnd(t + ['\0'])
    ensures n <= |t| && PlainAt(t, 0, n)
  {
    hide ToEnd, PlainText;
    LineOfText(t);
    PlainPrefix(t, ToEnd(t + ['\0']), n);
    assert t[0..0 + n] == t[..n];
  }

  lemma PlainPrefix(t: string, e: nat, n: nat)
    requires n <= e <= |t| && PlainText(t[..e])
    ensures PlainText(t[..n])
  {
    assert forall c :: c in t[..n] ==> c in t[..e];
  }

  lemma FirstLineBelow(t: string, n: nat)
    requires '\0' !in t && LinesBelow(t, n)
    ensures ToEnd(t + ['\0']) < n
  {
    hide PlainAt, ToEnd;
    if n <= ToEnd(t + ['\0']) {
      FirstLinePlain(t, n);
    }
  }

  lemma PiecesOfText(t: string)
    requires '\0' !in t
    ensures var mem, r := t + ['\0'], PieceLength(t + ['\0'], 1024);
            && (t == [] || r == 0 ==> Pieces(mem, |t|) == [])
            && (0 < r <= |t| ==> Pieces(mem, |t|) == [t[..r]] + Pieces(t[r..] + ['\0'], |t[r..]|))
            && (r == |t| + 1 && t != [] ==> Pieces(mem, |t|) == [mem])
  {
    var mem, r := t + ['\0'], PieceLength(t + ['\0'], 1024);
    hide PieceLength;
    if 0 < r <= |t| {
      SplitLeft(t, ['\0'], r);
    } else if r == |t| + 1 && t != [] {
      assert mem[..r] == mem && |t| - r <= 0;
      assert Pieces(mem[r..], |t| - r) == [];
    }
  }

  lemma NoEnd()
    ensures !EndsInLine([])
  {
  }

  lemma Rejoin(t: string, r: nat)
    requires r <= |t| && (r == |t| ==> !EndsInLine(t))
    ensures t[..r] + (if EndsInLine(t[r..]) then t[r..] + ['\0'] else t[r..]) == if EndsInLine(t) then t + ['\0'] else t
  {
    assert t == t[..r] + t[r..];
    Assoc(t[..r], t[r..], ['\0']);
  }

  lemma LastRun(t: string)
    requires '\0' !in t && t != [] && ToEnd(t + ['\0']) == |t|
    ensures EndsInLine(t)
  {
    LineOfText(t);
    hide ToEnd;
    assert t[..|t|] == t;
  }

  /** Loading sees every character of a text whose lines have at most 1022 characters, and behind a last line that
      has no end the NUL. */
  lemma {:induction false} NothingLost(text: string)
    requires '\0' !in text && LinesBelow(text, 1023)
    ensures Flat(Pieces(text + ['\0'], |text|)) == if EndsInLine(text) then text + ['\0'] else text
    decreases |text|
  {
    hide ToEnd, PieceLength, Pieces, PlainAt, EndsInLine;
    PiecesOfText(text);
    NoEnd();
    if text != [] {
      var e, r := ToEnd(text + ['\0']), PieceLength(text + ['\0'], 1024);
      FirstLineBelow(text, 1023);
      PieceOfText(text);
      LineOfText(text);
      if e < |text| {
        LinesBelowTail(text, 1023, r);
        NothingLost(text[r..]);
        FlatOneMore(text[..r], Pieces(text[r..] + ['\0'], |text[r..]|));
        Rejoin(text, r);
      } else {
        FlatOne(text + ['\0']);
        LastRun(text);
      }
    }
  }

  lemma FlatOneMore(p: string, more: seq<string>)
    ensures Flat([p] + more) == p + Flat(more)
  {
    assert ([p] + more)[1..] == more;
  }

  lemma WithinPlain(t: string, i: nat, n: nat, k: nat)
    requires i <= k < i + n <= |t| && PlainAt(t, i, n)
    ensures t[k] !in {'\0', '\r', '\n'}
  {
    assert t[i..i + n][k - i] == t[k];
  }

  /** Such a long line is behind the first piece. */
  lemma LongLineBehind(t: string, i: nat)
    requires '\0' !in t && ToEnd(t + ['\0']) < 1024 && ToEnd(t + ['\0']) < |t|
    requires i + 1024 <= |t| && PlainAt(t, i, 1024)
    ensures i >= PieceLength(t + ['\0'], 1024)
  {
    hide ToEnd, PieceLength, PlainAt;
    var e, r := ToEnd(t + ['\0']), PieceLength(t + ['\0'], 1024);
    LineOfText(t);
    PieceOfText(t);
    if i <= e {
      WithinPlain(t, i, 1024, e);
    } else if i == e + 1 && r == e + 2 {
      WithinPlain(t, i, 1024, e + 1);
    }
  }

  lemma LongLinesBehind(t: string)
    requires '\0' !in t && ToEnd(t + ['\0']) < 1024 && ToEnd(t + ['\0']) < |t|
    ensures var r := PieceLength(t + ['\0'], 1024); r <= |t| && (LinesBelow(t, 1024) <==> LinesBelow(t[r..], 1024))
  {
    hide ToEnd, PieceLength, PlainAt;
    var r := PieceLength(t + ['\0'], 1024);
    PieceOfText(t);
    if LinesBelow(t, 1024) {
      LinesBelowTail(t, 1024, r);
    } else {
      var i: nat :| i + 1024 <= |t| && PlainAt(t, i, 1024);
      LongLineBehind(t, i);
      PlainTail(t, r, i - r, 1024);
    }
  }

  /** Loading reaches the end of a text if and only if no line of it has 1024 characters or more. */
  lemma {:induction false} SeenIff(text: string)
    requires '\0' !in text
    ensures text <= Flat(Pieces(text + ['\0'], |text|)) <==> LinesBelow(text, 1024)
    decreases |text|
  {
    hide ToEnd, PieceLength, Pieces, PlainAt;
    PiecesOfText(text);
    if text != [] {
      var e, r := ToEnd(text + ['\0']), PieceLength(text + ['\0'], 1024);
      if e >= 1024 {
        LineTooLong(text + ['\0'], 1024);
        FirstLinePlain(text, 1024);
      } else {
        PieceOfText(text);
        LineOfText(text);
        if e < |text| {
          LongLinesBehind(text);
          SeenIff(text[r..]);
          FlatOneMore(text[..r], Pieces(text[r..] + ['\0'], |text[r..]|));
          PrefixBehind(text, r, Flat(Pieces(text[r..] + ['\0'], |text[r..]|)));
        } else {
          LastSeen(text, r);
        }
      }
    }
  }

  lemma LastSeen(t: string, r: nat)
    requires t != [] && |t| < 1024 && |t| <= r <= |t| + 1
    requires Pieces(t + ['\0'], |t|) == if r == |t| then [t[..r]] + Pieces(t[r..] + ['\0'], |t[r..]|) else [t + ['\0']]
    ensures t <= Flat(Pieces(t + ['\0'], |t|)) && LinesBelow(t, 1024)
  {
    assert r == |t| ==> t[r..] == [] && t[..r] == t;
    assert Pieces([] + ['\0'], 0) == [];
    hide Pieces;
    FlatOne(t);
    FlatOne(t + ['\0']);
    EmptyRight([t]);
  }

  lemma PrefixBehind(t: string, r: nat, more: string)
    requires r <= |t|
    ensures t <= t[..r] + more <==> t[r..] <= more
  {
    assert t == t[..r] + t[r..];
    if t[r..] <= more {
      assert t[..r] + more == t[..r] + t[r..] + more[|t[r..]|..];
    }
    if t <= t[..r] + more {
      assert t[r..] == (t[..r] + more)[..|t|][r..];
      assert (t[..r] + more)[..|t|][r..] == more[..|t| - r];
    }
  }
}
