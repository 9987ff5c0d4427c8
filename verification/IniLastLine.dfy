/** How lines end, for iniparser_load_mem of confparser/iniparser.c. */
module IniLastLine {
  import opened Seqs
  import opened IniText
  import opened IniLine
  import opened IniPrint
  import opened IniLoad
  import opened IniRoundTrip
  import opened IniPieces

  // ---------- the last line ----------

  /** Lines in front of whatever follows. */
  lemma {:induction false} FrontLines(lines: seq<string>, tail: string, n: nat)
    requires n <= |tail| && forall k :: 0 <= k < |lines| ==> FullLine(lines[k])
    ensures Pieces(Flat(lines) + tail, |Flat(lines)| + n) == lines + Pieces(tail, n)
    decreases |lines|
  {
    hide FullLine, Pieces;
    if lines == [] {
      EmptyLeft(tail);
      EmptyLeft(Pieces(tail, n));
    } else {
      var l, rest := lines[0], Flat(lines[1..]);
      assert Flat(lines) == l + rest;
      hide Flat;
      FrontLines(lines[1..], tail, n);
      Assoc(l, rest, tail);
      FullLineFirst(l, rest + tail, |rest| + n);
      Assoc([l], lines[1..], Pieces(tail, n));
      assert lines == [l] + lines[1..];
    }
  }

  lemma FullLineFirst(l: string, more: string, n: nat)
    requires FullLine(l)
    ensures Pieces(l + more, |l| + n) == [l] + Pieces(more, n)
  {
    FullLinePiece(l, more);
    SplitLeft(l, more, |l|);
    EmptyLeft(more);
    hide PieceLength;
    assert l[..|l|] == l;
  }

  /** White space behind a line means nothing. */
  lemma StripWhite(l: string, w: string)
    requires AllSpace(w)
    ensures Strip(l + w) == Strip(l)
  {
    hide Strip, AllSpace;
    var a, b := StripSplit(l);
    var m := Strip(l);
    AllSpaceConcat(b, w);
    if m == [] {
      EmptyRight(a);
      AllSpaceConcat(a, b);
      AllSpaceConcat(a + b, w);
      StripCore(l + w, [], []);
      EmptyRight(l + w);
    } else {
      Assoc(a + m, b, w);
      StripCore(a, m, b + w);
    }
  }

  lemma SameStrip(x: string, y: string, section: string)
    requires Strip(x) == Strip(y)
    ensures ParseLine(x, section) == ParseLine(y, section)
  {
    hide Strip, Span, Lower, ReadValue, AfterEquals;
  }

  lemma PlainCString(l: string, e: string)
    requires '\0' !in l && '\0' !in e
    ensures CString(l + e) == l + e && CString(l + e + ['\0']) == l + e
  {
    SpanIs(Not('\0'), l + e, |l + e|);
    SpanIs(Not('\0'), l + e + ['\0'], |l + e|);
    assert (l + e)[..|l + e|] == l + e;
    SplitLeft(l + e, ['\0'], |l + e|);
  }

  /** However a line ends, it does the same; the end of the text is an end like the others. */
  lemma StepEnds(st: State, l: string)
    requires '\0' !in l
    ensures Step(st, l + "\n") == Step(st, l) && Step(st, l + "\r\n") == Step(st, l) && Step(st, l + "\r") == Step(st, l)
    ensures Step(st, l + ['\0']) == Step(st, l)
  {
    hide CString, ParseLine, Effect;
    PlainCString(l, "\n");
    PlainCString(l, "\r\n");
    PlainCString(l, "\r");
    PlainCString(l, []);
    EmptyRight(l);
    StripWhite(l, "\n");
    StripWhite(l, "\r\n");
    StripWhite(l, "\r");
    SameStrip(l + "\n", l, st.section);
    SameStrip(l + "\r\n", l, st.section);
    SameStrip(l + "\r", l, st.section);
  }

  lemma LastPieces(last: string)
    requires PlainText(last) && 0 < |last| < 1023
    ensures Pieces(last + ['\0'], |last|) == [last + ['\0']]
    ensures Pieces(last + "\n" + ['\0'], |last| + 1) == [last + "\n"]
  {
    var s, u := last + ['\0'], last + "\n" + ['\0'];
    ToEndIs(s, |last|);
    ToEndIs(u, |last|);
    PieceAt(s);
    PieceAt(u);
    hide PieceLength, ToEnd;
    assert s[..|last| + 1] == s && s[|last| + 1..] == [];
    assert u[..|last| + 1] == last + "\n" && u[|last| + 1..] == ['\0'];
    assert Pieces([], -1) == [] && Pieces(['\0'], 0) == [];
  }

  lemma RunOne(st: State, piece: string)
    ensures Run(st, [piece]) == Step(st, piece)
  {
    assert [piece][1..] == [];
  }

  /** A last line without an end is loaded like one with an end. */
  lemma LastLineLoaded(st: State, lines: seq<string>, last: string)
    requires forall k :: 0 <= k < |lines| ==> FullLine(lines[k])
    requires PlainText(last) && 0 < |last| < 1023
    ensures var t := Flat(lines) + last;
            && Run(st, Pieces(t + ['\0'], |t|)) == Step(Run(st, lines), last)
            && Run(st, Pieces(t + "\n" + ['\0'], |t| + 1)) == Step(Run(st, lines), last)
  {
    hide FullLine, Step, Pieces, Run;
    FrontLines(lines, last + ['\0'], |last|);
    FrontLines(lines, last + "\n" + ['\0'], |last| + 1);
    LastPieces(last);
    Assoc(Flat(lines), last, ['\0']);
    Assoc(Flat(lines), last, "\n");
    Assoc(Flat(lines), last + "\n", ['\0']);
    RunConcat(st, lines, [last + ['\0']]);
    RunConcat(st, lines, [last + "\n"]);
    RunOne(Run(st, lines), last + ['\0']);
    RunOne(Run(st, lines), last + "\n");
    StepEnds(Run(st, lines), last);
  }
}
