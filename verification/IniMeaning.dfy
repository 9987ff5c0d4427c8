/** What a line means to iniparser_load_mem of confparser/iniparser.c, in characters. */
module IniMeaning {
  import opened Options
  import opened Seqs
  import opened IniText
  import opened IniLine
  import opened IniPrint
  import opened IniLoad
  import opened IniRoundTrip
  import opened IniPieces
  import opened IniLastLine

  // ---------- what a line means ----------

  lemma StripStart(a: string, x: string)
    requires AllSpace(a) && x != [] && !IsSpace(x[0])
    ensures Strip(a + x) != [] && Strip(a + x)[0] == x[0]
  {
    hide IsSpace;
    SpanIs(Space, a + x, |a|);
    assert (a + x)[|a|..] == x;
    TrimRightSplit(x);
    assert x[0..] == x;
    hide TrimRight, Span;
  }

  /** A line that starts with a number sign, behind any white space, does nothing, whatever follows on it. */
  lemma CommentIgnored(st: State, a: string, rest: string)
    requires AllSpace(a) && '\0' !in rest
    ensures Step(st, a + ['#'] + rest) == st
  {
    SpaceIsNotNul(a);
    PlainCString(a + ['#'] + rest, []);
    EmptyRight(a + ['#'] + rest);
    Assoc(a, ['#'], rest);
    StripStart(a, ['#'] + rest);
    hide Strip, CString, Span, Lower, ReadValue, AfterEquals, AllSpace;
  }

  lemma SpaceIsNotNul(a: string)
    requires AllSpace(a)
    ensures '\0' !in a
  {
  }

  /** So does a line of white space. */
  lemma BlankIgnored(st: State, a: string)
    requires AllSpace(a)
    ensures Step(st, a) == st
  {
    SpaceIsNotNul(a);
    PlainCString(a, []);
    EmptyRight(a);
    StripCore(a, [], []);
    hide Strip, CString, Span, Lower, ReadValue, AfterEquals, AllSpace;
  }

  /** Any other line that has no equals sign, or nothing before it, is an error, unless it is in square brackets. */
  lemma OtherIsError(st: State, l: string)
    requires Trimmed(l) && l != [] && '\0' !in l && l[0] != '#' && (l[0] != '[' || l[|l| - 1] != ']')
    requires '=' !in l || l[0] == '='
    ensures Step(st, l) == State(st.section, st.dict, st.errs + 1)
  {
    hide Strip, CString, Span, Lower, ReadValue, AfterEquals;
    PlainCString(l, []);
    EmptyRight(l);
    StripTrimmed(l);
    if l[0] == '=' {
      SpanIs(Not('='), l, 0);
    } else {
      SpanIs(Not('='), l, |l|);
    }
  }

  /** What stands before the first equals sign is the key, without surrounding white space and in lower case. */
  lemma AssignmentParsed(k: string, v: string, section: string)
    requires k != [] && '=' !in k && !IsSpace(k[0]) && k[0] != '#' && k[0] != '[' && Trimmed(v)
    ensures ParseLine(k + "=" + v, section) == Parsed(VALUE, section, Lower(Strip(k)), ReadValue(v))
  {
    hide Span, Strip, Lower, ReadValue;
    var l := k + "=" + v;
    assert l[0] == k[0] && l[|k|] == '=' && l[..|k|] == k && l[|k| + 1..] == v;
    assert Trimmed(l) by {
      assert l[|l| - 1] == if v == [] then '=' else v[|v| - 1];
    }
    StripTrimmed(l);
    SpanIs(Not('='), l, |k|);
    SpanIs(Space, v, 0);
    assert v[0..] == v;
    ParseValueLine(l, section, l, |k|);
  }

  /** `k=v` in section s stores v under `s:k`. */
  lemma AssignmentStored(st: State, k: string, v: string)
    requires KeyName(k) && ValueForm(v) && '\0' !in k && '\0' !in v
    ensures Step(st, k + "=" + v) == State(st.section, st.dict[st.section + ":" + k := Some(v)], 0)
  {
    hide CString, ParseLine, ReadValue, Strip, Lower;
    PlainCString(k + "=" + v, []);
    EmptyRight(k + "=" + v);
    AssignmentParsed(k, v, st.section);
    ReadValueKeeps(v);
    StripTrimmed(k);
    LowerIdentity(k);
  }

  /** A line in square brackets names a section, up to the first closing bracket. */
  lemma BracketsParsed(s: string, rest: string, section: string)
    requires s != [] && ']' !in s
    ensures ParseLine("[" + s + "]", section) == Parsed(SECTION, Lower(Strip(s)), [], [])
    ensures ParseLine("[" + s + "]" + rest + "]", section) == Parsed(SECTION, Lower(Strip(s)), [], [])
  {
    hide Span, Strip, Lower, ReadValue, AfterEquals;
    var l, x := "[" + s + "]", "[" + s + "]" + rest + "]";
    assert x[0] == '[';
    StripTrimmed(l);
    StripTrimmed(x);
    assert l[1..] == s + "]" && x[1..] == s + ("]" + rest + "]");
    SpanIs(Not(']'), l[1..], |s|);
    SpanIs(Not(']'), x[1..], |s|);
    assert l[1..][..|s|] == s == x[1..][..|s|];
  }

  /** Empty brackets leave the section as it is. */
  lemma EmptyBrackets(section: string)
    ensures ParseLine("[]", section) == Parsed(SECTION, Lower(Strip(section)), [], [])
  {
    hide Strip, Lower, ReadValue, AfterEquals;
    StripTrimmed("[]");
    SpanIs(Not(']'), "[]"[1..], 0);
    hide Span;
  }

  lemma HeaderIs(s: string)
    ensures HeaderLine(s) == "[" + s + "]\n"
  {
  }

  /** `[s]` starts section s and stores it with a null value. */
  lemma HeaderStored(st: State, s: string)
    requires SectionName(s) && '\0' !in s
    ensures Step(st, "[" + s + "]\n") == State(s, st.dict[s := None], 0)
  {
    HeaderIs(s);
    PlainCString("[" + s, "]\n");
    Assoc("[", s, "]\n");
    ParseHeaderLine(s, st.section);
    hide ParseLine, CString, HeaderLine, SectionName;
  }

  lemma HeaderFull(s: string)
    requires PlainText(s) && |s| < 1000
    ensures FullLine("[" + s + "]\n")
  {
    HeaderIs(s);
    HeaderLineFull(s);
  }

  lemma SmallText(s: string, k: string, v: string)
    ensures "[" + s + "]\n" + k + "=" + v == Flat(["[" + s + "]\n"]) + (k + "=" + v)
  {
    var h := "[" + s + "]\n";
    FlatOne(h);
    Assoc(h, k + "=", v);
    Assoc(h, k, "=");
  }

  lemma SmallLine(k: string, v: string)
    requires PlainText(k) && PlainText(v) && |k| + |v| < 1000
    ensures PlainText(k + "=" + v) && 0 < |k + "=" + v| < 1023
  {
  }

  /** A header and one assignment, without a line end behind it. */
  lemma SmallTextLoaded(s: string, k: string, v: string)
    requires SectionName(s) && PlainText(s) && |s| < 1000
    requires KeyName(k) && ValueForm(v) && PlainText(k) && PlainText(v) && |k| + |v| < 1000
    ensures var t := "[" + s + "]\n" + k + "=" + v;
            Run(START, Pieces(t + ['\0'], |t|)) == State(s, map[s := None, s + ":" + k := Some(v)], 0)
  {
    assert '\0' !in s && '\0' !in k && '\0' !in v;
    assert START.dict == map[];
    var h := "[" + s + "]\n";
    HeaderFull(s);
    hide *;
    SmallText(s, k, v);
    SmallLine(k, v);
    LastLineLoaded(START, [h], k + "=" + v);
    RunOne(START, h);
    HeaderStored(START, s);
    AssignmentStored(Step(START, h), k, v);
  }
}
