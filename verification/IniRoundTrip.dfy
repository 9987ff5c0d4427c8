/** Loading what was saved: iniparser_load_mem undoes iniparser_dump_ini. */
module IniRoundTrip {
  import opened Options
  import opened Seqs
  import opened Dictionaries
  import opened IniText
  import opened IniLine
  import opened IniPrint
  import opened IniLoad
  import opened IniDump

  // ---------- text and lines ----------

  predicate Printable(s: string) { forall k :: 0 <= k < |s| ==> !EndsLine(s[k]) }

  /** A line that getnstr delivers whole. */
  predicate FullLine(l: string)
  {
    0 < |l| < LINE_SIZE && l[|l| - 1] == '\n' && Printable(l[..|l| - 1])
  }

  lemma FullLinePiece(l: string, rest: string)
    requires FullLine(l)
    ensures PieceLength(l + rest, LINE_SIZE) == |l|
  {
    var s := l + rest;
    assert forall k :: 0 <= k < |l| - 1 ==> s[k] == l[..|l| - 1][k];
    ToEndIs(s, |l| - 1);
  }

  /** getnstr cuts a text made of full lines into exactly these lines. */
  lemma {:induction false} PiecesOfJoin(lines: seq<string>)
    requires forall k :: 0 <= k < |lines| ==> FullLine(lines[k])
    ensures Pieces(Flat(lines) + [NUL], |Flat(lines)|) == lines
  {
    if lines != [] {
      var rest := Flat(lines[1..]);
      Assoc(lines[0], rest, [NUL]);
      FullLinePiece(lines[0], rest + [NUL]);
      SplitLeft(lines[0], rest + [NUL], |lines[0]|);
      EmptyLeft(rest + [NUL]);
      assert lines[0][..|lines[0]|] == lines[0];
      PiecesOfJoin(lines[1..]);
    }
  }

  lemma FullLineCString(l: string)
    requires FullLine(l)
    ensures CString(l) == l
  {
    assert forall k :: 0 <= k < |l| - 1 ==> l[k] == l[..|l| - 1][k];
    SpanIs(Not(NUL), l, |l|);
    assert l[..|l|] == l;
  }

  // ---------- well-formed dictionaries ----------

  function ColonAt(key: string): (n: nat)
    requires !IsSection(key)
    ensures n < |key| && key[n] == ':' && ':' !in key[..n]
  {
    if key[0] == ':' then 0
    else
      assert key == [key[0]] + key[1..];
      1 + ColonAt(key[1..])
  }

  function SectionOf(key: string): string
    requires !IsSection(key)
  {
    key[..ColonAt(key)]
  }

  function KeyOf(key: string): string
    requires !IsSection(key)
  {
    key[ColonAt(key) + 1..]
  }

  /** A section: null value and a name that a header line can carry. */
  predicate GoodSection(key: string, v: Value)
  {
    v.None? && SectionName(key) && Printable(key) && |HeaderLine(key)| < LINE_SIZE
  }

  /** A key: in a section that is present, with a name and a value that a key line can carry. */
  predicate GoodKey(key: string, v: Value, names: set<string>)
    requires !IsSection(key)
  {
    && SectionOf(key) in names
    && KeyName(KeyOf(key)) && Printable(KeyOf(key))
    && v.Some? && ValueForm(v.value) && Printable(v.value)
    && |KeyLine(KeyOf(key), v.value)| < LINE_SIZE
  }

  ghost predicate WellFormed(m: map<string, Value>)
  {
    forall key :: key in m ==> if IsSection(key) then GoodSection(key, m[key]) else GoodKey(key, m[key], m.Keys)
  }

  /** The section prefix of a key is unique. */
  lemma InSectionIff(s: string, key: string)
    requires IsSection(s)
    ensures InSection(s, key) <==> !IsSection(key) && s == SectionOf(key)
    ensures InSection(s, key) ==> key[|s| + 1..] == KeyOf(key)
  {
    if InSection(s, key) {
      assert key[|s|] == (s + [':'])[|s|] == ':';
      assert key[..|s|] == s;
      ColonAtIs(key, |s|);
    }
    if !IsSection(key) {
      assert key[..ColonAt(key) + 1] == SectionOf(key) + [':'];
    }
  }

  lemma {:induction false} ColonAtIs(key: string, n: nat)
    requires n < |key| && key[n] == ':' && ':' !in key[..n]
    ensures !IsSection(key) && ColonAt(key) == n
  {
    if n > 0 {
      assert key[0] == key[..n][0];
      assert key[1..][..n - 1] == key[..n][1..];
      ColonAtIs(key[1..], n - 1);
    }
  }

  // ---------- entries and the map ----------

  ghost predicate Lists(es: seq<Entry>, m: map<string, Value>)
  {
    && (forall e :: e in es ==> e.key in m && m[e.key] == e.val)
    && (forall k :: k in m ==> Entry(k, m[k]) in es)
  }

  lemma {:induction false} EntryOfSlot(keys: seq<Option<string>>, vals: seq<Value>, i: nat)
    requires |keys| == |vals| && i < |keys| && keys[i].Some?
    ensures Entry(keys[i].value, vals[i]) in Entries(keys, vals)
  {
    if i > 0 {
      EntryOfSlot(keys[1..], vals[1..], i - 1);
    }
  }

  lemma {:induction false} SlotOfEntry(keys: seq<Option<string>>, vals: seq<Value>, e: Entry) returns (i: nat)
    requires |keys| == |vals| && e in Entries(keys, vals)
    ensures i < |keys| && keys[i] == Some(e.key) && vals[i] == e.val
  {
    if keys[0].Some? && e == Entry(keys[0].value, vals[0]) {
      i := 0;
    } else {
      i := SlotOfEntry(keys[1..], vals[1..], e);
      i := i + 1;
    }
  }

  lemma EntriesList(keys: seq<Option<string>>, vals: seq<Value>, slot: map<string, nat>)
    requires |keys| == |vals| && Indexes(keys, slot)
    ensures Lists(Entries(keys, vals), MapOf(vals, slot))
  {
    var es, m := Entries(keys, vals), MapOf(vals, slot);
    forall e | e in es ensures e.key in m && m[e.key] == e.val {
      var i := SlotOfEntry(keys, vals, e);
    }
    forall k | k in m ensures Entry(k, m[k]) in es {
      EntryOfSlot(keys, vals, slot[k]);
    }
  }

  // ---------- every printed line is a full line ----------

  predicate FullLines(lines: seq<string>) { forall l :: l in lines ==> FullLine(l) }

  lemma PrintableConcat(a: string, b: string)
    requires Printable(a) && Printable(b)
    ensures Printable(a + b)
  {
  }

  lemma KeyLineFull(k: string, v: string)
    requires Printable(k) && Printable(v) && |KeyLine(k, v)| < LINE_SIZE
    ensures FullLine(KeyLine(k, v))
  {
    var b := Blanks(if |k| < 30 then 30 - |k| else 0);
    PrintableConcat(k, b);
    PrintableConcat(Pad30(k), EQUALS);
    PrintableConcat(Pad30(k) + EQUALS, v);
    var l := Pad30(k) + EQUALS + v;
    hide Pad30, Printable;
    assert KeyLine(k, v) == l + NEWLINE;
    assert (l + NEWLINE)[..|l|] == l;
  }

  lemma HeaderLineFull(s: string)
    requires Printable(s) && |HeaderLine(s)| < LINE_SIZE
    ensures FullLine(HeaderLine(s))
  {
    PrintableConcat(['['], s);
    PrintableConcat(['['] + s, [']']);
    var l := ['['] + s + [']'];
    hide Printable;
    assert HeaderLine(s) == l + NEWLINE;
    assert (l + NEWLINE)[..|l|] == l;
  }

  ghost predicate GoodEntries(es: seq<Entry>, names: set<string>)
  {
    forall e :: e in es ==> if IsSection(e.key) then GoodSection(e.key, e.val) else GoodKey(e.key, e.val, names)
  }

  lemma {:induction false} BodyLinesFull(s: string, es: seq<Entry>, names: set<string>)
    requires IsSection(s) && GoodEntries(es, names)
    ensures FullLines(BodyLines(s, es))
  {
    hide GoodSection, FullLine, KeyLine;
    if es != [] {
      BodyLinesFull(s, es[1..], names);
      InSectionIff(s, es[0].key);
      if InSection(s, es[0].key) {
        KeyLineFull(KeyOf(es[0].key), es[0].val.value);
      }
    }
  }

  lemma {:induction false} SectionLinesFull(secs: seq<string>, es: seq<Entry>, names: set<string>)
    requires GoodEntries(es, names)
    requires forall s :: s in secs ==> IsSection(s) && GoodSection(s, None)
    ensures FullLines(SectionLines(secs, es))
  {
    if secs != [] {
      BodyLinesFull(secs[0], es, names);
      HeaderLineFull(secs[0]);
      SectionLinesFull(secs[1..], es, names);
      assert FullLine(NEWLINE);
      hide FullLine, GoodSection, HeaderLine;
    }
  }

  // ---------- running the lines ----------

  ghost predicate Agrees(dict: map<string, Value>, m: map<string, Value>)
  {
    forall k :: k in dict ==> k in m && dict[k] == m[k]
  }

  /** The loader is in section `s`, without pending errors, holding part of `m`. */
  ghost predicate Loading(st: State, s: string, m: map<string, Value>)
  {
    st.section == s && st.errs == 0 && Agrees(st.dict, m)
  }

  ghost predicate Covered(s: string, es: seq<Entry>, dict: map<string, Value>)
  {
    forall e :: e in es && InSection(s, e.key) ==> e.key in dict
  }

  lemma StepKeyLine(st: State, k: string, v: string, m: map<string, Value>)
    requires KeyName(k) && Printable(k) && Printable(v) && ValueForm(v) && |KeyLine(k, v)| < LINE_SIZE
    requires Loading(st, st.section, m)
    requires st.section + [':'] + k in m && m[st.section + [':'] + k] == Some(v)
    ensures Step(st, KeyLine(k, v)) == State(st.section, st.dict[st.section + [':'] + k := Some(v)], 0)
    ensures Loading(Step(st, KeyLine(k, v)), st.section, m)
  {
    hide KeyLine, CString, ParseLine, KeyName, Printable, ValueForm, FullLine;
    KeyLineFull(k, v);
    FullLineCString(KeyLine(k, v));
    KeyLineRoundTrip(k, v, st.section);
  }

  lemma {:induction false} RunBody(st: State, s: string, es: seq<Entry>, m: map<string, Value>)
    requires IsSection(s) && GoodEntries(es, m.Keys) && Loading(st, s, m)
    requires forall e :: e in es ==> e.key in m && m[e.key] == e.val
    ensures var st' := Run(st, BodyLines(s, es));
            && Loading(st', s, m) && st.dict.Keys <= st'.dict.Keys
            && Covered(s, es, st'.dict)
    decreases es
  {
    hide GoodSection, Step, KeyLine, KeyName, ValueForm, Printable, InSection;
    if es != [] {
      var e := es[0];
      InSectionIff(s, e.key);
      if InSection(s, e.key) {
        var k := KeyOf(e.key);
        assert e.key == s + [':'] + k by { KeySplit(s, e.key); }
        StepKeyLine(st, k, e.val.value, m);
        var line := KeyLine(k, e.val.value);
        assert BodyLines(s, es) == [line] + BodyLines(s, es[1..]);
        assert BodyLines(s, es)[1..] == BodyLines(s, es[1..]);
        RunBody(Step(st, line), s, es[1..], m);
      } else {
        EmptyLeft(BodyLines(s, es[1..]));
        RunBody(st, s, es[1..], m);
      }
    }
  }

  lemma KeySplit(s: string, key: string)
    requires InSection(s, key)
    ensures key == s + [':'] + key[|s| + 1..]
  {
  }

  lemma StepHeader(st: State, s: string, m: map<string, Value>)
    requires IsSection(s) && GoodSection(s, None) && s in m && m[s] == None
    requires Loading(st, st.section, m)
    ensures Run(st, [NEWLINE, HeaderLine(s)]) == State(s, st.dict[s := None], 0)
  {
    hide ParseLine, CString, HeaderLine, FullLine, Printable;
    HeaderLineFull(s);
    FullLineCString(HeaderLine(s));
    ParseHeaderLine(s, st.section);
    hide GoodSection;
    RunBlank(st);
    RunTwo(st, NEWLINE, HeaderLine(s));
  }

  lemma RunTwo(st: State, a: string, b: string)
    ensures Run(st, [a]) == Step(st, a)
    ensures Run(st, [a, b]) == Step(Step(st, a), b)
  {
    hide Step;
    assert [a][1..] == [];
    assert [a, b][1..] == [b] && [b][1..] == [];
    assert Run(Step(st, a), [b]) == Run(Step(Step(st, a), b), [b][1..]);
  }

  /** After the sections `secs` have been read, they and everything in them are in the dictionary. */
  lemma {:induction false} RunSections(st: State, secs: seq<string>, es: seq<Entry>, m: map<string, Value>)
    returns (st': State)
    requires Lists(es, m) && GoodEntries(es, m.Keys) && Loading(st, st.section, m)
    requires forall s :: s in secs ==> IsSection(s) && s in m && GoodSection(s, m[s])
    ensures st' == Run(st, SectionLines(secs, es)) && Loading(st', st'.section, m)
    ensures st.dict.Keys <= st'.dict.Keys
    ensures forall s :: s in secs ==> s in st'.dict
    ensures forall s :: s in secs ==> Covered(s, es, st'.dict)
    decreases secs
  {
    hide GoodSection, GoodEntries, BodyLines, HeaderLine, Covered;
    if secs == [] {
      st' := st;
    } else {
      var s := secs[0];
      assert m[s] == None by { GoodSectionNull(s, m[s]); }
      StepHeader(st, s, m);
      var st1 := State(s, st.dict[s := None], 0);
      RunBody(st1, s, es, m);
      var st2 := Run(st1, BodyLines(s, es));
      st' := RunSections(st2, secs[1..], es, m);
      var h := [NEWLINE, HeaderLine(s)];
      RunConcat(st, h + BodyLines(s, es), SectionLines(secs[1..], es));
      RunConcat(st, h, BodyLines(s, es));
      CoveredMore(s, es, st2.dict, st'.dict);
    }
  }

  lemma CoveredMore(s: string, es: seq<Entry>, d: map<string, Value>, d': map<string, Value>)
    requires Covered(s, es, d) && d.Keys <= d'.Keys
    ensures Covered(s, es, d')
  {
  }

  lemma GoodSectionNull(s: string, v: Value)
    requires GoodSection(s, v)
    ensures v == None
  {
  }

  lemma {:induction false} SectionsAre(es: seq<Entry>)
    ensures forall s :: s in Sections(es) ==> IsSection(s) && exists e :: e in es && e.key == s
    ensures forall e :: e in es && IsSection(e.key) ==> e.key in Sections(es)
  {
    hide IsSection;
    if es != [] {
      SectionsAre(es[1..]);
      var rest := Sections(es[1..]);
      forall s | s in Sections(es) ensures IsSection(s) && exists e :: e in es && e.key == s {
        if s in rest {
          var e :| e in es[1..] && e.key == s;
          assert e in es;
        } else {
          assert es[0].key == s;
        }
      }
      forall e | e in es && IsSection(e.key) ensures e.key in Sections(es) {
        if e != es[0] {
          assert e in es[1..];
        }
      }
    }
  }

  lemma GoodEntriesOf(es: seq<Entry>, m: map<string, Value>)
    requires Lists(es, m) && WellFormed(m)
    ensures GoodEntries(es, m.Keys)
    ensures forall s :: s in Sections(es) ==> IsSection(s) && s in m && GoodSection(s, m[s])
    ensures forall k :: k in m && IsSection(k) ==> k in Sections(es)
    ensures Sections(es) == [] ==> m == map[] && es == []
  {
    hide GoodSection, GoodKey, IsSection, Sections;
    assert es != [] ==> es[0] in es;
    SectionsAre(es);
    forall k | k in m ensures Sections(es) != [] {
      if IsSection(k) {
        assert Entry(k, m[k]) in es;
      } else {
        SectionPresent(k, m);
        assert Entry(SectionOf(k), m[SectionOf(k)]) in es;
      }
    }
    if Sections(es) == [] {
      assert m.Keys == {};
    }
  }

  lemma SectionPresent(k: string, m: map<string, Value>)
    requires WellFormed(m) && k in m && !IsSection(k)
    ensures SectionOf(k) in m && IsSection(SectionOf(k))
  {
  }

  /** getnstr finds the lines that were printed. */
  lemma DumpPieces(es: seq<Entry>, m: map<string, Value>)
    requires Lists(es, m) && WellFormed(m)
    ensures Pieces(Flat(DumpLines(es)) + [NUL], |Flat(DumpLines(es))|) == DumpLines(es)
  {
    GoodEntriesOf(es, m);
    hide WellFormed, Sections, SectionLines, GoodEntries, GoodSection, Lists;
    var secs := Sections(es);
    if secs == [] {
      assert DumpLines(es) == [];
    } else {
      forall s | s in secs ensures IsSection(s) && GoodSection(s, None) {
        GoodSectionNull(s, m[s]);
      }
      SectionLinesFull(secs, es, m.Keys);
      FullLinesConcat(SectionLines(secs, es), NEWLINE);
      PiecesOfJoin(DumpLines(es));
    }
  }

  lemma NothingDumped(es: seq<Entry>)
    requires Sections(es) == [] && es == []
    ensures DumpLines(es) == [] && Run(START, []) == START && START.dict == map[] && START.errs == 0
  {
  }

  lemma LoadingStart(m: map<string, Value>)
    ensures Loading(START, START.section, m)
  {
  }

  lemma Loaded(st: State, m: map<string, Value>)
    requires Loading(st, st.section, m) && m.Keys <= st.dict.Keys
    ensures st.errs == 0 && st.dict == m
  {
  }

  lemma DumpLinesOf(es: seq<Entry>)
    requires Sections(es) != []
    ensures DumpLines(es) == SectionLines(Sections(es), es) + [NEWLINE]
  {
  }

  /** Reading the printed lines rebuilds the dictionary. */
  lemma DumpRun(es: seq<Entry>, m: map<string, Value>)
    requires Lists(es, m) && WellFormed(m)
    ensures Run(START, DumpLines(es)).errs == 0 && Run(START, DumpLines(es)).dict == m
  {
    hide *;
    GoodEntriesOf(es, m);
    var secs := Sections(es);
    if secs == [] {
      NothingDumped(es);
    } else {
      LoadingStart(m);
      var st := RunSections(START, secs, es, m);
      DumpLinesOf(es);
      RunConcat(START, SectionLines(secs, es), [NEWLINE]);
      RunBlank(st);
      AllCovered(es, m, st.dict);
      Loaded(st, m);
    }
  }

  /** The text of a well-formed dictionary, cut and read line by line, rebuilds the dictionary. */
  lemma SaveLoad(es: seq<Entry>, m: map<string, Value>)
    requires Lists(es, m) && WellFormed(m)
    ensures var text := Flat(DumpLines(es));
            var st := Run(START, Pieces(text + [NUL], |text|));
            st.errs == 0 && st.dict == m
  {
    DumpPieces(es, m);
    DumpRun(es, m);
  }

  lemma AllCovered(es: seq<Entry>, m: map<string, Value>, dict: map<string, Value>)
    requires Lists(es, m) && WellFormed(m)
    requires forall s :: s in Sections(es) ==> s in dict && Covered(s, es, dict)
    ensures m.Keys <= dict.Keys
  {
    GoodEntriesOf(es, m);
    hide WellFormed, Sections, Covered, GoodEntries, IsSection, InSection, GoodSection;
    forall k | k in m ensures k in dict {
      if !IsSection(k) {
        SectionPresent(k, m);
        InSectionIff(SectionOf(k), k);
        CoveredKey(SectionOf(k), es, dict, Entry(k, m[k]));
      }
    }
  }

  lemma CoveredKey(s: string, es: seq<Entry>, d: map<string, Value>, e: Entry)
    requires Covered(s, es, d) && e in es && InSection(s, e.key)
    ensures e.key in d
  {
  }

  lemma FullLinesConcat(lines: seq<string>, last: string)
    requires FullLines(lines) && last == NEWLINE
    ensures FullLines(lines + [last])
    ensures forall k :: 0 <= k < |lines + [last]| ==> FullLine((lines + [last])[k])
  {
  }

  lemma RunBlank(st: State)
    ensures Run(st, [NEWLINE]) == st
  {
    hide ParseLine, CString, Run, FullLine;
    assert FullLine(NEWLINE) by { NewlineFull(); }
    FullLineCString(NEWLINE);
    ParseBlankLine(st.section);
    RunTwo(st, NEWLINE, NEWLINE);
  }

  lemma NewlineFull()
    ensures FullLine(NEWLINE)
  {
  }

  /** Saving a well-formed dictionary and loading the text gives an equal dictionary. */
  method SaveAndLoad(d: Dictionary, h: string -> nat) returns (d': Dictionary?)
    requires d.Valid() && WellFormed(d.Contents())
    ensures d' != null && d'.Valid() && d'.Contents() == d.Contents()
  {
    ghost var es, m := EntriesFrom(d, 0), d.Contents();
    assert d.key[0..] == d.key[..] && d.val[0..] == d.val[..];
    EntriesList(d.key[..], d.val[..], d.slot);
    SaveLoad(es, m);
    NoPlainNulls(d);
    hide EntriesFrom, WellFormed, Lists, DumpLines, Flat, Run, Pieces, MapOf;
    var text := IniparserDumpIni(d);
    d' := IniparserLoadMem(text + [NUL], |text|, h);
  }

  lemma NoPlainNulls(d: Dictionary)
    requires d.Valid() && WellFormed(d.Contents())
    requires Lists(EntriesFrom(d, 0), d.Contents())
    ensures Sections(EntriesFrom(d, 0)) == [] ==>
              forall i :: 0 <= i < d.size && d.key[i].Some? ==> d.val[i].Some?
  {
    hide WellFormed, Sections, GoodEntries, GoodSection, Lists, EntriesFrom;
    GoodEntriesOf(EntriesFrom(d, 0), d.Contents());
    assert forall i :: 0 <= i < d.size ==> d.key[..][i] == d.key[i];
    assert forall i :: 0 <= i < d.size && d.key[i].Some? ==> d.key[i].value in d.Contents();
  }
}
