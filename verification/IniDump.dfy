/** iniparser_getnsec, iniparser_getsecname and iniparser_dump_ini of confparser/iniparser.c. */
module IniDump {
  import opened Options
  import opened Seqs
  import opened Dictionaries
  import opened IniText
  import opened IniPrint

  datatype Entry = Entry(key: string, val: Value)

  /** The used slots in order. */
  function Entries(keys: seq<Option<string>>, vals: seq<Value>): seq<Entry>
    requires |keys| == |vals|
  {
    if keys == [] then []
    else (if keys[0].Some? then [Entry(keys[0].value, vals[0])] else []) + Entries(keys[1..], vals[1..])
  }

  predicate IsSection(key: string) { ':' !in key }

  /** Section names in order. */
  function Sections(es: seq<Entry>): seq<string>
  {
    if es == [] then [] else (if IsSection(es[0].key) then [es[0].key] else []) + Sections(es[1..])
  }

  predicate InSection(s: string, key: string) { s + [':'] <= key }

  function Printed(v: Value): string { if v.Some? then v.value else [] }

  /** The lines of one section. */
  function BodyLines(s: string, es: seq<Entry>): seq<string>
  {
    if es == [] then []
    else (if InSection(s, es[0].key) then [KeyLine(es[0].key[|s| + 1..], Printed(es[0].val))] else [])
         + BodyLines(s, es[1..])
  }

  /** A blank line, the header and the body of each section. */
  function SectionLines(secs: seq<string>, es: seq<Entry>): seq<string>
  {
    if secs == [] then []
    else [NEWLINE, HeaderLine(secs[0])] + BodyLines(secs[0], es) + SectionLines(secs[1..], es)
  }

  /** A dictionary without sections is printed key by key. */
  function PlainLines(es: seq<Entry>): seq<string>
  {
    if es == [] then [] else [es[0].key + EQUALS + Printed(es[0].val) + NEWLINE] + PlainLines(es[1..])
  }

  function DumpLines(es: seq<Entry>): seq<string>
  {
    if Sections(es) == [] then PlainLines(es) else SectionLines(Sections(es), es) + [NEWLINE]
  }

  // ---------- slots still to be visited ----------

  ghost function EntriesFrom(d: Dictionary, i: nat): seq<Entry>
    requires d.Valid() && i <= d.size
    reads d, d.val, d.key, d.hash
  {
    Entries(d.key[i..], d.val[i..])
  }

  lemma EntriesStep(d: Dictionary, i: nat)
    requires d.Valid() && i < d.size
    ensures EntriesFrom(d, i) == (if d.key[i].Some? then [Entry(d.key[i].value, d.val[i])] else []) + EntriesFrom(d, i + 1)
  {
    assert d.key[i..][1..] == d.key[i + 1..] && d.val[i..][1..] == d.val[i + 1..];
  }

  lemma SectionsStep(d: Dictionary, i: nat)
    requires d.Valid() && i < d.size
    ensures Sections(EntriesFrom(d, i))
         == (if d.key[i].Some? && IsSection(d.key[i].value) then [d.key[i].value] else []) + Sections(EntriesFrom(d, i + 1))
  {
    EntriesStep(d, i);
    EmptyLeft(EntriesFrom(d, i + 1));
    EmptyLeft(Sections(EntriesFrom(d, i + 1)));
    if d.key[i].Some? {
      assert ([Entry(d.key[i].value, d.val[i])] + EntriesFrom(d, i + 1))[1..] == EntriesFrom(d, i + 1);
    }
  }

  /** iniparser_getnsec. */
  method GetNSec(d: Dictionary) returns (nsec: nat)
    requires d.Valid()
    ensures nsec == |Sections(EntriesFrom(d, 0))|
  {
    hide Sections, EntriesFrom;
    nsec := 0;
    var i: nat := 0;
    while i < d.size
      invariant i <= d.size
      invariant nsec + |Sections(EntriesFrom(d, i))| == |Sections(EntriesFrom(d, 0))|
    {
      SectionsStep(d, i);
      if d.key[i].Some? && IsSection(d.key[i].value) {
        nsec := nsec + 1;
      }
      i := i + 1;
    }
    NoneLeft(d);
  }

  lemma NoneLeft(d: Dictionary)
    requires d.Valid()
    ensures EntriesFrom(d, d.size) == [] && Sections(EntriesFrom(d, d.size)) == []
  {
  }

  /** iniparser_getsecname: the n-th section, or null. */
  method GetSecName(d: Dictionary, n: int) returns (name: Option<string>)
    requires d.Valid()
    ensures var secs := Sections(EntriesFrom(d, 0));
            name == if 0 <= n < |secs| then Some(secs[n]) else None
  {
    hide Sections, EntriesFrom;
    if n < 0 { return None; }
    var found: nat := 0;
    var i: nat := 0;
    ghost var secs := Sections(EntriesFrom(d, 0));
    while i < d.size
      invariant i <= d.size && found <= n
      invariant found <= |secs| && secs[found..] == Sections(EntriesFrom(d, i))
    {
      SectionsStep(d, i);
      if d.key[i].Some? && IsSection(d.key[i].value) {
        found := found + 1;
        assert secs[found - 1] == secs[found - 1..][0];
        assert secs[found - 1..][1..] == secs[found..];
        if found > n {
          return Some(d.key[i].value);
        }
      }
      i := i + 1;
    }
    NoneLeft(d);
    return None;
  }

  predicate Once(names: seq<string>) { forall i, j :: 0 <= i < j < |names| ==> names[i] != names[j] }

  lemma OnceCons(name: string, names: seq<string>)
    requires Once(names) && name !in names
    ensures Once([name] + names)
  {
    assert forall i :: 1 <= i < |[name] + names| ==> ([name] + names)[i] == names[i - 1];
  }

  /** The sections from slot `i` on: each once, and all of them. */
  lemma {:induction false} SectionsAhead(d: Dictionary, i: nat)
    requires d.Valid() && i <= d.size
    ensures var secs := Sections(EntriesFrom(d, i));
            && Once(secs)
            && (forall s :: s in secs ==> IsSection(s) && s in d.slot && d.slot[s] >= i)
            && (forall s :: s in d.slot && IsSection(s) && d.slot[s] >= i ==> s in secs)
    decreases d.size - i
  {
    IndexedKeys(d.key[..], d.slot);
    hide Sections, EntriesFrom, Indexes, IsSection;
    if i == d.size {
      NoneLeft(d);
    } else {
      SectionsStep(d, i);
      SectionsAhead(d, i + 1);
      var rest := Sections(EntriesFrom(d, i + 1));
      if d.key[i].Some? && IsSection(d.key[i].value) {
        OnceCons(d.key[i].value, rest);
      } else {
        EmptyLeft(rest);
      }
    }
  }

  /** Counting up through iniparser_getsecname visits every section of the dictionary, each once. */
  lemma SectionsOnce(d: Dictionary)
    requires d.Valid()
    ensures Once(Sections(EntriesFrom(d, 0)))
    ensures forall s :: s in Sections(EntriesFrom(d, 0)) <==> s in d.Contents() && ':' !in s
  {
    SectionsAhead(d, 0);
    hide Sections, EntriesFrom;
  }

  lemma BodyStep(s: string, d: Dictionary, i: nat)
    requires d.Valid() && i < d.size
    ensures Flat(BodyLines(s, EntriesFrom(d, i)))
         == (if d.key[i].Some? && InSection(s, d.key[i].value)
             then KeyLine(d.key[i].value[|s| + 1..], Printed(d.val[i])) else [])
            + Flat(BodyLines(s, EntriesFrom(d, i + 1)))
  {
    EntriesStep(d, i);
    var rest := EntriesFrom(d, i + 1);
    EmptyLeft(rest);
    EmptyLeft(BodyLines(s, rest));
    EmptyLeft(Flat(BodyLines(s, rest)));
    hide KeyLine, InSection;
    if d.key[i].Some? {
      var e := Entry(d.key[i].value, d.val[i]);
      assert ([e] + rest)[1..] == rest;
      if InSection(s, e.key) {
        FlatConcat([KeyLine(e.key[|s| + 1..], Printed(e.val))], BodyLines(s, rest));
        FlatOne(KeyLine(e.key[|s| + 1..], Printed(e.val)));
      }
    }
  }

  lemma PlainStep(d: Dictionary, i: nat)
    requires d.Valid() && i < d.size
    ensures Flat(PlainLines(EntriesFrom(d, i)))
         == (if d.key[i].Some? then d.key[i].value + EQUALS + Printed(d.val[i]) + NEWLINE else [])
            + Flat(PlainLines(EntriesFrom(d, i + 1)))
  {
    EntriesStep(d, i);
    var rest := EntriesFrom(d, i + 1);
    EmptyLeft(rest);
    EmptyLeft(Flat(PlainLines(rest)));
    if d.key[i].Some? {
      assert ([Entry(d.key[i].value, d.val[i])] + rest)[1..] == rest;
      var line := d.key[i].value + EQUALS + Printed(d.val[i]) + NEWLINE;
      FlatConcat([line], PlainLines(rest));
      FlatOne(line);
    }
  }

  /** The inner loop of iniparser_dump_ini: the keys of one section, appended to `f`. */
  method DumpBody(d: Dictionary, secname: string, f: string) returns (f': string)
    requires d.Valid()
    ensures f' == f + Flat(BodyLines(secname, EntriesFrom(d, 0)))
  {
    hide EntriesFrom, BodyLines, Flat, KeyLine, InSection;
    f' := f;
    var j: nat := 0;
    ghost var all := f + Flat(BodyLines(secname, EntriesFrom(d, 0)));
    while j < d.size
      invariant j <= d.size
      invariant f' + Flat(BodyLines(secname, EntriesFrom(d, j))) == all
    {
      BodyStep(secname, d, j);
      ghost var rest := Flat(BodyLines(secname, EntriesFrom(d, j + 1)));
      EmptyLeft(rest);
      if d.key[j].Some? && InSection(secname, d.key[j].value) {
        var line := KeyLine(KeyPart(secname, d.key[j].value), Printed(d.val[j]));
        Assoc(f', line, rest);
        f' := f' + line;
      }
      j := j + 1;
    }
    BodyEnd(secname, d);
    EmptyRight(f');
  }

  function KeyPart(s: string, key: string): string
    requires InSection(s, key)
  {
    key[|s| + 1..]
  }

  lemma BodyEnd(s: string, d: Dictionary)
    requires d.Valid()
    ensures Flat(BodyLines(s, EntriesFrom(d, d.size))) == []
    ensures Flat(PlainLines(EntriesFrom(d, d.size))) == []
  {
    NoneLeft(d);
  }

  /** The branch for a dictionary without sections. A null value there would be passed to "%s". */
  method DumpPlain(d: Dictionary) returns (f: string)
    requires d.Valid()
    requires forall i :: 0 <= i < d.size && d.key[i].Some? ==> d.val[i].Some?
    ensures f == Flat(PlainLines(EntriesFrom(d, 0)))
  {
    hide EntriesFrom, PlainLines, Flat;
    f := [];
    var i: nat := 0;
    ghost var all := Flat(PlainLines(EntriesFrom(d, 0)));
    EmptyLeft(all);
    while i < d.size
      invariant i <= d.size
      invariant f + Flat(PlainLines(EntriesFrom(d, i))) == all
    {
      PlainStep(d, i);
      ghost var rest := Flat(PlainLines(EntriesFrom(d, i + 1)));
      EmptyLeft(rest);
      if d.key[i].Some? {
        var line := d.key[i].value + EQUALS + d.val[i].value + NEWLINE;
        Assoc(f, line, rest);
        f := f + line;
      }
      i := i + 1;
    }
    BodyEnd([], d);
    EmptyRight(f);
  }

  lemma SectionLinesStep(secs: seq<string>, es: seq<Entry>)
    requires secs != []
    ensures Flat(SectionLines(secs, es))
         == (NEWLINE + HeaderLine(secs[0])) + Flat(BodyLines(secs[0], es)) + Flat(SectionLines(secs[1..], es))
  {
    hide HeaderLine;
    var h := [NEWLINE, HeaderLine(secs[0])];
    FlatConcat(h + BodyLines(secs[0], es), SectionLines(secs[1..], es));
    FlatConcat(h, BodyLines(secs[0], es));
    FlatConcat([NEWLINE], [HeaderLine(secs[0])]);
    FlatOne(NEWLINE);
    FlatOne(HeaderLine(secs[0]));
    assert h == [NEWLINE] + [HeaderLine(secs[0])];
  }

  /** iniparser_dump_ini: the text written to the file. */
  method IniparserDumpIni(d: Dictionary) returns (f: string)
    requires d.Valid()
    requires Sections(EntriesFrom(d, 0)) == [] ==>
               forall i :: 0 <= i < d.size && d.key[i].Some? ==> d.val[i].Some?
    ensures f == Flat(DumpLines(EntriesFrom(d, 0)))
  {
    ghost var es := EntriesFrom(d, 0);
    ghost var secs := Sections(es);
    var nsec := GetNSec(d);
    if nsec < 1 {
      f := DumpPlain(d);
      return;
    }
    FlatConcat(SectionLines(secs, es), [NEWLINE]);
    FlatOne(NEWLINE);
    assert secs[0..] == secs;
    hide EntriesFrom, Sections, SectionLines, BodyLines, Flat, HeaderLine;
    f := [];
    ghost var all := Flat(SectionLines(secs, es));
    EmptyLeft(all);
    var i: nat := 0;
    while i < nsec
      invariant i <= nsec
      invariant f + Flat(SectionLines(secs[i..], es)) == all
    {
      SectionLinesStep(secs[i..], es);
      assert secs[i..][1..] == secs[i + 1..];
      var secname := GetSecName(d, i);
      ghost var head, body := NEWLINE + HeaderLine(secs[i]), Flat(BodyLines(secs[i], es));
      ghost var rest := Flat(SectionLines(secs[i + 1..], es));
      Assoc(f, head + body, rest);
      Assoc(f, head, body);
      f := f + (NEWLINE + HeaderLine(secname.value));
      f := DumpBody(d, secname.value, f);
      i := i + 1;
    }
    AllPrinted(secs, es);
    EmptyRight(f);
    f := f + NEWLINE;
  }

  lemma AllPrinted(secs: seq<string>, es: seq<Entry>)
    ensures Flat(SectionLines(secs[|secs|..], es)) == []
  {
  }
}
