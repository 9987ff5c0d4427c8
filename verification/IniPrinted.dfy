/** What iniparser_dump_ini of confparser/iniparser.c prints, in characters. */
module IniPrinted {
  import opened Options
  import opened Seqs
  import opened Dictionaries
  import opened IniText
  import opened IniPrint
  import opened IniDump
  import opened IniPieces

  // ---------- the printed text ----------

  /** A printed key line: the key, blanks up to column 30, and the value behind an equals sign. */
  lemma KeyLineText(k: string, v: string)
    ensures var l, n := KeyLine(k, v), if |k| < 30 then 30 else |k|;
            && |l| == n + |v| + 4 && l[..|k|] == k && l[n..] == " = " + v + "\n"
            && forall i :: |k| <= i < n ==> l[i] == ' '
  {
    var l, n := KeyLine(k, v), if |k| < 30 then 30 else |k|;
    assert l == Pad30(k) + (" = " + v + "\n");
    assert |Pad30(k)| == n;
    assert l[..|k|] == Pad30(k)[..|k|] == k;
    assert forall i :: |k| <= i < n ==> l[i] == Pad30(k)[i];
  }

  /** The printed lines of its keys; a null value is printed as nothing. */
  function KeyLines(ks: seq<string>, vs: seq<Value>): seq<string>
    requires |ks| == |vs|
  {
    if ks == [] then []
    else [KeyLine(ks[0], match vs[0] case Some(v) => v case None => "")] + KeyLines(ks[1..], vs[1..])
  }

  /** The entries of keys of section `s`. */
  function KeyEntries(s: string, ks: seq<string>, vs: seq<Value>): seq<Entry>
    requires |ks| == |vs|
  {
    if ks == [] then [] else [Entry(s + ":" + ks[0], vs[0])] + KeyEntries(s, ks[1..], vs[1..])
  }

  lemma {:induction false} KeysPrinted(s: string, ks: seq<string>, vs: seq<Value>)
    requires |ks| == |vs| && ':' !in s
    ensures BodyLines(s, KeyEntries(s, ks, vs)) == KeyLines(ks, vs) && Sections(KeyEntries(s, ks, vs)) == []
  {
    hide KeyLine;
    if ks != [] {
      var e, more := Entry(s + ":" + ks[0], vs[0]), KeyEntries(s, ks[1..], vs[1..]);
      assert ([e] + more)[1..] == more;
      assert e.key[|s|] == ':' && e.key[|s| + 1..] == ks[0] && e.key[..|s| + 1] == s + [':'];
      KeysPrinted(s, ks[1..], vs[1..]);
    }
  }

  lemma OneSection(s: string, more: seq<Entry>)
    requires ':' !in s && Sections(more) == []
    ensures Sections([Entry(s, None)] + more) == [s]
    ensures BodyLines(s, [Entry(s, None)] + more) == BodyLines(s, more)
  {
    assert ([Entry(s, None)] + more)[1..] == more;
    EmptyLeft(BodyLines(s, more));
  }

  lemma OneSectionLines(s: string, es: seq<Entry>)
    requires Sections(es) == [s]
    ensures Flat(DumpLines(es)) == "\n[" + s + "]\n" + Flat(BodyLines(s, es)) + "\n"
  {
    hide BodyLines;
    SectionLinesStep([s], es);
    assert [s][1..] == [];
    FlatConcat(SectionLines([s], es), ["\n"]);
    FlatOne("\n");
    hide Sections;
    assert NEWLINE + HeaderLine(s) == "\n[" + s + "]\n";
  }

  /** A dictionary with one section prints an empty line, the header, the keys in slot order, and an empty line. */
  lemma SectionPrinted(s: string, ks: seq<string>, vs: seq<Value>)
    requires |ks| == |vs| && ':' !in s
    ensures Flat(DumpLines([Entry(s, None)] + KeyEntries(s, ks, vs)))
            == "\n[" + s + "]\n" + Flat(KeyLines(ks, vs)) + "\n"
  {
    hide *;
    KeysPrinted(s, ks, vs);
    OneSection(s, KeyEntries(s, ks, vs));
    OneSectionLines(s, [Entry(s, None)] + KeyEntries(s, ks, vs));
  }

  /** A dictionary without sections prints its entries as they are. */
  lemma PlainPrinted(k: string, v: string, more: seq<Entry>)
    requires ':' in k && Sections(more) == []
    ensures Flat(DumpLines([Entry(k, Some(v))] + more)) == k + " = " + v + "\n" + Flat(DumpLines(more))
  {
    var e := Entry(k, Some(v));
    assert ([e] + more)[1..] == more;
    assert Sections([e] + more) == [];
    FlatOneMore(k + " = " + v + "\n", PlainLines(more));
  }
}
