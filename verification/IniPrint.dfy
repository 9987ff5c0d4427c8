/** Single lines printed by iniparser_dump_ini, and what iniparser_line makes of them. */
module IniPrint {
  import opened Seqs
  import opened IniText
  import opened IniLine

  function Blanks(n: nat): (s: string)
    ensures |s| == n && AllSpace(s)
    ensures forall k :: 0 <= k < n ==> s[k] == ' '
  {
    seq(n, _ => ' ')
  }

  /** "%-30s". */
  function Pad30(k: string): string { k + Blanks(if |k| < 30 then 30 - |k| else 0) }

  const EQUALS: string := [' ', '=', ' ']
  const NEWLINE: string := ['\n']

  /** "%-30s = %s\n". */
  function KeyLine(k: string, v: string): string { Pad30(k) + EQUALS + v + NEWLINE }

  /** "[%s]\n". */
  function HeaderLine(s: string): string { ['['] + s + [']', '\n'] }

  /** A key that a line can start with. */
  predicate KeyName(k: string)
  {
    k != [] && Trimmed(k) && IsLower(k) && '=' !in k && k[0] != '#' && k[0] != '['
  }

  predicate SectionName(s: string)
  {
    s != [] && Trimmed(s) && IsLower(s) && ']' !in s
  }

  /** Values without comment signs that do not look quoted. */
  predicate ValueForm(v: string)
  {
    && Trimmed(v) && ';' !in v && '#' !in v && v != DQUOTES && v != SQUOTES
    && !LooksQuoted(v)
  }

  /** A quote with text after it. */
  predicate LooksQuoted(v: string)
  {
    |v| >= 2 && (v[0] == '"' || v[0] == '\'') && v[1] != v[0]
  }

  // ---------- values ----------

  lemma SpanAll(cls: CharClass, s: string)
    requires forall k :: 0 <= k < |s| ==> In(cls, s[k])
    ensures Span(cls, s) == |s|
  {
    SpanIs(cls, s, |s|);
  }

  lemma ReadValueTrimmed(w: string)
    ensures Trimmed(ReadValue(w)) && ReadValue(w) != DQUOTES && ReadValue(w) != SQUOTES
    ensures |ReadValue(w)| <= |w|
  {
    hide Span, Strip;
  }

  lemma ReadValueBare(v: string)
    requires !LooksQuoted(v)
    ensures ReadValue(v) == Tidy(v[..Span(NotEither(';', '#'), v)])
  {
    hide Tidy;
    assert v != [] && v[0] == '"' ==> Span(Not('"'), v[1..]) == 0;
    assert v != [] && v[0] == '\'' ==> Span(Not('\''), v[1..]) == 0;
    hide Span;
  }

  lemma ReadValueKeeps(v: string)
    requires ValueForm(v)
    ensures ReadValue(v) == v
  {
    hide Span, Strip, ReadValue;
    StripTrimmed(v);
    ReadValueBare(v);
    SpanAll(NotEither(';', '#'), v);
    assert v[..|v|] == v;
  }

  /** Reading a value back gives it unchanged exactly for the values in ValueForm. */
  lemma ReadValueFixed(v: string)
    ensures ReadValue(Strip(v)) == v <==> ValueForm(v)
  {
    hide ReadValue, Strip;
    ReadValueTrimmed(Strip(v));
    if Trimmed(v) {
      StripTrimmed(v);
      if ValueForm(v) {
        ReadValueKeeps(v);
      } else if v != DQUOTES && v != SQUOTES {
        ReadValueShorter(v);
      }
    }
  }

  lemma ReadValueShorter(v: string)
    requires ';' in v || '#' in v || LooksQuoted(v)
    ensures |ReadValue(v)| < |v|
  {
    hide Tidy;
    if v != [] && v[0] == '"' && Span(Not('"'), v[1..]) > 0 {
      TidyShrinks(v[1..][..Span(Not('"'), v[1..])]);
    } else if v != [] && v[0] == '\'' && Span(Not('\''), v[1..]) > 0 {
      TidyShrinks(v[1..][..Span(Not('\''), v[1..])]);
    } else {
      TidyShrinks(v[..Span(NotEither(';', '#'), v)]);
    }
  }

  lemma TidyShrinks(v: string)
    ensures |Tidy(v)| <= |v|
  {
  }

  // ---------- whole lines ----------

  lemma {:induction false} TrimRightSplit(s: string)
    ensures AllSpace(s[|TrimRight(s)|..])
  {
    if s != [] && IsSpace(s[|s| - 1]) {
      var u := s[..|s| - 1];
      TrimRightSplit(u);
      var n := |TrimRight(u)|;
      assert s[n..] == u[n..] + [s[|s| - 1]];
    }
  }

  /** A string is its stripped core between white space. */
  lemma StripSplit(v: string) returns (a: string, b: string)
    ensures AllSpace(a) && AllSpace(b) && v == a + Strip(v) + b
  {
    var n := Span(Space, v);
    var u := v[n..];
    var m := |TrimRight(u)|;
    TrimRightSplit(u);
    a, b := v[..n], u[m..];
    assert Strip(v) == TrimRight(u) == u[..m];
    hide Strip, Span, TrimRight;
    Assoc(a, u[..m], u[m..]);
    assert u == u[..m] + u[m..];
    assert v == a + u;
  }

  /** `rest` follows the equals sign of a line that starts with the padded key. */
  lemma KeyCore(k: string, rest: string)
    requires KeyName(k)
    ensures var line := Pad30(k) + [' ', '='] + rest;
            && Span(Not('='), line) == |Pad30(k)| + 1
            && Strip(line[..|Pad30(k)| + 1]) == k
            && line[|Pad30(k)| + 2..] == rest
  {
    var p := Pad30(k);
    var line := p + [' ', '='] + rest;
    var pad := Blanks(if |k| < 30 then 30 - |k| else 0);
    assert forall i :: 0 <= i < |k| ==> line[i] == k[i];
    assert forall i :: |k| <= i < |p| ==> line[i] == pad[i - |k|];
    assert line[|p|] == ' ' && line[|p| + 1] == '=';
    SpanIs(Not('='), line, |p| + 1);
    assert line[..|p| + 1] == [] + k + (pad + [' ']);
    StripCore([], k, pad + [' ']);
  }

  lemma Regroup(p: string, e: string, f: string, a: string, w: string, b: string, n: string)
    ensures p + (e + f) + (a + w + b) + n == (p + e + (f + a + w)) + (b + n)
    ensures p + (e + f) + (a + w + b) + n == (p + e) + (f + (a + w + b) + n)
  {
    var v := a + w + b;
    Assoc(p, e, f);
    Assoc(p + e, f, v);
    Assoc(p + e, f + v, n);
    Assoc(f, a + w, b);
    Assoc(f, a, w);
    Assoc(f + (a + w), b, n);
    Assoc(p + e, f + a + w, b + n);
  }

  lemma AllSpaceConcat(a: string, b: string)
    requires AllSpace(a) && AllSpace(b)
    ensures AllSpace(a + b)
  {
  }

  /** The line starts with the padded key and an equals sign, whatever follows. */
  lemma KeyLineTrimmed(k: string, rest: string)
    requires KeyName(k) && (rest != [] ==> !IsSpace(rest[|rest| - 1]))
    ensures var line := Pad30(k) + [' ', '='] + rest; line != [] && Trimmed(line)
  {
    var line := Pad30(k) + [' ', '='] + rest;
    assert line[0] == k[0];
  }

  lemma StripBlankValue(k: string, v: string)
    requires KeyName(k) && AllSpace(v)
    ensures Strip(KeyLine(k, v)) == Pad30(k) + [' ', '='] + []
  {
    var p := Pad30(k);
    assert EQUALS == [' ', '='] + [' '];
    AllSpaceConcat([' '], v);
    AllSpaceConcat([' '] + v, NEWLINE);
    KeyLineTrimmed(k, []);
    EmptyRight(p + [' ', '=']);
    hide Pad30, Strip, AllSpace, Trimmed, KeyName;
    Regroup(p, [' ', '='], [' '], v, [], [], NEWLINE);
    EmptyRight(v);
    StripTail(p + [' ', '='], [' '] + v + NEWLINE);
  }

  lemma StripTextValue(k: string, a: string, w: string, b: string)
    requires KeyName(k) && AllSpace(a) && AllSpace(b) && Trimmed(w) && w != []
    ensures Strip(KeyLine(k, a + w + b)) == Pad30(k) + [' ', '='] + ([' '] + a + w)
  {
    var p := Pad30(k);
    var rest := [' '] + a + w;
    assert EQUALS == [' ', '='] + [' '];
    assert rest[|rest| - 1] == w[|w| - 1];
    AllSpaceConcat(b, NEWLINE);
    KeyLineTrimmed(k, rest);
    hide Pad30, Strip, AllSpace, Trimmed, KeyName;
    Regroup(p, [' ', '='], [' '], a, w, b, NEWLINE);
    StripTail(p + [' ', '='] + rest, b + NEWLINE);
  }

  /** The stripped form of a key line. */
  lemma StripKeyLine(k: string, v: string) returns (rest: string)
    requires KeyName(k)
    ensures Strip(KeyLine(k, v)) == Pad30(k) + [' ', '='] + rest
    ensures rest[Span(Space, rest)..] == Strip(v)
  {
    var a, b := StripSplit(v);
    var w := Strip(v);
    hide Pad30, Strip, AllSpace, Trimmed, KeyName, KeyLine;
    if w == [] {
      rest := [];
      EmptyRight(a);
      AllSpaceConcat(a, b);
      StripBlankValue(k, v);
    } else {
      rest := [' '] + a + w;
      AllBlank();
      AllSpaceConcat([' '], a);
      SkipBlanks([' '] + a, w);
      StripTextValue(k, a, w, b);
    }
  }

  lemma AllBlank()
    ensures AllSpace([' '])
  {
  }

  lemma SkipBlanks(a: string, w: string)
    requires AllSpace(a) && Trimmed(w)
    ensures (a + w)[Span(Space, a + w)..] == w
  {
    SpanIs(Space, a + w, |a|);
  }

  lemma StripTail(core: string, tail: string)
    requires core != [] && Trimmed(core) && AllSpace(tail)
    ensures Strip(core + tail) == core
  {
    StripCore([], core, tail);
    EmptyLeft(core);
  }

  /** A line with an equals sign that is neither a comment nor, by its first character, a header. */
  lemma ParseValueLine(input: string, section: string, line: string, n: nat)
    requires line == Strip(input) && n == Span(Not('='), line) && 0 < n < |line| && line[0] != '#' && line[0] != '['
    ensures ParseLine(input, section) == Parsed(VALUE, section, Lower(Strip(line[..n])), ReadValue(AfterEquals(line)))
  {
    hide Strip, Span, ReadValue, AfterEquals, Lower;
  }

  /** A key line means its key, with the value that reading makes of it. */
  lemma ParseKeyLine(k: string, v: string, section: string)
    requires KeyName(k)
    ensures ParseLine(KeyLine(k, v), section) == Parsed(VALUE, section, k, ReadValue(Strip(v)))
  {
    hide ParseLine, Strip, Span, KeyLine, ReadValue, Trimmed, Lower;
    var rest := StripKeyLine(k, v);
    KeyCore(k, rest);
    LowerIdentity(k);
    var line := Strip(KeyLine(k, v));
    assert line[0] == k[0];
    ParseValueLine(KeyLine(k, v), section, line, Span(Not('='), line));
  }

  /** The key line round trip holds exactly for values in ValueForm. */
  lemma KeyLineRoundTrip(k: string, v: string, section: string)
    requires KeyName(k)
    ensures ParseLine(KeyLine(k, v), section) == Parsed(VALUE, section, k, v) <==> ValueForm(v)
  {
    ParseKeyLine(k, v, section);
    ReadValueFixed(v);
  }

  lemma ParseHeaderLine(s: string, section: string)
    requires SectionName(s)
    ensures ParseLine(HeaderLine(s), section) == Parsed(SECTION, s, [], [])
  {
    var core := ['['] + s + [']'];
    assert HeaderLine(s) == core + NEWLINE;
    StripTail(core, NEWLINE);
    hide Strip;
    assert core[1..] == s + [']'];
    SpanIs(Not(']'), core[1..], |s|);
    assert core[1..][..|s|] == s;
    StripTrimmed(s);
    LowerIdentity(s);
  }

  lemma ParseBlankLine(section: string)
    ensures ParseLine(NEWLINE, section) == Parsed(EMPTY, section, [], [])
  {
    SpanIs(Space, NEWLINE, 1);
  }
}
