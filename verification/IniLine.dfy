/** One line of an INI file: iniparser_line of confparser/iniparser.c with its sscanf formats. */
module IniLine {
  import opened Seqs
  import opened IniText

  // ---------- sscanf ----------

  /** A format: scan sets that are assigned, white space, and literal characters. */
  datatype Format = End | Assign(cls: CharClass, next: Format) | White(next: Format) | Lit(c: char, next: Format)

  /** The strings assigned before the format ends or stops matching; their number is the result. */
  function Scan(f: Format, s: string): seq<string>
  {
    match f
    case End => []
    case Assign(cls, next) =>
      var n := Span(cls, s);
      if n == 0 then [] else [s[..n]] + Scan(next, s[n..])
    case White(next) => Scan(next, s[Span(Space, s)..])
    case Lit(c, next) => if s != [] && s[0] == c then Scan(next, s[1..]) else []
  }

  function Quoted(q: char): Format { Lit(q, Assign(Not(q), Lit(q, End))) }
  function Bare(): Format { Assign(NotEither(';', '#'), End) }
  function CommentOnly(): Format { Assign(Either(';', '#'), End) }
  /** "%[^=] = " followed by a value. */
  function KeyThen(f: Format): Format { Assign(Not('='), White(Lit('=', White(f)))) }
  /** "%[^=] %[=]". */
  function KeyOnly(): Format { Assign(Not('='), White(Assign(Only('='), End))) }
  /** "[%[^]]". */
  function Header(): Format { Lit('[', Assign(Not(']'), End)) }

  // ---------- one line ----------

  datatype Status = ERROR | EMPTY | COMMENT | SECTION | VALUE

  const DQUOTES: string := ['"', '"']
  const SQUOTES: string := ['\'', '\'']

  /** What the line means: the status, and for a value line its key and value. */
  datatype Parsed = Parsed(status: Status, section: string, key: string, value: string)

  /** The value read from the text after "key = ". */
  function ReadValue(rest: string): string
  {
    if rest != [] && rest[0] == '"' && Span(Not('"'), rest[1..]) > 0 then
      Tidy(rest[1..][..Span(Not('"'), rest[1..])])
    else if rest != [] && rest[0] == '\'' && Span(Not('\''), rest[1..]) > 0 then
      Tidy(rest[1..][..Span(Not('\''), rest[1..])])
    else
      Tidy(rest[..Span(NotEither(';', '#'), rest)])
  }

  /** Stripping, and reading a pair of quotes as the empty value. */
  function Tidy(v: string): string
  {
    var w := Strip(v);
    if w == DQUOTES || w == SQUOTES then [] else w
  }

  /** Reference meaning of a line, given the section it stands in. Values are the text after the first
      equals sign; a line without one, or with nothing before it, is an error. */
  function ParseLine(input: string, section: string): Parsed
  {
    var line := Strip(input);
    if line == [] then Parsed(EMPTY, section, [], [])
    else if line[0] == '#' then Parsed(COMMENT, section, [], [])
    else if line[0] == '[' && line[|line| - 1] == ']' then
      var n := Span(Not(']'), line[1..]);
      Parsed(SECTION, Lower(Strip(if n == 0 then section else line[1..][..n])), [], [])
    else
      var n := Span(Not('='), line);
      if n == 0 || n == |line| then Parsed(ERROR, section, [], [])
      else
        Parsed(VALUE, section, Lower(Strip(line[..n])), ReadValue(AfterEquals(line)))
  }

  // ---------- the formats against the reference ----------

  lemma ScanAssign(cls: CharClass, next: Format, s: string)
    ensures Scan(Assign(cls, next), s)
         == if Span(cls, s) == 0 then [] else [s[..Span(cls, s)]] + Scan(next, s[Span(cls, s)..])
  {
  }

  lemma ScanWhite(next: Format, s: string)
    ensures Scan(White(next), s) == Scan(next, s[Span(Space, s)..])
  {
  }

  lemma ScanLit(c: char, next: Format, s: string)
    ensures Scan(Lit(c, next), s) == if s != [] && s[0] == c then Scan(next, s[1..]) else []
  {
  }

  lemma ScanQuoted(q: char, s: string)
    ensures Scan(Quoted(q), s) == if s != [] && s[0] == q && Span(Not(q), s[1..]) > 0
                                  then [s[1..][..Span(Not(q), s[1..])]] else []
  {
    ScanLit(q, Assign(Not(q), Lit(q, End)), s);
    if s != [] && s[0] == q {
      var t := s[1..];
      ScanAssign(Not(q), Lit(q, End), t);
      ScanLit(q, End, t[Span(Not(q), t)..]);
    }
  }

  lemma ScanKeyThen(f: Format, s: string)
    ensures var n := Span(Not('='), s);
            Scan(KeyThen(f), s) == if n == 0 then [] else if n == |s| then [s[..n]]
                                   else [s[..n]] + Scan(f, s[n + 1..][Span(Space, s[n + 1..])..])
  {
    var n := Span(Not('='), s);
    var f2 := White(f);
    var f1 := Lit('=', f2);
    ScanAssign(Not('='), White(f1), s);
    if n > 0 {
      var t := s[n..];
      assert t != [] ==> t[0] == '=';
      assert Span(Space, t) == 0 && t[0..] == t;
      ScanWhite(f1, t);
      ScanLit('=', f2, t);
      if t != [] {
        assert t[1..] == s[n + 1..];
        ScanWhite(f, t[1..]);
      }
    }
  }

  lemma ScanKeyOnly(s: string)
    ensures var n := Span(Not('='), s);
            |Scan(KeyOnly(), s)| == (if n == 0 then 0 else if n == |s| then 1 else 2)
            && (n > 0 ==> Scan(KeyOnly(), s)[0] == s[..n])
  {
    var n := Span(Not('='), s);
    var f := Assign(Only('='), End);
    ScanAssign(Not('='), White(f), s);
    if n > 0 {
      var t := s[n..];
      assert t != [] ==> t[0] == '=';
      assert Span(Space, t) == 0 && t[0..] == t;
      ScanWhite(f, t);
      ScanAssign(Only('='), End, t);
    }
  }

  /** The three formats for "key=value", tried in order. */
  function ScanKeyValue(line: string): seq<string>
  {
    var dq := Scan(KeyThen(Quoted('"')), line);
    if |dq| == 2 then dq
    else
      var sq := Scan(KeyThen(Quoted('\'')), line);
      if |sq| == 2 then sq else Scan(KeyThen(Bare()), line)
  }

  /** The two formats for a key without a value. */
  function ScanKeyAlone(line: string): seq<string>
  {
    var c := Scan(KeyThen(CommentOnly()), line);
    if |c| == 2 then c else Scan(KeyOnly(), line)
  }

  lemma ScanOneSet(cls: CharClass, s: string)
    ensures Scan(Assign(cls, End), s) == if Span(cls, s) == 0 then [] else [s[..Span(cls, s)]]
  {
    ScanAssign(cls, End, s);
  }

  /** Without a key or an equals sign no format is complete. */
  lemma NoFormatMatches(line: string)
    requires Span(Not('='), line) == 0 || Span(Not('='), line) == |line|
    ensures |ScanKeyValue(line)| != 2 && |ScanKeyAlone(line)| != 2
  {
    hide Scan, Span, KeyThen, Quoted, Bare, CommentOnly, KeyOnly;
    ScanKeyThen(Quoted('"'), line);
    ScanKeyThen(Quoted('\''), line);
    ScanKeyThen(Bare(), line);
    ScanKeyThen(CommentOnly(), line);
    ScanKeyOnly(line);
  }

  ghost predicate Reads(got: seq<string>, key: string, value: string)
  {
    |got| == 2 && got[0] == key && Tidy(got[1]) == value
  }

  lemma TidyEmpty()
    ensures Tidy([]) == []
  {
    StripTrimmed([]);
  }

  /** The value formats on the text after the equals sign. */
  lemma RestFormats(rest: string)
    ensures var dq, sq, b := Scan(Quoted('"'), rest), Scan(Quoted('\''), rest), Scan(Bare(), rest);
            && |dq| <= 1 && |sq| <= 1 && |b| <= 1 && |Scan(CommentOnly(), rest)| <= 1
            && ReadValue(rest) == (if |dq| == 1 then Tidy(dq[0]) else if |sq| == 1 then Tidy(sq[0])
                                   else if |b| == 1 then Tidy(b[0]) else [])
  {
    hide Scan, Span, Tidy, Quoted;
    ScanQuoted('"', rest);
    ScanQuoted('\'', rest);
    ScanOneSet(NotEither(';', '#'), rest);
    ScanOneSet(Either(';', '#'), rest);
    TidyEmpty();
    assert rest[..0] == [];
  }

  lemma KeyThenMatches(f: Format, line: string)
    requires 0 < Span(Not('='), line) < |line|
    ensures Scan(KeyThen(f), line) == [line[..Span(Not('='), line)]] + Scan(f, AfterEquals(line))
  {
    ScanKeyThen(f, line);
  }

  function AfterEquals(line: string): string
    requires Span(Not('='), line) < |line|
  {
    var rest := line[Span(Not('='), line) + 1..];
    rest[Span(Space, rest)..]
  }

  /** With both, the formats deliver the key and the reference value between them. */
  lemma SomeFormatMatches(line: string)
    requires 0 < Span(Not('='), line) < |line|
    ensures var n, v := Span(Not('='), line), ReadValue(AfterEquals(line));
            && (|ScanKeyValue(line)| == 2 ==> Reads(ScanKeyValue(line), line[..n], v))
            && (|ScanKeyValue(line)| != 2 ==> |ScanKeyAlone(line)| == 2 && ScanKeyAlone(line)[0] == line[..n] && v == [])
  {
    hide Scan, Span, Tidy, ReadValue, KeyThen, AfterEquals, Quoted, Bare, CommentOnly, KeyOnly;
    KeyThenMatches(Quoted('"'), line);
    KeyThenMatches(Quoted('\''), line);
    KeyThenMatches(Bare(), line);
    KeyThenMatches(CommentOnly(), line);
    ScanKeyOnly(line);
    RestFormats(AfterEquals(line));
  }

  /** iniparser_line. The buffers hold strings that fit LINE_SIZE. */
  method IniparserLine(input: string, section: string) returns (p: Parsed)
    requires |input| <= LINE_SIZE && |section| <= LINE_SIZE
    ensures p == ParseLine(input, section)
  {
    hide Scan, Span, ReadValue, ScanKeyValue, ScanKeyAlone, Lower;
    var line := StrStrip(input);
    var len := |line|;
    if len < 1 {
      return Parsed(EMPTY, section, [], []);
    } else if line[0] == '#' {
      return Parsed(COMMENT, section, [], []);
    } else if line[0] == '[' && line[len - 1] == ']' {
      var got := Scan(Header(), line);
      ScanLit('[', Assign(Not(']'), End), line);
      ScanOneSet(Not(']'), line[1..]);
      var name := StripLower(if |got| > 0 then got[0] else section);
      return Parsed(SECTION, name, [], []);
    }
    p := KeyValueLine(line, section);
  }

  /** The branches of iniparser_line for lines that are not empty, a comment or a section. */
  method KeyValueLine(line: string, section: string) returns (p: Parsed)
    requires |line| <= LINE_SIZE
    ensures var n := Span(Not('='), line);
            p == if n == 0 || n == |line| then Parsed(ERROR, section, [], [])
                 else Parsed(VALUE, section, Lower(Strip(line[..n])), ReadValue(AfterEquals(line)))
  {
    ghost var n := Span(Not('='), line);
    if 0 < n < |line| {
      SomeFormatMatches(line);
    } else {
      NoFormatMatches(line);
    }
    hide Scan, Span, ReadValue, ScanKeyValue, ScanKeyAlone, Lower, AfterEquals;
    var got := ScanKeyValue(line);
    if |got| == 2 {
      var key := StripLower(got[0]);
      var value := StrStrip(got[1]);
      if value == DQUOTES || value == SQUOTES {
        value := [];
      }
      return Parsed(VALUE, section, key, value);
    }
    got := ScanKeyAlone(line);
    if |got| == 2 {
      var key := StripLower(got[0]);
      return Parsed(VALUE, section, key, []);
    }
    p := Parsed(ERROR, section, [], []);
  }

  /** strstrip followed by strlwc, as applied to section names and keys. */
  method StripLower(s: string) returns (t: string)
    requires |s| <= LINE_SIZE
    ensures t == Lower(Strip(s))
  {
    var u := StrStrip(s);
    assert u[..|u|] == u;
    t := StrLwc(u);
  }
}
