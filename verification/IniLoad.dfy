/** iniparser_load_mem of confparser/iniparser.c: cutting memory into lines and filling a dictionary. */
module IniLoad {
  import opened Options
  import opened Seqs
  import opened Dictionaries
  import opened IniText
  import opened IniLine

  // ---------- cutting lines ----------

  predicate EndsLine(c: char) { c == '\r' || c == '\n' || c == NUL }

  /** Index of the first character that ends a line. */
  function ToEnd(s: string): (e: nat)
    ensures e <= |s|
    ensures forall k :: 0 <= k < e ==> !EndsLine(s[k])
    ensures e < |s| ==> EndsLine(s[e])
  {
    if s == [] || EndsLine(s[0]) then 0 else 1 + ToEnd(s[1..])
  }

  lemma {:induction false} ToEndIs(s: string, e: nat)
    requires e < |s| && EndsLine(s[e])
    requires forall k :: 0 <= k < e ==> !EndsLine(s[k])
    ensures ToEnd(s) == e
  {
    if e > 0 {
      ToEndIs(s[1..], e - 1);
    }
  }

  /** Memory in which a line end lies ahead, with the character after a CR readable. */
  predicate Terminated(s: string)
  {
    ToEnd(s) < |s| && (s[ToEnd(s)] == '\r' ==> ToEnd(s) + 1 < |s|)
  }

  /** How far getnstr advances with room for `n` characters; 0 when the line does not fit. */
  function PieceLength(s: string, n: nat): (r: nat)
    ensures r <= |s| && r <= n
  {
    var e := ToEnd(s);
    if e >= n || e >= |s| then 0
    else if s[e] == '\r' && e + 1 < |s| && s[e + 1] == '\n' && n - e != 1 then
      (if n - e == 2 then e + 1 else e + 2)
    else if n - e == 1 then e
    else e + 1
  }

  lemma NotAtEnd(s: string, i: nat)
    requires Terminated(s) && i <= ToEnd(s)
    ensures i < |s| && (EndsLine(s[i]) <==> i == ToEnd(s))
    ensures i == ToEnd(s) && s[i] == '\r' ==> i + 1 < |s|
  {
  }

  lemma LineTooLong(s: string, n: nat)
    requires n <= ToEnd(s)
    ensures PieceLength(s, n) == 0
  {
  }

  /** getnstr. */
  method GetNStr(str: string, n: nat) returns (buf: string, r: nat)
    requires Terminated(str)
    ensures r == PieceLength(str, n)
    ensures r > 0 ==> buf == str[..r]
  {
    buf, r := [], 0;
    if n == 0 {
      LineTooLong(str, n);
      return;
    }
    var s: nat, left: nat := 0, n;
    hide ToEnd, PieceLength, Terminated, EndsLine;
    while left > 0
      invariant s + left == n && s <= ToEnd(str)
      invariant buf == str[..s]
    {
      NotAtEnd(str, s);
      TakeSnoc(str, s);
      buf := buf + [str[s]];
      if EndsLine(str[s]) {
        buf, r := EndPiece(str, s, left, n, buf);
        return;
      }
      s, left := s + 1, left - 1;
    }
    LineTooLong(str, n);
  }

  /** The end of the loop of getnstr: the line end at `s` is in the buffer, where `left` characters had room
      from it on. */
  method EndPiece(str: string, s: nat, left: nat, n: nat, line: string) returns (buf: string, r: nat)
    requires Terminated(str) && s == ToEnd(str) && left > 0 && s + left == n && line == str[..s + 1]
    ensures r == PieceLength(str, n) && buf == str[..r]
  {
    NotAtEnd(str, s);
    buf := line;
    var room := left;
    if str[s] == '\r' && str[s + 1] == '\n' && room != 1 {
      TakeSnoc(str, s + 1);
      buf, room := buf + [str[s + 1]], room - 1;
    }
    r := if room - 1 != 0 then |buf| else |buf| - 1;
    buf := buf[..r];
    hide ToEnd;
  }

  /** The lines getnstr delivers from `mem`, of which the first `left` characters are the text. */
  function Pieces(mem: string, left: int): seq<string>
    decreases |mem|
  {
    var r := PieceLength(mem, LINE_SIZE);
    if left <= 0 || r == 0 then [] else [mem[..r]] + Pieces(mem[r..], left - r)
  }

  // ---------- effect of the lines ----------

  /** The C string in a buffer. */
  function CString(s: string): string { s[..Span(Not(NUL), s)] }

  datatype State = State(section: string, dict: map<string, Value>, errs: nat)

  const START := State([], map[], 0)

  /** A section is stored with a null value, a key under "section:key"; both reset the error count. */
  function Effect(dict: map<string, Value>, errs: nat, p: Parsed): State
  {
    match p.status
    case EMPTY => State(p.section, dict, errs)
    case COMMENT => State(p.section, dict, errs)
    case SECTION => State(p.section, dict[p.section := None], 0)
    case VALUE => State(p.section, dict[p.section + [':'] + p.key := Some(p.value)], 0)
    case ERROR => State(p.section, dict, errs + 1)
  }

  function Step(st: State, piece: string): State
  {
    Effect(st.dict, st.errs, ParseLine(CString(piece), st.section))
  }

  function Run(st: State, pieces: seq<string>): State
    decreases pieces
  {
    if pieces == [] then st else Run(Step(st, pieces[0]), pieces[1..])
  }

  lemma {:induction false} RunConcat(st: State, a: seq<string>, b: seq<string>)
    ensures Run(st, a + b) == Run(Run(st, a), b)
    decreases a
  {
    if a == [] {
      EmptyLeft(b);
    } else {
      assert (a + b)[1..] == a[1..] + b;
      RunConcat(Step(st, a[0]), a[1..], b);
    }
  }

  lemma SectionFits(input: string, section: string)
    requires |input| <= LINE_SIZE && |section| <= LINE_SIZE
    ensures |ParseLine(input, section).section| <= LINE_SIZE
  {
    hide Span, ReadValue, AfterEquals;
  }

  /** One line into the dictionary. */
  method Store(d: Dictionary, p: Parsed, errs: nat) returns (errs': nat)
    requires d.Valid()
    modifies d, d.val, d.key, d.hash
    ensures d.Valid()
    ensures State(p.section, d.Contents(), errs') == Effect(old(d.Contents()), errs, p)
    ensures d.val != old(d.val) ==> fresh(d.val)
    ensures d.key != old(d.key) ==> fresh(d.key)
    ensures d.hash != old(d.hash) ==> fresh(d.hash)
  {
    errs' := errs;
    match p.status
    case EMPTY =>
    case COMMENT =>
    case SECTION =>
      var r := d.Set(Some(p.section), None);
      errs' := r;
    case VALUE =>
      var r := d.Set(Some(p.section + [':'] + p.key), Some(p.value));
      errs' := r;
    case ERROR =>
      errs' := errs + 1;
  }

  lemma RunPieces(st: State, mem: string, tpos: nat, inilen: nat)
    requires tpos <= |mem|
    ensures var r := PieceLength(mem[tpos..], LINE_SIZE);
            && tpos + r <= |mem|
            && Run(st, Pieces(mem[tpos..], inilen - tpos))
               == if inilen <= tpos || r == 0 then st
                  else Run(Step(st, mem[tpos..][..r]), Pieces(mem[tpos + r..], inilen - (tpos + r)))
  {
    hide PieceLength, Step;
    var r := PieceLength(mem[tpos..], LINE_SIZE);
    assert mem[tpos..][r..] == mem[tpos + r..];
  }

  lemma TerminatedFrom(mem: string, inilen: nat, tpos: nat)
    requires tpos < inilen < |mem| && mem[inilen] == NUL
    ensures Terminated(mem[tpos..])
  {
    var s := mem[tpos..];
    assert s[inilen - tpos] == NUL;
  }

  lemma TrimRightNext(s: string)
    ensures TrimRight(s) == if s != [] && IsSpace(s[|s| - 1]) then TrimRight(s[..|s| - 1]) else s
  {
  }

  /** The state of the trimming loop: `buf` has NULs from `end + 1` to `len`, where `line` has white space. */
  ghost predicate Trimming(line: string, len: nat, buf: string, end: int)
    requires len < |line|
  {
    && -1 <= end <= len && |buf| == |line| && buf[..end + 1] == line[..end + 1]
    && TrimRight(line[..end + 1]) == TrimRight(line[..len + 1])
    && forall k :: end < k <= len ==> buf[k] == NUL
  }

  lemma TrimMore(line: string, len: nat, buf: string, end: nat)
    requires len < |line| && Trimming(line, len, buf, end) && IsSpace(buf[end])
    ensures Trimming(line, len, buf[end := NUL], end - 1)
  {
    assert buf[end] == buf[..end + 1][end] && line[..end + 1][..end] == line[..end];
    TrimRightNext(line[..end + 1]);
    hide TrimRight;
    assert buf[end := NUL][..end] == buf[..end + 1][..end];
  }

  lemma TrimEnd(line: string, len: nat, buf: string, end: int)
    requires len < |line| && Trimming(line, len, buf, end) && (end >= 0 ==> !IsSpace(buf[end]))
    ensures TrimRight(line[..len + 1]) == buf[..end + 1]
  {
    assert end >= 0 ==> buf[end] == buf[..end + 1][end];
    TrimRightNext(line[..end + 1]);
    hide TrimRight;
  }

  /** The trimming loop and the test for a continuation line, on a buffer from position `len` backwards. */
  method TrimLine(line: string, len: nat) returns (buf: string, end: int, continued: bool, last: nat)
    requires len < |line|
    ensures var t := TrimRight(line[..len + 1]);
            && end == |t| - 1 && (continued <==> t != [] && t[|t| - 1] == '\\')
            && |buf| == |line| && buf[..end + 1] == t && forall k :: end < k <= len ==> buf[k] == NUL
    ensures last == if continued then end else 0
  {
    hide TrimRight;
    buf, end := line, len;
    while end >= 0 && (buf[end] == '\n' || IsSpace(buf[end]))
      invariant Trimming(line, len, buf, end)
    {
      TrimMore(line, len, buf, end);
      buf := buf[end := NUL];
      end := end - 1;
    }
    TrimEnd(line, len, buf, end);
    continued := end >= 0 && buf[end] == '\\';
    last := if continued then end else 0;
  }

  /** strlen stops where iniparser_load_mem starts to trim: at a NUL, which is neither white space nor a
      backslash. */
  lemma StopsAtNul(line: string)
    ensures var n := |CString(line)|; var buf := line + [NUL];
            && n < |buf| && buf[n] == NUL && buf[..n] == CString(line)
            && TrimRight(buf[..n + 1]) == buf[..n + 1]
  {
    var n, buf := |CString(line)|, line + [NUL];
    assert buf[..n + 1][n] == NUL;
  }

  /** No line is ever trimmed or continued by the loader: the test looks at the NUL behind it. */
  method FinishLine(line: string) returns (text: string, continued: bool, last: nat)
    ensures text == CString(line) && !continued && last == 0
  {
    StopsAtNul(line);
    var buf, end;
    buf, end, continued, last := TrimLine(line + [NUL], Span(Not(NUL), line));
    text := buf[..end];
  }

  /** iniparser_load_mem: null exactly when errors are pending after the last line, otherwise the
      dictionary that the lines describe. */
  method IniparserLoadMem(mem: string, inilen: nat, h: string -> nat) returns (dict: Dictionary?)
    requires inilen < |mem| && mem[inilen] == NUL
    ensures dict == null <==> Run(START, Pieces(mem, inilen)).errs > 0
    ensures dict != null ==> fresh(dict) && dict.Valid()
    ensures dict != null ==> dict.Contents() == Run(START, Pieces(mem, inilen)).dict
  {
    hide PieceLength, Step, Run, Pieces, MapOf;
    var d := new Dictionary(0, h);
    var line, section: string := [], [];
    var errs, last: nat := 0, 0;
    var tpos: nat := 0;
    ghost var stopped := false;
    ghost var final := Run(START, Pieces(mem, inilen));
    assert mem[0..] == mem;
    while tpos < inilen
      invariant tpos <= |mem| && |section| <= LINE_SIZE && last == 0
      invariant d.Valid() && fresh(d) && fresh(d.val) && fresh(d.key) && fresh(d.hash)
      invariant final == Run(State(section, d.Contents(), errs), Pieces(mem[tpos..], inilen - tpos))
      decreases inilen - tpos
    {
      TerminatedFrom(mem, inilen, tpos);
      RunPieces(State(section, d.Contents(), errs), mem, tpos, inilen);
      var piece, rpos := GetNStr(mem[tpos..], LINE_SIZE - last);
      if rpos == 0 {
        stopped := true;
        break;
      }
      EmptyLeft(piece);
      line := line[..last] + piece;
      tpos := tpos + rpos;
      section, errs, last := LoadLine(d, line, section, errs);
    }
    if !stopped {
      RunPieces(State(section, d.Contents(), errs), mem, tpos, inilen);
    }
    if errs > 0 {
      return null;
    }
    dict := d;
  }

  /** One turn of the loop, on a line in the buffer; `last` is how much of it the next line would follow. */
  method LoadLine(d: Dictionary, line: string, section: string, errs: nat)
    returns (section': string, errs': nat, last: nat)
    requires d.Valid() && |line| <= LINE_SIZE && |section| <= LINE_SIZE
    modifies d, d.val, d.key, d.hash
    ensures d.Valid() && |section'| <= LINE_SIZE && last == 0
    ensures State(section', d.Contents(), errs') == Step(State(section, old(d.Contents()), errs), line)
    ensures d.val != old(d.val) ==> fresh(d.val)
    ensures d.key != old(d.key) ==> fresh(d.key)
    ensures d.hash != old(d.hash) ==> fresh(d.hash)
  {
    SectionFits(CString(line), section);
    hide ParseLine, Effect, MapOf, Span;
    section', errs' := section, errs;
    var text, continued;
    text, continued, last := FinishLine(line);
    if !continued {
      var p := IniparserLine(text, section);
      errs' := Store(d, p, errs);
      section' := p.section;
    }
  }

  // ---------- errors ----------

  /** The status of the last line that is neither empty nor a comment. */
  function LastStatus(pieces: seq<string>): Status
  {
    if pieces == [] then EMPTY
    else
      var s := ParseLine(CString(pieces[|pieces| - 1]), []).status;
      if s in {EMPTY, COMMENT} then LastStatus(pieces[..|pieces| - 1]) else s
  }

  lemma StatusIgnoresSection(line: string, section: string)
    ensures ParseLine(line, section).status == ParseLine(line, []).status
  {
    hide Strip, Span, ReadValue, AfterEquals;
  }

  /** A load fails exactly when the last significant line is a syntax error: errors before a good line
      are forgotten. */
  lemma {:induction false} LoadFailsIff(pieces: seq<string>)
    ensures Run(START, pieces).errs > 0 <==> LastStatus(pieces) == ERROR
    decreases |pieces|
  {
    hide ParseLine, CString;
    if pieces != [] {
      var init, last := pieces[..|pieces| - 1], pieces[|pieces| - 1];
      LoadFailsIff(init);
      assert pieces == init + [last];
      RunConcat(START, init, [last]);
      var st := Run(START, init);
      StatusIgnoresSection(CString(last), st.section);
      assert Run(st, [last]) == Run(Step(st, last), [last][1..]);
    }
  }

  // ---------- lookup ----------

  /** iniparser_getstring: the lookup ignores the case of the key asked for. */
  method IniparserGetString(d: Dictionary, key: string, def: Value) returns (v: Value)
    requires d.Valid()
    ensures var k := Lower(key[..Min(|key|, 1024)]);
            v == if k in d.Contents() then d.Contents()[k] else def
  {
    var k := StrLwc(key);
    v := d.Get(k, def);
  }

  /** Two lookups under keys that differ in case only find the same. */
  method GetInAnyCase(d: Dictionary, key: string, key': string, def: Value) returns (v: Value, v': Value)
    requires d.Valid() && SameButCase(key, key')
    ensures v == v'
  {
    LowerSame(key[..Min(|key|, 1024)], key'[..Min(|key'|, 1024)]);
    v := IniparserGetString(d, key, def);
    v' := IniparserGetString(d, key', def);
  }

  lemma LowerConcat(a: string, b: string)
    requires IsLower(a) && IsLower(b)
    ensures IsLower(a + [':'] + b)
  {
  }

  lemma ParsedLower(line: string, section: string)
    ensures IsLower(ParseLine(line, section).key)
    ensures IsLower(section) ==> IsLower(ParseLine(line, section).section)
  {
    hide Strip, Span, ReadValue, AfterEquals, Lower;
    forall s: string ensures IsLower(Lower(s)) {
      LowerIdentity(s);
    }
  }

  ghost predicate LowerKeys(dict: map<string, Value>) { forall k :: k in dict ==> IsLower(k) }

  /** Every key of a loaded dictionary is in lower case, so getstring reaches each of them, under any
      capitalisation of its name. */
  lemma {:induction false} LoadedKeysLower(st: State, pieces: seq<string>)
    requires LowerKeys(st.dict) && IsLower(st.section)
    ensures LowerKeys(Run(st, pieces).dict) && IsLower(Run(st, pieces).section)
    decreases pieces
  {
    hide ParseLine, CString, IsLower;
    if pieces != [] {
      ParsedLower(CString(pieces[0]), st.section);
      var p := ParseLine(CString(pieces[0]), st.section);
      LowerConcat(p.section, p.key);
      LoadedKeysLower(Step(st, pieces[0]), pieces[1..]);
    }
  }
}
