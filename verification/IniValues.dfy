/** What iniparser_line of confparser/iniparser.c makes of a value, in characters. */
module IniValues {
  import opened Seqs
  import opened IniText
  import opened IniLine
  import opened IniPrint

  // ---------- values ----------

  predicate IsQuote(q: char) { q == '"' || q == '\'' }

  /** A pair of quotes with nothing between them. */
  predicate IsQuotePair(w: string) { |w| == 2 && IsQuote(w[0]) && w[1] == w[0] }

  /** Text between quotes is the value, up to the next such quote or the end, without surrounding white space; a
      pair of quotes is no value. */
  lemma QuotedValue(q: char, v: string, rest: string)
    requires IsQuote(q) && v != [] && q !in v
    ensures var w := if IsQuotePair(Strip(v)) then [] else Strip(v);
            ReadValue([q] + v + [q] + rest) == w == ReadValue([q] + v)
  {
    hide Strip;
    var x := v + [q] + rest;
    assert [q] + v + [q] + rest == [q] + x && ([q] + x)[1..] == x && ([q] + v)[1..] == v;
    SpanIs(Not(q), x, |v|);
    SpanIs(Not(q), v, |v|);
    assert x[..|v|] == v && v[..|v|] == v;
    hide Span;
  }

  /** Without quotes the value ends at a semicolon or a number sign. */
  lemma BareValue(v: string, sign: char, rest: string)
    requires v != [] && !IsQuote(v[0]) && ';' !in v && '#' !in v && Trimmed(v)
    requires sign == ';' || sign == '#'
    ensures ReadValue(v + [sign] + rest) == v == ReadValue(v)
  {
    var x := v + [sign] + rest;
    assert x[0] == v[0];
    SpanIs(NotEither(';', '#'), x, |v|);
    SpanIs(NotEither(';', '#'), v, |v|);
    assert x[..|v|] == v && v[..|v|] == v;
    StripTrimmed(v);
    hide Strip, Span;
  }

  /** A pair of quotes is the empty value, with or without a comment. */
  lemma EmptyQuotes(q: char, a: string, sign: char, rest: string)
    requires IsQuote(q) && AllSpace(a) && (sign == ';' || sign == '#')
    ensures ReadValue([q, q] + a) == [] == ReadValue([q, q] + a + [sign] + rest)
  {
    var x, y := [q, q] + a, [q, q] + a + [sign] + rest;
    SpanIs(Not(q), x[1..], 0);
    SpanIs(Not(q), y[1..], 0);
    SpanIs(NotEither(';', '#'), x, |x|);
    SpanIs(NotEither(';', '#'), y, |x|);
    assert x[..|x|] == x == y[..|x|];
    StripTail([q, q], a);
    hide Strip, Span;
  }
}
