/** Characters and strings as confparser/iniparser.c treats them (C locale). */
module IniText {
  import opened Seqs

  const NUL: char := '\0'
  /** ASCIILINESZ. */
  const LINE_SIZE := 1024

  predicate IsSpace(c: char) { c == ' ' || ('\t' <= c && c <= '\r') }

  function ToLower(c: char): char { if 'A' <= c <= 'Z' then c + 32 as char else c }

  // ---------- scan sets ----------

  datatype CharClass = Not(c: char) | NotEither(a: char, b: char) | Either(a: char, b: char) | Only(c: char) | Space

  predicate In(cls: CharClass, c: char)
  {
    match cls
    case Not(x) => c != x
    case NotEither(a, b) => c != a && c != b
    case Either(a, b) => c == a || c == b
    case Only(x) => c == x
    case Space => IsSpace(c)
  }

  /** Length of the longest prefix made of characters of the class. */
  function Span(cls: CharClass, s: string): (n: nat)
    ensures n <= |s|
    ensures forall k :: 0 <= k < n ==> In(cls, s[k])
    ensures n < |s| ==> !In(cls, s[n])
  {
    if s == [] || !In(cls, s[0]) then 0 else 1 + Span(cls, s[1..])
  }

  lemma {:induction false} SpanIs(cls: CharClass, s: string, n: nat)
    requires n <= |s|
    requires forall k :: 0 <= k < n ==> In(cls, s[k])
    requires n < |s| ==> !In(cls, s[n])
    ensures Span(cls, s) == n
  {
    if n > 0 {
      SpanIs(cls, s[1..], n - 1);
    }
  }

  // ---------- trimming ----------

  function TrimRight(s: string): (t: string)
    ensures |t| <= |s| && t == s[..|t|]
    ensures t != [] ==> !IsSpace(t[|t| - 1])
  {
    if s != [] && IsSpace(s[|s| - 1]) then TrimRight(s[..|s| - 1]) else s
  }

  /** What strstrip leaves. */
  function Strip(s: string): (t: string)
    ensures |t| <= |s|
    ensures Trimmed(t)
  {
    var u := s[Span(Space, s)..];
    assert u != [] ==> !IsSpace(u[0]);
    TrimRight(u)
  }

  predicate Trimmed(s: string)
  {
    s != [] ==> !IsSpace(s[0]) && !IsSpace(s[|s| - 1])
  }

  predicate AllSpace(s: string) { forall k :: 0 <= k < |s| ==> IsSpace(s[k]) }

  lemma {:induction false} TrimRightIs(s: string, n: nat)
    requires n <= |s| && AllSpace(s[n..]) && (n > 0 ==> !IsSpace(s[n - 1]))
    ensures TrimRight(s) == s[..n]
  {
    if n < |s| {
      assert IsSpace(s[n..][|s| - 1 - n]);
      var u := s[..|s| - 1];
      assert forall k :: 0 <= k < |u[n..]| ==> u[n..][k] == s[n..][k];
      TrimRightIs(u, n);
      assert u[..n] == s[..n];
    } else {
      assert s[..n] == s;
    }
  }

  /** Stripping removes exactly the surrounding white space. */
  lemma StripCore(a: string, m: string, b: string)
    requires AllSpace(a) && AllSpace(b) && Trimmed(m)
    ensures m != [] || b == [] ==> Strip(a + m + b) == m
  {
    if m != [] {
      var s := a + m + b;
      assert s[|a|] == m[0];
      SpanIs(Space, s, |a|);
      assert s[|a|..] == m + b;
      assert (m + b)[|m|..] == b && (m + b)[..|m|] == m;
      assert (m + b)[|m| - 1] == m[|m| - 1];
      TrimRightIs(m + b, |m|);
    } else if b == [] {
      assert a + m + b == a;
      SpanIs(Space, a, |a|);
    }
  }

  lemma StripTrimmed(s: string)
    requires Trimmed(s)
    ensures Strip(s) == s
  {
    StripCore([], s, []);
    assert [] + s + [] == s;
  }

  /** strstrip: skip leading blanks, then cut trailing ones off the copy. */
  method StrStrip(s: string) returns (buf: string)
    ensures buf == Strip(s)
  {
    var i: nat := 0;
    while i < |s| && IsSpace(s[i])
      invariant i <= |s| && forall k :: 0 <= k < i ==> IsSpace(s[k])
    {
      i := i + 1;
    }
    SpanIs(Space, s, i);
    buf := s[i..];
    var last: nat := |buf|;
    while last > 0
      invariant last <= |buf| && AllSpace(buf[last..])
    {
      if !IsSpace(buf[last - 1]) { break; }
      last := last - 1;
      assert buf[last..] == [buf[last]] + buf[last + 1..];
    }
    TrimRightIs(buf, last);
    buf := buf[..last];
  }

  // ---------- lower case ----------

  function Lower(s: string): (t: string)
    ensures |t| == |s|
    ensures forall k :: 0 <= k < |s| ==> t[k] == ToLower(s[k])
  {
    seq(|s|, i requires 0 <= i < |s| => ToLower(s[i]))
  }

  predicate IsLower(s: string) { forall k :: 0 <= k < |s| ==> !('A' <= s[k] <= 'Z') }

  lemma LowerIdentity(s: string)
    ensures IsLower(Lower(s))
    ensures IsLower(s) ==> Lower(s) == s
  {
    assert forall c: char :: !('A' <= ToLower(c) <= 'Z');
  }

  /** strlwc: at most LINE_SIZE characters, in lower case. */
  method StrLwc(s: string) returns (buf: string)
    ensures buf == Lower(s[..Min(|s|, 1024)])
  {
    buf := [];
    var i: nat := 0;
    while i < |s| && i < LINE_SIZE
      invariant i <= |s| && i <= LINE_SIZE && |buf| == i
      invariant forall k :: 0 <= k < i ==> buf[k] == ToLower(s[k])
    {
      buf := buf + [ToLower(s[i])];
      i := i + 1;
    }
    assert buf == Lower(s[..i]);
  }

  // ---------- what the characters are ----------

  /** Space, and the codes 9 to 13. */
  lemma SpaceCodes(c: char)
    ensures IsSpace(c) <==> c as int in {9, 10, 11, 12, 13, 32}
  {
  }

  lemma CapitalCode(i: nat)
    requires i < 26
    ensures "ABCDEFGHIJKLMNOPQRSTUVWXYZ"[i] as int == 65 + i
  {
  }

  lemma SmallCode(i: nat)
    requires i < 26
    ensures "abcdefghijklmnopqrstuvwxyz"[i] as int == 97 + i
  {
  }

  /** A capital anywhere becomes the small letter at its place in the alphabet. */
  lemma CapitalLowered(s: string, k: nat, i: nat)
    requires k < |s| && i < 26 && s[k] == "ABCDEFGHIJKLMNOPQRSTUVWXYZ"[i]
    ensures Lower(s)[k] == "abcdefghijklmnopqrstuvwxyz"[i]
  {
    CapitalCode(i);
    SmallCode(i);
    var u, l := "ABCDEFGHIJKLMNOPQRSTUVWXYZ"[i], "abcdefghijklmnopqrstuvwxyz"[i];
    assert ToLower(u) as int == l as int;
  }

  /** Anything else stays as it is. */
  lemma OtherKept(s: string, k: nat)
    requires k < |s| && s[k] !in "ABCDEFGHIJKLMNOPQRSTUVWXYZ"
    ensures Lower(s)[k] == s[k]
  {
    if 'A' <= s[k] <= 'Z' {
      assert false;
    }
  }

  /** Letter `i` of the alphabet, once as a capital and once not. */
  predicate LetterTwice(a: char, b: char, i: nat)
  {
    i < 26 && a == "ABCDEFGHIJKLMNOPQRSTUVWXYZ"[i] && b == "abcdefghijklmnopqrstuvwxyz"[i]
  }

  /** Strings that differ in the case of letters at most. */
  ghost predicate SameButCase(s: string, t: string)
  {
    && |s| == |t|
    && forall k :: 0 <= k < |s| ==>
         s[k] == t[k] || exists i: nat :: LetterTwice(s[k], t[k], i) || LetterTwice(t[k], s[k], i)
  }

  lemma TwiceCode(a: char, b: char, i: nat)
    requires LetterTwice(a, b, i)
    ensures ToLower(a) == b == ToLower(b)
  {
    CapitalCode(i);
    SmallCode(i);
    hide LetterTwice;
  }

  lemma LowerTwice(a: char, b: char)
    requires ToLower(a) == ToLower(b) && a != b
    ensures exists i: nat :: LetterTwice(a, b, i) || LetterTwice(b, a, i)
  {
    var u, l := if 'A' <= a <= 'Z' then a else b, ToLower(a);
    var i: nat := u as int - 65;
    CapitalCode(i);
    SmallCode(i);
    assert LetterTwice(u, l, i);
  }

  /** Lower case is the same exactly for strings that differ in case only. */
  lemma LowerSame(s: string, t: string)
    ensures Lower(s) == Lower(t) <==> SameButCase(s, t)
  {
    hide LetterTwice;
    if SameButCase(s, t) {
      forall k | 0 <= k < |s| ensures ToLower(s[k]) == ToLower(t[k]) {
        if s[k] != t[k] {
          var i: nat :| LetterTwice(s[k], t[k], i) || LetterTwice(t[k], s[k], i);
          if LetterTwice(s[k], t[k], i) {
            TwiceCode(s[k], t[k], i);
          } else {
            TwiceCode(t[k], s[k], i);
          }
        }
      }
      assert Lower(s) == Lower(t);
    }
    if Lower(s) == Lower(t) {
      assert |s| == |t|;
      forall k | 0 <= k < |s| && s[k] != t[k]
        ensures exists i: nat :: LetterTwice(s[k], t[k], i) || LetterTwice(t[k], s[k], i)
      {
        assert Lower(s)[k] == Lower(t)[k];
        LowerTwice(s[k], t[k]);
      }
    }
  }
}
