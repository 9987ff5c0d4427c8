/** mread_line of libmfile/mfile.c on values: the byte held back, the bytes ahead, and the line. */
module MFileLines {
  import opened Bytes
  import opened Seqs

  /** mgetc: the next byte, or 0 at the end. */
  function Front(a: seq<Byte>): Byte { if a == [] then NUL else a[0] }
  function Rest(a: seq<Byte>): seq<Byte> { if a == [] then [] else a[1..] }

  /** `cache` is ccache: LF when no byte is held back. */
  datatype Source = Source(cache: Byte, ahead: seq<Byte>)
  datatype Line = Line(bytes: seq<Byte>, src: Source)

  /** The byte the loop of mread_line takes next, and what it leaves. A byte held back is replaced by
      CR, not by LF. */
  function Take(s: Source): (Byte, Source)
  {
    if s.cache == LF then (Front(s.ahead), Source(LF, Rest(s.ahead))) else (s.cache, Source(CR, s.ahead))
  }

  /** A line of at most `m` bytes, one more when a CR LF straddles the limit. */
  function ReadLine(s: Source, m: nat): (l: Line)
    requires m > 0
    ensures |l.bytes| <= m + 1
    decreases m
  {
    var (c, t) := Take(s);
    if c == CR then
      var d := Front(t.ahead);
      var t' := Source(d, Rest(t.ahead));
      if d == NUL then Line([CR, LF], t')
      else if d == LF then Line([CR, LF], t')
      else Line([CR], t')
    else if c == LF then Line([LF], t)
    else if c == NUL then Line([], t)
    else if m == 1 then Line([c], t)
    else
      var l := ReadLine(t, m - 1);
      Line([c] + l.bytes, l.src)
  }

  /** What a turn of the loop adds to the line when it takes `c`, and `e` is read ahead behind a CR. */
  function TurnBytes(c: Byte, e: Byte): (bytes: seq<Byte>)
    ensures |bytes| <= 2
  {
    if c == CR then (if e == NUL || e == LF then [CR, LF] else [CR]) else if c == NUL then [] else [c]
  }

  /** A turn: what it adds to the line, whether the line ends there, and what it leaves. */
  function Turned(s: Source): (r: (seq<Byte>, bool, Source))
    ensures |r.0| <= 2
    ensures !r.1 ==> |r.0| == 1 && r.0[0] != CR && r.0[0] != LF && r.2.cache != NUL
  {
    var (c, t) := Take(s);
    var t' := if c == CR then Source(Front(t.ahead), Rest(t.ahead)) else t;
    (TurnBytes(c, t'.cache), c == CR || c == LF || c == NUL, t')
  }

  function ReadMore(s: Source, m: nat): Line { if m == 0 then Line([], s) else ReadLine(s, m) }

  /** A line is made of turns. */
  lemma LineTurns(s: Source, m: nat)
    requires m > 0
    ensures var (bytes, stop, s') := Turned(s);
            ReadLine(s, m) == if stop then Line(bytes, s')
                              else Line(bytes + ReadMore(s', m - 1).bytes, ReadMore(s', m - 1).src)
  {
  }

  predicate LineEnded(bytes: seq<Byte>) { bytes != [] && bytes[|bytes| - 1] in {CR, LF} }

  /** The loop ran out of room: mread_line then returns 0 and stores no NUL behind the bytes. */
  predicate CutOff(l: Line, m: nat) { |l.bytes| == m && !LineEnded(l.bytes) }

  /** The end of the file was met: a NUL is stored behind the bytes. */
  predicate AtEnd(l: Line, m: nat) { l.src.cache == NUL || (|l.bytes| < m && !LineEnded(l.bytes)) }

  /** The buffer `b` of mread_line, `was` before the call, when it holds line `l` and the call returns `r`. */
  ghost predicate Filled(b: seq<Byte>, was: seq<Byte>, n: nat, l: Line, r: nat)
    requires 2 < n <= |b| == |was|
  {
    var k := |l.bytes|;
    && k < n
    && r == (if CutOff(l, n - 2) then 0 else k)
    && l.bytes == b[..k]
    && b[n - 1] == NUL
    && (k < n - 1 ==> b[k] == if AtEnd(l, n - 2) then NUL else was[k])
    && (forall i :: k < i < n - 1 || n <= i < |b| ==> b[i] == was[i])
  }

  /** The state of the loop after `pre` was put into the buffer: `t` is what is left of `s`. */
  ghost predicate Filling(b: seq<Byte>, was: seq<Byte>, n: nat, s: Source, pre: seq<Byte>, t: Source)
    requires 2 < n <= |b| == |was|
  {
    var d := |pre|;
    && d <= n - 2 && !LineEnded(pre) && (d > 0 ==> t.cache != NUL)
    && ReadLine(s, n - 2) == Line(pre + ReadMore(t, n - 2 - d).bytes, ReadMore(t, n - 2 - d).src)
    && pre == b[..d]
    && b[n - 1] == NUL
    && (forall i :: d <= i < n - 1 || n <= i < |b| ==> b[i] == was[i])
  }

  /** What one turn does to the buffer. */
  ghost predicate Put(b: seq<Byte>, b': seq<Byte>, d: nat, bytes: seq<Byte>, ended: bool)
    requires d + |bytes| < |b| == |b'|
  {
    var k := |bytes|;
    && b'[..d] == b[..d] && b'[d..d + k] == bytes
    && b'[d + k] == (if ended then NUL else b[d + k])
    && forall i :: d + k < i < |b| ==> b'[i] == b[i]
  }

  lemma FillingStart(b: seq<Byte>, was: seq<Byte>, n: nat, s: Source)
    requires 2 < n <= |b| == |was| && b == was[n - 1 := NUL]
    ensures Filling(b, was, n, s, [], s)
  {
    hide ReadLine;
    EmptyLeft(ReadLine(s, n - 2).bytes);
  }

  lemma FillingDone(b: seq<Byte>, was: seq<Byte>, n: nat, s: Source, pre: seq<Byte>, t: Source)
    requires 2 < n <= |b| == |was| && Filling(b, was, n, s, pre, t) && |pre| == n - 2
    ensures t == ReadLine(s, n - 2).src && Filled(b, was, n, ReadLine(s, n - 2), 0)
  {
    hide ReadLine;
    EmptyRight(pre);
  }

  lemma BytesAppended(b: seq<Byte>, b': seq<Byte>, pre: seq<Byte>, bytes: seq<Byte>, ended: bool)
    requires |pre| + |bytes| < |b| == |b'| && pre == b[..|pre|] && Put(b, b', |pre|, bytes, ended)
    ensures pre + bytes == b'[..|pre| + |bytes|]
  {
    Cut(b'[..|pre| + |bytes|], 0, |pre|);
    assert b'[..|pre| + |bytes|][..|pre|] == b'[..|pre|];
    assert b'[..|pre| + |bytes|][|pre|..] == b'[|pre|..|pre| + |bytes|];
  }

  /** A turn in which the line goes on. */
  lemma FillingMore(b: seq<Byte>, b': seq<Byte>, was: seq<Byte>, n: nat, s: Source, pre: seq<Byte>, t: Source)
    requires 2 < n <= |b| == |was| == |b'| && Filling(b, was, n, s, pre, t) && |pre| < n - 2 && !Turned(t).1
    requires Put(b, b', |pre|, Turned(t).0, false)
    ensures Filling(b', was, n, s, pre + Turned(t).0, Turned(t).2)
  {
    var (bytes, stop, t') := Turned(t);
    LineTurns(t, n - 2 - |pre|);
    hide ReadLine, Turned;
    BytesAppended(b, b', pre, bytes, false);
    Assoc(pre, bytes, ReadMore(t', n - 3 - |pre|).bytes);
    hide ReadMore, Put;
  }

  lemma TurnedEnds(s: Source, pre: seq<Byte>, m: nat)
    requires Turned(s).1 && |pre| < m && !LineEnded(pre)
    ensures var (bytes, stop, s') := Turned(s);
            var l := Line(pre + bytes, s');
            !CutOff(l, m) && (AtEnd(l, m) <==> bytes == [] || s'.cache == NUL)
  {
    var bytes := Turned(s).0;
    if bytes == [] {
      EmptyRight(pre);
    } else {
      assert (pre + bytes)[|pre + bytes| - 1] == bytes[|bytes| - 1];
    }
  }

  lemma FilledNow(b: seq<Byte>, b': seq<Byte>, was: seq<Byte>, n: nat, pre: seq<Byte>, bytes: seq<Byte>,
                  ended: bool, l: Line)
    requires 2 < n <= |b| == |was| == |b'| && |pre| < n - 2 && |bytes| <= 2
    requires pre == b[..|pre|] && b[n - 1] == NUL
    requires forall i :: |pre| <= i < n - 1 || n <= i < |b| ==> b[i] == was[i]
    requires Put(b, b', |pre|, bytes, ended) && l.bytes == pre + bytes
    requires !CutOff(l, n - 2) && (AtEnd(l, n - 2) <==> ended)
    ensures Filled(b', was, n, l, |pre| + |bytes|)
  {
    hide CutOff, AtEnd;
    BytesAppended(b, b', pre, bytes, ended);
  }

  /** A turn in which it ends. */
  lemma FillingEnd(b: seq<Byte>, b': seq<Byte>, was: seq<Byte>, n: nat, s: Source, pre: seq<Byte>, t: Source)
    requires 2 < n <= |b| == |was| == |b'| && Filling(b, was, n, s, pre, t) && |pre| < n - 2 && Turned(t).1
    requires var (bytes, stop, t') := Turned(t); Put(b, b', |pre|, bytes, bytes == [] || t'.cache == NUL)
    ensures var (bytes, stop, t') := Turned(t);
            t' == ReadLine(s, n - 2).src && Filled(b', was, n, ReadLine(s, n - 2), |pre| + |bytes|)
  {
    var (bytes, stop, t') := Turned(t);
    LineTurns(t, n - 2 - |pre|);
    TurnedEnds(t, pre, n - 2);
    hide ReadLine, Turned, CutOff, AtEnd, LineEnded, Filled, Put;
    FilledNow(b, b', was, n, pre, bytes, bytes == [] || t'.cache == NUL, Line(pre + bytes, t'));
  }

  /** The bytes not delivered yet. */
  function Pending(s: Source): seq<Byte> { if s.cache == LF then s.ahead else [s.cache] + s.ahead }

  /** Every CR is followed by LF or another CR. */
  predicate CrsEnded(a: seq<Byte>)
  {
    forall i :: 0 <= i < |a| && a[i] == CR ==> i + 1 < |a| && (a[i + 1] == LF || a[i + 1] == CR)
  }

  /** Nothing is held back, or a CR that was read ahead. */
  predicate Sound(s: Source) { s.cache == LF || s.cache == CR }

  /** The call delivers exactly the bytes it consumes. */
  predicate Faithful(s: Source, m: nat)
    requires m > 0
  {
    var l := ReadLine(s, m);
    l.bytes + Pending(l.src) == Pending(s)
  }

  lemma CrsTail(a: seq<Byte>)
    requires a != []
    ensures CrsEnded(a) ==> CrsEnded(a[1..])
    ensures a[0] != CR && CrsEnded(a[1..]) ==> CrsEnded(a)
    ensures a[0] == CR ==> (CrsEnded(a) <==> |a| > 1 && (a[1] == LF || a[1] == CR) && CrsEnded(a[1..]))
  {
    assert forall i :: 0 <= i < |a| - 1 ==> a[1..][i] == a[i + 1];
    assert forall i :: 1 <= i < |a| ==> a[i] == a[1..][i - 1];
  }

  /** One call from a sound state: it delivers what it consumes and stays sound with a well-ended rest,
      exactly when the pending bytes are well-ended. */
  lemma {:induction false} OneCall(s: Source, m: nat)
    requires m > 0 && Sound(s) && NUL !in Pending(s)
    ensures var l := ReadLine(s, m);
            CrsEnded(Pending(s)) <==> Faithful(s, m) && Sound(l.src) && CrsEnded(Pending(l.src))
    decreases m
  {
    var (c, t) := Take(s);
    var p := Pending(s);
    if p == [] {
      EmptyLeft(p);
    } else {
      assert p[0] == c && p == [c] + t.ahead;
      CrsTail(p);
      assert p[1..] == t.ahead;
      if c == CR {
        AfterCr(s, m);
      } else if c != LF && m > 1 {
        OneCall(t, m - 1);
        var l := ReadLine(t, m - 1);
        Assoc([c], l.bytes, Pending(l.src));
        SameHead(c, l.bytes + Pending(l.src), t.ahead);
      }
    }
  }

  lemma SameHead(c: Byte, x: seq<Byte>, y: seq<Byte>)
    ensures [c] + x == [c] + y <==> x == y
  {
    assert ([c] + x)[1..] == x && ([c] + y)[1..] == y;
  }

  lemma CrLine(s: Source, m: nat)
    requires m > 0 && Take(s).0 == CR
    ensures var a := Take(s).1.ahead;
            ReadLine(s, m) == CrThen(a)
  {
  }

  lemma CrPending(s: Source)
    requires Sound(s) && NUL !in Pending(s) && Take(s).0 == CR
    ensures Pending(s) == [CR] + Take(s).1.ahead && NUL !in Take(s).1.ahead
  {
  }

  /** The line behind a CR, before the bytes `a`. */
  function CrThen(a: seq<Byte>): Line
  {
    if a == [] then Line([CR, LF], Source(NUL, []))
    else Line(if a[0] == NUL || a[0] == LF then [CR, LF] else [CR], Source(a[0], a[1..]))
  }

  lemma CrAtEnd()
    ensures var l := CrThen([]);
            !CrsEnded([CR]) && l.bytes + Pending(l.src) != [CR]
  {
    assert [CR][0] == CR;
    assert |[CR, LF] + [NUL]| == 3;
  }

  lemma CrBefore(a: seq<Byte>)
    requires a != [] && NUL !in a
    ensures var l := CrThen(a);
            && (CrsEnded([CR] + a) <==> Sound(l.src) && CrsEnded(Pending(l.src)))
            && l.bytes + Pending(l.src) == [CR] + a
  {
    hide CrsEnded;
    CrsTail([CR] + a);
    assert ([CR] + a)[0] == CR && ([CR] + a)[1] == a[0] && ([CR] + a)[1..] == a && a == [a[0]] + a[1..];
    CrsTail(a);
    Assoc([CR], [a[0]], a[1..]);
    assert [CR] + [LF] == [CR, LF];
  }

  lemma AfterCr(s: Source, m: nat)
    requires m > 0 && Sound(s) && NUL !in Pending(s) && Take(s).0 == CR
    ensures var l := ReadLine(s, m);
            CrsEnded(Pending(s)) <==> Faithful(s, m) && Sound(l.src) && CrsEnded(Pending(l.src))
  {
    hide ReadLine, Take, CrsEnded, Sound, Pending;
    var a := Take(s).1.ahead;
    CrPending(s);
    CrLine(s, m);
    if a == [] {
      CrAtEnd();
      EmptyRight([CR]);
    } else {
      CrBefore(a);
    }
  }

  /** A held-back byte that is neither CR nor LF makes the call invent a CR. */
  lemma HeldBackByte(s: Source, m: nat)
    requires m > 0 && s.cache !in {LF, CR, NUL} && NUL !in s.ahead
    ensures !Faithful(s, m)
  {
    var t := Source(CR, s.ahead);
    if m > 1 {
      var l := ReadLine(t, m - 1);
      assert |l.bytes + Pending(l.src)| > |s.ahead|;
    }
  }

  // ---------- runs of calls ----------

  /** The room for a line: n - 2 for a call with n > 2. */
  type Room = m: nat | m > 0 witness 1

  /** The state after `k` calls, call number i with room for `room(i)` bytes. */
  function After(s: Source, room: nat -> Room, k: nat): Source
  {
    if k == 0 then s else ReadLine(After(s, room, k - 1), room(k - 1)).src
  }

  /** Everything delivered by `k` calls. */
  function Delivered(s: Source, room: nat -> Room, k: nat): seq<Byte>
  {
    if k == 0 then [] else Delivered(s, room, k - 1) + ReadLine(After(s, room, k - 1), room(k - 1)).bytes
  }

  lemma PendingFree(s: Source, m: nat)
    requires m > 0 && NUL !in Pending(s) && Faithful(s, m)
    ensures NUL !in Pending(ReadLine(s, m).src)
  {
    var l := ReadLine(s, m);
    assert forall x :: x in Pending(l.src) ==> x in l.bytes + Pending(l.src);
  }

  /** Line reading loses and invents nothing on well-ended contents: after any number of calls, with any
      buffer sizes, the lines delivered and what is pending make up the contents. */
  lemma {:induction false} LinesFaithful(s: Source, room: nat -> Room, k: nat)
    requires Sound(s) && NUL !in Pending(s) && CrsEnded(Pending(s))
    ensures var t := After(s, room, k);
            && Delivered(s, room, k) + Pending(t) == Pending(s)
            && Sound(t) && NUL !in Pending(t) && CrsEnded(Pending(t)) && Faithful(t, room(k))
  {
    if k == 0 {
      EmptyLeft(Pending(s));
    } else {
      LinesFaithful(s, room, k - 1);
      var t := After(s, room, k - 1);
      var l := ReadLine(t, room(k - 1));
      OneCall(t, room(k - 1));
      PendingFree(t, room(k - 1));
      Assoc(Delivered(s, room, k - 1), l.bytes, Pending(l.src));
    }
    OneCall(After(s, room, k), room(k));
  }

  /** After a faithful call on other contents the rest is shorter and still not well-ended, or the byte held
      back is one that the next call turns into a CR. */
  lemma StillBad(s: Source, m: Room, m': Room)
    requires Sound(s) && NUL !in Pending(s) && !CrsEnded(Pending(s)) && Faithful(s, m)
    ensures var t := ReadLine(s, m).src;
            || !Faithful(t, m')
            || (Sound(t) && NUL !in Pending(t) && !CrsEnded(Pending(t)) && |Pending(t)| < |Pending(s)|)
  {
    OneCall(s, m);
    PendingFree(s, m);
    var l := ReadLine(s, m);
    if Sound(l.src) {
      SomeBytes(s, m);
      assert |l.bytes + Pending(l.src)| == |Pending(s)|;
    } else {
      assert l.src.cache in Pending(l.src);
      assert forall x :: x in l.src.ahead ==> x in Pending(l.src);
      HeldBackByte(l.src, m');
    }
  }

  lemma {:induction false} FailsFrom(s: Source, room: nat -> Room, from: nat) returns (k: nat)
    requires var t := After(s, room, from); Sound(t) && NUL !in Pending(t) && !CrsEnded(Pending(t))
    ensures !Faithful(After(s, room, k), room(k))
    decreases |Pending(After(s, room, from))|
  {
    hide ReadLine, Faithful, CrsEnded, Sound, Pending;
    k := from;
    var t := After(s, room, from);
    if Faithful(t, room(from)) {
      StillBad(t, room(from), room(from + 1));
      assert After(s, room, from + 1) == ReadLine(t, room(from)).src;
      hide After;
      k := from + 1;
      if Faithful(After(s, room, from + 1), room(from + 1)) {
        k := FailsFrom(s, room, from + 1);
      }
    }
  }

  /** On other contents some call goes wrong, whatever the buffer sizes. */
  lemma SomeCallFails(s: Source, room: nat -> Room) returns (k: nat)
    requires Sound(s) && NUL !in Pending(s) && !CrsEnded(Pending(s))
    ensures !Faithful(After(s, room, k), room(k))
  {
    hide ReadLine, Faithful, CrsEnded, Sound, Pending;
    k := FailsFrom(s, room, 0);
  }

  lemma SomeBytes(s: Source, m: nat)
    requires m > 0 && Sound(s) && NUL !in Pending(s) && Pending(s) != []
    ensures ReadLine(s, m).bytes != []
  {
    assert Pending(s)[0] != NUL;
  }

  /** For NUL-free contents and any buffer sizes: every call of the run delivers exactly what it consumes if
      and only if every CR in the contents is followed by LF or by another CR. */
  lemma LinesFaithfulIff(a: seq<Byte>, room: nat -> Room)
    requires NUL !in a
    ensures CrsEnded(a) <==> forall k: nat :: Faithful(After(Source(LF, a), room, k), room(k))
  {
    var s := Source(LF, a);
    if CrsEnded(a) {
      forall k: nat ensures Faithful(After(s, room, k), room(k)) {
        LinesFaithful(s, room, k);
      }
    } else {
      var k := SomeCallFails(s, room);
    }
  }

  // ---------- lines that are cut off ----------

  /** The call runs out of room, and returns 0, exactly when the room is used up by bytes that end no line.
      That includes a last line of exactly that length. */
  lemma {:induction false} CutOffIff(s: Source, m: nat)
    requires m > 0 && Sound(s) && NUL !in Pending(s)
    ensures CutOff(ReadLine(s, m), m) <==>
              |Pending(s)| >= m && forall i :: 0 <= i < m ==> Pending(s)[i] != CR && Pending(s)[i] != LF
    decreases m
  {
    var (c, t) := Take(s);
    var p := Pending(s);
    if p != [] {
      assert p[0] == c;
      if c != CR && c != LF && m > 1 {
        assert p[1..] == Pending(t);
        CutOffIff(t, m - 1);
        CutOffTail(c, ReadLine(t, m - 1), m);
        assert forall i :: 1 <= i < |p| ==> p[i] == Pending(t)[i - 1];
        assert forall i :: 0 <= i < |Pending(t)| ==> Pending(t)[i] == p[i + 1];
      } else if c == CR || c == LF {
        EndsAtOnce(s, m);
      }
    }
  }

  lemma CutOffTail(c: Byte, l: Line, m: nat)
    requires m > 1 && c != CR && c != LF
    ensures CutOff(Line([c] + l.bytes, l.src), m) <==> CutOff(l, m - 1)
  {
    if l.bytes != [] {
      assert ([c] + l.bytes)[|l.bytes|] == l.bytes[|l.bytes| - 1];
    }
  }

  lemma EndsAtOnce(s: Source, m: nat)
    requires m > 0 && Take(s).0 in {CR, LF}
    ensures !CutOff(ReadLine(s, m), m)
  {
  }

  // ---------- where lines end ----------

  /** Every CR starts a CR LF. */
  predicate CrLf(a: seq<Byte>)
  {
    forall i :: 0 <= i < |a| && a[i] == CR ==> i + 1 < |a| && a[i + 1] == LF
  }

  lemma CrLfTail(a: seq<Byte>)
    requires CrLf(a) && a != []
    ensures CrLf(a[1..])
  {
    assert forall i :: 0 <= i < |a| - 1 ==> a[1..][i] == a[i + 1];
  }

  /** A turn of the loop that takes a byte other than CR and LF. */
  lemma LineGoesOn(a: seq<Byte>, m: nat)
    requires m > 1 && a != [] && a[0] !in {CR, LF, NUL}
    ensures var l := ReadLine(Source(LF, a[1..]), m - 1);
            ReadLine(Source(LF, a), m) == Line([a[0]] + l.bytes, l.src)
  {
  }

  /** On CR LF text a line `l` of at most `m` bytes ends at the first LF, at the end of the text, or where a
      longer line is cut. */
  predicate EndsRight(a: seq<Byte>, m: nat, l: Line)
  {
    && |l.bytes| <= |a| && l.bytes == a[..|l.bytes|] && l.src == Source(LF, a[|l.bytes|..])
    && (forall i :: 0 <= i < |l.bytes| - 1 ==> l.bytes[i] != LF)
    && (l.bytes == [] || l.bytes[|l.bytes| - 1] != LF ==> |l.bytes| == m || l.bytes == a)
  }

  lemma EndsRightNext(a: seq<Byte>, m: nat, l: Line)
    requires m > 0 && a != [] && a[0] != LF && EndsRight(a[1..], m - 1, l)
    requires l.bytes == [] ==> m == 1 || a == [a[0]]
    ensures EndsRight(a, m, Line([a[0]] + l.bytes, l.src))
  {
    assert a == [a[0]] + a[1..];
  }

  lemma EndsRightNow(a: seq<Byte>, m: nat)
    requires m > 0 && NUL !in a && CrLf(a)
    requires a == [] || a[0] == CR || a[0] == LF || m == 1
    ensures EndsRight(a, m, ReadLine(Source(LF, a), m))
  {
    if a != [] && a[0] == CR {
      assert a[1..][1..] == a[2..];
    }
  }

  /** On CR LF text nothing stays held back, and a line ends at its first LF, at the end of the text, or
      after `m` bytes of a longer line. */
  lemma {:induction false} LineEnds(a: seq<Byte>, m: nat)
    requires m > 0 && NUL !in a && CrLf(a)
    ensures EndsRight(a, m, ReadLine(Source(LF, a), m))
    decreases m
  {
    if a != [] && a[0] != CR && a[0] != LF && m > 1 {
      CrLfTail(a);
      LineGoesOn(a, m);
      LineEnds(a[1..], m - 1);
      hide ReadLine;
      EndsRightNext(a, m, ReadLine(Source(LF, a[1..]), m - 1));
    } else {
      EndsRightNow(a, m);
    }
  }

  // ---------- the lines themselves ----------

  /** Bytes that the loop just stores. */
  predicate Plain(a: seq<Byte>) { 0 !in a && 10 !in a && 13 !in a }

  lemma {:induction false} PlainFirst(a: seq<Byte>, b: seq<Byte>, m: nat)
    requires Plain(a) && |a| < m
    ensures var l := ReadLine(Source(10, b), m - |a|);
            ReadLine(Source(10, a + b), m) == Line(a + l.bytes, l.src)
    decreases |a|
  {
    hide ReadLine;
    if a == [] {
      EmptyLeft(b);
      EmptyLeft(ReadLine(Source(10, b), m).bytes);
    } else {
      assert (a + b)[1..] == a[1..] + b;
      LineGoesOn(a + b, m);
      PlainFirst(a[1..], b, m - 1);
      Assoc([a[0]], a[1..], ReadLine(Source(10, b), m - |a|).bytes);
    }
  }

  /** How a line ends that starts with no byte held back, `d` and `b` being what follows. */
  lemma EndsOfLine(d: Byte, b: seq<Byte>, m: nat)
    requires m > 0
    ensures ReadLine(Source(10, [10] + b), m) == Line([10], Source(10, b))
    ensures ReadLine(Source(10, [13, 10] + b), m) == Line([13, 10], Source(10, b))
    ensures d != 0 && d != 10 ==> ReadLine(Source(10, [13, d] + b), m) == Line([13], Source(d, b))
    ensures ReadLine(Source(10, [13]), m) == Line([13, 10], Source(0, []))
    ensures ReadLine(Source(10, []), m) == Line([], Source(10, []))
  {
    assert ([10] + b)[1..] == b;
    assert ([13, 10] + b)[1..] == [10] + b;
    assert ([13, d] + b)[1..] == [d] + b && ([d] + b)[1..] == b;
    assert [13][1..] == [];
  }

  /** A line of fewer than `m` bytes before its end: the end may be byte 10, bytes 13 and 10, byte 13 alone, of which
      the byte behind is then held back, or the end of the file, where a last byte 13 gets a 10 that was not there. */
  lemma WholeLine(a: seq<Byte>, d: Byte, b: seq<Byte>, m: nat)
    requires Plain(a) && |a| < m
    ensures ReadLine(Source(10, a + [10] + b), m) == Line(a + [10], Source(10, b))
    ensures ReadLine(Source(10, a + [13, 10] + b), m) == Line(a + [13, 10], Source(10, b))
    ensures d != 0 && d != 10 ==> ReadLine(Source(10, a + [13, d] + b), m) == Line(a + [13], Source(d, b))
    ensures ReadLine(Source(10, a + [13]), m) == Line(a + [13, 10], Source(0, []))
    ensures ReadLine(Source(10, a), m) == Line(a, Source(10, []))
  {
    hide ReadLine;
    EndsOfLine(d, b, m - |a|);
    PlainFirst(a, [10] + b, m);
    PlainFirst(a, [13, 10] + b, m);
    PlainFirst(a, [13, d] + b, m);
    PlainFirst(a, [13], m);
    PlainFirst(a, [], m);
    Assoc(a, [10], b);
    Assoc(a, [13, 10], b);
    Assoc(a, [13, d], b);
    EmptyRight(a);
  }

  /** A line with `m` bytes or more before its end is cut after `m` of them. */
  lemma LongLine(a: seq<Byte>, b: seq<Byte>)
    requires Plain(a) && a != []
    ensures ReadLine(Source(10, a + b), |a|) == Line(a, Source(10, b))
  {
    hide ReadLine;
    var init, c := a[..|a| - 1], a[|a| - 1];
    assert a == init + [c];
    Assoc(init, [c], b);
    PlainFirst(init, [c] + b, |a|);
    LastByte(c, b);
  }

  lemma LastByte(c: Byte, b: seq<Byte>)
    requires c != 0 && c != 10 && c != 13
    ensures ReadLine(Source(10, [c] + b), 1) == Line([c], Source(10, b))
  {
    assert ([c] + b)[1..] == b;
  }

  /** A byte that is held back comes first: a 13 ends the line at once or with the 10 behind it, and anything else leaves
      a 13 held back in its place that the file does not contain. */
  lemma HeldBackFirst(c: Byte, d: Byte, b: seq<Byte>, m: nat)
    requires m > 0 && c != 0 && c != 10 && c != 13
    ensures ReadLine(Source(13, [10] + b), m) == Line([13, 10], Source(10, b))
    ensures d != 0 && d != 10 ==> ReadLine(Source(13, [d] + b), m) == Line([13], Source(d, b))
    ensures ReadLine(Source(13, []), m) == Line([13, 10], Source(0, []))
    ensures var l := ReadMore(Source(13, b), m - 1); ReadLine(Source(c, b), m) == Line([c] + l.bytes, l.src)
    ensures ReadLine(Source(0, b), m) == Line([], Source(13, b))
  {
    assert ([10] + b)[1..] == b && ([d] + b)[1..] == b;
  }
}
