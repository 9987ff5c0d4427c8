/** The memory file of libmfile/mfile.c on values: blocks, read counts and a cursor. */
module MFileSpec {
  import opened Bytes
  import opened Seqs

  // ---------- packing ----------

  /** The blocks that hold `s` when they are filled one after the other. */
  function Split(bs: nat, s: seq<Byte>): seq<seq<Byte>>
    requires bs > 0
    decreases |s|
  {
    if s == [] then [] else if |s| <= bs then [s] else [s[..bs]] + Split(bs, s[bs..])
  }

  lemma {:induction false} SplitFlat(bs: nat, s: seq<Byte>)
    requires bs > 0
    ensures Flat(Split(bs, s)) == s
    decreases |s|
  {
    if s == [] {
    } else if |s| <= bs {
      FlatOne(s);
    } else {
      SplitFlat(bs, s[bs..]);
      assert ([s[..bs]] + Split(bs, s[bs..]))[1..] == Split(bs, s[bs..]);
      assert s == s[..bs] + s[bs..];
    }
  }

  /** How many bytes still fit the last block; a whole block when the last one is full. */
  function RoomAfter(bs: nat, n: nat): (r: nat)
    requires bs > 0
    ensures 0 < r <= bs
    decreases n
  {
    if n < bs then bs - n else if n == bs then bs else RoomAfter(bs, n - bs)
  }

  predicate AllFull(bs: nat, n: nat)
    requires bs > 0
    decreases n
  {
    n == 0 || (n >= bs && AllFull(bs, n - bs))
  }

  /** Shape of the blocks: none empty, none too long, and the last one partly filled exactly when the
      length is not a multiple of the block size. */
  lemma {:induction false} SplitShape(bs: nat, s: seq<Byte>)
    requires bs > 0
    ensures forall i :: 0 <= i < |Split(bs, s)| ==> 0 < |Split(bs, s)[i]| <= bs
    ensures AllFull(bs, |s|) <==> s == [] || |Split(bs, s)[|Split(bs, s)| - 1]| == bs
    ensures !AllFull(bs, |s|) ==> s != [] && |Split(bs, s)[|Split(bs, s)| - 1]| == bs - RoomAfter(bs, |s|)
    ensures s != [] ==> Split(bs, s) != []
    decreases |s|
  {
    if |s| > bs {
      SplitShape(bs, s[bs..]);
    }
  }

  /** Appending what fits the last block, or a new block when the last one is full. */
  lemma {:induction false} SplitAppend(bs: nat, s: seq<Byte>, piece: seq<Byte>)
    requires bs > 0 && 0 < |piece| <= RoomAfter(bs, |s|)
    ensures var b := Split(bs, s);
            if AllFull(bs, |s|) then Split(bs, s + piece) == b + [piece]
            else b != [] && Split(bs, s + piece) == b[..|b| - 1] + [b[|b| - 1] + piece]
    decreases |s|
  {
    if |s| > bs {
      SplitLeft(s, piece, bs);
      SplitAppend(bs, s[bs..], piece);
      var b, b' := Split(bs, s), Split(bs, s[bs..]);
      assert b == [s[..bs]] + b';
      if !AllFull(bs, |s|) {
        assert b[..|b| - 1] == [s[..bs]] + b'[..|b'| - 1];
        Assoc([s[..bs]], b'[..|b'| - 1], [b'[|b'| - 1] + piece]);
      } else {
        Assoc([s[..bs]], b', [piece]);
      }
    } else if |s| == bs {
      SplitLeft(s, piece, bs);
      assert s[..bs] == s && s[bs..] == [] && AllFull(bs, 0);
      EmptyLeft(piece);
    } else if s == [] {
      EmptyLeft(piece);
      EmptyLeft([piece]);
    } else {
      assert Split(bs, s)[..0] == [];
      EmptyLeft([s + piece]);
    }
  }

  /** ceil(n / bs). */
  function BlocksFor(bs: nat, n: nat): nat
    requires bs > 0
  {
    (n + bs - 1) / bs
  }

  lemma DivStep(n: nat, bs: nat)
    requires bs > 0
    ensures (n + bs) / bs == n / bs + 1
  {
    var q, r := n / bs, n % bs;
    assert n + bs == (q + 1) * bs + r;
    DivUnique(n + bs, bs, q + 1, r);
  }

  lemma DivUnique(n: nat, bs: nat, q: nat, r: nat)
    requires bs > 0 && r < bs && n == q * bs + r
    ensures n / bs == q
  {
    var d := n / bs - q;
    var e := n % bs;
    assert n == (n / bs) * bs + e;
    assert d * bs == r - e;
    NoMultipleBetween(d, bs);
  }

  lemma NoMultipleBetween(d: int, bs: nat)
    requires bs > 0
    ensures d >= 1 ==> d * bs >= bs
    ensures d <= -1 ==> d * bs + bs <= 0
  {
    if d >= 1 {
      assert (d - 1) * bs >= 0;
    } else if d <= -1 {
      assert (-d - 1) * bs >= 0;
    }
  }

  lemma {:induction false} SplitCount(bs: nat, s: seq<Byte>)
    requires bs > 0
    ensures |Split(bs, s)| == BlocksFor(bs, |s|)
    decreases |s|
  {
    if s == [] {
      DivUnique(bs - 1, bs, 0, bs - 1);
    } else if |s| <= bs {
      DivUnique(|s| + bs - 1, bs, 1, |s| - 1);
    } else {
      SplitCount(bs, s[bs..]);
      DivStep(|s| - 1, bs);
      assert |s[bs..]| + bs - 1 == |s| - 1;
    }
  }

  // ---------- reading ----------

  /** Read counts, the block the reader is in, and the flag that says it is exhausted. */
  datatype Reader = Reader(counts: seq<nat>, at: nat, empty: bool)

  predicate InShape(blocks: seq<seq<Byte>>, r: Reader)
  {
    |r.counts| == |blocks| && r.at < |blocks|
  }

  datatype Got = Got(bytes: seq<Byte>, r: Reader)

  /** The loop of mread. */
  function Read(blocks: seq<seq<Byte>>, r: Reader, len: nat): (g: Got)
    requires InShape(blocks, r)
    ensures InShape(blocks, g.r) && |g.bytes| <= len
    decreases len
  {
    if len == 0 || (r.empty && r.at + 1 == |blocks|) then Got([], r)
    else
      var at := if r.empty then r.at + 1 else r.at;
      var n := r.counts[at];
      if |blocks[at]| <= n then Got([], r.(at := at))
      else if len <= |blocks[at]| - n then
        Got(blocks[at][n..n + len], Reader(r.counts[at := n + len], at, n + len == |blocks[at]|))
      else
        var g := Read(blocks, Reader(r.counts[at := |blocks[at]|], at, true), len - (|blocks[at]| - n));
        Got(blocks[at][n..] + g.bytes, g.r)
  }

  /** A reader that moves through the blocks as through one sequence: there is something left in the current
      block unless the flag says to leave it, and the later blocks are unread and not empty. */
  predicate Flowing(blocks: seq<seq<Byte>>, r: Reader)
  {
    && InShape(blocks, r)
    && (!r.empty ==> r.counts[r.at] < |blocks[r.at]|)
    && (forall i :: r.at < i < |blocks| ==> blocks[i] != [] && r.counts[i] == 0)
  }

  /** What is ahead of the reader. */
  function Ahead(blocks: seq<seq<Byte>>, r: Reader): seq<Byte>
  {
    if !InShape(blocks, r) then []
    else if r.empty then Flat(blocks[r.at + 1..])
    else if r.counts[r.at] <= |blocks[r.at]| then blocks[r.at][r.counts[r.at]..] + Flat(blocks[r.at + 1..])
    else []
  }

  lemma FlowsOn(blocks: seq<seq<Byte>>, r: Reader)
    requires Flowing(blocks, r) && r.empty && r.at + 1 < |blocks|
    ensures Flowing(blocks, Reader(r.counts, r.at + 1, false)) && r.counts[r.at + 1] == 0
  {
  }

  lemma AheadNext(blocks: seq<seq<Byte>>, r: Reader)
    requires Flowing(blocks, r) && r.empty && r.at + 1 < |blocks|
    ensures var r' := Reader(r.counts, r.at + 1, false);
            Flowing(blocks, r') && Ahead(blocks, r') == Ahead(blocks, r)
  {
    FlowsOn(blocks, r);
    hide Flowing;
    var rest := blocks[r.at + 1..];
    assert rest[1..] == blocks[r.at + 2..];
    assert rest[0][0..] == rest[0];
  }

  lemma FlowsMore(blocks: seq<seq<Byte>>, r: Reader, n: nat)
    requires Flowing(blocks, r) && !r.empty && 0 < n && r.counts[r.at] + n <= |blocks[r.at]|
    ensures var m := r.counts[r.at] + n;
            Flowing(blocks, Reader(r.counts[r.at := m], r.at, m == |blocks[r.at]|))
  {
  }

  /** Reading `n` more bytes of the current block. */
  lemma AheadMore(blocks: seq<seq<Byte>>, r: Reader, n: nat, r': Reader)
    requires InShape(blocks, r) && !r.empty && r.counts[r.at] + n <= |blocks[r.at]|
    requires r' == Reader(r.counts[r.at := r.counts[r.at] + n], r.at, r.counts[r.at] + n == |blocks[r.at]|)
    ensures n <= |Ahead(blocks, r)|
    ensures Ahead(blocks, r)[..n] == blocks[r.at][r.counts[r.at]..r.counts[r.at] + n]
    ensures Ahead(blocks, r)[n..] == Ahead(blocks, r')
  {
    hide Flat;
    var c, rest := r.counts[r.at], Flat(blocks[r.at + 1..]);
    Cut(blocks[r.at], c, c + n);
    SplitLeft(blocks[r.at][c..], rest, n);
    if r'.empty {
      EmptyLeft(rest);
    }
  }

  /** The outcome of a read as a flat one. */
  ghost predicate ReadsFlat(blocks: seq<seq<Byte>>, a: seq<Byte>, len: nat, g: Got)
  {
    && Flowing(blocks, g.r)
    && g.bytes == a[..Min(len, |a|)]
    && Ahead(blocks, g.r) == a[Min(len, |a|)..]
  }

  lemma ReadSome(blocks: seq<seq<Byte>>, r: Reader, len: nat)
    requires InShape(blocks, r) && !r.empty && 0 < len <= |blocks[r.at]| - r.counts[r.at]
    ensures var c := r.counts[r.at];
            Read(blocks, r, len) == Got(blocks[r.at][c..c + len],
                                        Reader(r.counts[r.at := c + len], r.at, c + len == |blocks[r.at]|))
  {
  }

  lemma ReadsPrefix(blocks: seq<seq<Byte>>, a: seq<Byte>, len: nat, g: Got)
    requires Flowing(blocks, g.r) && len <= |a| && g.bytes == a[..len] && Ahead(blocks, g.r) == a[len..]
    ensures ReadsFlat(blocks, a, len, g)
  {
    hide Flowing, Ahead;
  }

  lemma ReadInBlock(blocks: seq<seq<Byte>>, r: Reader, len: nat)
    requires Flowing(blocks, r) && !r.empty && 0 < len <= |blocks[r.at]| - r.counts[r.at]
    ensures ReadsFlat(blocks, Ahead(blocks, r), len, Read(blocks, r, len))
  {
    Placed(blocks, r);
    hide *;
    FlowsMore(blocks, r, len);
    ReadSome(blocks, r, len);
    var m := r.counts[r.at] + len;
    AheadMore(blocks, r, len, Reader(r.counts[r.at := m], r.at, m == |blocks[r.at]|));
    ReadsPrefix(blocks, Ahead(blocks, r), len, Read(blocks, r, len));
  }

  lemma ReadPastBlock(blocks: seq<seq<Byte>>, r: Reader, len: nat)
    requires Flowing(blocks, r) && !r.empty && len > |blocks[r.at]| - r.counts[r.at]
    ensures var k := |blocks[r.at]| - r.counts[r.at];
            var r' := Reader(r.counts[r.at := |blocks[r.at]|], r.at, true);
            && 0 < k <= |Ahead(blocks, r)| && Flowing(blocks, r')
            && Ahead(blocks, r') == Ahead(blocks, r)[k..]
            && Read(blocks, r, len) == Got(Ahead(blocks, r)[..k] + Read(blocks, r', len - k).bytes, Read(blocks, r', len - k).r)
  {
    hide Ahead;
    var k := |blocks[r.at]| - r.counts[r.at];
    FlowsMore(blocks, r, k);
    AheadMore(blocks, r, k, Reader(r.counts[r.at := |blocks[r.at]|], r.at, true));
    assert blocks[r.at][r.counts[r.at]..|blocks[r.at]|] == blocks[r.at][r.counts[r.at]..];
  }

  lemma ReadNext(blocks: seq<seq<Byte>>, r: Reader, len: nat)
    requires InShape(blocks, r) && r.empty && r.at + 1 < |blocks| && len > 0
    requires r.counts[r.at + 1] < |blocks[r.at + 1]|
    ensures Read(blocks, r, len) == Read(blocks, Reader(r.counts, r.at + 1, false), len)
  {
  }

  /** mread behaves like reading a flat sequence: it returns the next min(len, remaining) bytes and
      leaves the rest ahead. */
  lemma {:induction false} ReadFlat(blocks: seq<seq<Byte>>, r: Reader, len: nat)
    requires Flowing(blocks, r)
    ensures ReadsFlat(blocks, Ahead(blocks, r), len, Read(blocks, r, len))
    decreases len, if r.empty then 1 else 0
  {
    Placed(blocks, r);
    if len == 0 || (r.empty && r.at + 1 == |blocks|) {
      ReadNone(blocks, r, len);
    } else if r.empty {
      AheadNext(blocks, r);
      FlowsOn(blocks, r);
      ReadNext(blocks, r, len);
      hide *;
      ReadFlat(blocks, Reader(r.counts, r.at + 1, false), len);
    } else if len <= |blocks[r.at]| - r.counts[r.at] {
      ReadInBlock(blocks, r, len);
    } else {
      hide *;
      var a, k := Ahead(blocks, r), |blocks[r.at]| - r.counts[r.at];
      var r' := Reader(r.counts[r.at := |blocks[r.at]|], r.at, true);
      ReadPastBlock(blocks, r, len);
      ReadFlat(blocks, r', len - k);
      ReadJoined(blocks, a, k, len, Read(blocks, r', len - k));
    }
  }

  lemma Placed(blocks: seq<seq<Byte>>, r: Reader)
    requires Flowing(blocks, r)
    ensures r.at < |blocks| == |r.counts| && (!r.empty ==> r.counts[r.at] < |blocks[r.at]|) && InShape(blocks, r)
  {
  }

  lemma ReadNone(blocks: seq<seq<Byte>>, r: Reader, len: nat)
    requires Flowing(blocks, r) && (len == 0 || (r.empty && r.at + 1 == |blocks|))
    ensures ReadsFlat(blocks, Ahead(blocks, r), len, Read(blocks, r, len))
  {
    if len > 0 {
      assert blocks[r.at + 1..] == [];
    }
  }

  lemma ReadJoined(blocks: seq<seq<Byte>>, a: seq<Byte>, k: nat, len: nat, g: Got)
    requires k <= len && k <= |a| && ReadsFlat(blocks, a[k..], len - k, g)
    ensures ReadsFlat(blocks, a, len, Got(a[..k] + g.bytes, g.r))
  {
    hide Flowing, Ahead;
    Join(a, k, len);
  }

  lemma Join(a: seq<Byte>, k: nat, len: nat)
    requires k <= len && k <= |a|
    ensures a[..k] + a[k..][..Min(len - k, |a| - k)] == a[..Min(len, |a|)]
    ensures a[k..][Min(len - k, |a| - k)..] == a[Min(len, |a|)..]
  {
    assert Min(len - k, |a| - k) == Min(len, |a|) - k;
    hide Min;
    TwoSlices(a, k, Min(len, |a|));
  }

  function Sum(lens: seq<nat>): nat { if lens == [] then 0 else lens[0] + Sum(lens[1..]) }

  /** A run of reads. */
  function Reads(blocks: seq<seq<Byte>>, r: Reader, lens: seq<nat>): Got
    requires InShape(blocks, r)
    decreases |lens|
  {
    if lens == [] then Got([], r)
    else
      var g := Read(blocks, r, lens[0]);
      var h := Reads(blocks, g.r, lens[1..]);
      Got(g.bytes + h.bytes, h.r)
  }

  lemma JoinReads(a: seq<Byte>, m: nat, n: nat)
    ensures var b := a[Min(m, |a|)..];
            && a[..Min(m, |a|)] + b[..Min(n, |b|)] == a[..Min(m + n, |a|)]
            && b[Min(n, |b|)..] == a[Min(m + n, |a|)..]
  {
    var i, j := Min(m, |a|), Min(m + n, |a|);
    assert |a[i..]| == |a| - i;
    assert Min(n, |a[i..]|) == j - i;
    hide Min;
    TwoSlices(a, i, j);
  }

  /** A read and then another one. */
  lemma ReadsThen(blocks: seq<seq<Byte>>, a: seq<Byte>, m: nat, g: Got, n: nat, h: Got)
    requires ReadsFlat(blocks, a, m, g) && ReadsFlat(blocks, Ahead(blocks, g.r), n, h)
    ensures ReadsFlat(blocks, a, m + n, Got(g.bytes + h.bytes, h.r))
  {
    hide Flowing, Ahead;
    JoinReads(a, m, n);
  }

  lemma ReadsNone(blocks: seq<seq<Byte>>, r: Reader)
    requires Flowing(blocks, r)
    ensures ReadsFlat(blocks, Ahead(blocks, r), 0, Got([], r))
  {
    hide Flowing, Ahead;
  }

  lemma FlatReadFlows(blocks: seq<seq<Byte>>, a: seq<Byte>, m: nat, g: Got)
    requires ReadsFlat(blocks, a, m, g)
    ensures Flowing(blocks, g.r)
  {
  }

  lemma ReadsNext(blocks: seq<seq<Byte>>, r: Reader, lens: seq<nat>)
    requires InShape(blocks, r)
    ensures lens == [] ==> Sum(lens) == 0 && Reads(blocks, r, lens) == Got([], r)
    ensures lens != [] ==>
              var g := Read(blocks, r, lens[0]);
              var h := Reads(blocks, g.r, lens[1..]);
              Reads(blocks, r, lens) == Got(g.bytes + h.bytes, h.r) && Sum(lens) == lens[0] + Sum(lens[1..])
  {
  }

  /** Any run of reads delivers consecutive slices: together they are one read of the total length. */
  lemma {:induction false} RunOfReads(blocks: seq<seq<Byte>>, r: Reader, lens: seq<nat>)
    requires Flowing(blocks, r)
    ensures ReadsFlat(blocks, Ahead(blocks, r), Sum(lens), Reads(blocks, r, lens))
    decreases |lens|
  {
    hide *;
    Placed(blocks, r);
    ReadsNext(blocks, r, lens);
    if lens == [] {
      ReadsNone(blocks, r);
    } else {
      var g := Read(blocks, r, lens[0]);
      ReadFlat(blocks, r, lens[0]);
      FlatReadFlows(blocks, Ahead(blocks, r), lens[0], g);
      RunOfReads(blocks, g.r, lens[1..]);
      ReadsThen(blocks, Ahead(blocks, r), lens[0], g, Sum(lens[1..]), Reads(blocks, g.r, lens[1..]));
    }
  }

  // ---------- the writer ----------

  /** The blocks are the headers followed by the written data, packed; the counters fit them. */
  ghost predicate Totals(bs: nat, blocks: seq<seq<Byte>>, headers: seq<seq<Byte>>, body: seq<Byte>,
                         total: int, newHeader: nat, full: bool)
  {
    && bs > 0
    && blocks == headers + Split(bs, body)
    && total == |Flat(blocks)| && newHeader == |Flat(headers)|
    && (full <==> AllFull(bs, |body|))
  }

  lemma TotalsStart(bs: nat)
    requires bs > 0
    ensures Totals(bs, [], [], [], 0, 0, true)
  {
  }

  /** When the last block is full a write opens a new one; otherwise the last one has the room left. */
  lemma TotalsRoom(bs: nat, blocks: seq<seq<Byte>>, headers: seq<seq<Byte>>, body: seq<Byte>,
                   total: int, newHeader: nat, full: bool)
    requires Totals(bs, blocks, headers, body, total, newHeader, full)
    ensures full ==> RoomAfter(bs, |body|) == bs
    ensures !full ==> blocks != [] && |blocks[|blocks| - 1]| == bs - RoomAfter(bs, |body|) < bs
  {
    SplitShape(bs, body);
    RoomOfFull(bs, |body|);
  }

  lemma {:induction false} RoomOfFull(bs: nat, n: nat)
    requires bs > 0
    ensures AllFull(bs, n) ==> RoomAfter(bs, n) == bs
    decreases n
  {
    if n > bs {
      RoomOfFull(bs, n - bs);
    }
  }

  /** The blocks after `piece` was put into the last block, a new one when that was full. */
  function PutPiece(blocks: seq<seq<Byte>>, full: bool, piece: seq<Byte>): seq<seq<Byte>>
    requires !full ==> blocks != []
  {
    if full then blocks + [piece] else blocks[|blocks| - 1 := blocks[|blocks| - 1] + piece]
  }

  lemma TotalsPut(bs: nat, blocks: seq<seq<Byte>>, headers: seq<seq<Byte>>, body: seq<Byte>,
                  total: int, newHeader: nat, full: bool, piece: seq<Byte>)
    requires Totals(bs, blocks, headers, body, total, newHeader, full)
    requires 0 < |piece| <= RoomAfter(bs, |body|)
    ensures !full ==> blocks != []
    ensures var bl := PutPiece(blocks, full, piece);
            bl != [] && Totals(bs, bl, headers, body + piece, total + |piece|, newHeader, |bl[|bl| - 1]| == bs)
  {
    TotalsRoom(bs, blocks, headers, body, total, newHeader, full);
    SplitAppend(bs, body, piece);
    SplitShape(bs, body + piece);
    var b := Split(bs, body);
    var bl := PutPiece(blocks, full, piece);
    assert bl == headers + Split(bs, body + piece);
    FlatConcat(headers, b);
    FlatConcat(headers, Split(bs, body + piece));
    SplitFlat(bs, body);
    SplitFlat(bs, body + piece);
  }

  lemma TotalsHead(bs: nat, blocks: seq<seq<Byte>>, headers: seq<seq<Byte>>, body: seq<Byte>,
                   total: int, newHeader: nat, full: bool, data: seq<Byte>)
    requires Totals(bs, blocks, headers, body, total, newHeader, full)
    ensures Totals(bs, Cons(data, blocks), Cons(data, headers), body, total + |data|, newHeader + |data|, full)
  {
    Assoc([data], headers, Split(bs, body));
    assert ([data] + blocks)[1..] == blocks && ([data] + headers)[1..] == headers;
  }

  /** What the file amounts to: the headers, last one first, then the data; one block per header and
      ceil(data / block size) for the data. */
  lemma TotalsMeaning(bs: nat, blocks: seq<seq<Byte>>, headers: seq<seq<Byte>>, body: seq<Byte>,
                      total: int, newHeader: nat, full: bool)
    requires Totals(bs, blocks, headers, body, total, newHeader, full)
    ensures Flat(blocks) == Flat(headers) + body
    ensures total == newHeader + |body|
    ensures |blocks| == |headers| + BlocksFor(bs, |body|)
    ensures (forall i :: 0 <= i < |headers| ==> headers[i] != []) ==> forall i :: 0 <= i < |blocks| ==> blocks[i] != []
  {
    FlatConcat(headers, Split(bs, body));
    SplitFlat(bs, body);
    SplitCount(bs, body);
    SplitShape(bs, body);
  }

  // ---------- seeking ----------

  /** The block mseek_pos stops in and the offset there; the number of blocks when it finds none. */
  function Seek(blocks: seq<seq<Byte>>, pos: nat): (r: (nat, nat))
    ensures r.0 <= |blocks|
    ensures r.0 < |blocks| ==> r.1 <= |blocks[r.0]|
  {
    if blocks == [] then (0, pos)
    else if pos <= |blocks[0]| then (0, pos)
    else var r := Seek(blocks[1..], pos - |blocks[0]|); (r.0 + 1, r.1)
  }

  /** The search for `position` has passed `i` blocks and `pos` is left. */
  ghost predicate SeekGoesOn(blocks: seq<seq<Byte>>, position: nat, i: nat, pos: nat)
  {
    i <= |blocks| && Seek(blocks, position) == (i + Seek(blocks[i..], pos).0, Seek(blocks[i..], pos).1)
  }

  lemma SeekStart(blocks: seq<seq<Byte>>, position: nat)
    ensures SeekGoesOn(blocks, position, 0, position)
  {
    assert blocks[0..] == blocks;
  }

  lemma SeekTurn(blocks: seq<seq<Byte>>, position: nat, i: nat, pos: nat)
    requires i < |blocks| && SeekGoesOn(blocks, position, i, pos)
    ensures if pos <= |blocks[i]| then Seek(blocks, position) == (i, pos)
            else SeekGoesOn(blocks, position, i + 1, pos - |blocks[i]|)
  {
    assert blocks[i..][1..] == blocks[i + 1..];
  }

  lemma SeekEnds(blocks: seq<seq<Byte>>, position: nat, i: nat, pos: nat)
    requires i == |blocks| && SeekGoesOn(blocks, position, i, pos)
    ensures Seek(blocks, position) == (i, pos)
  {
  }

  /** `pos` is where some block ends. */
  ghost predicate BlockEnd(blocks: seq<seq<Byte>>, pos: nat)
  {
    exists i :: 0 < i <= |blocks| && pos == |Flat(blocks[..i])|
  }

  /** Position `pos` of the file is offset `off` of block `at`, and no earlier block reaches it. */
  ghost predicate IsPosition(blocks: seq<seq<Byte>>, pos: nat, at: nat, off: nat)
  {
    && at < |blocks| && off <= |blocks[at]| && pos == |Flat(blocks[..at])| + off && pos <= |Flat(blocks)|
    && blocks[at][off..] + Flat(blocks[at + 1..]) == Flat(blocks)[pos..]
    && (at > 0 ==> off > 0)
  }

  lemma PositionHere(blocks: seq<seq<Byte>>, pos: nat)
    requires blocks != [] && pos <= |blocks[0]|
    ensures IsPosition(blocks, pos, 0, pos) && pos <= |Flat(blocks)|
  {
    var b, rest := blocks[0], Flat(blocks[1..]);
    assert Flat(blocks) == b + rest;
    assert blocks[..0] == [];
    hide Flat;
    SplitLeft(b, rest, pos);
  }

  lemma PositionLater(blocks: seq<seq<Byte>>, pos: nat, at: nat, off: nat)
    requires blocks != [] && pos > |blocks[0]| && IsPosition(blocks[1..], pos - |blocks[0]|, at, off)
    requires at == 0 ==> off > 0
    ensures IsPosition(blocks, pos, at + 1, off)
  {
    var b, rest := blocks[0], blocks[1..];
    assert Flat(blocks) == b + Flat(rest);
    assert blocks[..at + 1] == [b] + rest[..at];
    FlatConcat([b], rest[..at]);
    FlatOne(b);
    hide Flat;
    assert rest[at + 1..] == blocks[at + 2..];
    assert (b + Flat(rest))[pos..] == Flat(rest)[pos - |b|..];
  }

  lemma {:induction false} SeekFinds(blocks: seq<seq<Byte>>, pos: nat)
    ensures Seek(blocks, pos).0 < |blocks| <==> blocks != [] && pos <= |Flat(blocks)|
    ensures Seek(blocks, pos).0 < |blocks| ==> IsPosition(blocks, pos, Seek(blocks, pos).0, Seek(blocks, pos).1)
  {
    if blocks != [] {
      if pos <= |blocks[0]| {
        hide IsPosition, Flat;
        PositionHere(blocks, pos);
      } else {
        var rest := blocks[1..];
        assert |Flat(blocks)| == |blocks[0]| + |Flat(rest)|;
        SeekFinds(rest, pos - |blocks[0]|);
        var (at, off) := Seek(rest, pos - |blocks[0]|);
        hide Flat;
        if at < |rest| {
          PositionLater(blocks, pos, at, off);
        }
        hide IsPosition;
      }
    }
  }

  lemma {:induction false} FlatGrows(blocks: seq<seq<Byte>>, i: nat, j: nat)
    requires i <= j <= |blocks|
    requires forall k :: 0 <= k < |blocks| ==> blocks[k] != []
    ensures |Flat(blocks[..i])| + (j - i) <= |Flat(blocks[..j])|
    decreases j
  {
    if i < j {
      FlatGrows(blocks, i, j - 1);
      assert blocks[..j] == blocks[..j - 1] + [blocks[j - 1]];
      FlatConcat(blocks[..j - 1], [blocks[j - 1]]);
      FlatOne(blocks[j - 1]);
    }
  }

  /** A seek lands at the far end of its block exactly when the position is a block end. */
  lemma SeekEnd(blocks: seq<seq<Byte>>, pos: nat)
    requires forall i :: 0 <= i < |blocks| ==> blocks[i] != []
    requires Seek(blocks, pos).0 < |blocks|
    ensures var (at, off) := Seek(blocks, pos); off == |blocks[at]| <==> BlockEnd(blocks, pos)
  {
    SeekFinds(blocks, pos);
    hide Seek, Flat;
    var (at, off) := Seek(blocks, pos);
    var start := |Flat(blocks[..at])|;
    assert blocks[..at + 1] == blocks[..at] + [blocks[at]];
    FlatConcat(blocks[..at], [blocks[at]]);
    FlatOne(blocks[at]);
    if BlockEnd(blocks, pos) {
      var i :| 0 < i <= |blocks| && pos == |Flat(blocks[..i])|;
      if i <= at {
        FlatGrows(blocks, i, at);
      } else {
        FlatGrows(blocks, at + 1, i);
      }
    }
  }

  /** The reader after mseek_pos. A position beyond the end leaves no current block, and reading then
      starts at the beginning. */
  function Sought(blocks: seq<seq<Byte>>, pos: nat): (r: Reader)
    requires blocks != []
    ensures InShape(blocks, r)
  {
    var (at, off) := Seek(blocks, pos);
    var zeros := Zeros(|blocks|);
    if at < |blocks| then Reader(zeros[at := off], at, false) else Reader(zeros, 0, false)
  }

  /** Seeking within the file: at a block end nothing can be read, elsewhere the file from there on. */
  lemma SeekInside(blocks: seq<seq<Byte>>, pos: nat)
    requires blocks != [] && pos <= |Flat(blocks)|
    requires forall i :: 0 <= i < |blocks| ==> blocks[i] != []
    ensures var r := Sought(blocks, pos);
            && (!BlockEnd(blocks, pos) ==> Flowing(blocks, r) && Ahead(blocks, r) == Flat(blocks)[pos..])
            && (BlockEnd(blocks, pos) ==> forall len: nat :: Read(blocks, r, len).bytes == [])
  {
    SeekFinds(blocks, pos);
    SeekEnd(blocks, pos);
    hide Seek, Flat, BlockEnd;
  }

  /** Seeking beyond the end starts over. */
  lemma SeekBeyond(blocks: seq<seq<Byte>>, pos: nat)
    requires blocks != [] && pos > |Flat(blocks)|
    requires forall i :: 0 <= i < |blocks| ==> blocks[i] != []
    ensures Flowing(blocks, Sought(blocks, pos)) && Ahead(blocks, Sought(blocks, pos)) == Flat(blocks)
  {
    SeekFinds(blocks, pos);
    assert blocks[0][0..] == blocks[0];
  }

  /** A read after a seek starts at the position sought exactly when that is not beyond the end and not
      the end of a block with more to follow. */
  lemma SeekRead(blocks: seq<seq<Byte>>, pos: nat, len: nat)
    requires blocks != [] && len > 0
    requires forall i :: 0 <= i < |blocks| ==> blocks[i] != []
    ensures var a := Flat(blocks);
            var wanted := if pos <= |a| then a[pos..Min(pos + len, |a|)] else [];
            (Read(blocks, Sought(blocks, pos), len).bytes == wanted) <==>
              (pos == |a| || (pos < |a| && !BlockEnd(blocks, pos)))
  {
    var a, r := Flat(blocks), Sought(blocks, pos);
    assert |a| > 0;
    EndIsBlockEnd(blocks);
    hide Sought, BlockEnd, Flat, Read, Flowing, Ahead;
    if pos <= |a| {
      SeekInside(blocks, pos);
    } else {
      SeekBeyond(blocks, pos);
    }
    if pos > |a| || !BlockEnd(blocks, pos) {
      ReadFlat(blocks, r, len);
      if pos <= |a| {
        Slice(a, pos, len);
      }
    }
  }

  lemma Slice(a: seq<Byte>, pos: nat, len: nat)
    requires pos <= |a|
    ensures a[pos..][..Min(len, |a| - pos)] == a[pos..Min(pos + len, |a|)]
  {
  }

  lemma EndIsBlockEnd(blocks: seq<seq<Byte>>)
    requires blocks != []
    ensures BlockEnd(blocks, |Flat(blocks)|)
  {
    assert blocks[..|blocks|] == blocks;
  }

  // ---------- writing while reading ----------

  /** The blocks from `i` on, all of them before the last, after `piece` was put into the last one. */
  lemma FlatPut(blocks: seq<seq<Byte>>, i: nat, piece: seq<Byte>)
    requires i < |blocks|
    ensures Flat(PutPiece(blocks, false, piece)[i..]) == Flat(blocks[i..]) + piece
  {
    var n := |blocks|;
    var mid, last := blocks[i..n - 1], blocks[n - 1];
    assert blocks[i..] == mid + [last];
    assert PutPiece(blocks, false, piece)[i..] == mid + [last + piece];
    FlatConcat(mid, [last]);
    FlatConcat(mid, [last + piece]);
    FlatOne(last);
    FlatOne(last + piece);
    Assoc(Flat(mid), last, piece);
  }

  /** The reader has not used up a last block that still has room. */
  predicate Seen(blocks: seq<seq<Byte>>, r: Reader, full: bool) { full || !r.empty || r.at + 1 < |blocks| }

  lemma AheadPut(blocks: seq<seq<Byte>>, r: Reader, piece: seq<Byte>)
    requires Flowing(blocks, r)
    ensures Ahead(PutPiece(blocks, false, piece), r) == Ahead(blocks, r) + if Seen(blocks, r, false) then piece else []
  {
    var bl := PutPiece(blocks, false, piece);
    var b, n := blocks[r.at], r.counts[r.at];
    if r.at + 1 < |blocks| {
      FlatPut(blocks, r.at + 1, piece);
      assert bl[r.at] == b;
      hide PutPiece, Flat;
      if !r.empty {
        Assoc(b[n..], Flat(blocks[r.at + 1..]), piece);
      }
    } else {
      assert blocks[r.at + 1..] == [] && bl[r.at + 1..] == [];
      if r.empty {
        EmptyRight(Ahead(blocks, r));
      } else {
        SplitLeft(b, piece, n);
        EmptyRight(b[n..]);
        EmptyRight(bl[r.at][n..]);
      }
    }
  }

  lemma AheadOpen(blocks: seq<seq<Byte>>, r: Reader, piece: seq<Byte>)
    requires Flowing(blocks, r)
    ensures Ahead(PutPiece(blocks, true, piece), r.(counts := r.counts + [0])) == Ahead(blocks, r) + piece
  {
    hide Flat;
    var rest := blocks[r.at + 1..];
    assert (blocks + [piece])[r.at + 1..] == rest + [piece];
    FlatConcat(rest, [piece]);
    FlatOne(piece);
    if !r.empty {
      Assoc(blocks[r.at][r.counts[r.at]..], Flat(rest), piece);
    }
  }

  lemma FlowsPut(blocks: seq<seq<Byte>>, r: Reader, full: bool, piece: seq<Byte>)
    requires Flowing(blocks, r) && piece != []
    ensures Flowing(PutPiece(blocks, full, piece), if full then r.(counts := r.counts + [0]) else r)
  {
  }

  /** A piece written behind an active reader is ahead of it exactly when the reader has not used up a last
      block that still has room: then it goes where the reader no longer looks. */
  lemma WriteSeen(blocks: seq<seq<Byte>>, r: Reader, full: bool, piece: seq<Byte>)
    requires Flowing(blocks, r) && piece != []
    ensures var bl := PutPiece(blocks, full, piece);
            var r' := if full then r.(counts := r.counts + [0]) else r;
            && Flowing(bl, r')
            && Ahead(bl, r') == Ahead(blocks, r) + if Seen(blocks, r, full) then piece else []
  {
    FlowsPut(blocks, r, full, piece);
    hide PutPiece;
    if full {
      AheadOpen(blocks, r, piece);
    } else {
      AheadPut(blocks, r, piece);
    }
    hide Ahead, Flowing;
  }

  function Longer(r: Reader, k: nat): Reader { r.(counts := r.counts + Zeros(k)) }

  /** The first piece of a write, and what is left after it. */
  lemma FirstPiece(bs: nat, blocks: seq<seq<Byte>>, headers: seq<seq<Byte>>, body: seq<Byte>,
                   total: int, newHeader: nat, full: bool, data: seq<Byte>) returns (n: nat)
    requires Totals(bs, blocks, headers, body, total, newHeader, full) && data != []
    ensures n == Min(|data|, RoomAfter(bs, |body|)) && 0 < n <= |data| && (!full ==> blocks != [])
    ensures var b1 := PutPiece(blocks, full, data[..n]);
            && b1 != []
            && Totals(bs, b1, headers, body + data[..n], total + n, newHeader, n < |data| || |b1[|b1| - 1]| == bs)
    ensures body + data == (body + data[..n]) + data[n..]
  {
    TotalsRoom(bs, blocks, headers, body, total, newHeader, full);
    n := Min(|data|, RoomAfter(bs, |body|));
    TotalsPut(bs, blocks, headers, body, total, newHeader, full, data[..n]);
    assert data == data[..n] + data[n..];
    Assoc(body, data[..n], data[n..]);
    hide Totals;
  }

  /** How many bytes of a write stay hidden from the reader, when the last block has `room` left. */
  function Hidden(blocks: seq<seq<Byte>>, r: Reader, full: bool, room: nat, len: nat): (n: nat)
    ensures n <= len
  {
    if Seen(blocks, r, full) then 0 else Min(len, room)
  }

  lemma HiddenPiece(blocks: seq<seq<Byte>>, r: Reader, full: bool, room: nat, data: seq<Byte>, n: nat)
    requires data != [] && n == Min(|data|, room)
    ensures (if Seen(blocks, r, full) then data[..n] else []) + data[n..] == data[Hidden(blocks, r, full, room, |data|)..]
    ensures Hidden(blocks, r, true, room, |data|) == 0 && data[0..] == data
  {
    assert data[..n] + data[n..] == data;
    EmptyLeft(data[n..]);
  }

  /** The first piece of a write. */
  lemma SeenFirst(bs: nat, blocks: seq<seq<Byte>>, headers: seq<seq<Byte>>, body: seq<Byte>,
                  total: int, newHeader: nat, full: bool, r: Reader, data: seq<Byte>)
    returns (n: nat, b1: seq<seq<Byte>>)
    requires Totals(bs, blocks, headers, body, total, newHeader, full)
    requires Flowing(blocks, r) && data != []
    ensures n == Min(|data|, RoomAfter(bs, |body|)) && 0 < n <= |data| && |blocks| <= |b1|
    ensures n < |data| ==> Totals(bs, b1, headers, body + data[..n], total + n, newHeader, true)
    ensures b1 == headers + Split(bs, body + data[..n])
    ensures body + data == (body + data[..n]) + data[n..]
    ensures var r1 := Longer(r, |b1| - |blocks|);
            Flowing(b1, r1) && Ahead(b1, r1) == Ahead(blocks, r) + if Seen(blocks, r, full) then data[..n] else []
  {
    n := FirstPiece(bs, blocks, headers, body, total, newHeader, full, data);
    WriteSeen(blocks, r, full, data[..n]);
    b1 := PutPiece(blocks, full, data[..n]);
    assert Longer(r, |b1| - |blocks|) == if full then r.(counts := r.counts + [0]) else r;
    hide Flowing, Ahead;
  }

  lemma LongerTwice(r: Reader, j: nat, k: nat)
    ensures Longer(Longer(r, j), k) == Longer(r, j + k)
  {
    ZerosConcat(j, k);
    Assoc(r.counts, Zeros(j), Zeros(k));
  }

  /** What a whole call of mwrite puts ahead of a reader: everything but the bytes that stay hidden in the
      last block. */
  lemma {:induction false} WriteBehind(bs: nat, blocks: seq<seq<Byte>>, headers: seq<seq<Byte>>, body: seq<Byte>,
                                       total: int, newHeader: nat, full: bool, r: Reader, data: seq<Byte>,
                                       bl: seq<seq<Byte>>)
    requires Totals(bs, blocks, headers, body, total, newHeader, full)
    requires Flowing(blocks, r) && data != [] && bl == headers + Split(bs, body + data)
    ensures |bl| >= |blocks| && Flowing(bl, Longer(r, |bl| - |blocks|))
    ensures Ahead(bl, Longer(r, |bl| - |blocks|))
            == Ahead(blocks, r) + data[Hidden(blocks, r, full, RoomAfter(bs, |body|), |data|)..]
    decreases |data|
  {
    hide *;
    var n, b1 := SeenFirst(bs, blocks, headers, body, total, newHeader, full, r, data);
    var piece, rest := if Seen(blocks, r, full) then data[..n] else [], data[n..];
    var k := |b1| - |blocks|;
    HiddenPiece(blocks, r, full, RoomAfter(bs, |body|), data, n);
    if rest == [] {
      assert data[..n] == data;
      EmptyRight(piece);
    } else {
      var r1, body1 := Longer(r, k), body + data[..n];
      WriteBehind(bs, b1, headers, body1, total + n, newHeader, true, r1, rest, bl);
      HiddenPiece(b1, r1, true, RoomAfter(bs, |body1|), rest, Min(|rest|, RoomAfter(bs, |body1|)));
      LongerTwice(r, k, |bl| - |b1|);
      Assoc(Ahead(blocks, r), piece, rest);
    }
  }

  // ---------- an empty file ----------

  /** As Flowing and Ahead, for a file that may have no blocks yet. */
  ghost predicate Flows(blocks: seq<seq<Byte>>, r: Reader)
  {
    if blocks == [] then r == Reader([], 0, false) else Flowing(blocks, r)
  }

  lemma NewReader(blocks: seq<seq<Byte>>)
    requires forall i :: 0 <= i < |blocks| ==> blocks[i] != []
    ensures Flows(blocks, Reader(Zeros(|blocks|), 0, false))
    ensures Ahead(blocks, Reader(Zeros(|blocks|), 0, false)) == Flat(blocks)
  {
    if blocks != [] {
      assert blocks[0][0..] == blocks[0];
    } else {
      assert Zeros(0) == [];
    }
  }

  // ---------- empty header blocks ----------

  /** What one read from the start can deliver: the blocks before the first empty one. */
  function Visible(blocks: seq<seq<Byte>>): seq<Byte>
  {
    if blocks == [] || blocks[0] == [] then [] else blocks[0] + Visible(blocks[1..])
  }

  /** The current block is not read beyond its end and later blocks are unread. */
  predicate Orderly(blocks: seq<seq<Byte>>, r: Reader)
  {
    && InShape(blocks, r) && r.counts[r.at] <= |blocks[r.at]|
    && (forall i :: r.at < i < |blocks| ==> r.counts[i] == 0)
  }

  /** What one read can deliver, whatever the blocks. */
  function Coming(blocks: seq<seq<Byte>>, r: Reader): seq<Byte>
  {
    if !InShape(blocks, r) then []
    else if r.empty then Visible(blocks[r.at + 1..])
    else if |blocks[r.at]| <= r.counts[r.at] then []
    else blocks[r.at][r.counts[r.at]..] + Visible(blocks[r.at + 1..])
  }

  /** The outcome of a read by what was coming; the rest still is, when the read was not cut short. */
  ghost predicate ReadsComing(blocks: seq<seq<Byte>>, u: seq<Byte>, len: nat, g: Got)
  {
    && g.bytes == u[..Min(len, |u|)]
    && (len <= |u| ==> Orderly(blocks, g.r) && Coming(blocks, g.r) == u[len..])
  }

  lemma ComingEnd(blocks: seq<seq<Byte>>, r: Reader, len: nat)
    requires Orderly(blocks, r) && len > 0
    requires if r.empty then r.at + 1 == |blocks| || blocks[r.at + 1] == [] else r.counts[r.at] == |blocks[r.at]|
    ensures ReadsComing(blocks, Coming(blocks, r), len, Read(blocks, r, len))
  {
  }

  lemma ComingNext(blocks: seq<seq<Byte>>, r: Reader, len: nat)
    requires Orderly(blocks, r) && r.empty && r.at + 1 < |blocks| && blocks[r.at + 1] != [] && len > 0
    ensures var r' := Reader(r.counts, r.at + 1, false);
            Orderly(blocks, r') && Coming(blocks, r') == Coming(blocks, r) && Read(blocks, r', len) == Read(blocks, r, len)
  {
    ReadNext(blocks, r, len);
    hide Read;
    var rest := blocks[r.at + 1..];
    VisibleNext(rest);
    hide Visible;
    assert rest[0] == blocks[r.at + 1] && rest[0][0..] == rest[0];
    assert rest[1..] == blocks[r.at + 2..];
  }

  lemma VisibleNext(blocks: seq<seq<Byte>>)
    requires blocks != [] && blocks[0] != []
    ensures Visible(blocks) == blocks[0] + Visible(blocks[1..])
  {
  }

  lemma ComingMore(blocks: seq<seq<Byte>>, r: Reader, len: nat, r': Reader)
    requires Orderly(blocks, r) && !r.empty && 0 < len <= |blocks[r.at]| - r.counts[r.at]
    requires r' == Reader(r.counts[r.at := r.counts[r.at] + len], r.at, r.counts[r.at] + len == |blocks[r.at]|)
    ensures Orderly(blocks, r')
    ensures var c, v := r.counts[r.at], Visible(blocks[r.at + 1..]);
            && Coming(blocks, r) == blocks[r.at][c..] + v
            && Coming(blocks, r') == if r'.empty then v else blocks[r.at][c + len..] + v
  {
    hide Visible;
  }

  lemma ComingPart(blocks: seq<seq<Byte>>, r: Reader, len: nat)
    requires Orderly(blocks, r) && !r.empty && 0 < len <= |blocks[r.at]| - r.counts[r.at]
    ensures ReadsComing(blocks, Coming(blocks, r), len, Read(blocks, r, len))
  {
    var b, n, v := blocks[r.at], r.counts[r.at], Visible(blocks[r.at + 1..]);
    var r' := Reader(r.counts[r.at := n + len], r.at, n + len == |b|);
    hide Visible, Coming, Read, Orderly;
    ReadSome(blocks, r, len);
    ComingMore(blocks, r, len, r');
    SplitLeft(b[n..], v, len);
    Cut(b, n, n + len);
    if r'.empty {
      EmptyLeft(v);
    }
  }

  lemma ComingOver(blocks: seq<seq<Byte>>, r: Reader, len: nat)
    requires Orderly(blocks, r) && !r.empty && len > |blocks[r.at]| - r.counts[r.at] > 0
    ensures var k := |blocks[r.at]| - r.counts[r.at];
            var r' := Reader(r.counts[r.at := |blocks[r.at]|], r.at, true);
            && Orderly(blocks, r') && Coming(blocks, r) == blocks[r.at][r.counts[r.at]..] + Coming(blocks, r')
            && Read(blocks, r, len) == Got(blocks[r.at][r.counts[r.at]..] + Read(blocks, r', len - k).bytes,
                                           Read(blocks, r', len - k).r)
  {
  }

  lemma PrefixOfConcat(a: seq<Byte>, b: seq<Byte>, len: nat)
    requires len > |a|
    ensures a + b[..Min(len - |a|, |b|)] == (a + b)[..Min(len, |a + b|)]
    ensures len <= |a + b| ==> (a + b)[len..] == b[len - |a|..]
  {
  }

  /** mread on any blocks: it delivers what is coming, up to the first empty block. */
  lemma {:induction false} ReadComing(blocks: seq<seq<Byte>>, r: Reader, len: nat)
    requires Orderly(blocks, r)
    ensures ReadsComing(blocks, Coming(blocks, r), len, Read(blocks, r, len))
    decreases len, if r.empty then 1 else 0
  {
    if len == 0 {
    } else if r.empty && r.at + 1 < |blocks| && blocks[r.at + 1] != [] {
      ComingNext(blocks, r, len);
      hide Orderly, Coming, Read, ReadsComing;
      ReadComing(blocks, Reader(r.counts, r.at + 1, false), len);
    } else if r.empty || r.counts[r.at] == |blocks[r.at]| {
      ComingEnd(blocks, r, len);
    } else if len <= |blocks[r.at]| - r.counts[r.at] {
      ComingPart(blocks, r, len);
    } else {
      var a := blocks[r.at][r.counts[r.at]..];
      var r' := Reader(r.counts[r.at := |blocks[r.at]|], r.at, true);
      ComingOver(blocks, r, len);
      ReadComing(blocks, r', len - |a|);
      hide Orderly, Coming, Read;
      PrefixOfConcat(a, Coming(blocks, r'), len);
    }
  }

  /** A reader that starts on an empty block stays there: no run of reads delivers anything. */
  lemma {:induction false} StuckOnEmpty(blocks: seq<seq<Byte>>, r: Reader, lens: seq<nat>)
    requires InShape(blocks, r) && !r.empty && blocks[r.at] == []
    ensures Reads(blocks, r, lens) == Got([], r)
    decreases |lens|
  {
    if lens != [] {
      StuckOnEmpty(blocks, r, lens[1..]);
    }
  }

  /** A read that comes upon an empty block later delivers nothing, and the next read goes on behind it. */
  lemma EmptyPassed(blocks: seq<seq<Byte>>, r: Reader, len: nat, len': nat)
    requires Orderly(blocks, r) && len > 0
    requires r.empty && r.at + 1 < |blocks| && blocks[r.at + 1] == []
    ensures var v := Visible(blocks[r.at + 2..]);
            && Read(blocks, r, len).bytes == []
            && Read(blocks, Read(blocks, r, len).r, len').bytes == v[..Min(len', |v|)]
  {
    ReadComing(blocks, Read(blocks, r, len).r, len');
  }

  /** Reading from the start, what is coming is everything if and only if no block with bytes is behind
      an empty one. */
  lemma {:induction false} AllVisible(blocks: seq<seq<Byte>>)
    ensures |Visible(blocks)| <= |Flat(blocks)|
    ensures Visible(blocks) == Flat(blocks) <==> forall i, j :: 0 <= i < j < |blocks| && blocks[i] == [] ==> blocks[j] == []
  {
    if blocks != [] {
      var rest := blocks[1..];
      AllVisible(rest);
      assert forall j :: 1 <= j < |blocks| ==> blocks[j] == rest[j - 1];
      if blocks[0] == [] {
        EmptyLeft(Flat(rest));
        AllEmpty(rest);
      } else {
        assert forall i, j :: 0 <= i < j < |rest| && rest[i] == [] ==> 0 <= i + 1 < j + 1 < |blocks| && blocks[i + 1] == [] && rest[j] == blocks[j + 1];
        CancelLeft(blocks[0], Visible(rest), Flat(rest));
      }
    }
  }

  lemma {:induction false} AllEmpty(blocks: seq<seq<Byte>>)
    ensures Flat(blocks) == [] <==> forall j :: 0 <= j < |blocks| ==> blocks[j] == []
  {
    if blocks != [] {
      AllEmpty(blocks[1..]);
      assert forall j :: 1 <= j < |blocks| ==> blocks[j] == blocks[1..][j - 1];
    }
  }

  /** Without empty blocks nothing stops a read. */
  lemma {:induction false} AllFilled(blocks: seq<seq<Byte>>)
    requires forall i :: 0 <= i < |blocks| ==> blocks[i] != []
    ensures Visible(blocks) == Flat(blocks)
  {
    AllVisible(blocks);
  }

  lemma CancelLeft(a: seq<Byte>, x: seq<Byte>, y: seq<Byte>)
    ensures a + x == a + y <==> x == y
  {
    assert (a + x)[|a|..] == x && (a + y)[|a|..] == y;
  }

  /** The first write. */
  lemma WriteFirst(bs: nat, data: seq<Byte>, bl: seq<seq<Byte>>)
    requires bs > 0 && data != [] && bl == Split(bs, data)
    ensures Flows(bl, Longer(Reader([], 0, false), |bl|)) && Ahead(bl, Longer(Reader([], 0, false), |bl|)) == data
  {
    SplitShape(bs, data);
    SplitFlat(bs, data);
    NewReader(bl);
    EmptyLeft(Zeros(|bl|));
    hide Flows, Ahead, Split, Flat;
  }

  lemma EmptyFile(bs: nat, headers: seq<seq<Byte>>, body: seq<Byte>, total: int, newHeader: nat, full: bool, r: Reader)
    requires Totals(bs, [], headers, body, total, newHeader, full) && Flows([], r)
    ensures headers == [] && body == [] && full && r == Reader([], 0, false) && Ahead([], r) == []
  {
    assert Split(bs, body) == [];
  }

  /** The same for a file that may have no blocks yet. */
  lemma WriteEffect(bs: nat, blocks: seq<seq<Byte>>, headers: seq<seq<Byte>>, body: seq<Byte>,
                    total: int, newHeader: nat, full: bool, r: Reader, data: seq<Byte>, bl: seq<seq<Byte>>)
    requires Totals(bs, blocks, headers, body, total, newHeader, full)
    requires Flows(blocks, r) && data != [] && bl == headers + Split(bs, body + data)
    ensures |bl| >= |blocks| && Flows(bl, Longer(r, |bl| - |blocks|))
    ensures Ahead(bl, Longer(r, |bl| - |blocks|))
            == Ahead(blocks, r) + data[Hidden(blocks, r, full, RoomAfter(bs, |body|), |data|)..]
  {
    SplitShape(bs, body + data);
    if blocks == [] {
      EmptyFile(bs, headers, body, total, newHeader, full, r);
      HiddenPiece(blocks, r, true, RoomAfter(bs, |body|), data, Min(|data|, RoomAfter(bs, |body|)));
      hide Totals, Flowing, Ahead, Split, Longer, Seen, Flows, Hidden, RoomAfter;
      EmptyLeft(data);
      EmptyLeft(Split(bs, data));
      WriteFirst(bs, data, bl);
    } else {
      hide Totals, Flowing, Ahead, Split, Longer, Seen, Hidden, RoomAfter;
      WriteBehind(bs, blocks, headers, body, total, newHeader, full, r, data, bl);
    }
  }

  lemma DropCons<T>(x: T, s: seq<T>, i: nat)
    requires i <= |s|
    ensures Cons(x, s)[i + 1..] == s[i..]
  {
  }

  lemma FlowsBehind(blocks: seq<seq<Byte>>, r: Reader, data: seq<Byte>)
    requires Flowing(blocks, r)
    ensures Flowing(Cons(data, blocks), Reader(Cons(0, r.counts), r.at + 1, r.empty))
  {
    ConsAt(data, blocks, r.at);
    ConsAt(0, r.counts, r.at);
    hide Cons;
    forall i | r.at + 1 < i < |blocks| + 1 ensures Cons(data, blocks)[i] != [] && Cons(0, r.counts)[i] == 0 {
      ConsAt(data, blocks, i - 1);
      ConsAt(0, r.counts, i - 1);
    }
  }

  /** A header in front of a reader that has started changes nothing for it. */
  lemma HeadBefore(blocks: seq<seq<Byte>>, r: Reader, data: seq<Byte>)
    requires Flowing(blocks, r)
    ensures var bl, r' := Cons(data, blocks), Reader(Cons(0, r.counts), r.at + 1, r.empty);
            Flowing(bl, r') && Ahead(bl, r') == Ahead(blocks, r)
  {
    FlowsBehind(blocks, r, data);
    ConsAt(data, blocks, r.at);
    ConsAt(0, r.counts, r.at);
    DropCons(data, blocks, r.at + 1);
    hide Cons, Flowing, Flat;
  }

  lemma TotalsBlocks(bs: nat, blocks: seq<seq<Byte>>, headers: seq<seq<Byte>>, body: seq<Byte>,
                     total: int, newHeader: nat, full: bool)
    requires Totals(bs, blocks, headers, body, total, newHeader, full)
    ensures bs > 0 && blocks == headers + Split(bs, body)
  {
  }

  // ---------- one turn of mread ----------

  /** The outcome of a turn that was asked for `len` bytes: `bytes` delivered, the reader now `r'`, and
      `more` when the loop goes on. */
  ghost predicate Turn(blocks: seq<seq<Byte>>, r: Reader, len: nat, bytes: seq<Byte>, more: bool, r': Reader)
  {
    && InShape(blocks, r) && InShape(blocks, r') && |bytes| <= len
    && if more then
         var g := Read(blocks, r', len - |bytes|);
         bytes != [] && Read(blocks, r, len) == Got(bytes + g.bytes, g.r)
       else Read(blocks, r, len) == Got(bytes, r')
  }

  lemma TurnEnd(blocks: seq<seq<Byte>>, r: Reader, len: nat)
    requires InShape(blocks, r) && r.empty && r.at + 1 == |blocks|
    ensures Turn(blocks, r, len, [], false, r)
  {
  }

  /** The index of the block the next byte comes from. */
  function Next(r: Reader): nat { if r.empty then r.at + 1 else r.at }

  lemma TurnStuck(blocks: seq<seq<Byte>>, r: Reader, len: nat)
    requires InShape(blocks, r) && Next(r) < |blocks| && |blocks[Next(r)]| <= r.counts[Next(r)] && len > 0
    ensures Turn(blocks, r, len, [], false, r.(at := Next(r)))
  {
  }

  lemma TurnGo(blocks: seq<seq<Byte>>, r: Reader, len: nat, to: nat)
    requires InShape(blocks, r) && Next(r) < |blocks| && r.counts[Next(r)] < |blocks[Next(r)]| && len > 0
    requires var i := Next(r); to == if len > |blocks[i]| - r.counts[i] then |blocks[i]| else r.counts[i] + len
    ensures var i := Next(r); var n := r.counts[i];
            Turn(blocks, r, len, blocks[i][n..to], len > |blocks[i]| - n, Reader(r.counts[i := to], i, to == |blocks[i]|))
  {
    var i := Next(r);
    assert blocks[i][r.counts[i]..] == blocks[i][r.counts[i]..|blocks[i]|];
  }

  lemma TurnDone(blocks: seq<seq<Byte>>, r: Reader)
    requires InShape(blocks, r)
    ensures Turn(blocks, r, 0, [], false, r)
  {
  }

  /** Turns compose to a read. */
  lemma TurnsRead(blocks: seq<seq<Byte>>, r: Reader, len: nat, data: seq<Byte>, r1: Reader,
                  bytes: seq<Byte>, more: bool, r2: Reader)
    requires |data| <= len && Turn(blocks, r, len, data, true, r1) && Turn(blocks, r1, len - |data|, bytes, more, r2)
    ensures |data + bytes| <= len && Turn(blocks, r, len, data + bytes, more, r2)
  {
    if more {
      Assoc(data, bytes, Read(blocks, r2, len - |data| - |bytes|).bytes);
    }
  }

  /** A whole read by a flowing reader is a flat read. */
  lemma TurnFlat(blocks: seq<seq<Byte>>, r: Reader, len: nat, data: seq<Byte>, r': Reader)
    requires blocks != [] && Flows(blocks, r) && Turn(blocks, r, len, data, false, r')
    ensures ReadsFlat(blocks, Ahead(blocks, r), len, Got(data, r'))
  {
    ReadFlat(blocks, r, len);
    hide ReadsFlat, Flowing, Ahead, Read;
  }
}
