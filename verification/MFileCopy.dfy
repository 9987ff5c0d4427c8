/** mfile_copy and mgetc of libmfile/mfile.c on values. */
module MFileCopies {
  import opened Bytes
  import opened Seqs
  import opened MFileSpec
  import opened MFileLines

  // ---------- mgetc ----------

  lemma HeadTail(a: seq<Byte>, b: seq<Byte>, n: nat)
    requires a != [] && n < |b| && a[..1] == b[n..n + 1]
    ensures a == [b[n]] + a[1..]
  {
  }

  /** The outcome of mgetc for a reader in flow: the byte is the next one, or 0 at the end. */
  ghost predicate Gets(blocks: seq<seq<Byte>>, r: Reader, c: Byte, r': Reader)
  {
    Flowing(blocks, r') && c == Front(Ahead(blocks, r)) && Ahead(blocks, r') == Rest(Ahead(blocks, r))
  }

  lemma LeftInBlock(blocks: seq<seq<Byte>>, r: Reader)
    requires Flowing(blocks, r) && !r.empty
    ensures InShape(blocks, r) && r.counts[r.at] < |blocks[r.at]|
  {
  }

  lemma GetsHere(blocks: seq<seq<Byte>>, r: Reader)
    requires Flowing(blocks, r) && !r.empty
    ensures var i := r.at; var n := r.counts[i];
            && n < |blocks[i]|
            && Gets(blocks, r, blocks[i][n], Reader(r.counts[i := n + 1], i, n + 1 == |blocks[i]|))
  {
    hide Flowing, Ahead;
    LeftInBlock(blocks, r);
    FlowsMore(blocks, r, 1);
    var m := r.counts[r.at] + 1;
    AheadMore(blocks, r, 1, Reader(r.counts[r.at := m], r.at, m == |blocks[r.at]|));
    HeadTail(Ahead(blocks, r), blocks[r.at], r.counts[r.at]);
  }

  lemma GetsEnd(blocks: seq<seq<Byte>>, r: Reader)
    requires Flowing(blocks, r) && r.empty && r.at + 1 == |blocks|
    ensures Gets(blocks, r, NUL, r)
  {
    assert blocks[r.at + 1..] == [];
  }

  lemma ShapeOf(blocks: seq<seq<Byte>>, r: Reader)
    requires Flowing(blocks, r)
    ensures InShape(blocks, r)
  {
  }

  lemma GetsNext(blocks: seq<seq<Byte>>, r: Reader)
    requires Flowing(blocks, r) && Next(r) < |blocks|
    ensures var i := Next(r); var n := r.counts[i];
            && n < |blocks[i]|
            && Gets(blocks, r, blocks[i][n], Reader(r.counts[i := n + 1], i, n + 1 == |blocks[i]|))
  {
    ShapeOf(blocks, r);
    hide Flowing, Ahead;
    if r.empty {
      AheadNext(blocks, r);
      GetsHere(blocks, Reader(r.counts, r.at + 1, false));
    } else {
      GetsHere(blocks, r);
    }
  }

  // ---------- mfile_copy ----------

  /** What a read after a seek to `pos` can deliver. */
  function FromSeek(blocks: seq<seq<Byte>>, pos: nat): seq<Byte>
  {
    if blocks == [] then [] else Coming(blocks, Sought(blocks, pos))
  }

  lemma FromSeekWithin(blocks: seq<seq<Byte>>, pos: nat, at: nat, off: nat)
    requires (at, off) == Seek(blocks, pos) && at < |blocks|
    ensures off <= |blocks[at]|
    ensures FromSeek(blocks, pos) == if off == |blocks[at]| then [] else blocks[at][off..] + Visible(blocks[at + 1..])
  {
    hide Visible, Seek;
  }

  lemma FromSeekBeyond(blocks: seq<seq<Byte>>, pos: nat)
    requires blocks != [] && blocks[0] != [] && Seek(blocks, pos).0 == |blocks|
    ensures FromSeek(blocks, pos) == blocks[0] + Visible(blocks[1..])
  {
    hide Visible, Seek;
    assert blocks[0][0..] == blocks[0];
  }

  lemma PositionFacts(blocks: seq<seq<Byte>>, pos: nat, at: nat, off: nat)
    requires IsPosition(blocks, pos, at, off)
    ensures at < |blocks| && off <= |blocks[at]| && pos <= |Flat(blocks)|
    ensures blocks[at][off..] + Flat(blocks[at + 1..]) == Flat(blocks)[pos..]
  {
  }

  lemma FlatStart(blocks: seq<seq<Byte>>)
    ensures Flat(blocks) == if blocks == [] then [] else blocks[0] + Flat(blocks[1..])
  {
  }

  /** Without empty blocks that is the file from the position on, nothing at a block end, and the whole file
      beyond its end. */
  lemma FromSeekIs(blocks: seq<seq<Byte>>, pos: nat)
    requires forall i :: 0 <= i < |blocks| ==> blocks[i] != []
    ensures FromSeek(blocks, pos) == if pos > |Flat(blocks)| then Flat(blocks)
                                     else if BlockEnd(blocks, pos) then [] else Flat(blocks)[pos..]
  {
    FlatStart(blocks);
    if blocks == [] {
    } else {
      hide *;
      SeekFinds(blocks, pos);
      var (at, off) := Seek(blocks, pos);
      if at < |blocks| {
        PositionFacts(blocks, pos, at, off);
        SeekEnd(blocks, pos);
        AllFilled(blocks[at + 1..]);
        FromSeekWithin(blocks, pos, at, off);
      } else {
        AllFilled(blocks[1..]);
        FromSeekBeyond(blocks, pos);
      }
    }
  }

  /** A read delivers from `u`, and so do further ones while none is cut short. */
  ghost predicate Serves(blocks: seq<seq<Byte>>, r: Reader, u: seq<Byte>)
  {
    if blocks == [] then u == [] else Orderly(blocks, r) && Coming(blocks, r) == u
  }

  lemma ServesSought(blocks: seq<seq<Byte>>, pos: nat)
    requires blocks != []
    ensures Serves(blocks, Sought(blocks, pos), FromSeek(blocks, pos))
  {
  }

  lemma ServesNothing(pos: nat)
    ensures Serves([], Reader([], 0, false), FromSeek([], pos))
  {
  }

  lemma ServedNothing(r: Reader, u: seq<Byte>, len: nat)
    requires Serves([], r, u)
    ensures u == [] && u[..Min(len, |u|)] == []
  {
  }

  /** A read of what is served delivers a prefix of it; when that is all it was asked for, the rest is
      served next. */
  lemma ServesRead(blocks: seq<seq<Byte>>, r: Reader, u: seq<Byte>, len: nat, data: seq<Byte>, r': Reader)
    returns (rest: seq<Byte>)
    requires blocks != [] && Serves(blocks, r, u) && Turn(blocks, r, len, data, false, r')
    ensures u == data + rest && |data| == Min(len, |u|)
    ensures |data| == len ==> Serves(blocks, r', rest)
  {
    rest := u[Min(len, |u|)..];
    ReadComing(blocks, r, len);
    hide Orderly, Coming, Read;
    Cut(u, 0, Min(len, |u|));
  }

  /** The size of the buffer of mfile_copy. */
  const CHUNK := 1024

  datatype Copied = Copied(bytes: seq<Byte>, r: int)

  /** Copying `n` bytes when reads deliver `u`: a read that delivers nothing is an error. */
  function CopyUpTo(u: seq<Byte>, n: nat): Copied
  {
    Copied(u[..Min(n, |u|)], if n > |u| && |u| % CHUNK == 0 then -1 else n)
  }

  /** What a copy of positions `start` to `end` appends and returns. */
  ghost function CopyOf(blocks: seq<seq<Byte>>, start: nat, end: nat): Copied
  {
    if end <= start then Copied([], end - start) else CopyUpTo(FromSeek(blocks, start), end - start)
  }

  /** One turn of the loop of mfile_copy: the two ways it stops, and how it goes on. */
  lemma CopyTurn(u: seq<Byte>, n: nat, done: seq<Byte>, data: seq<Byte>, rest: seq<Byte>)
    requires u == done + (data + rest) && |done| < n && |done| % CHUNK == 0
    requires |data| == Min(Min(n - |done|, CHUNK), |data + rest|)
    ensures data == [] ==> CopyUpTo(u, n) == Copied(done, -1)
    ensures 0 < |data| < CHUNK ==> CopyUpTo(u, n) == Copied(done + data, n)
    ensures u == (done + data) + rest
    ensures |data| >= CHUNK ==> |data| == CHUNK == Min(n - |done|, CHUNK)
  {
    Assoc(done, data, rest);
    CopyPart(u, done, data + rest);
    CopyPart(u, done + data, rest);
  }

  lemma CopyPart(u: seq<Byte>, done: seq<Byte>, rest: seq<Byte>)
    requires u == done + rest
    ensures u[..|done|] == done && (rest == [] ==> u == done)
  {
  }

  lemma CopyDone(u: seq<Byte>, n: nat, done: seq<Byte>, rest: seq<Byte>)
    requires u == done + rest && |done| == n
    ensures CopyUpTo(u, n) == Copied(done, n)
  {
  }

  lemma CopiedSoFar(was: seq<Byte>, before: seq<Byte>, after: seq<Byte>)
    requires before <= after
    ensures (was + before) + after[|before|..] == was + after
  {
    assert after == before + after[|before|..];
  }

  /** Within a file without empty headers a copy appends exactly the bytes asked for and returns their
      number, unless it starts at a block end: then it fails and appends nothing. */
  lemma CopyExact(blocks: seq<seq<Byte>>, start: nat, end: nat)
    requires forall i :: 0 <= i < |blocks| ==> blocks[i] != []
    requires start <= end <= |Flat(blocks)|
    ensures CopyOf(blocks, start, end) == Copied(Flat(blocks)[start..end], end - start)
            <==> start == end || !BlockEnd(blocks, start)
    ensures start < end && BlockEnd(blocks, start) ==> CopyOf(blocks, start, end) == Copied([], -1)
  {
    FromSeekIs(blocks, start);
    var a := Flat(blocks);
    hide Flat, BlockEnd, FromSeek;
    if !BlockEnd(blocks, start) {
      assert a[start..][..end - start] == a[start..end];
    }
  }

  /** The result is the number of bytes appended exactly when there are that many to read. */
  lemma CopyHonest(blocks: seq<seq<Byte>>, start: nat, end: nat)
    requires start < end
    ensures var c := CopyOf(blocks, start, end);
            c.r == |c.bytes| <==> end - start <= |FromSeek(blocks, start)|
  {
  }

  /** A copy that is asked for more than there is to read appends what there is. It fails when that is a multiple of
      1024 bytes, for then the last read is an empty one, and else returns the number asked for. */
  lemma CopyPastEnd(blocks: seq<seq<Byte>>, start: nat, end: nat)
    requires start < end && end - start > |FromSeek(blocks, start)|
    ensures var u := FromSeek(blocks, start);
            CopyOf(blocks, start, end) == Copied(u, if |u| % 1024 == 0 then -1 else end - start)
  {
    hide FromSeek;
  }

  /** For a file without empty headers that is its rest, nothing behind a block end, and all of it behind its end. */
  lemma CopyRest(blocks: seq<seq<Byte>>, start: nat, end: nat)
    requires forall i :: 0 <= i < |blocks| ==> blocks[i] != []
    requires start < end && |Flat(blocks)| < end - start
    ensures var a := Flat(blocks);
            var u := if start > |a| then a else if BlockEnd(blocks, start) then [] else a[start..];
            CopyOf(blocks, start, end) == Copied(u, if |u| % 1024 == 0 then -1 else end - start)
  {
    hide FromSeek, Flat, BlockEnd, CopyOf;
    FromSeekIs(blocks, start);
    CopyPastEnd(blocks, start, end);
  }
}
