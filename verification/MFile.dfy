/** The memory file of libmfile/mfile.c: a list of blocks refines the values of MFileSpec. */
module MFiles {
  import opened Bytes
  import opened Seqs
  import opened Tailq
  import opened BlockChains
  import opened MFileSpec
  import opened MFileCopies
  import opened MFileLines

  /** DEFAULT_DATA_BLOCK_SIZE. */
  const DEFAULT_SIZE := 8888

  class MFile {
    var totalSize: nat
    var newHeaderSize: nat
    const chain: BlockChain
    var blockNum: nat
    var currentWrite: DataBlock?
    var currentRead: DataBlock?
    var isFull: bool
    var isEmpty: bool
    const blockSize: nat
    var ccache: Byte

    /** What was written at the head, last first, and what was written at the end. */
    ghost var headers: seq<seq<Byte>>
    ghost var body: seq<Byte>
    /** The index of current_read_p, -1 for null. */
    ghost var at: int

    /** The pointers and the block count fit the list of blocks. */
    ghost predicate Wired()
      reads this, chain, chain.repr
    {
      && chain.Valid() && this !in chain.repr
      && blockNum == |chain.blocks|
      && (!isFull ==> chain.blocks != [] && currentWrite == chain.nodes[|chain.blocks| - 1])
      && (if at == -1 then currentRead == null
          else 0 <= at < |chain.blocks| && currentRead == chain.nodes[at])
    }

    /** Wired, and the contents are what was written. */
    ghost predicate Valid()
      reads this, chain, chain.repr
    {
      && Wired()
      && Totals(blockSize, chain.blocks, headers, body, totalSize, newHeaderSize, isFull)
    }

    /** The reader, starting in the first block when there is no current one. */
    ghost function Rd(): Reader
      reads this, chain
    {
      Reader(chain.counts, if at < 0 then 0 else at, isEmpty)
    }

    ghost function Contents(): seq<Byte>
      reads chain
    {
      Flat(chain.blocks)
    }

    /** The reader goes through the file as through one sequence, of which Unread() is ahead. */
    ghost predicate InFlow()
      reads this, chain
    {
      Flows(chain.blocks, Rd())
    }

    ghost function Unread(): seq<Byte>
      reads this, chain
    {
      Ahead(chain.blocks, Rd())
    }

    /** How many bytes of a write of `len` the reader will not see. */
    ghost function HiddenBytes(len: nat): (n: nat)
      requires Valid()
      reads this, chain, chain.repr
      ensures n <= len
    {
      Hidden(chain.blocks, Rd(), isFull, RoomAfter(blockSize, |body|), len)
    }

    /** mopen. */
    constructor (dataBlockSize: nat)
      ensures Valid() && fresh(chain) && fresh(chain.repr)
      ensures blockSize == if dataBlockSize == 0 then 8888 else dataBlockSize
      ensures headers == [] && body == [] && InFlow() && Unread() == [] && ccache == 10
    {
      totalSize, newHeaderSize, blockNum := 0, 0, 0;
      currentWrite, currentRead := null, null;
      isFull, isEmpty, ccache := true, false, 10;
      blockSize := if dataBlockSize == 0 then DEFAULT_SIZE else dataBlockSize;
      headers, body, at := [], [], -1;
      chain := new BlockChain();
      new;
      TotalsStart(blockSize);
    }

    /** mseek. */
    method Mseek()
      requires Valid()
      modifies this`isEmpty, this`currentRead, this`at, chain.repr
      ensures Valid() && chain.repr == old(chain.repr) && chain.blocks == old(chain.blocks)
      ensures at == -1 && Rd() == Reader(Zeros(|chain.blocks|), 0, false)
    {
      hide Totals, BlockChain.Valid;
      isEmpty, currentRead, at := false, null, -1;
      chain.ResetCounts();
    }

    /** The search of mseek_pos. */
    method FindBlock(position: nat) returns (n1: DataBlock?, pos: nat, ghost i: nat)
      requires chain.Valid()
      ensures (i, pos) == Seek(chain.blocks, position)
      ensures n1 == if i < |chain.blocks| then chain.nodes[i] else null
    {
      hide BlockChain.Valid, Wired, Totals, Seek, Flat;
      pos, i := position, 0;
      n1 := chain.First();
      ghost var bl := chain.blocks;
      SeekStart(bl, position);
      while n1 != null
        invariant i <= |bl| && n1 == if i < |bl| then chain.nodes[i] else null
        invariant SeekGoesOn(bl, position, i, pos)
        decreases |bl| - i
      {
        var count := chain.WriteCount(n1, i);
        SeekTurn(bl, position, i, pos);
        if pos <= count {
          return;
        }
        pos := pos - count;
        n1 := chain.Next(n1, i);
        i := i + 1;
      }
      SeekEnds(bl, position, i, pos);
    }

    /** mseek_pos. */
    method MseekPos(position: int)
      requires Valid()
      modifies this`isEmpty, this`currentRead, this`at, chain.repr
      ensures Valid() && chain.repr == old(chain.repr) && chain.blocks == old(chain.blocks)
      ensures Rd() == if chain.blocks == [] then Reader([], 0, false)
                      else Sought(chain.blocks, if position < 0 then 0 else position)
    {
      hide Totals, BlockChain.Valid, Seek;
      var pos := if position < 0 then 0 else position;
      Mseek();
      ghost var i;
      var n1;
      n1, pos, i := FindBlock(pos);
      if n1 != null {
        chain.SetCount(n1, i, pos);
        currentRead, at := n1, i;
      }
    }

    /** Wired, and the contents are what was written while `later` bytes of the current write, already
        counted in total_size, are still to come. */
    ghost predicate Writing(later: nat)
      reads this, chain, chain.repr
    {
      && Wired()
      && Totals(blockSize, chain.blocks, headers, body, totalSize - later, newHeaderSize, isFull)
    }

    /** free_count in mwrite. */
    method FreeCount(ghost later: nat) returns (free: nat)
      requires Writing(later)
      ensures free == RoomAfter(blockSize, |body|) && free > 0
    {
      TotalsRoom(blockSize, chain.blocks, headers, body, totalSize - later, newHeaderSize, isFull);
      hide Totals, BlockChain.Valid, RoomAfter;
      if isFull {
        return blockSize;
      }
      var count := chain.WriteCount(currentWrite, |chain.blocks| - 1);
      free := blockSize - count;
    }

    /** One turn of the loop of mwrite: a piece that fits goes into the last block, or into a new one. */
    method WriteTurn(piece: seq<Byte>, ghost later: nat)
      requires Writing(|piece| + later) && 0 < |piece| <= RoomAfter(blockSize, |body|)
      modifies this`isFull, this`blockNum, this`currentWrite, this`body, chain.repr
      ensures Writing(later) && chain.repr >= old(chain.repr) && fresh(chain.repr - old(chain.repr))
      ensures body == old(body) + piece
      ensures chain.counts == if old(isFull) then old(chain.counts) + [0] else old(chain.counts)
    {
      TotalsPut(blockSize, chain.blocks, headers, body, totalSize - |piece| - later, newHeaderSize, isFull, piece);
      hide Totals, Wired, PutPiece, RoomAfter;
      PutTurn(piece);
    }

    /** The work of a turn. */
    method PutTurn(piece: seq<Byte>)
      requires Wired()
      modifies this`isFull, this`blockNum, this`currentWrite, this`body, chain.repr
      ensures Wired() && chain.repr >= old(chain.repr) && fresh(chain.repr - old(chain.repr))
      ensures !old(isFull) ==> old(chain.blocks) != []
      ensures chain.blocks == PutPiece(old(chain.blocks), old(isFull), piece)
      ensures chain.counts == if old(isFull) then old(chain.counts) + [0] else old(chain.counts)
      ensures chain.blocks != [] && isFull == (|chain.blocks[|chain.blocks| - 1]| == blockSize)
      ensures body == old(body) + piece
      ensures totalSize == old(totalSize) && newHeaderSize == old(newHeaderSize) && headers == old(headers)
    {
      hide BlockChain.Valid, PutPiece;
      var b := chain.Put(currentWrite, isFull, piece);
      var count := chain.WriteCount(b, |chain.blocks| - 1);
      Account(b, count, piece);
    }

    /** The bookkeeping of a turn: the block written to, whether it is full now, and the block count. */
    method Account(b: DataBlock, count: nat, piece: seq<Byte>)
      modifies this`isFull, this`blockNum, this`currentWrite, this`body
      ensures currentWrite == b && isFull == (count == blockSize)
      ensures blockNum == old(blockNum) + (if old(isFull) then 1 else 0)
      ensures body == old(body) + piece
    {
      currentWrite := b;
      if isFull {
        blockNum := blockNum + 1;
      }
      isFull := count == blockSize;
      body := body + piece;
    }

    /** mwrite: the data is appended, and all of it is ahead of an active reader, unless the reader has used
        up a last block that still had room: then what goes into that block stays hidden. */
    method Mwrite(data: seq<Byte>)
      requires Valid()
      modifies this`isFull, this`blockNum, this`currentWrite, this`body, this`totalSize, chain.repr
      ensures Valid() && chain.repr >= old(chain.repr) && fresh(chain.repr - old(chain.repr))
      ensures body == old(body) + data
      ensures data == [] ==> chain.blocks == old(chain.blocks) && Rd() == old(Rd())
      ensures old(InFlow()) ==> InFlow() && Unread() == old(Unread()) + data[old(HiddenBytes(|data|))..]
    {
      if data == [] {
        EmptyRight(Unread());
      }
      hide Totals, Wired, RoomAfter, Hidden, Flows, Ahead, Split, Longer;
      if data != [] && InFlow() {
        TotalsBlocks(blockSize, chain.blocks, headers, body, totalSize, newHeaderSize, isFull);
        WriteEffect(blockSize, chain.blocks, headers, body, totalSize, newHeaderSize, isFull, Rd(), data,
                    headers + Split(blockSize, body + data));
      }
      WriteAll(data);
    }

    /** The body of mwrite: the size first, then the loop. */
    method WriteAll(data: seq<Byte>)
      requires Valid()
      modifies this`isFull, this`blockNum, this`currentWrite, this`body, this`totalSize, chain.repr
      ensures Valid() && chain.repr >= old(chain.repr) && fresh(chain.repr - old(chain.repr))
      ensures body == old(body) + data
      ensures headers == old(headers) && chain.blocks == headers + Split(blockSize, body)
      ensures |chain.blocks| >= |old(chain.blocks)|
      ensures Rd() == Longer(old(Rd()), |chain.blocks| - |old(chain.blocks)|)
      ensures data == [] ==> chain.blocks == old(chain.blocks) && Rd() == old(Rd())
    {
      hide Totals, BlockChain.Valid, Split;
      totalSize := totalSize + |data|;
      WriteLoop(data);
      TotalsBlocks(blockSize, chain.blocks, headers, body, totalSize, newHeaderSize, isFull);
    }

    /** The loop of mwrite. */
    method WriteLoop(data: seq<Byte>)
      requires Writing(|data|)
      modifies this`isFull, this`blockNum, this`currentWrite, this`body, chain.repr
      ensures Writing(0) && chain.repr >= old(chain.repr) && fresh(chain.repr - old(chain.repr))
      ensures body == old(body) + data && Extended(old(chain.counts), chain.counts)
      ensures data == [] ==> chain.blocks == old(chain.blocks) && chain.counts == old(chain.counts)
    {
      hide *;
      var writed: nat := 0;
      ghost var cs := chain.counts;
      ExtendedNot(cs);
      TakeNone(old(body), data);
      while writed < |data|
        invariant writed <= |data| && Writing(|data| - writed)
        invariant chain.repr >= old(chain.repr) && fresh(chain.repr - old(chain.repr))
        invariant body == old(body) + data[..writed] && Extended(cs, chain.counts)
        invariant writed == 0 ==> chain.blocks == old(chain.blocks) && chain.counts == cs
      {
        var free := FreeCount(|data| - writed);
        var n := if |data| - writed <= free then |data| - writed else free;
        TakeMore(old(body), data, writed, n);
        ExtendedMore(cs, chain.counts);
        WriteTurn(data[writed..writed + n], |data| - writed - n);
        writed := writed + n;
      }
      TakeAll(data);
    }

    /** mwrite_head: a block of its own in front, refused when it does not fit one. */
    method MwriteHead(data: seq<Byte>) returns (r: int)
      requires Valid()
      modifies this`totalSize, this`newHeaderSize, this`blockNum, this`headers, this`at, chain.repr
      ensures Valid() && chain.repr >= old(chain.repr) && fresh(chain.repr - old(chain.repr))
      ensures r == if |data| > blockSize then -1 else 1
      ensures headers == if r == 1 then Cons(data, old(headers)) else old(headers)
      ensures r == -1 ==> chain.blocks == old(chain.blocks) && Rd() == old(Rd())
      ensures r == 1 ==> chain.blocks == Cons(data, old(chain.blocks)) && chain.counts == Cons(0, old(chain.counts))
      ensures at == if r == 1 && old(at) >= 0 then old(at) + 1 else old(at)
    {
      if |data| > blockSize {
        return -1;
      }
      TotalsHead(blockSize, chain.blocks, headers, body, totalSize, newHeaderSize, isFull, data);
      hide Totals, Wired, Cons;
      PrependBlock(data);
      r := 1;
    }

    /** A reader that has started does not notice a header. */
    twostate lemma HeadUnnoticed(data: seq<Byte>)
      requires old(at) >= 0 && old(chain.blocks) != [] && old(InFlow()) && old(|chain.counts|) == old(|chain.blocks|)
      requires at == old(at) + 1 && isEmpty == old(isEmpty)
      requires chain.blocks == Cons(data, old(chain.blocks)) && chain.counts == Cons(0, old(chain.counts))
      ensures InFlow() && Unread() == old(Unread())
    {
      HeadBefore(old(chain.blocks), old(Rd()), data);
      hide Flowing, Ahead, Cons;
    }

    /** The block in front, with its bookkeeping. */
    method PrependBlock(data: seq<Byte>)
      requires Wired()
      modifies this`totalSize, this`newHeaderSize, this`blockNum, this`headers, this`at, chain.repr
      ensures Wired() && chain.repr >= old(chain.repr) && fresh(chain.repr - old(chain.repr))
      ensures totalSize == old(totalSize) + |data| && newHeaderSize == old(newHeaderSize) + |data|
      ensures headers == Cons(data, old(headers))
      ensures chain.blocks == Cons(data, old(chain.blocks)) && chain.counts == Cons(0, old(chain.counts))
      ensures at == if old(at) >= 0 then old(at) + 1 else old(at)
    {
      hide BlockChain.Valid, Cons;
      ghost var nodes := chain.nodes;
      var b := chain.AddHead(data);
      if at >= 0 {
        ConsAt(b, nodes, at);
      }
      if nodes != [] {
        ConsAt(b, nodes, |nodes| - 1);
      }
      AccountHead(data);
    }

    method AccountHead(data: seq<Byte>)
      modifies this`totalSize, this`newHeaderSize, this`blockNum, this`headers, this`at
      ensures totalSize == old(totalSize) + |data| && newHeaderSize == old(newHeaderSize) + |data|
      ensures blockNum == old(blockNum) + 1 && headers == Cons(data, old(headers))
      ensures at == if old(at) >= 0 then old(at) + 1 else old(at)
    {
      totalSize, newHeaderSize, blockNum := totalSize + |data|, newHeaderSize + |data|, blockNum + 1;
      headers, at := Cons(data, headers), if at >= 0 then at + 1 else at;
    }

    /** The memory file is a flat sequence: the headers, last one first, then what was written; and there is
        a block for every header and as many as the written data needs. */
    lemma FileMeaning()
      requires Valid()
      ensures Contents() == Flat(headers) + body && totalSize == |Contents()|
      ensures newHeaderSize == |Flat(headers)| && blockNum == |headers| + BlocksFor(blockSize, |body|)
    {
      TotalsMeaning(blockSize, chain.blocks, headers, body, totalSize, newHeaderSize, isFull);
    }

    /** After mseek a file without empty headers reads from its start. */
    lemma FromStart()
      requires Valid() && Rd() == Reader(Zeros(|chain.blocks|), 0, false)
      requires forall i :: 0 <= i < |headers| ==> headers[i] != []
      ensures InFlow() && Unread() == Contents()
    {
      TotalsMeaning(blockSize, chain.blocks, headers, body, totalSize, newHeaderSize, isFull);
      NewReader(chain.blocks);
    }

    // ---------- reading ----------

    method SetReader(b: DataBlock, ghost i: nat, empty: bool)
      requires Wired() && i < |chain.blocks| == |chain.nodes| && b == chain.nodes[i]
      modifies this`currentRead, this`at, this`isEmpty
      ensures Wired() && at >= 0 && Rd() == Reader(chain.counts, i, empty)
    {
      hide BlockChain.Valid;
      currentRead, at, isEmpty := b, i, empty;
    }

    /** Block number `i` is read up to `count`. */
    method MarkRead(b: DataBlock, ghost i: nat, count: nat)
      requires Wired() && i < |chain.blocks| == |chain.nodes| == |chain.counts| && b == chain.nodes[i]
      modifies chain.repr
      ensures Wired() && chain.repr == old(chain.repr) && chain.blocks == old(chain.blocks)
      ensures chain.nodes == old(chain.nodes) && chain.counts == old(chain.counts)[i := count] && at == old(at)
    {
      hide BlockChain.Valid;
      chain.SetCount(b, i, count);
    }

    /** One turn of the loop of mread, asked for `len` more bytes; `more` says that the loop goes on. */
    method ReadTurn(len: nat) returns (bytes: seq<Byte>, more: bool)
      requires Wired() && at >= 0 && len > 0
      modifies this`currentRead, this`at, this`isEmpty, chain.repr
      ensures Wired() && chain.repr == old(chain.repr) && chain.blocks == old(chain.blocks) && at >= 0
      ensures Turn(chain.blocks, old(Rd()), len, bytes, more, Rd())
    {
      ReaderPlace();
      hide *;
      var current := currentRead;
      ghost var i: nat := at;
      if isEmpty {
        var next := chain.Next(current, i);
        if next == null {
          TurnEnd(chain.blocks, Rd(), len);
          return [], false;
        }
        current, i := next, i + 1;
      }
      bytes, more := ReadFrom(current, i, len);
    }

    lemma ReaderPlace()
      requires Wired() && at >= 0
      ensures chain.Valid() && at < |chain.blocks| == |chain.nodes| && currentRead == chain.nodes[at]
      ensures |chain.counts| == |chain.blocks| && InShape(chain.blocks, Rd()) && Rd() == Reader(chain.counts, at, isEmpty)
      ensures Next(Rd()) == if isEmpty then at + 1 else at
    {
    }

    /** The rest of the turn, from block number `i` on. */
    method ReadFrom(current: DataBlock, ghost i: nat, len: nat) returns (bytes: seq<Byte>, more: bool)
      requires Wired() && at >= 0 && len > 0
      requires i == Next(Rd()) < |chain.blocks| == |chain.nodes| && current == chain.nodes[i]
      modifies this`currentRead, this`at, this`isEmpty, chain.repr
      ensures Wired() && chain.repr == old(chain.repr) && chain.blocks == old(chain.blocks) && at >= 0
      ensures Turn(chain.blocks, old(Rd()), len, bytes, more, Rd())
    {
      ReaderPlace();
      hide *;
      ghost var bl, rd := chain.blocks, Rd();
      var written := chain.WriteCount(current, i);
      var count := chain.ReadCount(current, i);
      if written <= count {
        TurnStuck(bl, rd, len);
        SetReader(current, i, isEmpty);
        return [], false;
      }
      more := len > written - count;
      var to := if more then written else count + len;
      TurnGo(bl, rd, len, to);
      bytes := chain.Copy(current, i, count, to);
      MarkRead(current, i, to);
      SetReader(current, i, to == written);
    }

    /** mread: -1 when there are no blocks, otherwise the number of bytes delivered. A reader in flow gets
        the next min(len, remaining) bytes and stays in flow. */
    method Mread(len: nat) returns (r: int, data: seq<Byte>)
      requires Valid()
      modifies this`currentRead, this`at, this`isEmpty, chain.repr
      ensures Valid() && chain.repr == old(chain.repr) && chain.blocks == old(chain.blocks)
      ensures chain.blocks == [] ==> r == -1 && data == [] && Rd() == old(Rd())
      ensures chain.blocks != [] ==> r == |data| && Turn(chain.blocks, old(Rd()), len, data, false, Rd())
      ensures chain.blocks != [] && old(InFlow()) ==> ReadsFlat(chain.blocks, old(Unread()), len, Got(data, Rd()))
    {
      ghost var bl, rd, flow := chain.blocks, Rd(), InFlow();
      hide Totals, BlockChain.Valid, Turn, Flows, ReadsFlat, Ahead;
      r, data := ReadBlocks(len);
      if bl != [] && flow {
        TurnFlat(bl, rd, len, data, Rd());
      }
    }

    /** The body of mread. */
    method ReadBlocks(len: nat) returns (r: int, data: seq<Byte>)
      requires Wired()
      modifies this`currentRead, this`at, this`isEmpty, chain.repr
      ensures Wired() && chain.repr == old(chain.repr) && chain.blocks == old(chain.blocks)
      ensures chain.blocks == [] ==> r == -1 && data == [] && Rd() == old(Rd())
      ensures chain.blocks != [] ==> r == |data| && Turn(chain.blocks, old(Rd()), len, data, false, Rd())
    {
      hide BlockChain.Valid, Turn;
      if currentRead == null {
        var first := chain.First();
        if first == null {
          return -1, [];
        }
        SetReader(first, 0, isEmpty);
      }
      data := ReadLoop(len);
      r := |data|;
    }

    /** The loop of mread. */
    method ReadLoop(len: nat) returns (data: seq<Byte>)
      requires Wired() && at >= 0
      modifies this`currentRead, this`at, this`isEmpty, chain.repr
      ensures Wired() && chain.repr == old(chain.repr) && chain.blocks == old(chain.blocks) && at >= 0
      ensures Turn(chain.blocks, old(Rd()), len, data, false, Rd())
    {
      hide BlockChain.Valid, Turn;
      ghost var rd := Rd();
      data := [];
      while |data| < len
        invariant |data| <= len && Wired() && at >= 0
        invariant chain.repr == old(chain.repr) && chain.blocks == old(chain.blocks)
        invariant if data == [] then Rd() == rd else Turn(chain.blocks, rd, len, data, true, Rd())
        decreases len - |data|
      {
        ghost var before, rd1 := data, Rd();
        var bytes, more := ReadTurn(len - |data|);
        TurnSome(chain.blocks, rd1, len - |data|, bytes, more, Rd());
        data := data + bytes;
        if before == [] {
          EmptyLeft(bytes);
        } else {
          TurnsRead(chain.blocks, rd, len, before, rd1, bytes, more, Rd());
        }
        if !more {
          return;
        }
      }
      TurnDone(chain.blocks, Rd());
      if data != [] {
        TurnsRead(chain.blocks, rd, len, data, Rd(), [], false, Rd());
        EmptyRight(data);
      }
    }

    // ---------- mgetc and mread_line ----------

    /** mgetc: 0 at the end of the file, otherwise the next byte. */
    method Mgetc() returns (c: Byte)
      requires Wired() && InFlow()
      modifies this`currentRead, this`at, this`isEmpty, chain.repr
      ensures Wired() && chain.repr == old(chain.repr) && chain.blocks == old(chain.blocks)
      ensures InFlow() && c == Front(old(Unread())) && Unread() == Rest(old(Unread()))
    {
      hide BlockChain.Valid, Flowing;
      if currentRead == null {
        var first := chain.First();
        if first == null {
          return 0;
        }
        SetReader(first, 0, isEmpty);
      }
      c := GetTurn();
    }

    /** mgetc with a current block. */
    method GetTurn() returns (c: Byte)
      requires Wired() && at >= 0 && Flowing(chain.blocks, Rd())
      modifies this`currentRead, this`at, this`isEmpty, chain.repr
      ensures Wired() && chain.repr == old(chain.repr) && chain.blocks == old(chain.blocks) && at >= 0
      ensures Gets(chain.blocks, old(Rd()), c, Rd())
    {
      hide BlockChain.Valid, Flowing, Gets;
      var current := currentRead;
      ghost var i: nat := at;
      if isEmpty {
        var next := chain.Next(current, i);
        if next == null {
          GetsEnd(chain.blocks, Rd());
          return 0;
        }
        current, i := next, i + 1;
      }
      GetsNext(chain.blocks, Rd());
      c := TakeByte(current, i);
    }

    /** The next byte of block number `i`, which becomes the current one. */
    method TakeByte(b: DataBlock, ghost i: nat) returns (c: Byte)
      requires Wired() && i < |chain.blocks| && chain.nodes[i] == b && chain.counts[i] < |chain.blocks[i]|
      modifies this`currentRead, this`at, this`isEmpty, chain.repr
      ensures Wired() && chain.repr == old(chain.repr) && chain.blocks == old(chain.blocks) && at == i
      ensures c == chain.blocks[i][old(chain.counts[i])]
      ensures chain.counts == old(chain.counts)[i := old(chain.counts[i]) + 1]
      ensures isEmpty == (chain.counts[i] == |chain.blocks[i]|)
    {
      hide BlockChain.Valid;
      var count := chain.ReadCount(b, i);
      var written := chain.WriteCount(b, i);
      var bytes := chain.Copy(b, i, count, count + 1);
      c := bytes[0];
      chain.SetCount(b, i, count + 1);
      SetReader(b, i, count + 1 == written);
    }

    ghost function Src(): Source
      reads this, chain
    {
      Source(ccache, Unread())
    }

    /** The byte held back, or the next one. */
    method NextByte() returns (c: Byte)
      requires Wired() && InFlow()
      modifies this`currentRead, this`at, this`isEmpty, this`ccache, chain.repr
      ensures Wired() && chain.repr == old(chain.repr) && chain.blocks == old(chain.blocks)
      ensures InFlow() && (c, Src()) == Take(old(Src()))
    {
      hide BlockChain.Valid, Flows, Ahead;
      if ccache == LF {
        c := Mgetc();
      } else {
        c := ccache;
        ccache := CR;
      }
    }

    /** What a turn of the loop of mread_line takes: a byte, and behind a CR the next one as well. */
    method TakeTurn() returns (c: Byte)
      requires Wired() && InFlow()
      modifies this`currentRead, this`at, this`isEmpty, this`ccache, chain.repr
      ensures Wired() && chain.repr == old(chain.repr) && chain.blocks == old(chain.blocks)
      ensures InFlow() && (TurnBytes(c, ccache), c == CR || c == LF || c == NUL, Src()) == Turned(old(Src()))
      ensures c != CR ==> ccache != NUL
    {
      hide BlockChain.Valid, Flows, Ahead, TurnBytes;
      c := NextByte();
      if c == CR {
        ccache := Mgetc();
      }
    }

    /** One turn of the loop of mread_line, with the line so far in buf[..d]. */
    method LineTurn(buf: array<Byte>, d: nat) returns (ghost bytes: seq<Byte>, k: nat, stop: bool)
      requires Wired() && InFlow() && buf !in chain.repr && d + 2 < buf.Length
      modifies buf, this`currentRead, this`at, this`isEmpty, this`ccache, chain.repr
      ensures Wired() && chain.repr == old(chain.repr) && chain.blocks == old(chain.blocks)
      ensures InFlow() && (bytes, stop, Src()) == Turned(old(Src())) && k == |bytes|
      ensures Put(old(buf[..]), buf[..], d, bytes, bytes == [] || ccache == NUL)
    {
      hide BlockChain.Valid, Wired, Flows, Ahead, TurnBytes, Put;
      var c := TakeTurn();
      bytes := TurnBytes(c, ccache);
      stop := c == CR || c == LF || c == NUL;
      k := StoreTurn(buf, d, c, ccache);
    }

    /** mread_line: the next line, at most n - 2 bytes of it; the position the string ends at, or 0 when
        the line was cut off. With n = 2 there is no room for a byte. */
    method MreadLine(buf: array<Byte>, n: nat) returns (r: nat)
      requires Wired() && InFlow() && buf !in chain.repr && 2 <= n <= buf.Length
      modifies buf, this`currentRead, this`at, this`isEmpty, this`ccache, chain.repr
      ensures Wired() && chain.repr == old(chain.repr) && chain.blocks == old(chain.blocks) && InFlow()
      ensures n > 2 ==> && Src() == ReadLine(old(Src()), n - 2).src
                        && Filled(buf[..], old(buf[..]), n, ReadLine(old(Src()), n - 2), r)
      ensures n == 2 ==> r == 0 && Src() == old(Src()) && buf[..] == old(buf[..])[1 := 0]
    {
      if n == 2 {
        buf[1] := NUL;
        return 0;
      }
      hide Wired, Flows, Ahead, ReadLine, Filled;
      r := ReadLines(buf, n);
    }

    /** The loop of mread_line. */
    method ReadLines(buf: array<Byte>, n: nat) returns (r: nat)
      requires Wired() && InFlow() && buf !in chain.repr && 2 < n <= buf.Length
      modifies buf, this`currentRead, this`at, this`isEmpty, this`ccache, chain.repr
      ensures Wired() && chain.repr == old(chain.repr) && chain.blocks == old(chain.blocks)
      ensures InFlow() && Src() == ReadLine(old(Src()), n - 2).src
      ensures Filled(buf[..], old(buf[..]), n, ReadLine(old(Src()), n - 2), r)
    {
      hide BlockChain.Valid, Wired, Flows, Ahead, ReadLine, Turned, Filled, Filling, Put;
      ghost var was, s, pre: seq<Byte> := buf[..], Src(), [];
      buf[n - 1] := NUL;
      FillingStart(buf[..], was, n, s);
      var d: nat := 0;
      while d < n - 2
        invariant |pre| == d <= n - 2 && Wired() && InFlow()
        invariant chain.repr == old(chain.repr) && chain.blocks == old(chain.blocks)
        invariant Filling(buf[..], was, n, s, pre, Src())
      {
        ghost var t, b := Src(), buf[..];
        ghost var bytes;
        var k, stop;
        bytes, k, stop := LineTurn(buf, d);
        if stop {
          FillingEnd(b, buf[..], was, n, s, pre, t);
          return d + k;
        }
        FillingMore(b, buf[..], was, n, s, pre, t);
        pre := pre + bytes;
        d := d + 1;
      }
      FillingDone(buf[..], was, n, s, pre, Src());
      return 0;
    }

    // ---------- whole files ----------

    /** mwrite_file up to writev: the blocks in order and the size that a complete writev reports; nothing
        for an empty file, -1 when there are 1024 blocks or more. */
    method MwriteFile() returns (iov: seq<seq<Byte>>, r: int)
      requires Valid()
      ensures r == if blockNum >= 1024 then -1 else totalSize
      ensures r > 0 ==> Flat(iov) == Contents()
      ensures r <= 0 ==> iov == []
    {
      hide BlockChain.Valid;
      var size, ok;
      iov, size, ok := chain.Gather(1024);
      if !ok {
        return [], -1;
      }
      if size == 0 {
        return [], 0;
      }
      return iov, size;
    }

    /** msize: the length of the contents. */
    method Msize() returns (n: int)
      requires Valid()
      ensures n == |Contents()|
    {
      n := totalSize;
    }

    /** Two files that share nothing. */
    ghost predicate Apart(dest: MFile)
      reads this, chain, chain.repr, dest, dest.chain, dest.chain.repr
    {
      && Valid() && dest.Valid()
      && this != dest && this !in dest.chain.repr && dest !in chain.repr && chain.repr !! dest.chain.repr
    }

    /** The read of a turn of mfile_copy. */
    method ReadServed(len: nat, ghost u: seq<Byte>) returns (ret: int, data: seq<Byte>, ghost rest: seq<Byte>)
      requires Valid() && Serves(chain.blocks, Rd(), u)
      modifies this`currentRead, this`at, this`isEmpty, chain.repr
      ensures Valid() && chain.blocks == old(chain.blocks) && chain.repr == old(chain.repr)
      ensures u == data + rest && |data| == Min(len, |u|)
      ensures (ret <= 0 <==> data == []) && (ret > 0 ==> ret == |data|)
      ensures |data| == len ==> Serves(chain.blocks, Rd(), rest)
    {
      hide Wired, Serves, Turn, Valid;
      ghost var rd, bl := Rd(), chain.blocks;
      ret, data := Mread(len);
      if bl == [] {
        ServedNothing(rd, u, len);
        rest := [];
      } else {
        rest := ServesRead(bl, rd, u, len, data, Rd());
      }
    }

    /** The seek of mfile_copy. */
    method SeekFirst(position: nat)
      requires Valid()
      modifies this`isEmpty, this`currentRead, this`at, chain.repr
      ensures Valid() && chain.repr == old(chain.repr) && chain.blocks == old(chain.blocks)
      ensures Serves(chain.blocks, Rd(), FromSeek(chain.blocks, position))
    {
      hide Wired, Valid, Sought, Serves, FromSeek;
      ghost var bl := chain.blocks;
      if bl != [] {
        ServesSought(bl, position);
      } else {
        ServesNothing(position);
      }
      MseekPos(position);
    }

    /** The seek, beside the destination. */
    method SeekBeside(dest: MFile, position: nat)
      requires Apart(dest)
      modifies this`isEmpty, this`currentRead, this`at, chain.repr
      ensures Apart(dest) && chain.repr == old(chain.repr) && chain.blocks == old(chain.blocks)
      ensures dest.body == old(dest.body) && dest.chain.repr == old(dest.chain.repr)
      ensures Serves(chain.blocks, Rd(), FromSeek(chain.blocks, position))
    {
      InRepr();
      dest.InRepr();
      hide Wired, Serves, Valid, FromSeek;
      SeekFirst(position);
    }

    /** The read of a turn, beside the destination. */
    method ReadBeside(dest: MFile, len: nat, ghost u: seq<Byte>) returns (ret: int, data: seq<Byte>, ghost rest: seq<Byte>)
      requires Apart(dest) && Serves(chain.blocks, Rd(), u)
      modifies this`currentRead, this`at, this`isEmpty, chain.repr
      ensures Apart(dest) && chain.blocks == old(chain.blocks) && chain.repr == old(chain.repr)
      ensures dest.body == old(dest.body) && dest.chain.repr == old(dest.chain.repr)
      ensures u == data + rest && |data| == Min(len, |u|)
      ensures (ret <= 0 <==> data == []) && (ret > 0 ==> ret == |data|)
      ensures |data| == len ==> Serves(chain.blocks, Rd(), rest)
    {
      InRepr();
      dest.InRepr();
      hide Wired, Serves, Valid;
      ret, data, rest := ReadServed(len, u);
    }

    /** The write of a turn, beside the source. */
    method WriteBeside(dest: MFile, data: seq<Byte>)
      requires Apart(dest)
      modifies dest`isFull, dest`blockNum, dest`currentWrite, dest`body, dest`totalSize, dest.chain.repr
      ensures Apart(dest) && chain.blocks == old(chain.blocks) && chain.repr == old(chain.repr) && Rd() == old(Rd())
      ensures fresh(dest.chain.repr - old(dest.chain.repr)) && dest.body == old(dest.body) + data
    {
      hide Wired, Serves, Valid, InFlow, Rd, Unread, HiddenBytes, Totals, BlockChain.Valid;
      InRepr();
      dest.InRepr();
      dest.Mwrite(data);
    }

    /** The read and the write of a turn of mfile_copy. */
    method Transfer(dest: MFile, len: nat, ghost u: seq<Byte>)
      returns (ret: int, ghost data: seq<Byte>, ghost rest: seq<Byte>)
      requires Apart(dest) && Serves(chain.blocks, Rd(), u)
      modifies this`currentRead, this`at, this`isEmpty, chain.repr
      modifies dest`isFull, dest`blockNum, dest`currentWrite, dest`body, dest`totalSize, dest.chain.repr
      ensures Apart(dest) && chain.blocks == old(chain.blocks) && chain.repr == old(chain.repr)
      ensures fresh(dest.chain.repr - old(dest.chain.repr))
      ensures u == data + rest && |data| == Min(len, |u|)
      ensures (ret <= 0 <==> data == []) && (ret > 0 ==> ret == |data|)
      ensures dest.body == old(dest.body) + data
      ensures |data| == len ==> Serves(chain.blocks, Rd(), rest)
    {
      hide Wired, Serves, Valid, Apart;
      var bytes;
      ret, bytes, rest := ReadBeside(dest, len, u);
      data := bytes;
      if ret <= 0 {
        EmptyRight(dest.body);
      } else {
        WriteBeside(dest, bytes);
      }
    }

    lemma InRepr()
      requires Valid()
      ensures chain in chain.repr && this !in chain.repr
    {
    }

    /** A turn of mfile_copy with `left` bytes to go: `done` of what reads deliver is copied. */
    method CopyStep(dest: MFile, left: nat, ghost u: seq<Byte>, ghost done: seq<Byte>, ghost rest: seq<Byte>)
      returns (ret: int, ghost done': seq<Byte>, ghost rest': seq<Byte>)
      requires Apart(dest) && Serves(chain.blocks, Rd(), rest) && u == done + rest
      requires left > 0 && |done| % CHUNK == 0
      modifies this`currentRead, this`at, this`isEmpty, chain.repr
      modifies dest`isFull, dest`blockNum, dest`currentWrite, dest`body, dest`totalSize, dest.chain.repr
      ensures Apart(dest) && chain.blocks == old(chain.blocks) && chain.repr == old(chain.repr)
      ensures fresh(dest.chain.repr - old(dest.chain.repr))
      ensures done <= done' && dest.body == old(dest.body) + done'[|done|..]
      ensures ret <= 0 ==> CopyUpTo(u, |done| + left) == Copied(done', -1)
      ensures 0 < ret < CHUNK ==> CopyUpTo(u, |done| + left) == Copied(done', |done| + left)
      ensures ret >= CHUNK ==> |done'| == |done| + CHUNK == |done| + Min(left, CHUNK)
      ensures ret >= CHUNK ==> u == done' + rest' && Serves(chain.blocks, Rd(), rest')
    {
      hide Wired, Valid, Serves, CopyUpTo, Apart;
      var j := if left < CHUNK then left else CHUNK;
      ghost var data;
      ret, data, rest' := Transfer(dest, j, rest);
      CopyTurn(u, |done| + left, done, data, rest');
      done' := done + data;
      assert done'[|done|..] == data;
      if ret <= 0 {
        EmptyRight(done);
      }
    }

    /** The loop of mfile_copy. */
    method CopyLoop(dest: MFile, start: nat, end: nat, ghost u: seq<Byte>) returns (r: int)
      requires Apart(dest) && Serves(chain.blocks, Rd(), u) && start < end
      modifies this`currentRead, this`at, this`isEmpty, chain.repr
      modifies dest`isFull, dest`blockNum, dest`currentWrite, dest`body, dest`totalSize, dest.chain.repr
      ensures Apart(dest) && chain.blocks == old(chain.blocks)
      ensures var c := CopyUpTo(u, end - start); r == c.r && dest.body == old(dest.body) + c.bytes
    {
      hide Wired, Valid, Serves, CopyUpTo, Apart;
      ghost var was, done: seq<Byte>, rest := dest.body, [], u;
      EmptyRight(was);
      EmptyLeft(u);
      var i := start;
      while i < end
        invariant start <= i <= end && |done| == i - start && (i < end ==> |done| % CHUNK == 0)
        invariant Apart(dest) && chain.blocks == old(chain.blocks)
        invariant chain.repr == old(chain.repr) && fresh(dest.chain.repr - old(dest.chain.repr))
        invariant u == done + rest && dest.body == was + done && Serves(chain.blocks, Rd(), rest)
      {
        ghost var before := done;
        var ret;
        ret, done, rest := CopyStep(dest, end - i, u, done, rest);
        CopiedSoFar(was, before, done);
        if ret <= 0 {
          return -1;
        }
        if ret < CHUNK {
          return end - start;
        }
        i := i + CHUNK;
      }
      CopyDone(u, end - start, done, rest);
      return end - start;
    }

    /** mfile_copy from this file to another. */
    method MfileCopy(dest: MFile, start: nat, end: nat) returns (r: int)
      requires Apart(dest)
      modifies this`currentRead, this`at, this`isEmpty, chain.repr
      modifies dest`isFull, dest`blockNum, dest`currentWrite, dest`body, dest`totalSize, dest.chain.repr
      ensures Apart(dest) && chain.blocks == old(chain.blocks)
      ensures var c := CopyOf(chain.blocks, start, end); r == c.r && dest.body == old(dest.body) + c.bytes
    {
      hide Wired, Valid, Serves, FromSeek, CopyUpTo, Apart;
      SeekBeside(dest, start);
      EmptyRight(dest.body);
      if start >= end {
        return end - start;
      }
      r := CopyLoop(dest, start, end, FromSeek(chain.blocks, start));
    }
  }

  /** What mread_line stores from `d` on when a turn takes `c`, with `e` in ccache. */
  method StoreTurn(buf: array<Byte>, d: nat, c: Byte, e: Byte) returns (k: nat)
    requires d + 2 < buf.Length && (c != CR ==> e != NUL)
    modifies buf
    ensures var bytes := TurnBytes(c, e);
            k == |bytes| && Put(old(buf[..]), buf[..], d, bytes, bytes == [] || e == NUL)
  {
    buf[d] := c;
    if c == NUL {
      return 0;
    } else if c == CR && e == NUL {
      buf[d + 1], buf[d + 2] := LF, NUL;
      return 2;
    } else if c == CR && e == LF {
      buf[d + 1] := e;
      return 2;
    }
    return 1;
  }

  lemma TurnSome(blocks: seq<seq<Byte>>, r: Reader, len: nat, bytes: seq<Byte>, more: bool, r': Reader)
    requires Turn(blocks, r, len, bytes, more, r')
    ensures |bytes| <= len && (more ==> bytes != [])
  {
  }
}
