/** The block list of libmfile/mfile.c: a tail queue of data blocks seen as a sequence of byte strings. */
module BlockChains {
  import opened Bytes
  import opened Seqs
  import opened Tailq
  import opened MFileSpec

  /** Block `b` contains `bytes`, of which `count` were read. */
  ghost predicate Holds(b: DataBlock, bytes: seq<Byte>, count: nat)
    reads b`data, b`dataLen, b`writeCount, b`readCount
  {
    b.data == bytes && b.dataLen == b.writeCount == |bytes| && b.readCount == count
  }

  /** The blocks hold `blocks`, read up to `counts`. */
  ghost predicate Stored(nodes: seq<DataBlock>, blocks: seq<seq<Byte>>, counts: seq<nat>)
    reads nodes`data, nodes`dataLen, nodes`writeCount, nodes`readCount
  {
    && |nodes| == |blocks| == |counts|
    && forall i :: 0 <= i < |nodes| ==> Holds(nodes[i], blocks[i], counts[i])
  }

  lemma StoredMore(nodes: seq<DataBlock>, blocks: seq<seq<Byte>>, counts: seq<nat>, b: DataBlock, bytes: seq<Byte>)
    requires Stored(nodes, blocks, counts) && Holds(b, bytes, 0)
    ensures Stored([b] + nodes, [bytes] + blocks, [0] + counts)
    ensures Stored(nodes + [b], blocks + [bytes], counts + [0])
  {
    hide Holds;
    assert forall i :: 1 <= i < |nodes| + 1 ==>
      ([b] + nodes)[i] == nodes[i - 1] && ([bytes] + blocks)[i] == blocks[i - 1] && ([0] + counts)[i] == counts[i - 1];
  }

  /** A fresh block, zeroed and then filled with `data`. */
  method NewBlock(data: seq<Byte>) returns (b: DataBlock)
    ensures fresh(b) && Holds(b, data, 0)
  {
    b := new DataBlock();
    b.writeCount, b.dataLen, b.data := |data|, |data|, data;
  }

  class BlockChain {
    const head: Queue
    ghost var repr: set<object>
    /** What each block contains, and how much of it was read. */
    ghost var blocks: seq<seq<Byte>>
    ghost var counts: seq<nat>

    /** The blocks of the queue. */
    ghost var nodes: seq<DataBlock>

    ghost predicate Valid()
      reads this, repr
      ensures Valid() ==> this in repr && head in repr && |nodes| == |blocks| == |counts|
    {
      && this in repr && head in repr && nodes == head.nodes
      && (forall b :: b in head.nodes ==> b in repr)
      && head.Linked() && Stored(head.nodes, blocks, counts)
    }

    constructor ()
      ensures Valid() && fresh(repr) && blocks == [] && nodes == []
    {
      blocks, counts, nodes := [], [], [];
      head := new Queue();
      new;
      repr := {this, head};
    }

    /** TAILQ_FIRST. */
    method First() returns (b: DataBlock?)
      requires Valid()
      ensures b == if blocks == [] then null else nodes[0]
    {
      b := head.first;
    }

    /** TAILQ_NEXT. */
    method Next(b: DataBlock, ghost i: nat) returns (n: DataBlock?)
      requires Valid() && i < |blocks| && nodes[i] == b
      ensures n == if i + 1 < |blocks| then nodes[i + 1] else null
    {
      n := b.next;
    }

    /** A new zeroed block at the tail. */
    method AddTail() returns (b: DataBlock)
      requires Valid()
      modifies repr
      ensures Valid() && fresh(b) && repr == old(repr) + {b}
      ensures nodes == old(nodes) + [b]
      ensures blocks == old(blocks) + [[]] && counts == old(counts) + [0]
    {
      hide *;
      ValidParts();
      b := NewBlock([]);
      StoredMore(head.nodes, blocks, counts, b, []);
      head.InsertTail(b);
      Record(blocks + [[]], counts + [0], b);
      ValidFromParts();
    }

    /** A new block at the head, filled with `data`. */
    method AddHead(data: seq<Byte>) returns (b: DataBlock)
      requires Valid()
      modifies repr
      ensures Valid() && fresh(b) && repr == old(repr) + {b}
      ensures nodes == Cons(b, old(nodes))
      ensures blocks == Cons(data, old(blocks)) && counts == Cons(0, old(counts))
    {
      hide Queue.Linked, Stored, Holds, Valid;
      ValidParts();
      b := NewBlock(data);
      StoredMore(head.nodes, blocks, counts, b, data);
      head.InsertHead(b);
      Record([data] + blocks, [0] + counts, b);
      ValidFromParts();
    }

    lemma ValidParts()
      requires Valid()
      ensures this in repr && head in repr && nodes == head.nodes && forall b :: b in nodes ==> b in repr
      ensures head.Linked() && Stored(nodes, blocks, counts)
    {
    }

    lemma ValidFromParts()
      requires this in repr && head in repr && nodes == head.nodes && forall b :: b in nodes ==> b in repr
      requires head.Linked() && Stored(nodes, blocks, counts)
      ensures Valid()
    {
    }

    ghost method Record(bl: seq<seq<Byte>>, cs: seq<nat>, b: DataBlock)
      modifies this`blocks, this`counts, this`repr, this`nodes
      ensures blocks == bl && counts == cs && repr == old(repr) + {b} && nodes == head.nodes
    {
      blocks, counts, repr, nodes := bl, cs, repr + {b}, head.nodes;
    }

    /** memcpy of `piece` behind what block number `i` contains. */
    method Append(b: DataBlock, ghost i: nat, piece: seq<Byte>)
      requires Valid() && i < |blocks| && nodes[i] == b
      modifies repr
      ensures Valid() && repr == old(repr) && nodes == old(nodes)
      ensures blocks == old(blocks)[i := old(blocks)[i] + piece] && counts == old(counts)
    {
      b.data := b.data + piece;
      b.writeCount := b.writeCount + |piece|;
      b.dataLen := b.writeCount;
      blocks := blocks[i := blocks[i] + piece];
    }

    /** A piece of a write: into a new block when the last one is full, else behind what it contains. */
    method Put(last: DataBlock?, full: bool, piece: seq<Byte>) returns (b: DataBlock)
      requires Valid() && (!full ==> blocks != [] && last == nodes[|blocks| - 1])
      modifies repr
      ensures Valid() && (full ==> fresh(b)) && repr == if full then old(repr) + {b} else old(repr)
      ensures blocks == PutPiece(old(blocks), full, piece)
      ensures counts == if full then old(counts) + [0] else old(counts)
      ensures nodes == if full then old(nodes) + [b] else old(nodes)
      ensures blocks != [] && b == nodes[|blocks| - 1]
    {
      hide Valid;
      if full {
        b := AddTail();
        EmptyLeft(piece);
        Append(b, |blocks| - 1, piece);
      } else {
        b := last;
        Append(b, |blocks| - 1, piece);
      }
    }

    /** Marking block number `i` as read up to `count`. */
    method SetCount(b: DataBlock, ghost i: nat, count: nat)
      requires Valid() && i < |blocks| && nodes[i] == b
      modifies repr
      ensures Valid() && repr == old(repr) && nodes == old(nodes)
      ensures blocks == old(blocks) && counts == old(counts)[i := count]
    {
      b.readCount := count;
      counts := counts[i := count];
    }

    /** current_write_count and current_read_count of block number `i`. */
    method WriteCount(b: DataBlock, ghost i: nat) returns (n: nat)
      requires Valid() && i < |blocks| && nodes[i] == b
      ensures n == |blocks[i]|
    {
      n := b.writeCount;
    }

    method ReadCount(b: DataBlock, ghost i: nat) returns (n: nat)
      requires Valid() && i < |blocks| && nodes[i] == b
      ensures n == counts[i]
    {
      n := b.readCount;
    }

    /** memcpy of the bytes from `from` to `to` out of block number `i`. */
    method Copy(b: DataBlock, ghost i: nat, from: nat, to: nat) returns (bytes: seq<Byte>)
      requires Valid() && i < |blocks| && nodes[i] == b && from <= to <= |blocks[i]|
      ensures bytes == blocks[i][from..to]
    {
      bytes := b.data[from..to];
    }

    /** The loop of mseek: everything is unread. */
    method ResetCounts()
      requires Valid()
      modifies repr
      ensures Valid() && repr == old(repr) && nodes == old(nodes)
      ensures blocks == old(blocks) && counts == Zeros(|blocks|)
    {
      ZeroLoop();
      assert Stored(head.nodes, blocks, Zeros(|blocks|));
      counts := Zeros(|blocks|);
    }

    method ZeroLoop()
      requires Valid()
      modifies head.nodes`readCount
      ensures forall i :: 0 <= i < |head.nodes| ==> head.nodes[i].readCount == 0
    {
      var n1 := head.first;
      ghost var i: nat := 0;
      ghost var nodes := head.nodes;
      while n1 != null
        invariant i <= |nodes| && n1 == if i < |nodes| then nodes[i] else null
        invariant forall j :: 0 <= j < i ==> nodes[j].readCount == 0
        modifies nodes`readCount
        decreases |nodes| - i
      {
        n1.readCount := 0;
        n1 := n1.next;
        i := i + 1;
      }
    }

    /** The gather loop of mwrite_file: the vector for writev and its size, or nothing when there are
        `limit` blocks or more. */
    method Gather(limit: nat) returns (iov: seq<seq<Byte>>, size: nat, ok: bool)
      requires Valid() && limit > 0
      ensures ok <==> |blocks| < limit
      ensures ok ==> iov == blocks && size == |Flat(blocks)|
    {
      iov, size, ok := [], 0, true;
      var b := head.first;
      ghost var i: nat := 0;
      while b != null
        invariant i <= |blocks| && i < limit && iov == blocks[..i] && size == |Flat(blocks[..i])|
        invariant b == if i < |blocks| then head.nodes[i] else null
        decreases |blocks| - i
      {
        FlatSnoc(blocks, i);
        iov := iov + [b.data];
        size := size + b.dataLen;
        i := i + 1;
        if |iov| >= limit {
          return iov, size, false;
        }
        b := b.next;
      }
      assert blocks[..i] == blocks;
    }
  }
}
