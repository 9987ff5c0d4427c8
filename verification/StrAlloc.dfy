/** The growable string of libstralloc/stralloc.c on its bump allocator. */
module StrAlloc {
  import opened Bytes
  import opened Options
  import opened Seqs

  const ALIGNMENT: nat := 16
  const SPACE: nat := 4096

  /** A pointer into the static pool, or to a block from malloc. */
  datatype Ptr = InPool(off: nat) | OnHeap(block: array<Byte>)

  /** The block size for a request of `n` bytes: the next multiple of ALIGNMENT, always larger. */
  function Rounded(n: nat): (r: nat)
    ensures n < r <= n + 16 && r % 16 == 0
  {
    ALIGNMENT + n - n % ALIGNMENT
  }

  ghost predicate Above(blocks: map<nat, nat>, avail: nat)
  {
    forall o :: o in blocks ==> avail <= o < o + blocks[o] <= SPACE && o % ALIGNMENT == 0
  }

  ghost predicate Apart(blocks: map<nat, nat>)
  {
    forall o, p :: o in blocks && p in blocks && o < p ==> o + blocks[o] <= p
  }

  /** memcpy of `data` to position `from + at` of `t`, behind the `at` bytes from `from` on. */
  method Memcpy(t: array<Byte>, from: nat, at: nat, data: seq<Byte>)
    requires from + at + |data| <= t.Length
    modifies t
    ensures t[from..from + at + |data|] == old(t[from..from + at]) + data
    ensures forall k :: 0 <= k < t.Length && !(from + at <= k < from + at + |data|) ==> t[k] == old(t[k])
  {
    forall k | 0 <= k < |data| {
      t[from + at + k] := data[k];
    }
    assert t[from..from + at] == old(t[from..from + at]);
    assert t[from + at..from + at + |data|] == data;
  }

  class Allocator {
    const space: array<Byte>
    var avail: nat
    /** Pool blocks handed out: offset and size. */
    ghost var blocks: map<nat, nat>
    /** Blocks from malloc that were not released. */
    ghost var heap: set<array<Byte>>

    /** The free part is [0, avail); the blocks lie above it, aligned and disjoint. */
    ghost predicate Valid()
      reads this
    {
      && space.Length == SPACE && avail <= SPACE && avail % ALIGNMENT == 0
      && Above(blocks, avail) && Apart(blocks)
      && space !in heap
    }

    constructor ()
      ensures Valid() && fresh(space) && blocks == map[] && heap == {} && avail == space.Length == 4096
    {
      space := new Byte[SPACE];
      avail := SPACE;
      blocks := map[];
      heap := {};
    }

    ghost predicate Owns(p: Ptr)
      reads this
    {
      match p
      case InPool(o) => o in blocks
      case OnHeap(b) => b in heap
    }

    ghost function Room(p: Ptr): nat
      requires Owns(p)
      reads this
    {
      match p
      case InPool(o) => blocks[o]
      case OnHeap(b) => b.Length
    }

    /** The array `p` points into. */
    function Target(p: Ptr): array<Byte>
    {
      match p
      case InPool(_) => space
      case OnHeap(b) => b
    }

    function Base(p: Ptr): nat
    {
      match p
      case InPool(o) => o
      case OnHeap(_) => 0
    }

    /** The first `n` bytes at `p`. */
    ghost function Bytes(p: Ptr, n: nat): (s: seq<Byte>)
      requires Valid() && Owns(p) && n <= Room(p)
      reads this, Target(p)
      ensures |s| == n
    {
      Target(p)[Base(p)..Base(p) + n]
    }

    ghost function At(p: Ptr, k: nat): Byte
      requires Valid() && Owns(p) && k < Room(p)
      reads this, Target(p)
    {
      Target(p)[Base(p) + k]
    }

    /** A block is inside its array and shares no byte with other pool blocks. */
    lemma BlockBounds(p: Ptr)
      requires Valid() && Owns(p)
      ensures Base(p) + Room(p) <= Target(p).Length
      ensures forall o :: o in blocks && p != InPool(o) ==>
                o + blocks[o] <= space.Length
                && (p.InPool? ==> o + blocks[o] <= Base(p) || Base(p) + Room(p) <= o)
    {
    }

    /** _alloc. */
    method Alloc(n: nat) returns (x: Ptr)
      requires Valid()
      modifies this
      ensures Valid() && Owns(x) && Room(x) == Rounded(n)
      ensures x.InPool? ==> x.off !in old(blocks)
      ensures x.InPool? <==> Rounded(n) <= old(avail)
      ensures x.InPool? ==> x.off == avail == old(avail) - Rounded(n)
      ensures blocks == if x.InPool? then old(blocks)[x.off := Rounded(n)] else old(blocks)
      ensures heap == if x.InPool? then old(heap) else old(heap) + {x.block}
      ensures x.OnHeap? ==> fresh(x.block) && avail == old(avail)
    {
      var size := Rounded(n);
      if size <= avail {
        avail := avail - size;
        x := InPool(avail);
        blocks := blocks[avail := size];
        return;
      }
      var block := new Byte[size];
      heap := heap + {block};
      x := OnHeap(block);
    }

    /** _alloc_free: pool blocks stay where they are. */
    method AllocFree(x: Ptr)
      requires Valid() && Owns(x)
      modifies this
      ensures Valid() && blocks == old(blocks) && avail == old(avail)
      ensures heap == if x.OnHeap? then old(heap) - {x.block} else old(heap)
    {
      if x.InPool? {
        return;
      }
      heap := heap - {x.block};
    }

    /** memcpy to `p + at`. */
    method Write(p: Ptr, at: nat, data: seq<Byte>)
      requires Valid() && Owns(p) && at + |data| <= Room(p)
      modifies Target(p)
      ensures Bytes(p, at + |data|) == old(Bytes(p, at)) + data
      ensures var b, t := Base(p) + at, Target(p);
              forall k :: 0 <= k < t.Length && !(b <= k < b + |data|) ==> t[k] == old(t[k])
    {
      BlockBounds(p);
      BytesAre(p, at);
      hide *;
      Memcpy(Target(p), Base(p), at, data);
      BytesAre(p, at + |data|);
    }

    lemma BytesAre(p: Ptr, n: nat)
      requires Valid() && Owns(p) && n <= Room(p)
      ensures Base(p) + n <= Target(p).Length && Bytes(p, n) == Target(p)[Base(p)..Base(p) + n]
    {
    }

    lemma BytesPrefix(p: Ptr, n: nat, m: nat)
      requires Valid() && Owns(p) && m <= n <= Room(p)
      ensures Bytes(p, n)[..m] == Bytes(p, m)
    {
      BytesAre(p, n);
      BytesAre(p, m);
      hide Bytes, Valid, Room, Owns;
    }

    lemma BytesNone(p: Ptr)
      requires Valid() && Owns(p)
      ensures Bytes(p, 0) == []
    {
    }

    /** The first half of _alloc_re: a block of more than `n` bytes that starts with the first `m` bytes of
        `x`. */
    method Renew(x: Ptr, m: nat, n: nat) returns (y: Ptr)
      requires Valid() && Owns(x) && m <= Room(x) && m <= n
      modifies this, space
      ensures Valid() && Owns(x) && Owns(y) && x != y && n <= Room(y) && Bytes(y, m) == old(Bytes(x, m))
      ensures if y.InPool? then y.off < old(avail) else fresh(y.block)
      ensures blocks == if y.InPool? then old(blocks)[y.off := Rounded(n)] else old(blocks)
      ensures heap == if y.InPool? then old(heap) else old(heap) + {y.block}
      ensures forall k :: old(avail) <= k < SPACE ==> space[k] == old(space[k])
    {
      BytesAre(x, m);
      assert x.InPool? ==> x.off >= avail;
      hide Valid, Bytes, Room, Rounded;
      var t := Target(x);
      y := Alloc(n);
      assert x != y && Owns(x);
      hide Owns;
      var data := t[Base(x)..Base(x) + m];
      EmptyLeft(data);
      BytesNone(y);
      Write(y, 0, data);
    }

    /** _alloc_re: a block of more than `n` bytes that starts with the first `m` bytes of `x`. */
    method AllocRe(x: Ptr, m: nat, n: nat) returns (y: Ptr)
      requires Valid() && Owns(x) && m <= Room(x) && m <= n
      modifies this, space
      ensures Valid() && Owns(y) && n <= Room(y) && Bytes(y, m) == old(Bytes(x, m))
      ensures if y.InPool? then y.off < old(avail) else fresh(y.block)
      ensures blocks == if y.InPool? then old(blocks)[y.off := Rounded(n)] else old(blocks)
      ensures forall b :: b in old(heap) && x != OnHeap(b) ==> b in heap
      ensures forall k :: old(avail) <= k < SPACE ==> space[k] == old(space[k])
    {
      hide Apart, Above;
      y := Renew(x, m, n);
      AllocFree(x);
    }
  }

  /** Every block but `p` is still there, with its pool bytes unchanged. */
  twostate predicate OthersKept(mem: Allocator, p: Option<Ptr>)
    reads mem, mem.space
  {
    && (forall o :: o in old(mem.blocks) ==> o in mem.blocks && mem.blocks[o] == old(mem.blocks[o]))
    && (forall b :: b in old(mem.heap) && p != Some(OnHeap(b)) ==> b in mem.heap)
    && (forall o, k :: o in old(mem.blocks) && p != Some(InPool(o)) && o <= k < o + old(mem.blocks[o]) && k < mem.space.Length
          ==> mem.space[k] == old(mem.space[k]))
  }

  /** The capacity after asking for `n` bytes. */
  function NewCapacity(isNull: bool, a: nat, n: nat): nat
  {
    if isNull then n else if n > a then 30 + n + n / 8 else a
  }

  /** struct stralloc. */
  class Stralloc {
    const mem: Allocator
    var s: Option<Ptr>
    var len: nat
    var a: nat
    /** Bytes moved by _alloc_re since the string was last empty-handed. */
    ghost var copied: nat

    /** Null, or a block of ours that holds `len` bytes and a NUL; what reallocation has copied is at
        most eight times the capacity. */
    ghost predicate Valid()
      reads this, mem, if s.Some? then {mem.Target(s.value)} else {}
    {
      && mem.Valid()
      && copied <= 8 * a
      && (s.None? ==> copied == 0)
      && (s.Some? ==>
            && mem.Owns(s.value) && len < a <= mem.Room(s.value)
            && mem.At(s.value, len) == 0)
    }

    ghost function Contents(): seq<Byte>
      requires Valid()
      reads this, mem, if s.Some? then {mem.Target(s.value)} else {}
    {
      if s.None? then [] else mem.Bytes(s.value, len)
    }

    constructor (m: Allocator)
      requires m.Valid()
      ensures Valid() && mem == m && s.None? && a == 0 && Contents() == []
    {
      mem, s, len, a, copied := m, None, 0, 0, 0;
    }

    /** The growth step of stralloc_ready and stralloc_readyplus: the new capacity pays for the copy. */
    method Grow(n: nat)
      requires s.Some? && mem.Valid() && mem.Owns(s.value) && a <= mem.Room(s.value)
      requires copied <= 8 * a && n > a
      modifies this`s, this`a, this`copied, mem, mem.space
      ensures s.Some? && mem.Valid() && mem.Owns(s.value) && n <= a <= mem.Room(s.value)
      ensures copied == old(copied) + old(a) && copied <= 8 * a
      ensures mem.Bytes(s.value, old(a)) == old(mem.Bytes(s.value, a))
      ensures a == 30 + n + n / 8
      ensures OthersKept(mem, old(s))
      ensures s.value.OnHeap? ==> fresh(s.value.block)
      ensures s.value.InPool? ==> s.value.off !in old(mem.blocks)
    {
      hide Apart;
      var i := a;
      a := 30 + n + n / 8;
      var p := mem.AllocRe(s.value, i, a);
      s := Some(p);
      copied := copied + i;
    }

    /** A block with room for `n` bytes: stralloc_ready, and stralloc_readyplus with `n` counted from
        the start of the string. */
    method Ready(n: nat)
      requires Valid()
      modifies this, mem, mem.space
      ensures s.Some? && mem.Valid() && mem.Owns(s.value) && n <= a <= mem.Room(s.value)
      ensures copied <= 8 * a && a == NewCapacity(old(s).None?, old(a), n)
      ensures a == if old(s).None? then n else if n > old(a) then 30 + n + n / 8 else old(a)
      ensures old(s).Some? ==> len == old(len) < a && mem.Bytes(s.value, len) == old(Contents())
      ensures OthersKept(mem, old(s))
      ensures if n <= old(a) && old(s).Some? then s == old(s) && a == old(a) && unchanged(mem) && unchanged(mem.space)
              else FreshBlock(mem, s.value)
    {
      hide Apart;
      if s.Some? {
        if n > a {
          mem.BytesPrefix(s.value, a, len);
          Grow(n);
          mem.BytesPrefix(s.value, old(a), len);
        }
        return;
      }
      len := 0;
      a := n;
      var p := mem.Alloc(n);
      s := Some(p);
    }

    /** The common end of stralloc_copyb and stralloc_catb: `data` goes to position `at`, a NUL behind. */
    method Finish(at: nat, data: seq<Byte>)
      requires s.Some? && mem.Valid() && mem.Owns(s.value) && at + |data| < a <= mem.Room(s.value)
      requires copied <= 8 * a
      modifies this`len, mem.Target(s.value)
      ensures Valid() && s == old(s) && a == old(a)
      ensures Contents() == old(mem.Bytes(s.value, at)) + data
      ensures OthersKept(mem, s)
    {
      mem.BlockBounds(s.value);
      hide Above, Apart;
      mem.Write(s.value, at, data);
      len := at + |data|;
      var t, b := mem.Target(s.value), mem.Base(s.value);
      ghost var u := t[..];
      t[b + len] := 0;
      assert t[b..b + len] == u[b..b + len];
    }

    /** stralloc_copyb. */
    method CopyB(data: seq<Byte>)
      requires Valid()
      modifies this, mem, mem.space, if s.Some? then {mem.Target(s.value)} else {}
      ensures Valid() && s.Some? && Contents() == data
      ensures a == NewCapacity(old(s).None?, old(a), |data| + 1)
      ensures OthersKept(mem, old(s))
      ensures s == old(s) || FreshBlock(mem, s.value)
    {
      hide Apart, Above;
      Ready(|data| + 1);
      Finish(0, data);
    }

    /** stralloc_catb. */
    method CatB(data: seq<Byte>)
      requires Valid()
      modifies this, mem, mem.space, if s.Some? then {mem.Target(s.value)} else {}
      ensures Valid() && s.Some? && Contents() == old(Contents()) + data
      ensures a == NewCapacity(old(s).None?, old(a), |old(Contents())| + |data| + 1)
      ensures OthersKept(mem, old(s))
      ensures s == old(s) || FreshBlock(mem, s.value)
    {
      hide Apart, Above;
      if s.None? {
        CopyB(data);
        return;
      }
      Ready(len + |data| + 1);
      Finish(len, data);
    }

    /** stralloc_free. */
    method Free()
      requires Valid()
      modifies this, mem
      ensures Valid() && s.None? && Contents() == []
      ensures OthersKept(mem, old(s))
    {
      if s.Some? {
        mem.AllocFree(s.value);
        s, len, a, copied := None, 0, 0, 0;
      }
    }
  }

  /** `p` was not handed out before. */
  twostate predicate FreshBlock(mem: Allocator, new p: Ptr)
    reads mem
  {
    match p
    case InPool(o) => o !in old(mem.blocks)
    case OnHeap(b) => fresh(b)
  }

  /** Two strings on one allocator: what happens to one never shows in the other. */
  method AppendLeavesOthers(x: Stralloc, y: Stralloc, data: seq<Byte>)
    requires x != y && x.mem == y.mem && x.Valid() && y.Valid()
    requires x.s.Some? ==> x.s != y.s
    modifies x, x.mem, x.mem.space, if x.s.Some? then {x.mem.Target(x.s.value)} else {}
    ensures x.Valid() && x.Contents() == old(x.Contents()) + data
    ensures y.Valid() && y.Contents() == old(y.Contents())
    ensures x.s != y.s
  {
    Parts(y);
    ghost var was := y.Contents();
    hide *;
    CatBeside(x, y, data, was);
    FromParts(y, was);
  }

  /** stralloc_catb beside another string. */
  method CatBeside(x: Stralloc, y: Stralloc, data: seq<Byte>, ghost was: seq<Byte>)
    requires x != y && x.mem == y.mem && x.Valid() && HasParts(y, was)
    requires x.s.Some? ==> x.s != y.s
    modifies x, x.mem, x.mem.space, if x.s.Some? then {x.mem.Target(x.s.value)} else {}
    ensures x.Valid() && x.Contents() == old(x.Contents()) + data && x.mem.Valid()
    ensures HasParts(y, was) && x.s != y.s
  {
    hide Above, Apart, Stralloc.Contents, NewCapacity;
    x.CatB(data);
    match y.s {
      case None =>
      case Some(OnHeap(b)) =>
      case Some(InPool(o)) =>
        var t := y.mem.space;
        assert forall k :: o <= k < o + y.a ==> t[k] == old(t[k]);
        assert t[o..o + y.len] == old(t[o..o + y.len]);
    }
  }

  /** A valid string in terms of its array. */
  ghost predicate HasParts(y: Stralloc, was: seq<Byte>)
    reads y, y.mem, if y.s.Some? then {y.mem.Target(y.s.value)} else {}
  {
    && y.copied <= 8 * y.a
    && match y.s
       case None => y.copied == 0 && was == []
       case Some(p) =>
         && y.mem.Owns(p) && y.len < y.a <= y.mem.Room(p)
         && var t, b := y.mem.Target(p), y.mem.Base(p);
            b + y.a <= t.Length && t[b..b + y.len] == was && t[b + y.len] == 0
  }

  lemma Parts(y: Stralloc)
    requires y.Valid()
    ensures y.mem.Valid() && HasParts(y, y.Contents())
  {
    if y.s.Some? {
      y.mem.BlockBounds(y.s.value);
    }
  }

  lemma FromParts(y: Stralloc, was: seq<Byte>)
    requires y.mem.Valid() && HasParts(y, was)
    ensures y.Valid() && y.Contents() == was
  {
  }

  /** Any run of appends to a new string: the contents are the chunks in order, and all the copying done
      by reallocation together is linear in the final length. */
  method Build(mem: Allocator, chunks: seq<seq<Byte>>) returns (x: Stralloc)
    requires mem.Valid()
    modifies mem, mem.space
    ensures fresh(x) && x.mem == mem && x.Valid() && x.Contents() == Flat(chunks)
    ensures x.copied <= 8 * x.a <= 9 * |Flat(chunks)| + 249
    ensures OthersKept(mem, None)
  {
    hide Apart, Above;
    x := new Stralloc(mem);
    for i := 0 to |chunks|
      invariant x.Valid() && x.mem == mem && fresh(x) && x.Contents() == Flat(chunks[..i])
      invariant x.s.Some? ==> 8 * x.a <= 9 * |x.Contents()| + 249
      invariant x.s.None? ==> x.a == 0
      invariant OthersKept(mem, None)
      invariant x.s.Some? ==> FreshBlock(mem, x.s.value)
    {
      FlatSnoc(chunks, i);
      x.CatB(chunks[i]);
    }
    assert chunks[..|chunks|] == chunks;
  }
}
