/** The tail queue macros of libmfile/queue.h at the type libmfile/mfile.c uses them with. */
module Tailq {
  import opened Bytes

  /** The address of a link: the head's tqh_first, or an element's tqe_next. */
  datatype Link = NoLink | HeadLink(head: Queue) | NextLink(elm: DataBlock)

  /** struct data_block; `next` and `prev` are its TAILQ_ENTRY, `data` is the written part of its buffer. */
  class DataBlock {
    var data: seq<Byte>
    var dataLen: nat
    var writeCount: nat
    var readCount: nat
    var next: DataBlock?
    var prev: Link

    constructor ()
      ensures data == [] && dataLen == writeCount == readCount == 0 && next == null && prev == NoLink
    {
      data := [];
      dataLen, writeCount, readCount, next, prev := 0, 0, 0, null, NoLink;
    }
  }

  ghost predicate Distinct(s: seq<DataBlock>)
  {
    forall i, j :: 0 <= i < j < |s| ==> s[i] != s[j]
  }

  lemma DistinctConcat(a: seq<DataBlock>, b: seq<DataBlock>)
    requires Distinct(a) && Distinct(b) && forall e :: e in a ==> e !in b
    ensures Distinct(a + b)
  {
    forall i, j | 0 <= i < j < |a + b| ensures (a + b)[i] != (a + b)[j] {
      if i < |a| <= j {
        assert a[i] !in b && (a + b)[j] == b[j - |a|];
      }
    }
  }

  /** `elm` put in front of element number `k`. */
  ghost function Inserted(ns: seq<DataBlock>, k: nat, elm: DataBlock): seq<DataBlock>
    requires k <= |ns|
  {
    ns[..k] + [elm] + ns[k..]
  }

  lemma InsertedAt(ns: seq<DataBlock>, k: nat, elm: DataBlock)
    requires k <= |ns| && Distinct(ns) && elm !in ns
    ensures var r := Inserted(ns, k, elm);
            && |r| == |ns| + 1 && r[k] == elm && Distinct(r)
            && (forall i :: 0 <= i < k ==> r[i] == ns[i]) && forall i :: k < i <= |ns| ==> r[i] == ns[i - 1]
  {
  }

  ghost function Removed(ns: seq<DataBlock>, k: nat): seq<DataBlock>
    requires k < |ns|
  {
    ns[..k] + ns[k + 1..]
  }

  lemma RemovedAt(ns: seq<DataBlock>, k: nat)
    requires k < |ns| && Distinct(ns)
    ensures var r := Removed(ns, k);
            && |r| == |ns| - 1 && Distinct(r)
            && (forall i :: 0 <= i < k ==> r[i] == ns[i]) && forall i :: k <= i < |r| ==> r[i] == ns[i + 1]
  {
    assert forall i :: 0 <= i < |ns| - 1 ==> Removed(ns, k)[i] == ns[if i < k then i else i + 1];
  }

  class Queue {
    var first: DataBlock?
    var last: Link
    /** The elements in order. */
    ghost var nodes: seq<DataBlock>

    /** Every tqe_prev designates the link that points at its element, tqh_last the final null link. */
    ghost predicate Linked()
      reads this, nodes`next, nodes`prev
    {
      && Distinct(nodes)
      && first == (if nodes == [] then null else nodes[0])
      && last == (if nodes == [] then HeadLink(this) else NextLink(nodes[|nodes| - 1]))
      && (forall i {:trigger nodes[i].next} :: 0 <= i < |nodes| - 1 ==> nodes[i].next == nodes[i + 1])
      && (forall i {:trigger nodes[i].prev} :: 1 <= i < |nodes| ==> nodes[i].prev == NextLink(nodes[i - 1]))
      && (nodes != [] ==> nodes[|nodes| - 1].next == null && nodes[0].prev == HeadLink(this))
    }

    /** TAILQ_INIT on a new head. */
    constructor ()
      ensures Linked() && nodes == []
    {
      first := null;
      nodes := [];
      new;
      last := HeadLink(this);
    }

    /** TAILQ_INIT. */
    method Init()
      modifies this
      ensures Linked() && nodes == []
    {
      first, last, nodes := null, HeadLink(this), [];
    }

    /** TAILQ_INSERT_HEAD. */
    method InsertHead(elm: DataBlock)
      requires Linked() && elm !in nodes
      modifies this, nodes`prev, elm`next, elm`prev
      ensures Linked() && nodes == [elm] + old(nodes)
    {
      ghost var ns := nodes;
      elm.next := first;
      if elm.next != null {
        first.prev := NextLink(elm);
      } else {
        last := NextLink(elm);
      }
      first := elm;
      elm.prev := HeadLink(this);
      nodes := [elm] + nodes;
      assert forall i :: 1 <= i < |nodes| ==> nodes[i] == ns[i - 1];
    }

    /** TAILQ_INSERT_TAIL. */
    method InsertTail(elm: DataBlock)
      requires Linked() && elm !in nodes
      modifies this, nodes`next, elm`next, elm`prev
      ensures Linked() && nodes == old(nodes) + [elm]
    {
      ghost var ns := nodes;
      elm.next := null;
      elm.prev := last;
      match last {
        case NoLink =>
        case HeadLink(h) => h.first := elm;
        case NextLink(e) => e.next := elm;
      }
      last := NextLink(elm);
      nodes := nodes + [elm];
      assert forall i :: 0 <= i < |ns| ==> nodes[i] == ns[i];
    }

    /** TAILQ_INSERT_AFTER: `listelm` is element number `k`. */
    method InsertAfter(listelm: DataBlock, elm: DataBlock, ghost k: nat)
      requires Linked() && elm !in nodes && k < |nodes| && nodes[k] == listelm
      modifies this, nodes`next, nodes`prev, elm`next, elm`prev
      ensures Linked() && nodes == Inserted(old(nodes), k + 1, elm)
    {
      ghost var ns := nodes;
      InsertedAt(ns, k + 1, elm);
      hide Inserted, Distinct;
      assert listelm.next == if k + 1 < |ns| then ns[k + 1] else null;
      elm.next := listelm.next;
      if elm.next != null {
        elm.next.prev := NextLink(elm);
      } else {
        last := NextLink(elm);
      }
      listelm.next := elm;
      elm.prev := NextLink(listelm);
      nodes := Inserted(ns, k + 1, elm);
    }

    /** TAILQ_INSERT_BEFORE: `listelm` is element number `k`. */
    method InsertBefore(listelm: DataBlock, elm: DataBlock, ghost k: nat)
      requires Linked() && elm !in nodes && k < |nodes| && nodes[k] == listelm
      modifies this, nodes`next, nodes`prev, elm`next, elm`prev
      ensures Linked() && nodes == Inserted(old(nodes), k, elm)
    {
      ghost var ns := nodes;
      InsertedAt(ns, k, elm);
      hide Inserted, Distinct;
      assert listelm.prev == if k == 0 then HeadLink(this) else NextLink(ns[k - 1]);
      elm.prev := listelm.prev;
      elm.next := listelm;
      match listelm.prev {
        case NoLink =>
        case HeadLink(h) => h.first := elm;
        case NextLink(e) => e.next := elm;
      }
      assert if k == 0 then first == elm else first == ns[0] && ns[k - 1].next == elm;
      listelm.prev := NextLink(elm);
      nodes := Inserted(ns, k, elm);
    }

    /** TAILQ_REMOVE: `elm` is element number `k`. */
    method Remove(elm: DataBlock, ghost k: nat)
      requires Linked() && k < |nodes| && nodes[k] == elm
      modifies this, nodes`next, nodes`prev
      ensures Linked() && nodes == Removed(old(nodes), k)
      ensures elm.next == old(elm.next) && elm.prev == old(elm.prev)
    {
      ghost var ns := nodes;
      RemovedAt(ns, k);
      hide Removed;
      if elm.next != null {
        elm.next.prev := elm.prev;
      } else {
        last := elm.prev;
      }
      match elm.prev {
        case NoLink =>
        case HeadLink(h) => h.first := elm.next;
        case NextLink(e) => e.next := elm.next;
      }
      nodes := Removed(ns, k);
    }

    /** TAILQ_CONCAT: the other queue ends up empty. */
    method Concat(other: Queue)
      requires Linked() && other.Linked() && this != other
      requires forall e :: e in nodes ==> e !in other.nodes
      modifies this, other, nodes`next, other.nodes`prev
      ensures Linked() && nodes == old(nodes) + old(other.nodes)
      ensures other.Linked() && other.nodes == []
    {
      ghost var ns, os := nodes, other.nodes;
      DistinctConcat(ns, os);
      hide Distinct;
      assert last == if ns == [] then HeadLink(this) else NextLink(ns[|ns| - 1]);
      if other.first != null {
        match last {
          case NoLink =>
          case HeadLink(h) => h.first := other.first;
          case NextLink(e) => e.next := other.first;
        }
        other.first.prev := last;
        last := other.last;
        other.Init();
        nodes := ns + os;
        assert forall i :: 0 <= i < |ns| ==> nodes[i] == ns[i];
        assert forall i :: |ns| <= i < |nodes| ==> nodes[i] == os[i - |ns|];
      }
    }
  }
}
