/** The chained hash table of hashmap/hashmap.c. */
module HashMaps {
  import opened Options
  import opened Seqs
  import opened HashPrimes
  import opened HashSpec
  import opened HashTheorems

  /** `used` has 16 bits. */
  const USED_LIMIT := 0x1_0000

  type Uint16 = n: nat | n < USED_LIMIT

  type Int32 = n: int | -0x8000_0000 <= n < 0x8000_0000

  /** The lower 16 bits of `n`. */
  function Wrap(n: nat): Uint16
    decreases n
  {
    if n < USED_LIMIT then n else Wrap(n - USED_LIMIT)
  }

  /** The remainder by 65536. */
  lemma {:induction false} WrapIs(n: nat)
    ensures Wrap(n) == n % 65536
    decreases n
  {
    if n >= USED_LIMIT {
      WrapIs(n - USED_LIMIT);
    }
  }

  /** ++used. */
  lemma {:induction false} WrapNext(n: nat)
    ensures Wrap(n + 1) == if Wrap(n) + 1 == USED_LIMIT then 0 else Wrap(n) + 1
    decreases n
  {
    if n >= USED_LIMIT {
      WrapNext(n - USED_LIMIT);
    }
  }

  /** --used. */
  lemma WrapBefore(n: nat)
    requires n > 0
    ensures Wrap(n - 1) == if Wrap(n) == 0 then USED_LIMIT - 1 else Wrap(n) - 1
    ensures Wrap(n) == 0 ==> n >= USED_LIMIT
  {
    WrapNext(n - 1);
  }

  /** The list from `head` on is the chain of bucket `k`, its prev links mirror the next links, and the
      first prev is `k.top`. */
  ghost predicate Holds(head: Entry?, k: Bucket)
    reads k.chain
  {
    && head == (if k.chain == [] then null else k.chain[0])
    && (forall q {:trigger k.chain[q].next} :: 0 <= q < |k.chain| - 1 ==> k.chain[q].next == k.chain[q + 1])
    && (k.chain != [] ==> k.chain[|k.chain| - 1].next == null && k.chain[0].prev == k.top)
    && (forall q {:trigger k.chain[q].prev} :: 1 <= q < |k.chain| ==> k.chain[q].prev == k.chain[q - 1])
  }

  /** hashcode_index. */
  method HashIndex(key: Key, size: nat) returns (index: nat)
    requires size > 0
    ensures index == Index(key, size)
  {
    var a, hash := 63689, 0;
    for i := 0 to |key|
      invariant (hash, a) == RsState(key, i)
    {
      hash := (hash * a + key[i]) % WORD;
      a := a * 378551 % WORD;
    }
    index := hash % 0x8000_0000 % size;
  }

  /** hashcode_create. */
  method HashCode(key: Key) returns (code: nat)
    ensures code == Code(key)
  {
    var hash := 0;
    for i := 0 to |key|
      invariant hash == BkdrState(key, i)
    {
      hash := (hash * 131 + key[i]) % WORD;
    }
    code := hash % 0x8000_0000;
  }

  /** An element at the front of the list in data[index]. */
  method PushFront(data: array<Entry?>, index: nat, elm: Entry, ghost k: Bucket)
    requires index < data.Length && Holds(data[index], k) && elm !in k.chain && NoDup(k.chain)
    modifies data, elm`next, k.chain`prev
    ensures Holds(data[index], Bucket([elm] + k.chain, old(elm.prev)))
    ensures forall j :: 0 <= j < data.Length && j != index ==> data[j] == old(data[j])
  {
    elm.next := data[index];
    if elm.next != null {
      data[index].prev := elm;
    }
    data[index] := elm;
    ghost var c := [elm] + k.chain;
    assert forall q :: 1 <= q < |c| ==> c[q] == k.chain[q - 1];
  }

  /** The lists of the array are the buckets of `t`, with entries from `ever`. */
  ghost predicate AllHold(data: array<Entry?>, t: seq<Bucket>, ever: set<Entry>)
    reads data, ever
  {
    && data.Length == |t|
    && (forall b, e :: 0 <= b < |t| && e in t[b].chain ==> e in ever)
    && forall b :: 0 <= b < |t| ==> Holds(data[b], t[b])
  }

  /** An element at the front of list number `index`, the others staying as they are. */
  method PushApart(data: array<Entry?>, index: nat, elm: Entry, ghost t: seq<Bucket>, ghost ever: set<Entry>)
    requires AllHold(data, t, ever) && index < |t| && elm !in t[index].chain && Apart(t, index, elm)
    modifies data, elm`next, t[index].chain`prev
    ensures AllHold(data, t[index := Bucket([elm] + t[index].chain, old(elm.prev))], ever + {elm})
  {
    PushFront(data, index, elm, t[index]);
    forall b | 0 <= b < |t| && b != index ensures Holds(data[b], t[b]) {
      assert old(Holds(data[b], t[b])) && data[b] == old(data[b]);
      assert forall f :: f in t[b].chain ==> f != elm && f !in t[index].chain;
      assert forall f :: f in t[b].chain ==> f.next == old(f.next) && f.prev == old(f.prev);
    }
  }

  /** Element number `p`, null behind the last one. */
  function At(c: seq<Entry>, p: nat): (e: Entry?)
    ensures e == null <==> p >= |c|
    ensures p < |c| ==> e == c[p]
  {
    if p < |c| then c[p] else null
  }

  datatype Links = Links(next: Entry?, prev: Entry?)

  /** How the entries `es` are linked now. */
  ghost function LinksOf(es: set<Entry>): map<Entry, Links>
    reads es
  {
    map e | e in es :: Links(e.next, e.prev)
  }

  /** `was` is about the entries of bucket `k`. */
  ghost predicate Records(was: map<Entry, Links>, k: Bucket)
  {
    forall q :: 0 <= q < |k.chain| ==> k.chain[q] in was && was[k.chain[q]] == Links(At(k.chain, q + 1), PrevOf(k, q))
  }

  lemma HeldAt(head: Entry?, k: Bucket, q: nat)
    requires Holds(head, k) && q < |k.chain|
    ensures k.chain[q].next == At(k.chain, q + 1) && k.chain[q].prev == PrevOf(k, q)
  {
  }

  lemma HeldRecords(head: Entry?, k: Bucket, es: set<Entry>)
    requires Holds(head, k) && forall e :: e in k.chain ==> e in es
    ensures Records(LinksOf(es), k) && head == At(k.chain, 0)
  {
    hide Holds, At, PrevOf;
    forall q | 0 <= q < |k.chain|
      ensures k.chain[q] in LinksOf(es) && LinksOf(es)[k.chain[q]] == Links(At(k.chain, q + 1), PrevOf(k, q))
    {
      assert k.chain[q] in k.chain;
      HeldAt(head, k, q);
    }
    HeadAt(head, k);
  }

  lemma HeadAt(head: Entry?, k: Bucket)
    requires Holds(head, k)
    ensures head == At(k.chain, 0)
  {
  }

  /** What unlinking `ht` does to entries that were linked as `was` says: the one before it gets its next and
      the one behind it gets its prev. */
  ghost predicate Bypassed(ht: Entry, was: map<Entry, Links>)
    requires ht in was
    reads was.Keys
  {
    forall e :: e in was ==>
      && e.next == (if e == was[ht].prev then was[ht].next else was[e].next)
      && e.prev == (if e == was[ht].next then was[ht].prev else was[e].prev)
  }

  /** The unlinking of hashmap_delete, as it is for any entry. */
  method TakeOut(data: array<Entry?>, index: nat, ht: Entry, ghost es: set<Entry>)
    requires index < data.Length && ht in es
    requires (ht.next == null || ht.next in es) && (ht.prev == null || ht.prev in es)
    modifies data, es`next, es`prev
    ensures Bypassed(ht, old(LinksOf(es)))
    ensures data[index] == if old(ht.prev) == null then old(ht.next) else old(data[index])
    ensures forall j :: 0 <= j < data.Length && j != index ==> data[j] == old(data[j])
  {
    var before, behind := ht.prev, ht.next;
    if behind != null {
      behind.prev := before;
    }
    if before != null {
      before.next := behind;
    } else {
      data[index] := behind;
    }
  }

  /** A chain without the entry's neighbours stays as it is. */
  lemma BypassElsewhere(head: Entry?, k: Bucket, ht: Entry, was: map<Entry, Links>)
    requires ht in was && Records(was, k) && head == At(k.chain, 0) && Bypassed(ht, was)
    requires forall e :: e in k.chain ==> e != was[ht].prev && e != was[ht].next
    ensures Holds(head, k)
  {
    forall q | 0 <= q < |k.chain| ensures k.chain[q].next == At(k.chain, q + 1) && k.chain[q].prev == PrevOf(k, q) {
      var e := k.chain[q];
      assert e in k.chain && was[e] == Links(At(k.chain, q + 1), PrevOf(k, q));
    }
    hide Records, Bypassed;
  }

  /** The list from `head` on goes through the chain of `k` past entry number `q`. */
  ghost predicate Skips(head: Entry?, k: Bucket, q: nat)
    requires q < |k.chain|
    reads k.chain
  {
    && head == At(k.chain, if q == 0 then 1 else 0)
    && (forall i {:trigger k.chain[i].next} :: 0 <= i < |k.chain| && i != q ==>
          k.chain[i].next == At(k.chain, if i + 1 == q then q + 1 else i + 1))
    && (forall i {:trigger k.chain[i].prev} :: 0 <= i < |k.chain| && i != q ==>
          k.chain[i].prev == PrevOf(k, if i == q + 1 then q else i))
  }

  lemma HoldsAt(head: Entry?, k: Bucket)
    requires head == At(k.chain, 0)
    requires forall i {:trigger k.chain[i]} :: 0 <= i < |k.chain| ==>
               k.chain[i].next == At(k.chain, i + 1) && k.chain[i].prev == PrevOf(k, i)
    ensures Holds(head, k)
  {
  }

  lemma SkipsAt(head: Entry?, k: Bucket, q: nat, j: nat)
    requires q < |k.chain| && Skips(head, k, q) && j < |k.chain| && j != q
    ensures k.chain[j].next == At(k.chain, if j + 1 == q then q + 1 else j + 1)
    ensures k.chain[j].prev == PrevOf(k, if j == q + 1 then q else j)
  {
  }

  lemma SkipsHolds(head: Entry?, k: Bucket, q: nat)
    requires q < |k.chain| && Skips(head, k, q)
    ensures Holds(head, Bucket(k.chain[..q] + k.chain[q + 1..], k.top))
  {
    var c := k.chain[..q] + k.chain[q + 1..];
    assert head == At(k.chain, if q == 0 then 1 else 0);
    hide Skips, Holds;
    assert forall i :: 0 <= i < |c| ==> c[i] == k.chain[if i < q then i else i + 1];
    forall i | 0 <= i < |c| ensures c[i].next == At(c, i + 1) && c[i].prev == PrevOf(Bucket(c, k.top), i) {
      SkipsAt(head, k, q, if i < q then i else i + 1);
    }
    HoldsAt(head, Bucket(c, k.top));
  }

  /** The chain of an entry that is not first, or has a null prev, goes past it. */
  lemma BypassHere(head: Entry?, k: Bucket, q: nat, ht: Entry, was: map<Entry, Links>)
    requires q < |k.chain| && k.chain[q] == ht && ht in was && Records(was, k) && NoDup(k.chain)
    requires Bypassed(ht, was) && (q > 0 || k.top == null)
    requires head == if was[ht].prev == null then was[ht].next else At(k.chain, 0)
    ensures Skips(head, k, q)
  {
    assert was[ht] == Links(At(k.chain, q + 1), PrevOf(k, q));
    forall i | 0 <= i < |k.chain| && i != q
      ensures k.chain[i].next == At(k.chain, if i + 1 == q then q + 1 else i + 1)
      ensures k.chain[i].prev == PrevOf(k, if i == q + 1 then q else i)
    {
      assert was[k.chain[i]] == Links(At(k.chain, i + 1), PrevOf(k, i));
    }
  }

  /** Entry number `q` of bucket `b` can be unlinked. */
  predicate Clear(t: seq<Bucket>, b: nat, q: nat)
    requires b < |t|
  {
    q > 0 || t[b].top == null
  }

  /** The prev of the first entries. */
  ghost function Tops(t: seq<Bucket>): set<Entry>
  {
    set b | 0 <= b < |t| && t[b].chain != [] && t[b].top != null :: t[b].top
  }

  /** `was` is about all buckets of `t`, whose first entries were in the array. */
  ghost predicate RecordsHeads(was: map<Entry, Links>, t: seq<Bucket>, heads: seq<Entry?>)
  {
    |heads| == |t| && forall b :: 0 <= b < |t| ==> Records(was, t[b]) && heads[b] == At(t[b].chain, 0)
  }

  ghost predicate AllIn(t: seq<Bucket>, ever: set<Entry>)
  {
    forall b, e :: 0 <= b < |t| && e in t[b].chain ==> e in ever
  }

  lemma AllRecorded(data: array<Entry?>, t: seq<Bucket>, ever: set<Entry>, es: set<Entry>)
    requires AllHold(data, t, ever) && ever <= es
    ensures RecordsHeads(LinksOf(es), t, data[..]) && AllIn(t, ever)
  {
    forall b | 0 <= b < |t| ensures Records(LinksOf(es), t[b]) && data[b] == At(t[b].chain, 0) {
      HeldRecords(data[b], t[b], es);
    }
  }

  lemma WithoutInEver(t: seq<Bucket>, b: nat, q: nat, ever: set<Entry>)
    requires b < |t| && q < |t[b].chain| && AllIn(t, ever)
    ensures AllIn(Without(t, b, q), ever)
  {
    var c, d := t[b].chain, Without(t, b, q)[b].chain;
    assert forall i :: 0 <= i < |d| ==> d[i] == c[if i < q then i else i + 1];
    assert forall e :: e in d ==> e in c;
  }

  /** Unlinking an entry that is clear takes it out of its bucket and leaves the others. */
  lemma BypassAll(data: array<Entry?>, t: seq<Bucket>, b: nat, q: nat, ever: set<Entry>, was: map<Entry, Links>,
                  heads: seq<Entry?>)
    requires RecordsHeads(was, t, heads) && AllIn(t, ever) && data.Length == |t|
    requires b < |t| && q < |t[b].chain| && Clear(t, b, q) && Apart(t, b, t[b].chain[q])
    requires t[b].chain[q] in was && Bypassed(t[b].chain[q], was)
    requires var ht := t[b].chain[q];
             && (forall c, e :: 0 <= c < |t| && c != b && e in t[c].chain ==> e != was[ht].prev && e != was[ht].next)
             && data[b] == (if was[ht].prev == null then was[ht].next else heads[b])
             && forall c :: 0 <= c < |t| && c != b ==> data[c] == heads[c]
    ensures AllHold(data, Without(t, b, q), ever)
  {
    var ht := t[b].chain[q];
    BypassHere(data[b], t[b], q, ht, was);
    SkipsHolds(data[b], t[b], q);
    WithoutInEver(t, b, q, ever);
    hide Records, Bypassed, Holds, Skips, At, NoDup;
    forall c | 0 <= c < |t| && c != b ensures Holds(data[c], t[c]) {
      BypassElsewhere(data[c], t[c], ht, was);
    }
  }

  /** The neighbours of an entry are in its chain, but for the prev of a first one, and in no other. */
  lemma Neighbours(t: seq<Bucket>, b: nat, q: nat, es: set<Entry>, was: map<Entry, Links>)
    requires b < |t| && q < |t[b].chain| && Records(was, t[b]) && Apart(t, b, t[b].chain[q])
    requires was.Keys == es && Tops(t) <= es
    ensures var ht := t[b].chain[q];
            && ht in was && (was[ht].next == null || was[ht].next in es) && (was[ht].prev == null || was[ht].prev in es)
            && was[ht].prev == PrevOf(t[b], q)
            && (Clear(t, b, q) ==> forall c, e :: 0 <= c < |t| && c != b && e in t[c].chain ==>
                                     e != was[ht].prev && e != was[ht].next)
  {
    var c := t[b].chain;
    assert was[c[q]] == Links(At(c, q + 1), PrevOf(t[b], q));
    if q + 1 < |c| {
      assert c[q + 1] in was && c[q + 1] in c;
    }
    if q > 0 {
      assert c[q - 1] in was && c[q - 1] in c;
    } else if t[b].top != null {
      assert t[b].top in Tops(t);
    }
  }

  /** Entry number `q` taken out of list number `index`, the others staying as they are. */
  method TakeApart(data: array<Entry?>, index: nat, ht: Entry, ghost t: seq<Bucket>, ghost q: nat,
                   ghost ever: set<Entry>, ghost es: set<Entry>)
    requires AllHold(data, t, ever) && index < |t| && q < |t[index].chain| && ht == t[index].chain[q]
    requires Apart(t, index, ht) && es == ever + Tops(t)
    modifies data, es`next, es`prev
    ensures ht in es && Bypassed(ht, old(LinksOf(es)))
    ensures if Clear(t, index, q) then AllHold(data, Without(t, index, q), ever) else data[..] == old(data[..])
  {
    ghost var was, heads := LinksOf(es), data[..];
    AllRecorded(data, t, ever, es);
    assert Records(was, t[index]);
    Neighbours(t, index, q, es, was);
    hide AllHold, Records, RecordsHeads, AllIn, Bypassed, Tops, Apart, Without;
    TakeOut(data, index, ht, es);
    if Clear(t, index, q) {
      BypassAll(data, t, index, q, ever, was, heads);
    } else {
      assert data[..] == heads;
    }
  }

  /** The entries outside table `t` are linked as they were when `was` was taken. */
  ghost predicate Kept(t: seq<Bucket>, was: map<Entry, Links>)
    reads was.Keys
  {
    forall e :: e in was && Absent(t, e) ==> e.next == was[e].next && e.prev == was[e].prev
  }

  ghost predicate Known(c: seq<Entry>, ever: set<Entry>)
  {
    forall e :: e in c ==> e in ever && e.hashCode == Code(e.key)
  }

  ghost predicate RecordsAll(was: map<Entry, Links>, s: seq<Bucket>)
  {
    forall c :: 0 <= c < |s| ==> Records(was, s[c])
  }

  class HashMap {
    var size: nat
    var used: Uint16
    var idx: nat
    var data: array<Entry?>
    ghost var table: seq<Bucket>
    /** Every entry that was ever in the table. */
    ghost var ever: set<Entry>
    /** The number of entries, of which `used` has the lower 16 bits. */
    ghost var count: nat

    /** The array and the links hold the table. */
    ghost predicate Wired()
      reads this, data, ever
    {
      size == |table| && Placed(table) && AllHold(data, table, ever) && used == Wrap(count)
    }

    /** hashmap_link. */
    method Link(elm: Entry)
      requires Wired() && size > 0 && elm !in table[Index(elm.key, size)].chain && elm.hashCode == Code(elm.key)
      modifies this`used, this`count, this`table, this`ever, data
      modifies elm`next, table[Index(elm.key, size)].chain`prev
      ensures Wired() && table == Put(old(table), elm, old(elm.prev))
      ensures ever == old(ever) + {elm} && count == old(count) + 1
    {
      hide AllHold, Index, Code, Placed, Apart, Wrap;
      ghost var t, p := table, elm.prev;
      var index := HashIndex(elm.key, size);
      PutPlaced(t, elm, p);
      WrapNext(count);
      Elsewhere(t, elm);
      PushApart(data, index, elm, t, ever);
      Count(elm, p);
    }

    /** The bookkeeping of hashmap_link. */
    method Count(elm: Entry, ghost p: Entry?)
      requires table != []
      modifies this`used, this`count, this`table, this`ever
      ensures used == (if old(used) + 1 == USED_LIMIT then 0 else old(used) + 1)
              && count == old(count) + 1 && ever == old(ever) + {elm}
      ensures table == Put(old(table), elm, p)
    {
      used, count := if used + 1 == USED_LIMIT then 0 else used + 1, count + 1;
      ever := ever + {elm};
      table := Put(table, elm, p);
    }

    // ---------- growth ----------

    /** hashmap_link of an entry from the old table. */
    method LinkKept(elm: Entry, ghost was: map<Entry, Links>)
      requires Wired() && size > 0 && Absent(table, elm) && elm in ever && elm.hashCode == Code(elm.key)
      requires Kept(table, was)
      modifies this`used, this`count, this`table, this`ever, data, ever`prev, elm`next
      ensures Wired() && table == Put(old(table), elm, old(elm.prev)) && ever == old(ever) && count == old(count) + 1
      ensures Kept(table, was)
    {
      InEver(elm);
      ghost var t, p := table, elm.prev;
      ghost var c := t[Index(elm.key, size)].chain;
      forall e | Absent(Put(t, elm, p), e) ensures Absent(t, e) && e != elm && e !in c {
        PutKeeps(t, elm, p, e);
        PutIn(t, elm, p, e);
      }
      hide Wired, Put, Index, Code, Absent;
      Link(elm);
    }

    lemma InEver(e: Entry)
      requires Wired() && size > 0
      ensures |table| == size
      ensures forall f :: f in table[Index(e.key, size)].chain ==> f in ever
    {
    }

    /** The state of the inner loop of hashmap_grow: `p` entries of the old bucket `k` were linked into the
        table that was `t` with `n` entries. */
    ghost predicate Relinking(t: seq<Bucket>, n: nat, k: Bucket, p: nat, was: map<Entry, Links>)
      reads this, data, ever, was.Keys
    {
      && Wired() && t != [] && p <= |k.chain| && table == PutChain(t, k, p) && count == n + p
      && NoDup(k.chain) && Unlinked(table, k.chain, p) && Known(k.chain, ever)
      && Kept(table, was) && Records(was, k)
    }

    /** One turn of it. */
    method RelinkOne(ht: Entry, ghost t: seq<Bucket>, ghost n: nat, ghost k: Bucket, ghost p: nat,
                     ghost was: map<Entry, Links>)
      returns (next: Entry?)
      requires Relinking(t, n, k, p, was) && ht == At(k.chain, p)
      modifies this`used, this`count, this`table, this`ever, data, ever`prev, ever`next
      ensures Relinking(t, n, k, p + 1, was) && next == At(k.chain, p + 1) && ever == old(ever)
    {
      next := ht.next;
      assert Absent(table, ht) && ht.prev == PrevOf(k, p);
      UnlinkedPut(table, k.chain, p, ht.prev);
      PutChainNext(t, k, p);
      hide Wired, Put, PutChain, Index, Code, Unlinked, NoDup, PrevOf, Absent;
      assert next == At(k.chain, p + 1);
      hide Records, Kept, At;
      LinkKept(ht, was);
    }

    lemma RelinkStart(k: Bucket, was: map<Entry, Links>)
      requires Wired() && size > 0
      requires NoDup(k.chain) && Unlinked(table, k.chain, 0) && Kept(table, was) && Records(was, k)
      requires Known(k.chain, ever)
      ensures Relinking(table, count, k, 0, was)
    {
      PutChainStart(table, k);
    }

    /** The inner loop: the old bucket `k` from its head on. */
    method RelinkChain(head: Entry?, ghost k: Bucket, ghost was: map<Entry, Links>)
      requires Wired() && size > 0 && head == At(k.chain, 0)
      requires NoDup(k.chain) && Unlinked(table, k.chain, 0) && Kept(table, was) && Records(was, k)
      requires Known(k.chain, ever)
      modifies this`used, this`count, this`table, this`ever, data, ever`prev, ever`next
      ensures Relinking(old(table), old(count), k, |k.chain|, was) && ever == old(ever)
    {
      hide *;
      ghost var t, n := table, count;
      RelinkStart(k, was);
      var ht := head;
      ghost var p: nat := 0;
      while ht != null
        invariant p <= |k.chain| && ht == At(k.chain, p) && Relinking(t, n, k, p, was)
        invariant ever == old(ever) && data == old(data)
        decreases |k.chain| - p
      {
        ht := RelinkOne(ht, t, n, k, p, was);
        p := p + 1;
      }
    }

    /** The outer loop of hashmap_grow: every bucket of the old array `h`, which held `s`. */
    method RelinkAll(h: array<Entry?>, ghost s: seq<Bucket>, ghost was: map<Entry, Links>)
      requires Wired() && size > 0 && table == Empty(size) && count == 0 && h != data
      requires Placed(s) && Kept(table, was) && RecordsAll(was, s)
      requires h.Length == |s| && forall c :: 0 <= c < |s| ==> h[c] == At(s[c].chain, 0)
      requires forall c, e :: 0 <= c < |s| && e in s[c].chain ==> e in ever
      modifies this`used, this`count, this`table, this`ever, data, ever`prev, ever`next
      ensures Wired() && table == PutAll(Empty(size), s, |s|) && ever == old(ever)
      ensures count == Total(s, |s|)
    {
      PutAllStart(table, s);
      hide Wired, PutAll, PutChain, Kept, Records, RecordsAll, Waiting, Unlinked, NoDup, At;
      var i := 0;
      while i < h.Length
        invariant i <= |s| && Wired() && ever == old(ever)
        invariant table == PutAll(Empty(size), s, i) && count == Total(s, i)
        invariant Waiting(table, s, i) && Kept(table, was)
      {
        RelinkNth(h[i], i, s, was);
        i := i + 1;
      }
    }

    /** One turn of it: old bucket number `i`. */
    method RelinkNth(head: Entry?, ghost i: nat, ghost s: seq<Bucket>, ghost was: map<Entry, Links>)
      requires Wired() && size > 0 && i < |s| && table == PutAll(Empty(size), s, i)
      requires Placed(s) && Kept(table, was) && RecordsAll(was, s) && Waiting(table, s, i)
      requires head == At(s[i].chain, 0)
      requires forall c, e :: 0 <= c < |s| && e in s[c].chain ==> e in ever
      modifies this`used, this`count, this`table, this`ever, data, ever`prev, ever`next
      ensures Wired() && table == PutAll(Empty(size), s, i + 1) && ever == old(ever)
      ensures count == old(count) + |s[i].chain|
      ensures Waiting(table, s, i + 1) && Kept(table, was)
    {
      WaitingNext(table, s, i);
      PutAllNext(Empty(size), s, i);
      hide Wired, PutAll, PutChain, Kept, Waiting, Unlinked, NoDup, At, Records;
      RelinkChain(head, s[i], was);
    }

    /** hashmap_size: a new array of empty buckets. */
    method SizeTo(n: nat)
      modifies this`data, this`size, this`used, this`table, this`count
      ensures Wired() && table == Empty(n) && size == n && count == 0 && fresh(data)
    {
      data := new Entry?[n];
      size, used, count := n, 0, 0;
      for i := 0 to n
        invariant fresh(data) && data.Length == n && size == n && used == 0 && count == 0
        invariant forall j :: 0 <= j < i ==> data[j] == null
      {
        data[i] := null;
      }
      table := Empty(n);
    }

    /** hashmap_grow: all entries relinked in an array of the next size. */
    method Grow()
      requires Wired() && idx + 1 < PRIME_COUNT
      modifies this, ever`prev, ever`next
      ensures Wired() && idx == old(idx) + 1 && size == Prime(idx) && fresh(data) && ever == old(ever)
      ensures table == Regrown(old(table), size) && count == Total(old(table), |old(table)|)
    {
      var h := data;
      ghost var s, was: map<Entry, Links> := table, map e | e in ever :: Links(e.next, e.prev);
      Recorded(s, was);
      idx := idx + 1;
      SizeTo(Prime(idx));
      hide Wired, PutAll, Kept, RecordsAll, Placed;
      RelinkAll(h, s, was);
    }

    lemma Recorded(s: seq<Bucket>, was: map<Entry, Links>)
      requires Wired() && s == table && was.Keys == ever
      requires forall e :: e in ever ==> was[e] == Links(e.next, e.prev)
      ensures Placed(s) && RecordsAll(was, s)
      ensures data.Length == |s| && forall c :: 0 <= c < |s| ==> data[c] == At(s[c].chain, 0)
      ensures forall t :: Kept(t, was)
      ensures forall c, e :: 0 <= c < |s| && e in s[c].chain ==> e in ever
    {
    }

    // ---------- the interface ----------

    /** Wired, the counters fit, and there are no more entries than buckets as far as `used` can tell. */
    ghost predicate Valid()
      reads this, data, ever
    {
      && Wired() && count == |Entries(table)|
      && idx < PRIME_COUNT && (size == 0 || size == Prime(idx))
      && used <= size && (count >= USED_LIMIT ==> size >= USED_LIMIT)
    }

    /** The map of hashmap_create, once the prime is found. */
    constructor (i: nat)
      requires i < PRIME_COUNT
      ensures Valid() && table == [] && idx == i && count == 0 && fresh(data) && ever == {}
    {
      size, used, idx := 0, 0, i;
      data := new Entry?[0];
      table, ever, count := [], {}, 0;
    }

    /** hashmap_create: null when the size is negative, which the comparison makes a number above all primes, or
        when no prime is above it. The first table gets the prime after the one found. */
    static method Create(size: Int32) returns (h: HashMap?)
      ensures h == null <==> size < 0 || forall i :: 0 <= i < PRIME_COUNT ==> Prime(i) <= size
      ensures h != null ==> fresh(h) && h.Valid() && h.table == [] && size < Prime(h.idx)
      ensures h != null ==> forall i :: 0 <= i < h.idx ==> Prime(i) <= size
    {
      var unsigned: nat := if size < 0 then size + WORD else size;
      PrimesBelow();
      hide Prime;
      var i := 0;
      while i < PRIME_COUNT && unsigned >= Prime(i)
        invariant i <= PRIME_COUNT && forall j :: 0 <= j < i ==> Prime(j) <= unsigned
      {
        i := i + 1;
      }
      if i >= PRIME_COUNT {
        return null;
      }
      h := new HashMap(i);
    }

    /** Room for one more entry, growing when there is none. */
    method MakeRoom()
      requires Valid() && (used >= size ==> idx + 1 < PRIME_COUNT)
      modifies this, ever`prev, ever`next
      ensures Valid() && used < size && ever == old(ever) && (data == old(data) || fresh(data))
      ensures count == old(count)
      ensures if old(used >= size) then idx == old(idx) + 1 && size == Prime(idx) && table == Regrown(old(table), size)
              else idx == old(idx) && size == old(size) && table == old(table)
    {
      hide Prime, Entries, Wrap;
      if used >= size {
        ghost var t := table;
        if size > 0 {
          Ascending(idx);
        }
        SameUsed();
        Grow();
        GrowthConserves(t, size);
        SameUsed();
      }
    }

    lemma SameUsed()
      requires Wired()
      ensures used == Wrap(count)
    {
    }

    /** hashmap_insert. */
    method Insert(key: Key, value: Option<string>) returns (ht: Entry)
      requires Valid() && (used >= size ==> idx + 1 < PRIME_COUNT)
      modifies this, data, ever`prev, ever`next
      ensures Valid() && fresh(ht) && ht.key == key && ht.value == value && ever == old(ever) + {ht}
      ensures count == old(count) + 1 && (data == old(data) || fresh(data))
      ensures idx == if old(used >= size) then old(idx) + 1 else old(idx)
      ensures size == if old(used >= size) then Prime(idx) else old(size)
      ensures table == Put(if old(used >= size) then Regrown(old(table), size) else old(table), ht, null)
    {
      hide Prime, Entries, Wrap, Regrown;
      MakeRoom();
      var code := HashCode(key);
      ht := new Entry(key, code, value);
      LinkAdds(table, ht, null);
      LinkNew(ht);
    }

    /** hashmap_link of a new entry, for which there is room. */
    method LinkNew(ht: Entry)
      requires Valid() && used < size && ht !in ever && ht.hashCode == Code(ht.key) && ht.prev == null
      requires |Entries(Put(table, ht, null))| == |Entries(table)| + 1
      modifies this`used, this`count, this`table, this`ever, data, ever`prev, ht`next
      ensures Valid() && table == Put(old(table), ht, null) && ever == old(ever) + {ht} && count == old(count) + 1
    {
      InEver(ht);
      SameUsed();
      WrapNext(count);
      hide Wired, Entries, Prime, Put, Wrap, Index, Code;
      Link(ht);
      SameUsed();
    }

    /** The loop of hashmap_find, hashmap_locate and hashmap_delete: the first entry of the bucket with the
        key. The hash codes are compared before the keys, which changes nothing. */
    method Search(key: Key) returns (ht: Entry?, index: nat, ghost q: nat)
      requires Wired() && size > 0
      ensures index == Index(key, size) && index < |table| && q <= |table[index].chain|
      ensures forall i :: 0 <= i < q ==> table[index].chain[i].key != key
      ensures ht == At(table[index].chain, q) && (ht != null ==> ht.key == key)
    {
      index := HashIndex(key, size);
      var code := HashCode(key);
      ht := data[index];
      q := 0;
      ghost var c := table[index].chain;
      while ht != null
        invariant q <= |c| && ht == At(c, q)
        invariant forall i :: 0 <= i < q ==> c[i].key != key
        decreases |c| - q
      {
        assert ht in c;
        if |key| == |ht.key| && code == ht.hashCode && key == ht.key {
          return;
        }
        ht := ht.next;
        q := q + 1;
      }
    }

    /** hashmap_locate. */
    method Locate(key: Key) returns (ht: Entry?)
      requires Wired() && size > 0
      ensures Matching(table, key) == if ht == null then None else Some(ht)
    {
      ghost var q;
      var index;
      ht, index, q := Search(key);
      SearchMeans(table[index].chain, key, q);
    }

    /** hashmap_find. */
    method Find(key: Key) returns (value: Option<string>)
      requires Wired() && size > 0
      ensures value == match Matching(table, key) case None => None case Some(e) => e.value
    {
      var ht := Locate(key);
      value := if ht == null then None else ht.value;
    }

    /** --used. */
    method Uncount(ghost t: seq<Bucket>, ghost ht: Entry, ghost was: map<Entry, Links>)
      requires count > 0 && ht in was && Bypassed(ht, was)
      modifies this`used, this`count, this`table
      ensures used == (if old(used) == 0 then USED_LIMIT - 1 else old(used) - 1)
      ensures count == old(count) - 1 && table == t && Bypassed(ht, was)
    {
      used, count, table := if used == 0 then USED_LIMIT - 1 else used - 1, count - 1, t;
    }

    lemma RemovalFacts(b: nat, q: nat)
      requires Valid() && b < |table| && q < |table[b].chain|
      ensures count > 0 && Apart(table, b, table[b].chain[q]) && AllHold(data, table, ever)
      ensures Placed(Without(table, b, q)) && |Without(table, b, q)| == size && |Entries(Without(table, b, q))| == count - 1
      ensures Wrap(count - 1) == if used == 0 then USED_LIMIT - 1 else used - 1
      ensures used == 0 ==> count >= USED_LIMIT
      ensures size == |table| && idx < PRIME_COUNT && (size == 0 || size == Prime(idx))
      ensures used <= size && (count >= USED_LIMIT ==> size >= USED_LIMIT)
    {
      RemovalTakes(table, b, q);
      WithoutPlaced(table, b, q);
      WrapBefore(count);
      assert table[b].chain[q] in table[b].chain;
      Elsewhere(table, table[b].chain[q]);
    }

    /** The entries that unlinking an entry can change. */
    ghost function Touched(): set<Entry>
      reads this
    {
      ever + Tops(table)
    }

    /** The links and the array when an entry is unlinked. */
    method Detach(ht: Entry, b: nat, ghost q: nat)
      requires b < |table| && q < |table[b].chain| && ht == table[b].chain[q]
      requires AllHold(data, table, ever) && Apart(table, b, ht)
      modifies data, Touched()`next, Touched()`prev
      ensures ht in Touched() && ht in old(LinksOf(Touched())) && Bypassed(ht, old(LinksOf(Touched())))
      ensures if Clear(table, b, q) then AllHold(data, Without(table, b, q), ever) else data[..] == old(data[..])
    {
      hide AllHold, Apart, Without, Tops, Clear, Bypassed;
      TakeApart(data, b, ht, table, q, ever, Touched());
    }

    /** The unlinking of hashmap_delete. */
    method Extract(ht: Entry, b: nat, ghost q: nat)
      requires Valid() && b < |table| && q < |table[b].chain| && ht == table[b].chain[q]
      modifies this`used, this`count, this`table, data, Touched()`next, Touched()`prev
      ensures used == if old(used) == 0 then USED_LIMIT - 1 else old(used) - 1
      ensures count == old(count) - 1 && ht in old(Touched()) && Bypassed(ht, old(LinksOf(Touched())))
      ensures if Clear(old(table), b, q) then Valid() && table == Without(old(table), b, q)
              else data[..] == old(data[..])
    {
      hide *;
      ghost var t := table;
      RemovalFacts(b, q);
      ghost var t', clear := Without(t, b, q), Clear(t, b, q);
      ghost var was := LinksOf(Touched());
      Detach(ht, b, q);
      Uncount(t', ht, was);
      if clear {
        ValidFromParts();
      }
    }

    lemma ValidFromParts()
      requires size == |table| && Placed(table) && AllHold(data, table, ever) && used == Wrap(count)
      requires count == |Entries(table)| && idx < PRIME_COUNT && (size == 0 || size == Prime(idx))
      requires used <= size && (count >= USED_LIMIT ==> size >= USED_LIMIT)
      ensures Valid()
    {
    }

    lemma SizeIs()
      requires Valid()
      ensures Wired() && size == |table|
    {
    }

    /** The search of hashmap_delete. */
    method SearchEntry(key: Key) returns (ht: Entry?, index: nat, ghost q: nat)
      requires Wired() && size > 0
      ensures index < |table| && q <= |table[index].chain|
      ensures if ht == null then Matching(table, key) == None
              else q < |table[index].chain| && ht == table[index].chain[q] && Matching(table, key) == Some(ht)
      ensures LinksOf(Touched()) == old(LinksOf(Touched()))
    {
      hide Placed, AllHold, Lookup, Index, Tops, Wrap;
      ghost var es := Touched();
      ghost var was := LinksOf(es);
      ht, index, q := Search(key);
      SearchMeans(table[index].chain, key, q);
      assert Touched() == es;
      assert forall e :: e in es ==> e.next == was[e].next && e.prev == was[e].prev;
      assert LinksOf(es) == was;
    }

    /** hashmap_delete: 0 when an entry was taken out, 1 when there is none with the key. The entry leaves
        the table unless it is the first of its bucket and has a stale prev: then the array stays as it is and
        the entry at that prev loses what was behind it. */
    method Delete(key: Key) returns (r: int, ghost b: nat, ghost q: nat)
      requires Valid() && size > 0
      modifies this`used, this`count, this`table, data, Touched()`next, Touched()`prev
      ensures r == 0 || r == 1
      ensures r == 1 <==> Matching(old(table), key) == None
      ensures r == 1 ==> table == old(table) && used == old(used) && count == old(count)
      ensures r == 0 ==>
                && b < |old(table)| && q < |old(table)[b].chain|
                && Matching(old(table), key) == Some(old(table)[b].chain[q])
                && used == (if old(used) == 0 then USED_LIMIT - 1 else old(used) - 1)
                && count == old(count) - 1 && old(table)[b].chain[q] in old(Touched())
                && Bypassed(old(table)[b].chain[q], old(LinksOf(Touched())))
      ensures r == 0 ==> if Clear(old(table), b, q) then table == Without(old(table), b, q)
                         else data[..] == old(data[..])
      ensures r == 1 || Clear(old(table), b, q) ==> Valid()
    {
      hide *;
      SizeIs();
      var index, ht;
      ht, index, q := SearchEntry(key);
      b := index;
      if ht == null {
        return 1, b, q;
      }
      Extract(ht, index, q);
      return 0, b, q;
    }

    /** Whether hashmap_delete of the key would go wrong, which a caller can see beforehand. */
    method Deletable(key: Key) returns (ok: bool)
      requires Wired() && size > 0
      ensures ok <==> !StaleKey(table, key)
    {
      var index := HashIndex(key, size);
      var ht := data[index];
      ok := ht == null || ht.key != key || ht.prev == null;
    }

    /** hashmap_list: all entries and a null behind them, in an array for `used` entries. */
    method List() returns (list: array<Entry?>)
      requires Valid() && count < USED_LIMIT
      ensures fresh(list) && list.Length == |Entries(table)| + 1
      ensures forall j :: 0 <= j < |Entries(table)| ==> list[j] == Entries(table)[j]
      ensures list[|Entries(table)|] == null
    {
      hide *;
      UsedIs();
      list := new Entry?[used + 1](_ => null);
      var cnt := 0;
      ghost var es := Entries(table);
      NoEntriesYet(table);
      ListedNone(list[..], es);
      for i := 0 to size
        invariant cnt == |Entries(table[..i])| && Listed(list[..], es, cnt)
      {
        EntriesFrom(table, i);
        HeldBucket(i);
        cnt := ListBucket(list, cnt, data[i], table[i], es);
      }
      AllEntries(table);
      ListedAll(list[..], es, cnt);
      list[cnt] := null;
    }

    lemma UsedIs()
      requires Valid() && count < USED_LIMIT
      ensures used == |Entries(table)| && Wired() && size == |table|
    {
    }

    lemma HeldBucket(i: nat)
      requires Wired() && i < size
      ensures data.Length == size == |table| && Holds(data[i], table[i])
    {
    }

    /** hashmap_walk: the entries the action is called with, in order. */
    method Walk() returns (visited: seq<Entry>)
      requires Wired()
      ensures visited == Entries(table)
    {
      visited := [];
      hide Entries, Placed, Holds;
      NoEntriesYet(table);
      for i := 0 to size
        invariant visited == Entries(table[..i])
      {
        EntriesSnoc(table, i);
        var part := WalkBucket(data[i], table[i]);
        visited := visited + part;
      }
      AllEntries(table);
    }
  }

  /** The array of hashmap_list when `cnt` entries are in it. */
  ghost predicate Listed(list: seq<Entry?>, es: seq<Entry>, cnt: nat)
  {
    cnt <= |es| < |list| && forall j :: 0 <= j < cnt ==> list[j] == es[j]
  }

  lemma ListedNone(list: seq<Entry?>, es: seq<Entry>)
    requires |es| < |list|
    ensures Listed(list, es, 0)
  {
  }

  lemma ListedAll(list: seq<Entry?>, es: seq<Entry>, cnt: nat)
    requires Listed(list, es, cnt)
    ensures cnt < |list| && forall j :: 0 <= j < cnt ==> list[j] == es[j]
  {
  }

  /** The inner loop of hashmap_list: the chain is what `es` has from `from` on. */
  method ListBucket(list: array<Entry?>, from: nat, head: Entry?, ghost k: Bucket, ghost es: seq<Entry>)
    returns (cnt: nat)
    requires Holds(head, k) && from + |k.chain| <= |es| && k.chain == es[from..from + |k.chain|]
    requires Listed(list[..], es, from)
    modifies list
    ensures cnt == from + |k.chain| && Listed(list[..], es, cnt)
  {
    var member := head;
    cnt := from;
    while member != null
      invariant from <= cnt <= from + |k.chain| && member == At(k.chain, cnt - from)
      invariant forall j :: 0 <= j < cnt ==> list[j] == es[j]
      decreases from + |k.chain| - cnt
    {
      list[cnt] := member;
      member := member.next;
      cnt := cnt + 1;
    }
  }

  /** The inner loop of hashmap_walk. */
  method WalkBucket(head: Entry?, ghost k: Bucket) returns (visited: seq<Entry>)
    requires Holds(head, k)
    ensures visited == k.chain
  {
    var ht := head;
    visited := [];
    while ht != null
      invariant |visited| <= |k.chain| && visited == k.chain[..|visited|] && ht == At(k.chain, |visited|)
      decreases |k.chain| - |visited|
    {
      visited := visited + [ht];
      ht := ht.next;
    }
  }

  lemma AllEntries(t: seq<Bucket>)
    ensures Entries(t[..|t|]) == Entries(t)
  {
    TakeAll(t);
  }

  lemma SearchMeans(c: seq<Entry>, key: Key, q: nat)
    requires q <= |c| && (forall i :: 0 <= i < q ==> c[i].key != key) && (q < |c| ==> c[q].key == key)
    ensures Lookup(c, key) == if q < |c| then Some(c[q]) else None
  {
    if q < |c| {
      LookupAt(c, q);
    } else {
      NoKey(c, key);
    }
  }
}
