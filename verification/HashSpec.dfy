/** The table of hashmap/hashmap.c on values: what each bucket chain contains. */
module HashSpec {
  import opened Options
  import opened Seqs

  // ---------- hash functions ----------

  type Char = c: int | -128 <= c < 128
  type Key = seq<Char>

  const WORD := 0x1_0000_0000

  /** `hash` and `a` of hashcode_index after `i` characters. */
  function RsState(key: Key, i: nat): (r: (nat, nat))
    requires i <= |key|
  {
    if i == 0 then (0, 63689)
    else
      var (hash, a) := RsState(key, i - 1);
      ((hash * a + key[i - 1]) % WORD, a * 378551 % WORD)
  }

  /** hashcode_index. */
  function Index(key: Key, size: nat): (i: nat)
    requires size > 0
    ensures i < size
  {
    RsState(key, |key|).0 % 0x8000_0000 % size
  }

  /** `hash` of hashcode_create after `i` characters. */
  function BkdrState(key: Key, i: nat): nat
    requires i <= |key|
  {
    if i == 0 then 0 else (BkdrState(key, i - 1) * 131 + key[i - 1]) % WORD
  }

  /** hashcode_create. */
  function Code(key: Key): nat { BkdrState(key, |key|) % 0x8000_0000 }

  // ---------- chains ----------

  /** struct hashmap_entry_s; a value may be null. */
  class Entry {
    const key: Key
    const hashCode: nat
    const value: Option<string>
    var next: Entry?
    var prev: Entry?

    constructor (key: Key, hashCode: nat, value: Option<string>)
      ensures this.key == key && this.hashCode == hashCode && this.value == value && next == null && prev == null
    {
      this.key, this.hashCode, this.value := key, hashCode, value;
      next, prev := null, null;
    }
  }

  /** The entries of a bucket, first one first, and the `prev` of the first one. */
  datatype Bucket = Bucket(chain: seq<Entry>, top: Entry?)

  function PrevOf(k: Bucket, q: nat): Entry?
    requires q < |k.chain|
  {
    if q == 0 then k.top else k.chain[q - 1]
  }

  predicate NoDup(es: seq<Entry>) { forall i, j :: 0 <= i < j < |es| ==> es[i] != es[j] }

  /** Every entry is in the bucket of its key, once, and carries the hash code of its key. */
  ghost predicate Placed(t: seq<Bucket>)
  {
    && (forall b, e :: 0 <= b < |t| && e in t[b].chain ==> Index(e.key, |t|) == b)
    && (forall b, e :: 0 <= b < |t| && e in t[b].chain ==> e.hashCode == Code(e.key))
    && (forall b :: 0 <= b < |t| ==> NoDup(t[b].chain))
  }

  function Empty(n: nat): (t: seq<Bucket>)
    ensures |t| == n && forall b :: 0 <= b < n ==> t[b] == Bucket([], null)
  {
    seq(n, _ => Bucket([], null))
  }

  /** hashmap_link of an entry whose prev is `p`. */
  function Put(t: seq<Bucket>, e: Entry, p: Entry?): (r: seq<Bucket>)
    requires t != []
    ensures |r| == |t|
  {
    var b := Index(e.key, |t|);
    t[b := Bucket([e] + t[b].chain, p)]
  }

  /** The first `n` entries of bucket `k` linked into `t`. */
  function PutChain(t: seq<Bucket>, k: Bucket, n: nat): (r: seq<Bucket>)
    requires t != [] && n <= |k.chain|
    ensures |r| == |t|
    decreases n
  {
    if n == 0 then t else Put(PutChain(t, k, n - 1), k.chain[n - 1], PrevOf(k, n - 1))
  }

  lemma PutChainStart(t: seq<Bucket>, k: Bucket)
    requires t != []
    ensures PutChain(t, k, 0) == t
  {
  }

  lemma PutChainNext(t: seq<Bucket>, k: Bucket, n: nat)
    requires t != [] && n < |k.chain|
    ensures PutChain(t, k, n + 1) == Put(PutChain(t, k, n), k.chain[n], PrevOf(k, n))
  {
  }

  /** The first `n` buckets of `s` linked into `t`. */
  function PutAll(t: seq<Bucket>, s: seq<Bucket>, n: nat): (r: seq<Bucket>)
    requires t != [] && n <= |s|
    ensures |r| == |t|
    decreases n
  {
    if n == 0 then t else PutChain(PutAll(t, s, n - 1), s[n - 1], |s[n - 1].chain|)
  }

  lemma PutAllStart(t: seq<Bucket>, s: seq<Bucket>)
    requires t != []
    ensures PutAll(t, s, 0) == t
  {
  }

  lemma PutAllNext(t: seq<Bucket>, s: seq<Bucket>, n: nat)
    requires t != [] && n < |s|
    ensures PutAll(t, s, n + 1) == PutChain(PutAll(t, s, n), s[n], |s[n].chain|)
  {
  }

  /** hashmap_grow to `size` buckets. */
  function Regrown(t: seq<Bucket>, size: nat): seq<Bucket>
    requires size > 0
  {
    PutAll(Empty(size), t, |t|)
  }

  /** All entries, bucket by bucket. */
  function Entries(t: seq<Bucket>): seq<Entry>
  {
    if t == [] then [] else t[0].chain + Entries(t[1..])
  }

  /** The first entry with the key. */
  function Lookup(es: seq<Entry>, key: Key): Option<Entry>
  {
    if es == [] then None else if es[0].key == key then Some(es[0]) else Lookup(es[1..], key)
  }

  /** hashmap_locate. */
  function Matching(t: seq<Bucket>, key: Key): Option<Entry>
    requires t != []
  {
    Lookup(t[Index(key, |t|)].chain, key)
  }

  /** The table without entry number `q` of bucket `b`. */
  function Without(t: seq<Bucket>, b: nat, q: nat): seq<Bucket>
    requires b < |t| && q < |t[b].chain|
  {
    t[b := Bucket(t[b].chain[..q] + t[b].chain[q + 1..], t[b].top)]
  }

  /** The other buckets share nothing with bucket `b` and do not contain `e`. */
  ghost predicate Apart(t: seq<Bucket>, b: nat, e: Entry)
    requires b < |t|
  {
    && NoDup(t[b].chain)
    && forall c, f :: 0 <= c < |t| && c != b && f in t[c].chain ==> f != e && f !in t[b].chain
  }

  lemma Elsewhere(t: seq<Bucket>, e: Entry)
    requires t != [] && Placed(t)
    ensures Apart(t, Index(e.key, |t|), e)
  {
    var b := Index(e.key, |t|);
    forall c, f | 0 <= c < |t| && c != b && f in t[c].chain ensures f != e && f !in t[b].chain {
      assert Index(f.key, |t|) == c;
    }
  }

  lemma PutPlaced(t: seq<Bucket>, e: Entry, p: Entry?)
    requires t != [] && Placed(t) && e !in t[Index(e.key, |t|)].chain && e.hashCode == Code(e.key)
    ensures Placed(Put(t, e, p))
  {
    var b := Index(e.key, |t|);
    var c := t[b].chain;
    hide Index, Code;
    assert forall q :: 1 <= q < |[e] + c| ==> ([e] + c)[q] == c[q - 1];
    assert NoDup([e] + c);
  }

  lemma WithoutPlaced(t: seq<Bucket>, b: nat, q: nat)
    requires b < |t| && q < |t[b].chain| && Placed(t)
    ensures Placed(Without(t, b, q))
  {
    hide Index, Code;
    var c, d := t[b].chain, Without(t, b, q)[b].chain;
    assert forall i :: 0 <= i < |d| ==> d[i] == c[if i < q then i else i + 1];
    assert forall e :: e in d ==> e in c;
    assert NoDup(d);
  }

  /** Entry `e` is in no bucket. */
  ghost predicate Absent(t: seq<Bucket>, e: Entry) { forall b :: 0 <= b < |t| ==> e !in t[b].chain }

  /** The entries of `es` from number `p` on are in no bucket. */
  ghost predicate Unlinked(t: seq<Bucket>, es: seq<Entry>, p: nat) { forall q :: p <= q < |es| ==> Absent(t, es[q]) }

  lemma AbsentPut(t: seq<Bucket>, e: Entry, p: Entry?, f: Entry)
    requires t != [] && Absent(t, f) && f != e
    ensures Absent(Put(t, e, p), f)
  {
    hide Index;
    var b := Index(e.key, |t|);
    assert forall q :: 0 <= q < |[e] + t[b].chain| ==> ([e] + t[b].chain)[q] == if q == 0 then e else t[b].chain[q - 1];
  }

  lemma UnlinkedPut(t: seq<Bucket>, es: seq<Entry>, p: nat, x: Entry?)
    requires t != [] && NoDup(es) && p < |es| && Unlinked(t, es, p)
    ensures Unlinked(Put(t, es[p], x), es, p + 1)
  {
    forall q | p + 1 <= q < |es| ensures Absent(Put(t, es[p], x), es[q]) {
      AbsentPut(t, es[p], x, es[q]);
    }
  }

  lemma PutKeeps(t: seq<Bucket>, e: Entry, p: Entry?, f: Entry)
    requires t != [] && Absent(Put(t, e, p), f)
    ensures Absent(t, f)
  {
    hide Index;
    var b := Index(e.key, |t|);
    var r := Put(t, e, p);
    forall c | 0 <= c < |t| ensures f !in t[c].chain {
      assert f !in r[c].chain;
      assert c == b ==> forall q :: 0 <= q < |t[b].chain| ==> r[b].chain[q + 1] == t[b].chain[q];
    }
  }

  lemma PutIn(t: seq<Bucket>, e: Entry, p: Entry?, f: Entry)
    requires t != [] && Absent(Put(t, e, p), f)
    ensures f != e && f !in t[Index(e.key, |t|)].chain
  {
    hide Index;
    var b := Index(e.key, |t|);
    assert f !in Put(t, e, p)[b].chain;
    assert ([e] + t[b].chain)[0] == e;
    assert forall q :: 0 <= q < |t[b].chain| ==> ([e] + t[b].chain)[q + 1] == t[b].chain[q];
  }

  lemma {:induction false} AbsentPutChain(t: seq<Bucket>, k: Bucket, n: nat, f: Entry)
    requires t != [] && n <= |k.chain| && Absent(t, f) && f !in k.chain
    ensures Absent(PutChain(t, k, n), f)
    decreases n
  {
    if n > 0 {
      AbsentPutChain(t, k, n - 1, f);
      AbsentPut(PutChain(t, k, n - 1), k.chain[n - 1], PrevOf(k, n - 1), f);
    }
  }

  /** Buckets of `s` from number `i` on are not in `t`. */
  ghost predicate Waiting(t: seq<Bucket>, s: seq<Bucket>, i: nat)
  {
    forall c, f :: i <= c < |s| && f in s[c].chain ==> Absent(t, f)
  }

  lemma OtherBuckets(s: seq<Bucket>, i: nat)
    requires i < |s| && Placed(s)
    ensures forall c, f :: i < c < |s| && f in s[c].chain ==> f !in s[i].chain
  {
    forall c, f | i < c < |s| && f in s[c].chain ensures f !in s[i].chain {
      assert Index(f.key, |s|) == c;
    }
  }

  lemma WaitingNext(t: seq<Bucket>, s: seq<Bucket>, i: nat)
    requires t != [] && i < |s| && Placed(s) && Waiting(t, s, i)
    ensures NoDup(s[i].chain) && Unlinked(t, s[i].chain, 0)
    ensures Waiting(PutChain(t, s[i], |s[i].chain|), s, i + 1)
  {
    OtherBuckets(s, i);
    hide PutChain, Absent;
    forall c, f | i < c < |s| && f in s[c].chain ensures Absent(PutChain(t, s[i], |s[i].chain|), f) {
      AbsentPutChain(t, s[i], |s[i].chain|, f);
    }
  }

  /** The number of entries in the first `n` buckets. */
  function Total(s: seq<Bucket>, n: nat): nat
    requires n <= |s|
  {
    if n == 0 then 0 else Total(s, n - 1) + |s[n - 1].chain|
  }
}
