/** What linking, growing and removing mean for the table of hashmap/hashmap.c. */
module HashTheorems {
  import opened Options
  import opened Seqs
  import opened HashSpec

  // ---------- conservation ----------

  /** How often `f` is in `es`. */
  function Times(es: seq<Entry>, f: Entry): nat
  {
    if es == [] then 0 else (if es[0] == f then 1 else 0) + Times(es[1..], f)
  }

  lemma {:induction false} TimesConcat(a: seq<Entry>, b: seq<Entry>, f: Entry)
    ensures Times(a + b, f) == Times(a, f) + Times(b, f)
  {
    if a == [] {
      EmptyLeft(b);
    } else {
      assert (a + b)[1..] == a[1..] + b;
      TimesConcat(a[1..], b, f);
    }
  }

  lemma {:induction false} TimesIs(es: seq<Entry>, f: Entry)
    ensures multiset(es)[f] == Times(es, f)
  {
    if es != [] {
      TimesIs(es[1..], f);
      assert es == [es[0]] + es[1..];
    }
  }

  lemma SameBag(a: seq<Entry>, b: seq<Entry>)
    requires forall f :: Times(a, f) == Times(b, f)
    ensures multiset(a) == multiset(b) && |a| == |b|
  {
    forall f: Entry ensures multiset(a)[f] == multiset(b)[f] {
      TimesIs(a, f);
      TimesIs(b, f);
    }
    assert |a| == |multiset(a)| && |b| == |multiset(b)|;
  }

  lemma {:induction false} EntriesEmpty(n: nat)
    ensures Entries(Empty(n)) == []
    decreases n
  {
    if n > 0 {
      assert Empty(n)[1..] == Empty(n - 1);
      EntriesEmpty(n - 1);
    }
  }

  lemma {:induction false} EntriesConcat(a: seq<Bucket>, b: seq<Bucket>)
    ensures Entries(a + b) == Entries(a) + Entries(b)
  {
    if a == [] {
      EmptyLeft(b);
      EmptyLeft(Entries(b));
    } else {
      assert (a + b)[1..] == a[1..] + b;
      EntriesConcat(a[1..], b);
      Assoc(a[0].chain, Entries(a[1..]), Entries(b));
    }
  }

  lemma EntriesSnoc(t: seq<Bucket>, n: nat)
    requires n < |t|
    ensures Entries(t[..n + 1]) == Entries(t[..n]) + t[n].chain
  {
    TakeSnoc(t, n);
    EntriesConcat(t[..n], [t[n]]);
    assert Entries([t[n]]) == t[n].chain + Entries([]) == t[n].chain by {
      assert [t[n]][1..] == [];
      EmptyRight(t[n].chain);
    }
  }

  lemma {:induction false} TotalIs(t: seq<Bucket>, n: nat)
    requires n <= |t|
    ensures Total(t, n) == |Entries(t[..n])|
  {
    if n > 0 {
      TotalIs(t, n - 1);
      EntriesSnoc(t, n - 1);
    }
  }

  lemma TimesSplit(t: seq<Bucket>, f: Entry)
    requires t != []
    ensures Times(Entries(t), f) == Times(t[0].chain, f) + Times(Entries(t[1..]), f)
  {
    TimesConcat(t[0].chain, Entries(t[1..]), f);
  }

  lemma {:induction false} TimesUpdate(t: seq<Bucket>, b: nat, k: Bucket, f: Entry)
    requires b < |t|
    ensures Times(Entries(t[b := k]), f) + Times(t[b].chain, f) == Times(Entries(t), f) + Times(k.chain, f)
    decreases |t|
  {
    TimesSplit(t, f);
    TimesSplit(t[b := k], f);
    var rest := t[1..];
    if b == 0 {
      assert t[0 := k][1..] == rest;
    } else {
      assert t[b := k][1..] == rest[b - 1 := k];
      TimesUpdate(rest, b - 1, k, f);
    }
  }

  lemma TimesPut(t: seq<Bucket>, e: Entry, p: Entry?, f: Entry)
    requires t != []
    ensures Times(Entries(Put(t, e, p)), f) == Times(Entries(t), f) + Times([e], f)
  {
    hide Index, Entries, Times;
    var b := Index(e.key, |t|);
    TimesUpdate(t, b, Bucket([e] + t[b].chain, p), f);
    TimesConcat([e], t[b].chain, f);
  }

  lemma TimesNone(es: seq<Entry>, f: Entry)
    ensures Times(es[..0], f) == 0
  {
  }

  lemma {:induction false} TimesPutChain(t: seq<Bucket>, k: Bucket, n: nat, f: Entry)
    requires t != [] && n <= |k.chain|
    ensures Times(Entries(PutChain(t, k, n)), f) == Times(Entries(t), f) + Times(k.chain[..n], f)
    decreases n
  {
    hide Put, PutChain, Entries, PrevOf, Times;
    if n == 0 {
      PutChainStart(t, k);
      TimesNone(k.chain, f);
    } else {
      var e := k.chain[n - 1];
      PutChainNext(t, k, n - 1);
      TimesPutChain(t, k, n - 1, f);
      TimesPut(PutChain(t, k, n - 1), e, PrevOf(k, n - 1), f);
      TakeSnoc(k.chain, n - 1);
      TimesConcat(k.chain[..n - 1], [e], f);
    }
  }

  lemma TimesPutBucket(t: seq<Bucket>, s: seq<Bucket>, n: nat, f: Entry)
    requires t != [] && n < |s|
    ensures var r := PutAll(t, s, n);
            Times(Entries(PutChain(r, s[n], |s[n].chain|)), f) + Times(Entries(s[..n]), f)
              == Times(Entries(r), f) + Times(Entries(s[..n + 1]), f)
  {
    hide PutAll, PutChain, Entries, Times;
    TimesPutChain(PutAll(t, s, n), s[n], |s[n].chain|, f);
    TakeAll(s[n].chain);
    EntriesSnoc(s, n);
    TimesConcat(Entries(s[..n]), s[n].chain, f);
  }

  lemma NoBuckets(s: seq<Bucket>, f: Entry)
    ensures Times(Entries(s[..0]), f) == 0
  {
    assert s[..0] == [];
  }

  lemma {:induction false} TimesPutAll(t: seq<Bucket>, s: seq<Bucket>, n: nat, f: Entry)
    requires t != [] && n <= |s|
    ensures Times(Entries(PutAll(t, s, n)), f) == Times(Entries(t), f) + Times(Entries(s[..n]), f)
    decreases n
  {
    hide PutAll, PutChain, Entries, Times;
    if n == 0 {
      PutAllStart(t, s);
      NoBuckets(s, f);
    } else {
      PutAllNext(t, s, n - 1);
      TimesPutAll(t, s, n - 1, f);
      TimesPutBucket(t, s, n - 1, f);
    }
  }

  /** Linking adds the entry. */
  lemma LinkAdds(t: seq<Bucket>, e: Entry, p: Entry?)
    requires t != []
    ensures multiset(Entries(Put(t, e, p))) == multiset(Entries(t)) + multiset{e}
    ensures |Entries(Put(t, e, p))| == |Entries(t)| + 1
  {
    hide Put, Entries, Times;
    forall f ensures Times(Entries(Put(t, e, p)), f) == Times(Entries(t) + [e], f) {
      TimesPut(t, e, p, f);
      TimesConcat(Entries(t), [e], f);
    }
    SameBag(Entries(Put(t, e, p)), Entries(t) + [e]);
  }

  /** The entries are those of the buckets. */
  lemma {:induction false} EntriesOf(t: seq<Bucket>, b: nat, e: Entry)
    requires b < |t| && e in t[b].chain
    ensures e in Entries(t) && |Entries(t)| > 0
    decreases |t|
  {
    if b > 0 {
      EntriesOf(t[1..], b - 1, e);
    }
  }

  lemma TimesMiddle(c: seq<Entry>, q: nat, f: Entry)
    requires q < |c|
    ensures Times(c, f) == Times(c[..q] + c[q + 1..], f) + Times([c[q]], f)
  {
    hide Times;
    TimesConcat(c[..q], c[q + 1..], f);
    TimesConcat(c[..q] + [c[q]], c[q + 1..], f);
    TimesConcat(c[..q], [c[q]], f);
    assert c == (c[..q] + [c[q]]) + c[q + 1..];
  }

  /** Removing takes exactly one entry away. */
  lemma RemovalTakes(t: seq<Bucket>, b: nat, q: nat)
    requires b < |t| && q < |t[b].chain|
    ensures multiset(Entries(t)) == multiset(Entries(Without(t, b, q))) + multiset{t[b].chain[q]}
    ensures |Entries(t)| == |Entries(Without(t, b, q))| + 1
  {
    var e, r := t[b].chain[q], Without(t, b, q);
    hide Entries, Times;
    forall f ensures Times(Entries(t), f) == Times(Entries(r) + [e], f) {
      TimesUpdate(t, b, r[b], f);
      TimesMiddle(t[b].chain, q, f);
      TimesConcat(Entries(r), [e], f);
    }
    hide Without;
    SameBag(Entries(t), Entries(r) + [e]);
  }

  /** Growth keeps the multiset of entries. */
  lemma GrowthConserves(t: seq<Bucket>, size: nat)
    requires size > 0
    ensures multiset(Entries(Regrown(t, size))) == multiset(Entries(t))
    ensures |Entries(Regrown(t, size))| == |Entries(t)| == Total(t, |t|)
  {
    EntriesEmpty(size);
    TotalIs(t, |t|);
    assert t[..|t|] == t;
    hide PutAll, Entries;
    forall f ensures Times(Entries(Regrown(t, size)), f) == Times(Entries(t), f) {
      TimesPutAll(Empty(size), t, |t|, f);
    }
    SameBag(Entries(Regrown(t, size)), Entries(t));
  }

  /** Where the entries of bucket `i` are among all. */
  lemma EntriesFrom(t: seq<Bucket>, i: nat)
    requires i < |t|
    ensures var n := |Entries(t[..i])|; var m := n + |t[i].chain|;
            m == |Entries(t[..i + 1])| && m <= |Entries(t)| && t[i].chain == Entries(t)[n..m]
  {
    EntriesSnoc(t, i);
    assert t == t[..i + 1] + t[i + 1..];
    EntriesConcat(t[..i + 1], t[i + 1..]);
    hide Entries;
    var a, c, d := Entries(t[..i]), t[i].chain, Entries(t[i + 1..]);
    assert ((a + c) + d)[|a|..|a| + |c|] == c;
  }

  lemma NoEntriesYet(t: seq<Bucket>)
    ensures Entries(t[..0]) == []
  {
    assert t[..0] == [];
  }

  /** `es` has each entry once, all of them from the first `n` buckets. */
  ghost predicate FromFirst(es: seq<Entry>, t: seq<Bucket>, n: nat)
    requires t != []
  {
    NoDup(es) && forall e :: e in es ==> Index(e.key, |t|) < n
  }

  lemma {:induction false} PrefixOnce(t: seq<Bucket>, n: nat)
    requires t != [] && Placed(t) && n <= |t|
    ensures FromFirst(Entries(t[..n]), t, n)
    decreases n
  {
    hide Entries;
    if n == 0 {
      NoEntriesYet(t);
    } else {
      PrefixOnce(t, n - 1);
      EntriesSnoc(t, n - 1);
      var a, c := Entries(t[..n - 1]), t[n - 1].chain;
      hide Index;
      assert forall e :: e in c ==> Index(e.key, |t|) == n - 1;
      OnceConcat(a, c);
      assert forall e :: e in a + c ==> e in a || e in c;
    }
  }

  lemma OnceConcat(a: seq<Entry>, c: seq<Entry>)
    requires NoDup(a) && NoDup(c) && forall e :: e in a ==> e !in c
    ensures NoDup(a + c)
  {
    forall i, j | 0 <= i < j < |a + c| ensures (a + c)[i] != (a + c)[j] {
      if i < |a| <= j {
        assert a[i] !in c && (a + c)[j] == c[j - |a|];
      }
    }
  }

  lemma {:induction false} EntryIn(t: seq<Bucket>, e: Entry)
    requires e in Entries(t)
    ensures exists b :: 0 <= b < |t| && e in t[b].chain
    decreases |t|
  {
    if e !in t[0].chain {
      EntryIn(t[1..], e);
      var b :| 0 <= b < |t[1..]| && e in t[1..][b].chain;
      assert e in t[b + 1].chain;
    }
  }

  /** The entries, bucket by bucket, are all entries of the table, each of them once. */
  lemma EntriesOnce(t: seq<Bucket>, e: Entry)
    requires Placed(t)
    ensures NoDup(Entries(t))
    ensures e in Entries(t) <==> exists b :: 0 <= b < |t| && e in t[b].chain
  {
    if t != [] {
      PrefixOnce(t, |t|);
      TakeAll(t);
    }
    hide Placed;
    if e in Entries(t) {
      EntryIn(t, e);
    }
    forall b | 0 <= b < |t| && e in t[b].chain ensures e in Entries(t) {
      EntriesOf(t, b, e);
    }
  }

  // ---------- order ----------

  function Rev(es: seq<Entry>): (r: seq<Entry>)
    ensures |r| == |es|
  {
    if es == [] then [] else Rev(es[1..]) + [es[0]]
  }

  lemma {:induction false} RevSnoc(es: seq<Entry>, e: Entry)
    ensures Rev(es + [e]) == [e] + Rev(es)
  {
    if es == [] {
      assert ([e] + [])[1..] == [];
      EmptyLeft([e]);
    } else {
      assert (es + [e])[1..] == es[1..] + [e];
      RevSnoc(es[1..], e);
      Assoc([e], Rev(es[1..]), [es[0]]);
    }
  }

  lemma {:induction false} RevConcat(a: seq<Entry>, b: seq<Entry>)
    ensures Rev(a + b) == Rev(b) + Rev(a)
  {
    if a == [] {
      EmptyLeft(b);
      EmptyRight(Rev(b));
    } else {
      assert (a + b)[1..] == a[1..] + b;
      RevConcat(a[1..], b);
      Assoc(Rev(b), Rev(a[1..]), [a[0]]);
    }
  }

  /** The entries that belong to bucket `b` of `size`. */
  function Pick(es: seq<Entry>, b: nat, size: nat): seq<Entry>
    requires size > 0
  {
    if es == [] then [] else (if Index(es[0].key, size) == b then [es[0]] else []) + Pick(es[1..], b, size)
  }

  lemma {:induction false} PickConcat(a: seq<Entry>, c: seq<Entry>, b: nat, size: nat)
    requires size > 0
    ensures Pick(a + c, b, size) == Pick(a, b, size) + Pick(c, b, size)
  {
    hide Index;
    if a == [] {
      EmptyLeft(c);
      EmptyLeft(Pick(c, b, size));
    } else {
      assert (a + c)[1..] == a[1..] + c;
      PickConcat(a[1..], c, b, size);
      var h := if Index(a[0].key, size) == b then [a[0]] else [];
      Assoc(h, Pick(a[1..], b, size), Pick(c, b, size));
    }
  }

  lemma PickOne(e: Entry, b: nat, size: nat)
    requires size > 0
    ensures Pick([e], b, size) == if Index(e.key, size) == b then [e] else []
  {
    assert [e][1..] == [];
  }

  lemma NothingPicked(es: seq<Entry>, t: seq<Bucket>, b: nat, size: nat, c: seq<Entry>)
    requires size > 0
    ensures Rev(Pick(es[..0], b, size)) + c == c && Rev(Pick(Entries(t[..0]), b, size)) + c == c
  {
    assert es[..0] == [] && t[..0] == [];
    EmptyLeft(c);
  }

  /** Linking one more entry puts it before those picked so far. */
  lemma PickNext(es: seq<Entry>, n: nat, b: nat, size: nat, c: seq<Entry>)
    requires size > 0 && n < |es|
    ensures Rev(Pick(es[..n + 1], b, size)) + c ==
              (if Index(es[n].key, size) == b then [es[n]] else []) + (Rev(Pick(es[..n], b, size)) + c)
  {
    var e, p := es[n], Pick(es[..n], b, size);
    hide Index, Pick, Rev;
    TakeSnoc(es, n);
    PickConcat(es[..n], [e], b, size);
    PickOne(e, b, size);
    if Index(e.key, size) == b {
      RevSnoc(p, e);
      Assoc([e], Rev(p), c);
    } else {
      EmptyRight(p);
      EmptyLeft(Rev(p) + c);
    }
  }

  lemma {:induction false} ChainOfPut(t: seq<Bucket>, k: Bucket, n: nat, b: nat)
    requires n <= |k.chain| && b < |t|
    ensures PutChain(t, k, n)[b].chain == Rev(Pick(k.chain[..n], b, |t|)) + t[b].chain
    decreases n
  {
    hide PutChain, Pick, Rev, Index, PrevOf;
    if n == 0 {
      PutChainStart(t, k);
      NothingPicked(k.chain, [], b, |t|, t[b].chain);
    } else {
      PutChainNext(t, k, n - 1);
      ChainOfPut(t, k, n - 1, b);
      PickNext(k.chain, n - 1, b, |t|, t[b].chain);
      EmptyLeft(PutChain(t, k, n - 1)[b].chain);
    }
  }

  lemma {:induction false} ChainOfPutAll(t: seq<Bucket>, s: seq<Bucket>, n: nat, b: nat)
    requires n <= |s| && b < |t|
    ensures PutAll(t, s, n)[b].chain == Rev(Pick(Entries(s[..n]), b, |t|)) + t[b].chain
    decreases n
  {
    hide PutAll, Pick, Rev, PutChain, Entries, Index;
    if n == 0 {
      PutAllStart(t, s);
      NothingPicked([], s, b, |t|, t[b].chain);
    } else {
      var k := s[n - 1];
      PutAllNext(t, s, n - 1);
      ChainOfPutAll(t, s, n - 1, b);
      ChainOfPut(PutAll(t, s, n - 1), k, |k.chain|, b);
      TakeAll(k.chain);
      EntriesSnoc(s, n - 1);
      var es := Entries(s[..n - 1]);
      PickConcat(es, k.chain, b, |t|);
      RevConcat(Pick(es, b, |t|), Pick(k.chain, b, |t|));
      Assoc(Rev(Pick(k.chain, b, |t|)), Rev(Pick(es, b, |t|)), t[b].chain);
    }
  }

  /** A bucket after growth: the entries that belong there, in reverse of the old order. */
  lemma GrownChain(t: seq<Bucket>, size: nat, b: nat)
    requires b < size
    ensures Regrown(t, size)[b].chain == Rev(Pick(Entries(t), b, size))
  {
    ChainOfPutAll(Empty(size), t, |t|, b);
    assert t[..|t|] == t;
    EmptyRight(Rev(Pick(Entries(t), b, size)));
    hide Rev, Pick, Entries, PutAll;
  }

  // ---------- lookup ----------

  /** The last entry with the key. */
  function LastOf(es: seq<Entry>, key: Key): Option<Entry>
  {
    if es == [] then None
    else if LastOf(es[1..], key).Some? then LastOf(es[1..], key)
    else if es[0].key == key then Some(es[0]) else None
  }

  lemma {:induction false} LookupConcat(a: seq<Entry>, b: seq<Entry>, key: Key)
    ensures Lookup(a + b, key) == if Lookup(a, key).Some? then Lookup(a, key) else Lookup(b, key)
  {
    if a == [] {
      EmptyLeft(b);
    } else {
      assert (a + b)[1..] == a[1..] + b;
      LookupConcat(a[1..], b, key);
    }
  }

  lemma {:induction false} LastOfConcat(a: seq<Entry>, b: seq<Entry>, key: Key)
    ensures LastOf(a + b, key) == if LastOf(b, key).Some? then LastOf(b, key) else LastOf(a, key)
  {
    if a == [] {
      EmptyLeft(b);
    } else {
      assert (a + b)[1..] == a[1..] + b;
      LastOfConcat(a[1..], b, key);
    }
  }

  lemma {:induction false} LookupRev(es: seq<Entry>, key: Key)
    ensures Lookup(Rev(es), key) == LastOf(es, key)
  {
    if es != [] {
      LookupRev(es[1..], key);
      LookupConcat(Rev(es[1..]), [es[0]], key);
      assert [es[0]][1..] == [];
      assert Lookup([es[0]], key) == if es[0].key == key then Some(es[0]) else None;
    }
  }

  lemma {:induction false} LastOfPick(es: seq<Entry>, b: nat, size: nat, key: Key)
    requires size > 0 && Index(key, size) == b
    ensures LastOf(Pick(es, b, size), key) == LastOf(es, key)
  {
    hide Index;
    if es != [] {
      LastOfPick(es[1..], b, size, key);
      if Index(es[0].key, size) == b {
        assert ([es[0]] + Pick(es[1..], b, size))[1..] == Pick(es[1..], b, size);
      } else {
        EmptyLeft(Pick(es[1..], b, size));
      }
    }
  }

  lemma {:induction false} NoKey(es: seq<Entry>, key: Key)
    requires forall e :: e in es ==> e.key != key
    ensures Lookup(es, key) == None && LastOf(es, key) == None
  {
    if es != [] {
      NoKey(es[1..], key);
    }
  }

  lemma {:induction false} LastOfEntries(t: seq<Bucket>, n: nat, key: Key)
    requires n <= |t| && t != [] && Placed(t)
    ensures var b := Index(key, |t|);
            LastOf(Entries(t[..n]), key) == if b < n then LastOf(t[b].chain, key) else None
  {
    hide Index, Entries, LastOf;
    var b := Index(key, |t|);
    if n == 0 {
      assert t[..0] == [];
      NoMatchYet(key);
    } else {
      LastOfEntries(t, n - 1, key);
      EntriesSnoc(t, n - 1);
      LastOfConcat(Entries(t[..n - 1]), t[n - 1].chain, key);
      if n - 1 != b {
        NoKey(t[n - 1].chain, key);
      }
    }
  }

  lemma NoMatchYet(key: Key)
    ensures LastOf(Entries([]), key) == None
  {
  }

  /** After growth the entry found for a key is the last one that had it in its bucket. */
  lemma GrowthLookup(t: seq<Bucket>, size: nat, key: Key)
    requires t != [] && size > 0 && Placed(t)
    ensures Matching(Regrown(t, size), key) == LastOf(t[Index(key, |t|)].chain, key)
  {
    var b := Index(key, size);
    GrownChain(t, size, b);
    LastOfEntries(t, |t|, key);
    TakeAll(t);
    hide Index, Entries, LastOf, Pick, Rev, Lookup, PutAll;
    LookupRev(Pick(Entries(t), b, size), key);
    LastOfPick(Entries(t), b, size, key);
  }

  /** At most one of the entries has the key. */
  predicate Once(es: seq<Entry>, key: Key)
  {
    forall i, j :: 0 <= i < j < |es| ==> !(es[i].key == key && es[j].key == key)
  }

  lemma {:induction false} FoundIn(es: seq<Entry>, key: Key)
    ensures Lookup(es, key).Some? ==> Lookup(es, key).value in es && Lookup(es, key).value.key == key
    ensures LastOf(es, key).Some? ==> LastOf(es, key).value in es && LastOf(es, key).value.key == key
    ensures (Lookup(es, key).Some? <==> LastOf(es, key).Some?)
    ensures Lookup(es, key) == None ==> forall e :: e in es ==> e.key != key
  {
    if es != [] {
      FoundIn(es[1..], key);
      assert forall e :: e in es ==> e == es[0] || e in es[1..];
    }
  }

  lemma FirstIsLast(es: seq<Entry>, key: Key)
    requires NoDup(es)
    ensures Lookup(es, key) == LastOf(es, key) <==> Once(es, key)
  {
    if es != [] {
      var rest := es[1..];
      assert NoDup(rest) by {
        assert forall i :: 0 <= i < |rest| ==> rest[i] == es[i + 1];
      }
      FoundIn(rest, key);
      if es[0].key == key {
        if LastOf(rest, key).Some? {
          var e := LastOf(rest, key).value;
          var j :| 0 <= j < |rest| && rest[j] == e;
          assert es[j + 1] == e && es[0] != es[j + 1];
        } else {
          assert forall j :: 1 <= j < |es| ==> es[j] == rest[j - 1] && rest[j - 1] in rest;
        }
      } else {
        FirstIsLast(rest, key);
        assert forall j :: 1 <= j < |es| ==> es[j] == rest[j - 1];
        assert forall j :: 0 <= j < |rest| ==> rest[j] == es[j + 1];
      }
    }
  }

  /** Growth changes what a key is found as exactly when the key is in the table more than once. */
  lemma GrowthKeepsLookup(t: seq<Bucket>, size: nat, key: Key)
    requires t != [] && size > 0 && Placed(t)
    ensures Matching(Regrown(t, size), key) == Matching(t, key) <==> Once(t[Index(key, |t|)].chain, key)
  {
    GrowthLookup(t, size, key);
    hide Index, Regrown, Lookup, LastOf;
    FirstIsLast(t[Index(key, |t|)].chain, key);
  }

  // ---------- the table as a map ----------

  /** Lookups in the table agree with the map. */
  ghost predicate Represents(t: seq<Bucket>, m: map<Key, Entry>)
    requires t != []
  {
    forall k: Key :: Matching(t, k) == if k in m then Some(m[k]) else None
  }

  predicate DistinctKeys(t: seq<Bucket>)
    requires t != []
  {
    forall b, i, j :: 0 <= b < |t| && 0 <= i < j < |t[b].chain| ==> t[b].chain[i].key != t[b].chain[j].key
  }

  lemma EmptyRepresents(n: nat)
    requires n > 0
    ensures Represents(Empty(n), map[]) && DistinctKeys(Empty(n))
  {
  }

  lemma MatchingPut(t: seq<Bucket>, e: Entry, p: Entry?, key: Key)
    requires t != []
    ensures Matching(Put(t, e, p), key) == if key == e.key then Some(e) else Matching(t, key)
  {
    hide Index;
    var c := t[Index(e.key, |t|)].chain;
    assert ([e] + c)[1..] == c;
  }

  /** Linking an entry is a map update, also when the key was there before. */
  lemma PutRepresents(t: seq<Bucket>, e: Entry, p: Entry?, m: map<Key, Entry>)
    requires t != [] && Represents(t, m)
    ensures Represents(Put(t, e, p), m[e.key := e])
  {
    hide Put, Matching;
    forall k: Key {
      MatchingPut(t, e, p, k);
    }
  }

  lemma PutDistinct(t: seq<Bucket>, e: Entry, p: Entry?)
    requires t != [] && DistinctKeys(t) && Matching(t, e.key) == None
    ensures DistinctKeys(Put(t, e, p))
  {
    hide Index, Lookup;
    var c := t[Index(e.key, |t|)].chain;
    FoundIn(c, e.key);
    assert forall i :: 1 <= i < |[e] + c| ==> ([e] + c)[i] == c[i - 1] && c[i - 1] in c;
  }

  /** With distinct keys growth is invisible. */
  lemma GrowthRepresents(t: seq<Bucket>, size: nat, m: map<Key, Entry>)
    requires t != [] && size > 0 && Placed(t) && DistinctKeys(t) && Represents(t, m)
    ensures Represents(Regrown(t, size), m)
  {
    hide Index, Lookup, PutAll;
    forall k: Key ensures Matching(Regrown(t, size), k) == Matching(t, k) {
      GrowthKeepsLookup(t, size, k);
      assert Once(t[Index(k, |t|)].chain, k);
    }
  }

  lemma SameEntries(t: seq<Bucket>, r: seq<Bucket>, c: nat, e: Entry)
    requires Placed(t) && Placed(r) && multiset(Entries(r)) == multiset(Entries(t)) && t != []
    requires c < |r| && e in r[c].chain
    ensures e in t[Index(e.key, |t|)].chain
  {
    EntriesOnce(r, e);
    assert e in multiset(Entries(r));
    EntriesOnce(t, e);
    var b :| 0 <= b < |t| && e in t[b].chain;
    hide Index;
  }

  lemma NoTwo(c: seq<Entry>, e: Entry, f: Entry)
    requires e in c && f in c && e != f
    requires forall i, j :: 0 <= i < j < |c| ==> c[i].key != c[j].key
    ensures e.key != f.key
  {
  }

  /** Growth keeps keys distinct. */
  lemma GrowthDistinct(t: seq<Bucket>, size: nat)
    requires t != [] && size > 0 && Placed(t) && Placed(Regrown(t, size)) && DistinctKeys(t)
    ensures DistinctKeys(Regrown(t, size))
  {
    var r := Regrown(t, size);
    GrowthConserves(t, size);
    hide Regrown, Entries, Index;
    forall b, i, j | 0 <= b < |r| && 0 <= i < j < |r[b].chain| ensures r[b].chain[i].key != r[b].chain[j].key {
      var e, f := r[b].chain[i], r[b].chain[j];
      SameEntries(t, r, b, e);
      SameEntries(t, r, b, f);
      if e.key == f.key {
        NoTwo(t[Index(e.key, |t|)].chain, e, f);
      }
    }
  }

  /** Before the first insertion there are no buckets. */
  ghost predicate Holding(t: seq<Bucket>, m: map<Key, Entry>)
  {
    if t == [] then m == map[] else Represents(t, m) && DistinctKeys(t)
  }

  /** An insertion of a new key, with or without growth, is a map update. */
  lemma InsertHolds(t: seq<Bucket>, grown: bool, size: nat, e: Entry, m: map<Key, Entry>)
    requires Placed(t) && Holding(t, m) && e.key !in m && size > 0 && (t == [] ==> grown)
    requires grown ==> Placed(Regrown(t, size))
    ensures Holding(Put(if grown then Regrown(t, size) else t, e, null), m[e.key := e])
  {
    if t == [] {
      PutAllStart(Empty(size), t);
      EmptyRepresents(size);
    } else if grown {
      GrowthRepresents(t, size, m);
      GrowthDistinct(t, size);
    }
    var r := if grown then Regrown(t, size) else t;
    hide Regrown, Represents, DistinctKeys, Put;
    PutRepresents(r, e, null, m);
    assert Matching(r, e.key) == None by {
      NotFound(r, m, e.key);
    }
    PutDistinct(r, e, null);
  }

  lemma NotFound(t: seq<Bucket>, m: map<Key, Entry>, key: Key)
    requires t != [] && Represents(t, m) && key !in m
    ensures Matching(t, key) == None
  {
  }

  lemma PlacedBefore(t: seq<Bucket>, e: Entry, p: Entry?)
    requires t != [] && Placed(Put(t, e, p))
    ensures Placed(t)
  {
    hide Index, Code;
    var r, b := Put(t, e, p), Index(e.key, |t|);
    assert forall i :: 0 <= i < |t[b].chain| ==> t[b].chain[i] == r[b].chain[i + 1];
    forall a, f | 0 <= a < |t| && f in t[a].chain ensures Index(f.key, |t|) == a && f.hashCode == Code(f.key) {
      assert f in r[a].chain;
    }
    forall a | 0 <= a < |t| ensures NoDup(t[a].chain) {
      assert NoDup(r[a].chain);
    }
  }

  /** The first entry with a key, by number. */
  lemma {:induction false} LookupAt(es: seq<Entry>, q: nat)
    requires q < |es| && forall i :: 0 <= i < q ==> es[i].key != es[q].key
    ensures Lookup(es, es[q].key) == Some(es[q])
  {
    if q > 0 {
      LookupAt(es[1..], q - 1);
    }
  }

  lemma LookupWithout(c: seq<Entry>, q: nat, k: Key)
    requires q < |c| && forall i :: 0 <= i < q ==> c[i].key != c[q].key
    ensures Lookup(c[..q] + c[q + 1..], k) == if k == c[q].key then Lookup(c[q + 1..], k) else Lookup(c, k)
  {
    LookupConcat(c[..q], c[q + 1..], k);
    LookupConcat(c[..q], c[q..], k);
    assert c == c[..q] + c[q..];
    assert c[q..][1..] == c[q + 1..];
    if k == c[q].key {
      NoKey(c[..q], k);
    }
  }

  /** Removing the first entry with a key leaves all other lookups alone; the key is then found as the
      next entry that has it. */
  lemma RemovalLookup(t: seq<Bucket>, b: nat, q: nat, k: Key)
    requires b < |t| && q < |t[b].chain| && Placed(t)
    requires forall i :: 0 <= i < q ==> t[b].chain[i].key != t[b].chain[q].key
    ensures var key := t[b].chain[q].key;
            && Matching(t, key) == Some(t[b].chain[q])
            && Matching(Without(t, b, q), k) == if k == key then Lookup(t[b].chain[q + 1..], k) else Matching(t, k)
  {
    var c := t[b].chain;
    assert c[q] in c;
    hide Index, Lookup, Code;
    LookupAt(c, q);
    LookupWithout(c, q, k);
  }

  lemma RemovalDistinct(t: seq<Bucket>, b: nat, q: nat)
    requires b < |t| && q < |t[b].chain| && DistinctKeys(t)
    ensures DistinctKeys(Without(t, b, q))
  {
    var c, d := t[b].chain, Without(t, b, q)[b].chain;
    assert forall i :: 0 <= i < |d| ==> d[i] == c[if i < q then i else i + 1];
  }

  lemma RemovalRepresents(t: seq<Bucket>, b: nat, q: nat, m: map<Key, Entry>)
    requires b < |t| && q < |t[b].chain| && Placed(t) && DistinctKeys(t) && Represents(t, m)
    ensures Represents(Without(t, b, q), m - {t[b].chain[q].key})
  {
    var c := t[b].chain;
    hide Index, Lookup, Without, Placed;
    forall k: Key ensures Matching(Without(t, b, q), k) == if k == c[q].key then None else Matching(t, k) {
      RemovalLookup(t, b, q, k);
      forall e | e in c[q + 1..] ensures e.key != c[q].key {
        var i :| 0 <= i < |c[q + 1..]| && c[q + 1..][i] == e;
        assert c[q + 1 + i] == e;
      }
      if k == c[q].key {
        NoKey(c[q + 1..], k);
      }
    }
  }

  // ---------- the prev of the first entry ----------

  /** Every first entry has a null prev: the prev links mirror the next links completely. */
  predicate Mirrored(t: seq<Bucket>) { forall b :: 0 <= b < |t| && t[b].chain != [] ==> t[b].top == null }

  /** Linking new entries and removing keep the mirror. */
  lemma MirrorKept(t: seq<Bucket>, e: Entry, b: nat, q: nat)
    requires Mirrored(t)
    ensures t != [] ==> Mirrored(Put(t, e, null))
    ensures b < |t| && q < |t[b].chain| ==> Mirrored(Without(t, b, q))
  {
    hide Index;
  }

  /** The entry with the key is the first of its bucket and has a stale prev. */
  predicate StaleKey(t: seq<Bucket>, key: Key)
    requires t != []
  {
    var k := t[Index(key, |t|)];
    k.chain != [] && k.chain[0].key == key && k.top != null
  }

  lemma MirroredNotStale(t: seq<Bucket>, key: Key)
    requires t != [] && Mirrored(t)
    ensures !StaleKey(t, key)
  {
    hide Index;
  }

  /** Entry number `q` of bucket `b` of table `s` is `e`. */
  predicate IsAt(s: seq<Bucket>, b: nat, q: nat, e: Entry) { b < |s| && q < |s[b].chain| && s[b].chain[q] == e }

  /** The first entries of `r` have the prev they have in `s`. */
  ghost predicate TopsFrom(r: seq<Bucket>, s: seq<Bucket>)
  {
    forall b :: 0 <= b < |r| && r[b].chain != [] ==>
      exists c: nat, q: nat :: IsAt(s, c, q, r[b].chain[0]) && r[b].top == PrevOf(s[c], q)
  }

  lemma {:induction false} TopsOfChain(t: seq<Bucket>, s: seq<Bucket>, c: nat, n: nat)
    requires t != [] && c < |s| && n <= |s[c].chain| && TopsFrom(t, s)
    ensures TopsFrom(PutChain(t, s[c], n), s)
    decreases n
  {
    if n > 0 {
      PutChainNext(t, s[c], n - 1);
      hide PutChain, Index;
      TopsOfChain(t, s, c, n - 1);
      assert IsAt(s, c, n - 1, s[c].chain[n - 1]);
    }
  }

  lemma {:induction false} TopsOfAll(t: seq<Bucket>, s: seq<Bucket>, n: nat)
    requires t != [] && n <= |s| && TopsFrom(t, s)
    ensures TopsFrom(PutAll(t, s, n), s)
    decreases n
  {
    if n > 0 {
      TopsOfAll(t, s, n - 1);
      hide TopsFrom;
      TopsOfChain(PutAll(t, s, n - 1), s, n - 1, |s[n - 1].chain|);
    }
  }

  /** `e` is the first entry of some bucket. */
  ghost predicate IsFirst(t: seq<Bucket>, e: Entry) { exists c: nat :: IsAt(t, c, 0, e) }

  lemma TopIsNull(t: seq<Bucket>, c: nat, q: nat)
    requires Placed(t) && Mirrored(t) && c < |t| && q < |t[c].chain|
    ensures PrevOf(t[c], q) == null <==> IsFirst(t, t[c].chain[q])
  {
    var e := t[c].chain[q];
    assert e in t[c].chain;
    if q == 0 {
      assert IsAt(t, c, 0, e);
    } else {
      forall d: nat | d < |t| && t[d].chain != [] ensures t[d].chain[0] != e {
        assert t[d].chain[0] in t[d].chain;
        assert Index(t[d].chain[0].key, |t|) == d && Index(e.key, |t|) == c;
        assert d == c ==> t[d].chain[0] != t[c].chain[q];
      }
    }
  }

  lemma TopOfGrown(t: seq<Bucket>, r: seq<Bucket>, b: nat)
    requires Placed(t) && Mirrored(t) && TopsFrom(r, t) && b < |r| && r[b].chain != []
    ensures r[b].top == null <==> IsFirst(t, r[b].chain[0])
  {
    hide Placed, Mirrored, IsFirst, PrevOf;
    var c: nat, q: nat :| IsAt(t, c, q, r[b].chain[0]) && r[b].top == PrevOf(t[c], q);
    TopIsNull(t, c, q);
  }

  lemma TopsOfGrown(t: seq<Bucket>, size: nat)
    requires size > 0 && Placed(t) && Mirrored(t)
    ensures var r := Regrown(t, size);
            |r| == size
            && forall b :: 0 <= b < size && r[b].chain != [] ==> (r[b].top == null <==> IsFirst(t, r[b].chain[0]))
  {
    var r := Regrown(t, size);
    TopsOfAll(Empty(size), t, |t|);
    hide Placed, TopsFrom, IsFirst, PutAll;
    forall b | 0 <= b < size && r[b].chain != [] ensures r[b].top == null <==> IsFirst(t, r[b].chain[0]) {
      TopOfGrown(t, r, b);
    }
  }

  /** A later entry of `es` goes to the same bucket of `size`. */
  predicate Overtaken(es: seq<Entry>, i: nat, size: nat)
    requires size > 0 && i < |es|
  {
    exists j :: i < j < |es| && Index(es[j].key, size) == Index(es[i].key, size)
  }

  lemma {:induction false} NonePicked(es: seq<Entry>, b: nat, size: nat)
    requires size > 0
    ensures Pick(es, b, size) == [] <==> forall i :: 0 <= i < |es| ==> Index(es[i].key, size) != b
  {
    hide Index;
    if es != [] {
      NonePicked(es[1..], b, size);
      assert forall i :: 1 <= i < |es| ==> es[i] == es[1..][i - 1];
    }
  }

  lemma FirstOfRev(h: seq<Entry>, p: seq<Entry>)
    requires |h| <= 1
    ensures p != [] ==> Rev(h + p) != [] && Rev(h + p)[0] == Rev(p)[0]
    ensures p == [] && |h| == 1 ==> Rev(h + p) == h
  {
    if h == [] {
      EmptyLeft(p);
    } else {
      assert (h + p)[1..] == p;
    }
  }

  /** The first entry of a reversed pick is the last one of its bucket. */
  lemma {:induction false} LastPicked(es: seq<Entry>, b: nat, size: nat) returns (i: nat)
    requires size > 0 && Pick(es, b, size) != []
    ensures i < |es| && Index(es[i].key, size) == b && !Overtaken(es, i, size)
    ensures Rev(Pick(es, b, size)) != [] && Rev(Pick(es, b, size))[0] == es[i]
  {
    var h, rest := if Index(es[0].key, size) == b then [es[0]] else [], es[1..];
    hide Index, Rev;
    FirstOfRev(h, Pick(rest, b, size));
    assert forall j :: 1 <= j < |es| ==> es[j] == rest[j - 1];
    if Pick(rest, b, size) != [] {
      var k := LastPicked(rest, b, size);
      i := k + 1;
    } else {
      NonePicked(rest, b, size);
      i := 0;
    }
  }

  /** The first entries after growth are those that no later entry overtakes. */
  lemma FirstGrown(t: seq<Bucket>, size: nat, b: nat) returns (i: nat)
    requires b < size && Regrown(t, size)[b].chain != []
    ensures var es := Entries(t);
            && i < |es| && Index(es[i].key, size) == b && !Overtaken(es, i, size)
            && Regrown(t, size)[b].chain[0] == es[i]
  {
    GrownChain(t, size, b);
    hide Index, Entries, Overtaken, Regrown;
    i := LastPicked(Entries(t), b, size);
  }

  lemma NotOvertaken(es: seq<Entry>, i: nat, k: nat, size: nat)
    requires size > 0 && i < |es| && k < |es| && Index(es[i].key, size) == Index(es[k].key, size)
    requires !Overtaken(es, i, size) && !Overtaken(es, k, size)
    ensures i == k
  {
    hide Index;
  }

  lemma GrownFilled(t: seq<Bucket>, size: nat, i: nat)
    requires size > 0 && i < |Entries(t)|
    ensures var b := Index(Entries(t)[i].key, size); Regrown(t, size)[b].chain != []
  {
    var b := Index(Entries(t)[i].key, size);
    GrownChain(t, size, b);
    hide Index, Entries, Regrown, Pick;
    NonePicked(Entries(t), b, size);
  }

  /** The growth to `size` will keep the mirror: every entry behind another one in its bucket is followed, in
      the order of the buckets, by one that goes to the same new bucket. */
  ghost predicate KeepsMirror(t: seq<Bucket>, size: nat)
    requires size > 0
  {
    forall i :: 0 <= i < |Entries(t)| && !IsFirst(t, Entries(t)[i]) ==> Overtaken(Entries(t), i, size)
  }

  /** Growth keeps the mirror exactly under that condition on the table before it; otherwise some first entry
      has a stale prev. */
  lemma GrowthMirror(t: seq<Bucket>, size: nat)
    requires size > 0 && Placed(t) && Mirrored(t)
    ensures Mirrored(Regrown(t, size)) <==> KeepsMirror(t, size)
  {
    TopsOfGrown(t, size);
    var r, es := Regrown(t, size), Entries(t);
    hide Index, Entries, Overtaken, Regrown, Placed, IsFirst;
    if Mirrored(r) {
      forall i | 0 <= i < |es| && !IsFirst(t, es[i]) ensures Overtaken(es, i, size) {
        if !Overtaken(es, i, size) {
          GrownFilled(t, size, i);
          var k := FirstGrown(t, size, Index(es[i].key, size));
          NotOvertaken(es, i, k, size);
        }
      }
    }
    if KeepsMirror(t, size) {
      forall b | 0 <= b < size && r[b].chain != [] ensures r[b].top == null {
        var k := FirstGrown(t, size, b);
      }
    }
  }

  lemma IndexOfOne(c: Char, size: nat)
    requires 0 <= c && size > 0
    ensures Index([c], size) == c % size
  {
    assert RsState([c], 0) == (0, 63689);
    assert RsState([c], 1) == (c % WORD, 63689 * 378551 % WORD);
  }

  lemma PutOnly(t: seq<Bucket>, k: Bucket)
    requires t != []
    ensures |k.chain| == 0 ==> PutChain(t, k, 0) == t
    ensures |k.chain| == 1 ==> PutChain(t, k, 1) == Put(t, k.chain[0], k.top)
    ensures |k.chain| == 2 ==> PutChain(t, k, 2) == Put(Put(t, k.chain[0], k.top), k.chain[1], k.chain[0])
  {
  }

  /** Entries linked one after the other into empty buckets. */
  function Linked(es: seq<Entry>, size: nat): (t: seq<Bucket>)
    requires size > 0
    ensures |t| == size
  {
    if es == [] then Empty(size) else Put(Linked(es[..|es| - 1], size), es[|es| - 1], null)
  }

  lemma LinkedNext(es: seq<Entry>, e: Entry, size: nat)
    requires size > 0
    ensures Linked(es + [e], size) == Put(Linked(es, size), e, null)
  {
    assert (es + [e])[..|es|] == es;
  }

  /** The keys 1, 8, 63, 2, 3, 4 and 5. */
  predicate SevenKeys(es: seq<Entry>)
  {
    && |es| == 7 && es[0].key == [1] && es[1].key == [8] && es[2].key == [63]
    && es[3].key == [2] && es[4].key == [3] && es[5].key == [4] && es[6].key == [5]
  }

  /** Linking into seven buckets, one of which is given by the key. */
  lemma LinkedInto(es: seq<Entry>, e: Entry, c: Char, b: nat, t: seq<Bucket>)
    requires 0 <= c && c % 7 == b && e.key == [c] && t == Linked(es, 7)
    ensures Linked(es + [e], 7) == t[b := Bucket([e] + t[b].chain, null)]
  {
    IndexOfOne(c, 7);
    LinkedNext(es, e, 7);
    hide Index, Linked;
  }

  /** Linking into an empty one of them. */
  lemma LinkedFirst(es: seq<Entry>, e: Entry, c: Char, b: nat, t: seq<Bucket>)
    requires 0 <= c && c % 7 == b && e.key == [c] && t == Linked(es, 7) && t[b].chain == []
    ensures Linked(es + [e], 7) == t[b := Bucket([e], null)]
  {
    LinkedInto(es, e, c, b, t);
    hide Linked;
    EmptyRight([e]);
  }

  /** What the first three keys make of seven empty buckets. */
  lemma ThreeLinked(a: Entry, b: Entry, x: Entry)
    requires a.key == [1] && b.key == [8] && x.key == [63]
    ensures Linked([a, b, x], 7) == Empty(7)[1 := Bucket([b, a], null)][0 := Bucket([x], null)]
  {
    hide Linked;
    LinkedNone(7);
    LinkedFirst([], a, 1, 1, Empty(7));
    EmptyLeft([a]);
    var t := Empty(7)[1 := Bucket([a], null)];
    LinkedInto([a], b, 8, 1, t);
    assert [a] + [b] == [a, b] && [b] + [a] == [b, a];
    LinkedFirst([a, b], x, 63, 0, t[1 := Bucket([b, a], null)]);
    assert [a, b] + [x] == [a, b, x];
  }

  lemma SevenLinked(es: seq<Entry>)
    requires SevenKeys(es)
    ensures Linked(es, 7) == [Bucket([es[2]], null), Bucket([es[1], es[0]], null), Bucket([es[3]], null),
                              Bucket([es[4]], null), Bucket([es[5]], null), Bucket([es[6]], null), Bucket([], null)]
  {
    hide Linked;
    ThreeLinked(es[0], es[1], es[2]);
    assert es[..3] == [es[0], es[1], es[2]];
    var t := Linked(es[..3], 7);
    TakeSnoc(es, 3); TakeSnoc(es, 4); TakeSnoc(es, 5); TakeSnoc(es, 6);
    LinkedFirst(es[..3], es[3], 2, 2, t);
    LinkedFirst(es[..4], es[4], 3, 3, t[2 := Bucket([es[3]], null)]);
    LinkedFirst(es[..5], es[5], 4, 4, t[2 := Bucket([es[3]], null)][3 := Bucket([es[4]], null)]);
    LinkedFirst(es[..6], es[6], 5, 5, Linked(es[..6], 7));
    TakeAll(es);
  }

  lemma LinkedNone(size: nat)
    requires size > 0
    ensures Linked([], size) == Empty(size)
  {
  }

  /** Seven insertions into a new map whose growth to 11 buckets leaves a stale prev: the keys 1 and 8 share a
      bucket before, not after, and key 63 ends up behind key 8. */
  lemma StalePrev(es: seq<Entry>)
    requires SevenKeys(es)
    ensures var r := Regrown(Linked(es, 7), 11);
            && Mirrored(Linked(es, 7)) && !Mirrored(r)
            && r[1] == Bucket([es[0]], es[1]) && r[8] == Bucket([es[1], es[2]], null)
  {
    assert |es| == 7;
    hide *;
    SevenLinked(es);
    SevenRegrown(es, Linked(es, 7));
    SevenMirrored(es, Linked(es, 7), Regrown(Linked(es, 7), 11));
  }

  lemma SevenMirrored(es: seq<Entry>, t: seq<Bucket>, r: seq<Bucket>)
    requires |es| == 7 && |r| > 1 && r[1] == Bucket([es[0]], es[1])
    requires t == [Bucket([es[2]], null), Bucket([es[1], es[0]], null), Bucket([es[3]], null),
                   Bucket([es[4]], null), Bucket([es[5]], null), Bucket([es[6]], null), Bucket([], null)]
    ensures Mirrored(t) && !Mirrored(r)
  {
  }

  /** Linking into eleven buckets, one of which is given by the key. */
  lemma PutInto(t: seq<Bucket>, e: Entry, c: Char, b: nat, p: Entry?)
    requires |t| == 11 && 0 <= c && c % 11 == b && e.key == [c]
    ensures Put(t, e, p) == t[b := Bucket([e] + t[b].chain, p)]
  {
    IndexOfOne(c, 11);
    hide Index;
  }

  /** A bucket of one entry linked again. */
  lemma OneMoved(t: seq<Bucket>, s: seq<Bucket>, n: nat, e: Entry, c: Char, b: nat)
    requires |t| == 11 && n < |s| && s[n] == Bucket([e], null) && 0 <= c && c % 11 == b && e.key == [c]
    ensures PutAll(t, s, n + 1) == PutAll(t, s, n)[b := Bucket([e] + PutAll(t, s, n)[b].chain, null)]
  {
    PutAllNext(t, s, n);
    hide PutAll, PutChain;
    PutOnly(PutAll(t, s, n), s[n]);
    PutInto(PutAll(t, s, n), e, c, b, null);
  }

  lemma SevenRegrown(es: seq<Entry>, t: seq<Bucket>)
    requires SevenKeys(es)
    requires t == [Bucket([es[2]], null), Bucket([es[1], es[0]], null), Bucket([es[3]], null),
                   Bucket([es[4]], null), Bucket([es[5]], null), Bucket([es[6]], null), Bucket([], null)]
    ensures var r := Regrown(t, 11); |r| > 8 && r[1] == Bucket([es[0]], es[1]) && r[8] == Bucket([es[1], es[2]], null)
  {
    assert Regrown(t, 11) == PutAll(Empty(11), t, 7);
    hide PutAll, PutChain, Put, Index, Regrown, Empty;
    ThreeMoved(es, t);
    OneMoved(Empty(11), t, 2, es[3], 2, 2); OneMoved(Empty(11), t, 3, es[4], 3, 3);
    OneMoved(Empty(11), t, 4, es[5], 4, 4); OneMoved(Empty(11), t, 5, es[6], 5, 5);
    PutAllNext(Empty(11), t, 6);
    PutOnly(PutAll(Empty(11), t, 6), t[6]);
  }

  lemma ThreeMoved(es: seq<Entry>, t: seq<Bucket>)
    requires SevenKeys(es) && |t| >= 2 && t[0] == Bucket([es[2]], null) && t[1] == Bucket([es[1], es[0]], null)
    ensures var r := PutAll(Empty(11), t, 2);
            |r| == 11 && r[1] == Bucket([es[0]], es[1]) && r[8] == Bucket([es[1], es[2]], null)
  {
    var z := Empty(11);
    hide PutAll, PutChain, Put, Index;
    PutAllStart(z, t);
    OneMoved(z, t, 0, es[2], 63, 8);
    EmptyRight([es[2]]);
    PutAllNext(z, t, 1);
    TwoMoved(PutAll(z, t, 1), t[1], es[0], es[1]);
    EmptyRight([es[0]]);
    assert [es[1]] + [es[2]] == [es[1], es[2]];
  }

  /** The bucket with the keys 8 and 1 linked again. */
  lemma TwoMoved(t: seq<Bucket>, k: Bucket, a: Entry, b: Entry)
    requires |t| == 11 && k == Bucket([b, a], null) && a.key == [1] && b.key == [8]
    ensures PutChain(t, k, 2) == t[8 := Bucket([b] + t[8].chain, null)][1 := Bucket([a] + t[1].chain, b)]
  {
    PutOnly(t, k);
    hide PutChain;
    PutInto(t, b, 8, 8, null);
    PutInto(Put(t, b, null), a, 1, 1, b);
  }
}
