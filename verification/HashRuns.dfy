/** Runs of insertions and deletions on the hash table of hashmap/hashmap.c. */
module HashRuns {
  import opened Options
  import opened Seqs
  import opened HashPrimes
  import opened HashSpec
  import opened HashTheorems
  import opened HashMaps

  datatype Op = Ins(key: Key, value: Option<string>) | Del(key: Key)

  function Applied(m: map<Key, Option<string>>, op: Op): map<Key, Option<string>>
  {
    match op
    case Ins(k, v) => m[k := v]
    case Del(k) => m - {k}
  }

  /** The map that the operations describe. */
  function Result(ops: seq<Op>): map<Key, Option<string>>
  {
    if ops == [] then map[] else Applied(Result(ops[..|ops| - 1]), ops[|ops| - 1])
  }

  /** Only new keys are inserted, as many as 16 bits can count, and the first operation is an insertion. */
  predicate Fitting(ops: seq<Op>)
  {
    && (ops != [] ==> ops[0].Ins?)
    && forall i :: 0 <= i < |ops| && ops[i].Ins? ==>
         ops[i].key !in Result(ops[..i]) && |Result(ops[..i])| < USED_LIMIT
  }

  function Values(m: map<Key, Entry>): (r: map<Key, Option<string>>)
    ensures r.Keys == m.Keys && |r| == |m|
  {
    var r := map k | k in m :: m[k].value;
    assert r.Keys == m.Keys;
    assert |r.Keys| == |r| && |m.Keys| == |m|;
    r
  }

  /** The table after one operation. */
  ghost predicate Follows(t: seq<Bucket>, op: Op, t': seq<Bucket>)
  {
    match op
    case Ins(k, v) =>
      && t' != [] && Matching(t', k).Some?
      && var e := Matching(t', k).value;
         e.key == k && e.value == v && t' == Put(if |t'| == |t| then t else Regrown(t, |t'|), e, null)
    case Del(k) =>
      && t != []
      && if Matching(t, k) == None then t' == t
         else exists b: nat, q: nat :: b < |t| && q < |t[b].chain| && Matching(t, k) == Some(t[b].chain[q])
                                       && t' == Without(t, b, q)
  }

  /** The tables a run went through. */
  ghost predicate History(ts: seq<seq<Bucket>>, ops: seq<Op>)
  {
    |ts| == |ops| + 1 && ts[0] == [] && forall i :: 0 <= i < |ops| ==> Follows(ts[i], ops[i], ts[i + 1])
  }

  /** A growth from table `t` to table `t'`, if there was one, met the condition under which it keeps the
      mirror. */
  ghost predicate GrewWell(t: seq<Bucket>, t': seq<Bucket>) { |t'| > |t| ==> KeepsMirror(t, |t'|) }

  /** So did every growth of the run. */
  ghost predicate AllGrewWell(ts: seq<seq<Bucket>>) { forall i :: 0 <= i < |ts| - 1 ==> GrewWell(ts[i], ts[i + 1]) }

  lemma HistoryNext(ts: seq<seq<Bucket>>, ops: seq<Op>, n: nat, t: seq<Bucket>)
    requires n < |ops| && History(ts, ops[..n]) && Follows(ts[n], ops[n], t)
    ensures History(ts + [t], ops[..n + 1])
    ensures AllGrewWell(ts + [t]) ==> AllGrewWell(ts) && GrewWell(ts[n], t)
  {
    var r := ts + [t];
    hide Follows, GrewWell;
    assert forall i :: 0 <= i <= n ==> r[i] == ts[i];
    assert forall i :: 0 <= i < n ==> ops[..n][i] == ops[i] && ops[..n + 1][i] == ops[i];
    if AllGrewWell(r) {
      assert GrewWell(r[n], r[n + 1]);
      assert forall i :: 0 <= i < n ==> GrewWell(r[i], r[i + 1]);
    }
  }

  lemma ResultNext(ops: seq<Op>, n: nat)
    requires n < |ops|
    ensures Result(ops[..n + 1]) == Applied(Result(ops[..n]), ops[n])
  {
    assert ops[..n + 1][..n] == ops[..n];
  }

  // ---------- one operation ----------

  lemma OneMore(m: map<Key, Entry>, e: Entry)
    requires e.key !in m
    ensures Values(m[e.key := e]) == Values(m)[e.key := e.value] && |m[e.key := e]| == |m| + 1
  {
    assert m[e.key := e].Keys == m.Keys + {e.key};
    assert |m[e.key := e].Keys| == |m[e.key := e]| && |m.Keys| == |m|;
  }

  lemma OneLess(m: map<Key, Entry>, key: Key)
    requires key in m
    ensures Values(m - {key}) == Values(m) - {key} && |m - {key}| == |m| - 1
  {
    assert m.Keys == (m - {key}).Keys + {key};
    assert |(m - {key}).Keys| == |m - {key}| && |m.Keys| == |m|;
  }

  lemma InsertFollows(t: seq<Bucket>, grown: bool, size: nat, e: Entry)
    requires size > 0 && (if grown then size > |t| else size == |t|)
    ensures Follows(t, Ins(e.key, e.value), Put(if grown then Regrown(t, size) else t, e, null))
  {
    var r := if grown then Regrown(t, size) else t;
    hide Put, Regrown, Matching;
    assert |r| == size by { Buckets(t, size); }
    MatchingPut(r, e, null, e.key);
  }

  lemma Buckets(t: seq<Bucket>, size: nat)
    requires size > 0
    ensures |Regrown(t, size)| == size
  {
  }

  lemma InsertMirror(t: seq<Bucket>, grown: bool, size: nat, e: Entry)
    requires size > 0 && (if grown then size > |t| else size == |t|) && Placed(t)
    ensures var t' := Put(if grown then Regrown(t, size) else t, e, null);
            Mirrored(t) && GrewWell(t, t') ==> Mirrored(t')
  {
    var r := if grown then Regrown(t, size) else t;
    Buckets(t, size);
    hide Put, Regrown, Placed, Mirrored, KeepsMirror;
    if Mirrored(t) && GrewWell(t, Put(r, e, null)) {
      if grown {
        GrowthMirror(t, size);
      }
      MirrorKept(r, e, 0, 0);
    }
  }

  /** What an insertion of a new key does to the table and to the map. */
  lemma InsertMeans(t: seq<Bucket>, grown: bool, size: nat, e: Entry, m: map<Key, Entry>)
    requires Placed(t) && Holding(t, m) && e.key !in m
    requires size > 0 && (if grown then size > |t| else size == |t|)
    requires Placed(Put(if grown then Regrown(t, size) else t, e, null))
    ensures var t' := Put(if grown then Regrown(t, size) else t, e, null);
            && Holding(t', m[e.key := e]) && Follows(t, Ins(e.key, e.value), t')
            && (Mirrored(t) && GrewWell(t, t') ==> Mirrored(t'))
    ensures Values(m[e.key := e]) == Values(m)[e.key := e.value] && |m[e.key := e]| == |m| + 1
  {
    Buckets(t, size);
    hide Put, Regrown, Placed, Mirrored, KeepsMirror, Holding, Matching, GrewWell, Follows, Values;
    PlacedBefore(if grown then Regrown(t, size) else t, e, null);
    InsertHolds(t, grown, size, e, m);
    OneMore(m, e);
    InsertFollows(t, grown, size, e);
    InsertMirror(t, grown, size, e);
  }

  lemma FoundHere(t: seq<Bucket>, key: Key, b: nat, q: nat, m: map<Key, Entry>)
    requires b < |t| && q < |t[b].chain| && Placed(t) && Represents(t, m)
    requires Matching(t, key) == Some(t[b].chain[q])
    ensures b == Index(key, |t|) && t[b].chain[q].key == key && key in m
  {
    var e := t[b].chain[q];
    FoundIn(t[Index(key, |t|)].chain, key);
    hide Index, Lookup, Code;
    assert e in t[b].chain;
  }

  lemma DeleteFollows(t: seq<Bucket>, key: Key, b: nat, q: nat)
    requires b < |t| && q < |t[b].chain| && Matching(t, key) == Some(t[b].chain[q])
    ensures Follows(t, Del(key), Without(t, b, q))
  {
    hide Matching, Without;
  }

  lemma ClearHere(t: seq<Bucket>, key: Key, b: nat, q: nat)
    requires b < |t| && q < |t[b].chain| && b == Index(key, |t|) && t[b].chain[q].key == key
    ensures Clear(t, b, q) <==> (q == 0 ==> !StaleKey(t, key))
  {
    hide Index;
  }

  /** What a deletion that does not go wrong does to the table and to the map. */
  lemma DeleteMeans(t: seq<Bucket>, key: Key, b: nat, q: nat, m: map<Key, Entry>)
    requires b < |t| && q < |t[b].chain| && Placed(t) && Holding(t, m) && !StaleKey(t, key)
    requires Matching(t, key) == Some(t[b].chain[q])
    ensures Clear(t, b, q) && Holding(Without(t, b, q), m - {key}) && Follows(t, Del(key), Without(t, b, q))
    ensures Mirrored(t) ==> Mirrored(Without(t, b, q))
    ensures Values(m - {key}) == Values(m) - {key} && |m - {key}| == |m| - 1
  {
    FoundHere(t, key, b, q, m);
    ClearHere(t, key, b, q);
    DeleteFollows(t, key, b, q);
    hide Index, Placed, Represents, DistinctKeys, Matching, StaleKey, Clear, Follows, Values, Mirrored;
    OneLess(m, key);
    RemovalDistinct(t, b, q);
    RemovalRepresents(t, b, q, m);
    if Mirrored(t) {
      MirrorKept(t, t[b].chain[q], b, q);
    }
  }

  lemma NothingDeleted(t: seq<Bucket>, key: Key, m: map<Key, Entry>)
    requires t != [] && Holding(t, m) && Matching(t, key) == None
    ensures m - {key} == m && Values(m) - {key} == Values(m) && Follows(t, Del(key), t)
  {
    hide Matching;
    assert key !in m;
  }

  lemma LastPrime()
    ensures Prime(PRIME_COUNT - 1) > USED_LIMIT
  {
  }

  /** The prev of every first entry is null or was once in the table. */
  ghost predicate TopsKnown(h: HashMap)
    reads h
  {
    Tops(h.table) <= h.ever
  }

  /** The state of a run: a table with the entries of `m`. */
  ghost predicate Running(h: HashMap, first: nat, m: map<Key, Entry>)
    reads h, h.data, h.ever
  {
    && h.Valid() && TopsKnown(h) && h.count == |m| && Holding(h.table, m)
    && (h.size == 0 ==> h.idx == first)
  }

  lemma RunningParts(h: HashMap, first: nat, m: map<Key, Entry>)
    requires Running(h, first, m)
    ensures h.Valid() && Placed(h.table) && h.size == |h.table| && AllIn(h.table, h.ever) && Holding(h.table, m)
    ensures Tops(h.table) <= h.ever && h.count == |m| && h.used == Wrap(|m|)
    ensures h.idx < PRIME_COUNT && (if h.size == 0 then h.idx == first else h.size == Prime(h.idx))
  {
  }

  lemma WrapSmall(n: nat)
    requires n < USED_LIMIT
    ensures Wrap(n) == n
  {
  }

  lemma RoomToGrow(h: HashMap, first: nat, m: map<Key, Entry>)
    requires Running(h, first, m) && |m| < USED_LIMIT && first + 1 < PRIME_COUNT
    ensures h.used >= h.size ==> h.idx + 1 < PRIME_COUNT && Prime(h.idx + 1) > h.size
  {
    hide Running, Prime, Placed, AllIn, Holding, Tops, HashMap.Valid, TopsKnown;
    RunningParts(h, first, m);
    LastPrime();
    WrapSmall(|m|);
    if h.idx + 1 < PRIME_COUNT {
      Ascending(h.idx);
    }
  }

  lemma TopsGrown(t: seq<Bucket>, size: nat, ever: set<Entry>)
    requires size > 0 && AllIn(t, ever) && Tops(t) <= ever
    ensures Tops(Regrown(t, size)) <= ever
  {
    var r := Regrown(t, size);
    TopsOfAll(Empty(size), t, |t|);
    hide PutAll;
    forall b | 0 <= b < |r| && r[b].chain != [] && r[b].top != null ensures r[b].top in ever {
      var c: nat, q: nat :| IsAt(t, c, q, r[b].chain[0]) && r[b].top == PrevOf(t[c], q);
      if q > 0 {
        assert t[c].chain[q - 1] in t[c].chain;
      } else {
        assert t[c].top in Tops(t);
      }
    }
  }

  lemma TopsPut(t: seq<Bucket>, e: Entry, ever: set<Entry>)
    requires t != [] && Tops(t) <= ever
    ensures Tops(Put(t, e, null)) <= ever
  {
    hide Index;
    var r := Put(t, e, null);
    forall b | 0 <= b < |r| && r[b].chain != [] && r[b].top != null ensures r[b].top in ever {
      assert t[b].top in Tops(t);
    }
  }

  lemma TopsWithout(t: seq<Bucket>, b: nat, q: nat, ever: set<Entry>)
    requires b < |t| && q < |t[b].chain| && Tops(t) <= ever
    ensures Tops(Without(t, b, q)) <= ever
  {
    var r := Without(t, b, q);
    forall c | 0 <= c < |r| && r[c].chain != [] && r[c].top != null ensures r[c].top in ever {
      assert t[c].top in Tops(t);
    }
  }

  /** hashmap_insert of a new key. */
  method InsertNew(h: HashMap, ghost first: nat, ghost m: map<Key, Entry>, key: Key, value: Option<string>)
    returns (ghost e: Entry)
    requires Running(h, first, m) && |m| < USED_LIMIT && first + 1 < PRIME_COUNT && key !in m
    modifies h, h.data, h.ever`prev, h.ever`next
    ensures e.key == key && Running(h, first, m[key := e])
    ensures Values(m[key := e]) == Values(m)[key := value]
    ensures h.table != [] && fresh(h.ever - old(h.ever)) && (h.data == old(h.data) || fresh(h.data))
    ensures Follows(old(h.table), Ins(key, value), h.table)
    ensures Mirrored(old(h.table)) && GrewWell(old(h.table), h.table) ==> Mirrored(h.table)
  {
    hide *;
    RoomToGrow(h, first, m);
    RunningParts(h, first, m);
    ghost var t, grown, ever := h.table, h.used >= h.size, h.ever;
    var ht := h.Insert(key, value);
    e := ht;
    InsertRuns(h, first, m, t, grown, e, ever);
  }

  /** What an insertion does to a run. */
  lemma InsertRuns(h: HashMap, first: nat, m: map<Key, Entry>, t: seq<Bucket>, grown: bool, e: Entry, ever: set<Entry>)
    requires Placed(t) && AllIn(t, ever) && Holding(t, m) && Tops(t) <= ever && e.key !in m
    requires h.Valid() && h.size > 0 && (if grown then h.size > |t| else h.size == |t|)
    requires h.count == |m| + 1 && h.ever == ever + {e} && h.table == Put(if grown then Regrown(t, h.size) else t, e, null)
    ensures Running(h, first, m[e.key := e]) && Values(m[e.key := e]) == Values(m)[e.key := e.value] && h.table != []
    ensures Follows(t, Ins(e.key, e.value), h.table)
    ensures Mirrored(t) && GrewWell(t, h.table) ==> Mirrored(h.table)
  {
    ValidParts(h);
    hide HashMap.Valid, Running, Placed, Holding, Put, Regrown, Tops, AllIn, Prime, Follows, GrewWell, Mirrored, Wrap;
    hide Values;
    InsertMeans(t, grown, h.size, e, m);
    if grown {
      Buckets(t, h.size);
      TopsGrown(t, h.size, ever);
    }
    TopsPut(if grown then Regrown(t, h.size) else t, e, ever);
    StillRunning(h, first, m[e.key := e]);
  }

  lemma ValidParts(h: HashMap)
    requires h.Valid()
    ensures Placed(h.table) && h.size == |h.table| && AllIn(h.table, h.ever)
  {
  }

  lemma StillRunning(h: HashMap, first: nat, m: map<Key, Entry>)
    requires h.Valid() && h.size > 0 && Tops(h.table) <= h.ever && h.count == |m| && Holding(h.table, m)
    ensures Running(h, first, m)
  {
  }

  lemma TouchedIs(h: HashMap, first: nat, m: map<Key, Entry>)
    requires Running(h, first, m)
    ensures h.Touched() == h.ever
  {
  }

  /** What a deletion does to a run. */
  lemma DeleteRuns(h: HashMap, first: nat, m: map<Key, Entry>, t: seq<Bucket>, key: Key, r: int, b: nat, q: nat)
    requires t != [] && Placed(t) && Holding(t, m) && Tops(t) <= h.ever && !StaleKey(t, key)
    requires r == 1 <==> Matching(t, key) == None
    requires r == 1 ==> h.Valid() && h.table == t && h.count == |m|
    requires r != 1 ==> b < |t| && q < |t[b].chain| && Matching(t, key) == Some(t[b].chain[q])
    requires r != 1 && Clear(t, b, q) ==> h.Valid() && h.table == Without(t, b, q) && h.count == |m| - 1
    ensures Running(h, first, m - {key}) && Values(m - {key}) == Values(m) - {key} && h.table != []
    ensures Follows(t, Del(key), h.table) && (Mirrored(t) ==> Mirrored(h.table))
  {
    hide HashMap.Valid, Running, Placed, Holding, Tops, Follows, Mirrored, Values, Matching, StaleKey, Clear;
    if r == 1 {
      NothingDeleted(t, key, m);
      Filled(h);
      StillRunning(h, first, m);
    } else {
      DeleteMeans(t, key, b, q, m);
      TopsWithout(t, b, q, h.ever);
      Filled(h);
      StillRunning(h, first, m - {key});
    }
  }

  lemma Filled(h: HashMap)
    requires h.Valid() && h.table != []
    ensures h.size > 0
  {
  }

  /** hashmap_delete of a key when it does not go wrong. */
  method DeleteOne(h: HashMap, ghost first: nat, ghost m: map<Key, Entry>, key: Key)
    requires Running(h, first, m) && h.table != [] && !StaleKey(h.table, key)
    modifies h, h.data, h.ever`prev, h.ever`next
    ensures Running(h, first, m - {key}) && Values(m - {key}) == Values(m) - {key}
    ensures Follows(old(h.table), Del(key), h.table) && (Mirrored(old(h.table)) ==> Mirrored(h.table))
    ensures h.table != [] && h.ever == old(h.ever) && h.data == old(h.data)
  {
    hide *;
    RunningParts(h, first, m);
    TouchedIs(h, first, m);
    ghost var t := h.table;
    ghost var b, q;
    var r;
    r, b, q := h.Delete(key);
    DeleteRuns(h, first, m, t, key, r, b, q);
  }

  /** hashmap_delete of a key, unless it would go wrong. */
  method DeleteUnless(h: HashMap, ghost first: nat, ghost m: map<Key, Entry>, key: Key)
    returns (ok: bool, ghost m': map<Key, Entry>)
    requires Running(h, first, m) && h.table != []
    modifies h, h.data, h.ever`prev, h.ever`next
    ensures ok <==> !StaleKey(old(h.table), key)
    ensures Running(h, first, m') && h.table != [] && h.ever == old(h.ever) && h.data == old(h.data)
    ensures if ok then Follows(old(h.table), Del(key), h.table) && Values(m') == Values(m) - {key}
            else m' == m && h.table == old(h.table)
    ensures Mirrored(old(h.table)) ==> Mirrored(h.table)
  {
    hide *;
    RunningParts(h, first, m);
    ok := h.Deletable(key);
    m' := m;
    if ok {
      DeleteOne(h, first, m, key);
      m' := m - {key};
    }
  }

  // ---------- the run ----------

  /** After `n` operations of the run the table is `t`. */
  ghost predicate Told(ops: seq<Op>, n: nat, m: map<Key, Entry>, ts: seq<seq<Bucket>>, t: seq<Bucket>)
    requires n <= |ops|
  {
    && Values(m) == Result(ops[..n]) && History(ts, ops[..n]) && ts[n] == t && (n > 0 ==> t != [])
    && (AllGrewWell(ts) ==> Mirrored(t))
  }

  lemma ToldNext(ops: seq<Op>, n: nat, m: map<Key, Entry>, ts: seq<seq<Bucket>>, m': map<Key, Entry>, t: seq<Bucket>)
    requires n < |ops| && |ts| > n && Told(ops, n, m, ts, ts[n]) && t != []
    requires Follows(ts[n], ops[n], t) && Values(m') == Applied(Values(m), ops[n])
    requires Mirrored(ts[n]) && GrewWell(ts[n], t) ==> Mirrored(t)
    ensures Told(ops, n + 1, m', ts + [t], t)
  {
    ResultNext(ops, n);
    HistoryNext(ts, ops, n, t);
    hide Values, Result, Follows, AllGrewWell, GrewWell, Mirrored;
  }

  lemma ToldLast(ops: seq<Op>, n: nat, m: map<Key, Entry>, ts: seq<seq<Bucket>>, t: seq<Bucket>)
    requires n <= |ops| && Told(ops, n, m, ts, t)
    ensures |ts| == n + 1 && ts[n] == t && (n > 0 ==> t != []) && Values(m) == Result(ops[..n])
    ensures AllGrewWell(ts) ==> Mirrored(t)
    ensures History(ts, ops[..n])
  {
  }

  /** One operation, unless it is a deletion that would go wrong. */
  method Step(h: HashMap, ghost first: nat, ops: seq<Op>, n: nat, ghost m: map<Key, Entry>,
              ghost ts: seq<seq<Bucket>>)
    returns (ok: bool, ghost m': map<Key, Entry>)
    requires n < |ops| && Running(h, first, m) && Told(ops, n, m, ts, h.table)
    requires first + 1 < PRIME_COUNT && Fitting(ops)
    modifies h, h.data, h.ever`prev, h.ever`next
    ensures fresh(h.ever - old(h.ever)) && (h.data == old(h.data) || fresh(h.data)) && Running(h, first, m')
    ensures ok ==> Told(ops, n + 1, m', ts + [h.table], h.table)
    ensures !ok ==> m' == m && h.table == old(h.table)
    ensures !ok ==> Stuck(ops, n, h.table)
  {
    ToldLast(ops, n, m, ts, h.table);
    hide *;
    if ops[n].Ins? {
      ghost var e := InsertNew(h, first, m, ops[n].key, ops[n].value);
      ok, m' := true, m[ops[n].key := e];
    } else {
      ok, m' := DeleteUnless(h, first, m, ops[n].key);
      StuckHere(ops, n, ts[n]);
    }
    if ok {
      ToldNext(ops, n, m, ts, m', h.table);
    }
  }

  /** Any run of insertions of new keys and of deletions on a new map, until a deletion would go wrong: the
      table is the map of the operations, and no deletion goes wrong while every growth meets the condition
      that keeps the mirror. */
  method RunAll(first: nat, ops: seq<Op>)
    returns (h: HashMap, done: nat, ghost m: map<Key, Entry>, ghost ts: seq<seq<Bucket>>)
    requires first + 1 < PRIME_COUNT && Fitting(ops)
    ensures fresh(h) && h.Valid() && Holding(h.table, m) && h.count == |m|
    ensures done <= |ops| && Values(m) == Result(ops[..done])
    ensures History(ts, ops[..done]) && ts[done] == h.table
    ensures done < |ops| ==> Stuck(ops, done, h.table)
    ensures AllGrewWell(ts) ==> done == |ops| && Mirrored(h.table)
  {
    h := new HashMap(first);
    Starts(h, first, ops);
    hide Running, Told, Fitting, Stuck;
    done, m, ts := Steps(h, first, ops);
    RunEnds(h, first, ops, done, m, ts);
  }

  /** The steps of the run. */
  method Steps(h: HashMap, ghost first: nat, ops: seq<Op>)
    returns (done: nat, ghost m: map<Key, Entry>, ghost ts: seq<seq<Bucket>>)
    requires Running(h, first, map[]) && Told(ops, 0, map[], [[]], h.table)
    requires first + 1 < PRIME_COUNT && Fitting(ops)
    modifies h, h.data, h.ever`prev, h.ever`next
    ensures Running(h, first, m) && done <= |ops| && Told(ops, done, m, ts, h.table)
    ensures done < |ops| ==> Stuck(ops, done, h.table)
  {
    hide Running, Told, Fitting, Stuck;
    m, ts, done := map[], [[]], 0;
    var ok := true;
    while ok && done < |ops|
      invariant fresh(h.ever - old(h.ever)) && (h.data == old(h.data) || fresh(h.data)) && Running(h, first, m)
      invariant done <= |ops| && Told(ops, done, m, ts, h.table) && (ok || Stuck(ops, done, h.table))
    {
      ok, m := Step(h, first, ops, done, m, ts);
      if ok {
        ts, done := ts + [h.table], done + 1;
      }
    }
  }

  /** The next operation is a deletion that would go wrong. */
  ghost predicate Stuck(ops: seq<Op>, n: nat, t: seq<Bucket>)
  {
    n < |ops| && ops[n].Del? && t != [] && StaleKey(t, ops[n].key)
  }

  lemma StuckHere(ops: seq<Op>, n: nat, t: seq<Bucket>)
    requires n < |ops| && ops[n].Del? && t != []
    ensures Stuck(ops, n, t) <==> StaleKey(t, ops[n].key)
  {
  }

  lemma Starts(h: HashMap, first: nat, ops: seq<Op>)
    requires h.Valid() && h.table == [] && h.idx == first && h.count == 0
    ensures Running(h, first, map[]) && Told(ops, 0, map[], [[]], h.table)
  {
    assert ops[..0] == [];
  }

  /** A deletion goes wrong only when some growth broke the mirror. */
  lemma RunEnds(h: HashMap, first: nat, ops: seq<Op>, n: nat, m: map<Key, Entry>, ts: seq<seq<Bucket>>)
    requires Running(h, first, m) && n <= |ops| && Told(ops, n, m, ts, h.table) && (n < |ops| ==> Stuck(ops, n, h.table))
    ensures h.Valid() && Holding(h.table, m) && h.count == |m|
    ensures Values(m) == Result(ops[..n]) && History(ts, ops[..n]) && ts[n] == h.table
    ensures AllGrewWell(ts) ==> n == |ops| && Mirrored(h.table)
  {
    RunningParts(h, first, m);
    ToldLast(ops, n, m, ts, h.table);
    assert h.Valid();
    hide AllGrewWell, Told, Mirrored, StaleKey, HashMap.Valid, Holding, Running, History, Values, Result;
    if n < |ops| && Mirrored(h.table) {
      MirroredNotStale(h.table, ops[n].key);
    }
  }

  // ---------- a deletion that goes wrong ----------

  /** A new map after the insertions of `es`, of which there are at most seven. */
  ghost predicate HasFew(h: HashMap, es: seq<Entry>)
    reads h, h.data, h.ever
  {
    h.Valid() && h.count == |es| && (if es == [] then h.table == [] && h.idx == 0 else h.idx == 1 && h.table == Linked(es, 7))
  }

  /** One insertion into a new map that grows to seven buckets only. */
  method InsertFew(h: HashMap, key: Key, ghost es: seq<Entry>) returns (ghost e: Entry)
    requires HasFew(h, es) && |es| < 7
    modifies h, h.data, h.ever`prev, h.ever`next
    ensures HasFew(h, es + [e]) && e.key == key
    ensures fresh(h.ever - old(h.ever)) && (h.data == old(h.data) || fresh(h.data))
  {
    hide *;
    FewParts(h, es);
    var ht := h.Insert(key, None);
    e := ht;
    LinkedNext(es, e, 7);
    FewMore(h, es + [e]);
  }

  lemma FewMore(h: HashMap, es: seq<Entry>)
    requires h.Valid() && h.count == |es| && es != [] && h.table == Linked(es, 7) && h.idx == 1
    ensures HasFew(h, es)
  {
  }

  lemma FewParts(h: HashMap, es: seq<Entry>)
    requires HasFew(h, es) && |es| <= 7
    ensures h.Valid() && h.count == |es| && (es != [] ==> h.table == Linked(es, 7) && h.idx == 1)
    ensures h.idx == (if es == [] then 0 else 1) && (es == [] ==> h.table == [])
    ensures h.used == |es| && h.size == (if es == [] then 0 else 7) && Prime(1) == 7 && Prime(2) == 11 && 2 < PRIME_COUNT
    ensures es == [] ==> Regrown([], 7) == Linked(es, 7)
  {
    hide Linked, Regrown;
    LinkedNone(7);
    NothingRegrown(7);
  }

  lemma NothingRegrown(size: nat)
    requires size > 0
    ensures Regrown([], size) == Empty(size)
  {
    PutAllStart(Empty(size), []);
  }

  lemma FirstPrime()
    ensures 0 < PRIME_COUNT
  {
  }

  lemma FewNone(h: HashMap, keys: seq<Key>)
    requires h.Valid() && h.table == [] && h.idx == 0 && h.count == 0
    ensures HasFew(h, []) && Keyed([], keys, 0)
  {
  }

  /** Insertions of at most seven keys into a new map. */
  method InsertKeys(keys: seq<Key>) returns (h: HashMap, ghost es: seq<Entry>)
    requires |keys| <= 7
    ensures fresh(h) && fresh(h.data) && fresh(h.ever) && HasFew(h, es) && Keyed(es, keys, |keys|)
  {
    hide *;
    FirstPrime();
    h := new HashMap(0);
    es := [];
    FewNone(h, keys);
    var i := 0;
    while i < |keys|
      invariant i <= |keys| && fresh(h) && fresh(h.data) && fresh(h.ever) && HasFew(h, es) && Keyed(es, keys, i)
    {
      KeyedSize(es, keys, i);
      ghost var e := InsertFew(h, keys[i], es);
      KeyedNext(es, keys, i, e);
      es, i := es + [e], i + 1;
    }
  }

  /** The entries have the first `n` keys. */
  ghost predicate Keyed(es: seq<Entry>, keys: seq<Key>, n: nat)
    requires n <= |keys|
  {
    |es| == n && forall j :: 0 <= j < n ==> es[j].key == keys[j]
  }

  lemma KeyedSize(es: seq<Entry>, keys: seq<Key>, n: nat)
    requires n <= |keys| && Keyed(es, keys, n)
    ensures |es| == n
  {
  }

  lemma KeyedNext(es: seq<Entry>, keys: seq<Key>, n: nat, e: Entry)
    requires n < |keys| && Keyed(es, keys, n) && e.key == keys[n]
    ensures Keyed(es + [e], keys, n + 1)
  {
  }

  /** The insertions of the keys 1, 8, 63, 2, 3, 4 and 5. */
  method InsertSeven() returns (h: HashMap, ghost es: seq<Entry>)
    ensures fresh(h) && fresh(h.data) && fresh(h.ever) && HasFew(h, es) && SevenKeys(es)
  {
    hide HasFew;
    h, es := InsertKeys([[1], [8], [63], [2], [3], [4], [5]]);
  }

  /** One insertion more, which grows to eleven buckets. */
  method InsertEight() returns (h: HashMap, ghost es: seq<Entry>, ghost e: Entry)
    ensures fresh(h) && fresh(h.data) && fresh(h.ever) && h.Valid() && h.count == 8 && h.Touched() == h.ever
    ensures SevenKeys(es) && e.key == [6] && h.table == Put(Regrown(Linked(es, 7), 11), e, null)
  {
    hide *;
    h, es := InsertSeven();
    HasSeven(es);
    FewParts(h, es);
    ValidParts(h);
    ghost var ever := h.ever;
    var ht := h.Insert([6], None);
    e := ht;
    EightTops(h, es, e, ever);
  }

  lemma EightTops(h: HashMap, es: seq<Entry>, e: Entry, ever: set<Entry>)
    requires SevenKeys(es) && AllIn(Linked(es, 7), ever) && h.ever == ever + {e}
    requires h.table == Put(Regrown(Linked(es, 7), 11), e, null)
    ensures h.Touched() == h.ever
  {
    StalePrev(es);
    Buckets(Linked(es, 7), 11);
    assert Tops(Linked(es, 7)) == {};
    hide Linked, Regrown, Put, Tops, AllIn;
    TopsGrown(Linked(es, 7), 11, ever);
    TopsPut(Regrown(Linked(es, 7), 11), e, ever);
  }

  lemma HasSeven(es: seq<Entry>)
    requires SevenKeys(es)
    ensures |es| == 7
  {
  }

  /** Where the entries with the keys 1, 8 and 63 are then. */
  lemma EightLinked(h: HashMap, es: seq<Entry>, e: Entry)
    requires h.Valid() && SevenKeys(es) && e.key == [6] && h.table == Put(Regrown(Linked(es, 7), 11), e, null)
    ensures |h.table| == 11 && h.table[1] == Bucket([es[0]], es[1]) && h.table[8] == Bucket([es[1], es[2]], null)
    ensures h.size == 11 && Index([1], 11) == 1 && Index([63], 11) == 8 && Placed(h.table) && AllHold(h.data, h.table, h.ever)
  {
    hide Linked, Regrown, Index;
    StalePrev(es);
    Buckets(Linked(es, 7), 11);
    IndexOfOne(6, 11);
    IndexOfOne(1, 11);
    IndexOfOne(63, 11);
  }

  lemma Damage(h: HashMap, es: seq<Entry>)
    requires |es| == 7 && |h.table| == 11 && h.table[1] == Bucket([es[0]], es[1]) && h.table[8] == Bucket([es[1], es[2]], null)
    requires AllHold(h.data, h.table, h.ever)
    ensures var was := LinksOf(h.Touched());
            && es[0] in was && es[1] in was && was[es[0]] == Links(null, es[1]) && was[es[1]].next == es[2]
    ensures h.data.Length == 11 && h.data[1] == es[0] && h.data[8] == es[1]
  {
    assert Holds(h.data[1], h.table[1]) && Holds(h.data[8], h.table[8]);
    assert es[0] in h.table[1].chain && es[1] in h.table[8].chain;
  }

  lemma KeyOneFound(t: seq<Bucket>, es: seq<Entry>, b: nat, q: nat)
    requires SevenKeys(es) && |es| == 7 && |t| == 11 && t[1] == Bucket([es[0]], es[1]) && Placed(t) && Index([1], 11) == 1
    ensures Matching(t, [1]) == Some(es[0])
    ensures b < 11 && q < |t[b].chain| && t[b].chain[q] == es[0] ==> !Clear(t, b, q)
  {
    hide Index, Code;
    LookupAt([es[0]], 0);
    assert b < 11 && q < |t[b].chain| ==> t[b].chain[q] in t[b].chain;
  }

  lemma Bypasses(e: Entry, ht: Entry, was: map<Entry, Links>)
    requires ht in was && e in was && Bypassed(ht, was) && was[ht].prev == e
    ensures e.next == was[ht].next
  {
  }

  /** The deletion of key 1 after these insertions: it is reported as done, the entry stays the first of its
      bucket, and the entry with key 63 is no longer linked behind the one with key 8. */
  method StaleDelete() returns (h: HashMap, r: int, ghost es: seq<Entry>)
    ensures SevenKeys(es) && |es| == 7 && r == 0 && h.count == 7
    ensures Index([1], 11) == 1 && Index([63], 11) == 8
    ensures h.data.Length == 11 && h.data[1] == es[0] && h.data[8] == es[1] && es[1].next == null
  {
    hide *;
    ghost var e, b, q;
    h, es, e := InsertEight();
    HasSeven(es);
    EightLinked(h, es, e);
    Damage(h, es);
    ghost var t, was := h.table, LinksOf(h.Touched());
    r, b, q := h.Delete([1]);
    KeyOneFound(t, es, b, q);
    Bypasses(es[1], es[0], was);
  }
}
