/** The slot dictionary of confparser/dictionary.c: three parallel arrays that refine a map. */
module Dictionaries {
  import opened Options

  type Value = Option<string>

  /** DICTMINSZ. */
  const MIN_SIZE := 128

  // ---------- slots as sequences ----------

  function Occupied(slots: seq<Option<string>>): (c: nat)
    ensures c <= |slots|
  {
    if slots == [] then 0 else (if slots[0].Some? then 1 else 0) + Occupied(slots[1..])
  }

  /** Pigeonhole: a table that is not full has an empty slot. */
  lemma {:induction false} EmptySlotExists(slots: seq<Option<string>>)
    requires Occupied(slots) < |slots|
    ensures exists i :: 0 <= i < |slots| && slots[i].None?
  {
    if slots[0].Some? {
      EmptySlotExists(slots[1..]);
      var i :| 0 <= i < |slots[1..]| && slots[1..][i].None?;
      assert slots[i + 1].None?;
    }
  }

  lemma {:induction false} OccupiedUpdate(slots: seq<Option<string>>, i: nat, k: Option<string>)
    requires i < |slots|
    ensures Occupied(slots[i := k])
         == Occupied(slots) + (if k.Some? then 1 else 0) - (if slots[i].Some? then 1 else 0)
  {
    var after := slots[i := k];
    if i == 0 {
      assert after[1..] == slots[1..];
    } else {
      assert after[1..] == slots[1..][i - 1 := k];
      OccupiedUpdate(slots[1..], i - 1, k);
    }
  }

  lemma {:induction false} OccupiedAppendEmpty(slots: seq<Option<string>>, n: nat)
    ensures Occupied(slots + seq(n, _ => None)) == Occupied(slots)
    decreases |slots| + n
  {
    var more := slots + seq(n, _ => None);
    if slots != [] {
      assert more[1..] == slots[1..] + seq(n, _ => None);
      OccupiedAppendEmpty(slots[1..], n);
    } else if n > 0 {
      assert more[1..] == [] + seq(n - 1, _ => None);
      OccupiedAppendEmpty([], n - 1);
    }
  }

  lemma {:induction false} OccupiedNone(n: nat)
    ensures Occupied(seq(n, _ => None)) == 0
  {
    OccupiedAppendEmpty([], n);
    assert [] + seq(n, _ => None) == seq<Option<string>>(n, _ => None);
  }

  /** `slot` locates every key: it inverts the key column. */
  ghost predicate Indexes(keys: seq<Option<string>>, slot: map<string, nat>)
  {
    && (forall i :: 0 <= i < |keys| && keys[i].Some? ==> keys[i].value in slot && slot[keys[i].value] == i)
    && (forall k :: k in slot ==> slot[k] < |keys| && keys[slot[k]] == Some(k))
  }

  ghost function MapOf(vals: seq<Value>, slot: map<string, nat>): map<string, Value>
    requires forall k :: k in slot ==> slot[k] < |vals|
  {
    map k | k in slot :: vals[slot[k]]
  }

  lemma IndexedKeys(keys: seq<Option<string>>, slot: map<string, nat>)
    requires Indexes(keys, slot)
    ensures forall k :: k in slot ==> slot[k] < |keys| && keys[slot[k]] == Some(k)
    ensures forall i :: 0 <= i < |keys| && keys[i].Some? ==> keys[i].value in slot && slot[keys[i].value] == i
  {
  }

  lemma IndexPut(keys: seq<Option<string>>, vals: seq<Value>, slot: map<string, nat>, i: nat, k: string, v: Value)
    requires Indexes(keys, slot) && |vals| == |keys| && i < |keys|
    requires keys[i].None? && k !in slot
    ensures Indexes(keys[i := Some(k)], slot[k := i])
    ensures MapOf(vals[i := v], slot[k := i]) == MapOf(vals, slot)[k := v]
  {
    assert forall k' :: k' in slot ==> slot[k'] != i;
  }

  lemma IndexStore(keys: seq<Option<string>>, vals: seq<Value>, slot: map<string, nat>, k: string, v: Value)
    requires Indexes(keys, slot) && |vals| == |keys| && k in slot
    ensures MapOf(vals[slot[k] := v], slot) == MapOf(vals, slot)[k := v]
  {
    assert forall k' :: k' in slot && k' != k ==> slot[k'] != slot[k];
  }

  lemma IndexRemove(keys: seq<Option<string>>, vals: seq<Value>, slot: map<string, nat>, k: string)
    requires Indexes(keys, slot) && |vals| == |keys| && k in slot
    ensures Indexes(keys[slot[k] := None], slot - {k})
    ensures MapOf(vals[slot[k] := None], slot - {k}) == MapOf(vals, slot) - {k}
  {
    assert forall k' :: k' in slot && k' != k ==> slot[k'] != slot[k];
  }

  lemma IndexGrow(keys: seq<Option<string>>, vals: seq<Value>, slot: map<string, nat>, n: nat)
    requires Indexes(keys, slot) && |vals| == |keys|
    ensures Indexes(keys + seq(n, _ => None), slot)
    ensures MapOf(vals + seq(n, _ => None), slot) == MapOf(vals, slot)
  {
  }

  lemma HashGrow(keys: seq<Option<string>>, hashes: seq<nat>, n: nat, h: string -> nat)
    requires |keys| == |hashes| == n && forall i :: 0 <= i < n && keys[i].Some? ==> hashes[i] == h(keys[i].value)
    ensures var ks, hs := keys + seq(n, _ => None), hashes + seq(n, _ => 0);
            forall i :: 0 <= i < 2 * n && ks[i].Some? ==> hs[i] == h(ks[i].value)
  {
  }

  lemma {:induction false} OccupiedZero(slots: seq<Option<string>>)
    requires Occupied(slots) == 0
    ensures forall i :: 0 <= i < |slots| ==> slots[i].None?
  {
    if slots != [] {
      OccupiedZero(slots[1..]);
      assert forall i :: 1 <= i < |slots| ==> slots[i] == slots[1..][i - 1];
    }
  }

  /** The number of used slots is the number of keys. */
  lemma {:induction false} OccupiedIsCount(keys: seq<Option<string>>, slot: map<string, nat>)
    requires Indexes(keys, slot)
    ensures Occupied(keys) == |slot|
    decreases |slot|
  {
    if slot == map[] {
      NoneOccupied(keys);
    } else {
      var k :| k in slot;
      IndexRemove(keys, keys, slot, k);
      OccupiedUpdate(keys, slot[k], None);
      assert (slot - {k}).Keys == slot.Keys - {k};
      hide Indexes, Occupied;
      OccupiedIsCount(keys[slot[k] := None], slot - {k});
    }
  }

  lemma {:induction false} NoneOccupied(slots: seq<Option<string>>)
    requires forall i :: 0 <= i < |slots| ==> slots[i].None?
    ensures Occupied(slots) == 0
  {
    if slots != [] {
      NoneOccupied(slots[1..]);
    }
  }

  // ---------- whole runs ----------

  datatype Op = SetOp(k: string, v: Value) | UnsetOp(k: string)

  function Apply(m: map<string, Value>, op: Op): map<string, Value>
  {
    match op
    case SetOp(k, v) => m[k := v]
    case UnsetOp(k) => m - {k}
  }

  function ApplyAll(m: map<string, Value>, ops: seq<Op>): map<string, Value>
  {
    if ops == [] then m else Apply(ApplyAll(m, ops[..|ops| - 1]), ops[|ops| - 1])
  }

  /** `size` is `initial` doubled some number of times. */
  ghost predicate DoubledFrom(size: nat, initial: nat)
    decreases size
  {
    size == initial || (size > 0 && size % 2 == 0 && DoubledFrom(size / 2, initial))
  }

  lemma DoubledOnce(size: nat, initial: nat)
    requires DoubledFrom(size, initial)
    ensures DoubledFrom(2 * size, initial)
  {
  }

  /** mem_double: twice the room, the rest zeroed. */
  method MemDouble<T>(a: array<T>, zero: T) returns (b: array<T>)
    ensures fresh(b) && b.Length == 2 * a.Length
    ensures b[..] == a[..] + seq(a.Length, _ => zero)
  {
    b := new T[2 * a.Length](_ => zero);
    forall i | 0 <= i < a.Length {
      b[i] := a[i];
    }
  }

  class Dictionary {
    var n: nat
    var size: nat
    var val: array<Value>
    var key: array<Option<string>>
    var hash: array<nat>

    /** Any hash function will do. */
    const hashOf: string -> nat
    ghost const initial: nat
    ghost var slot: map<string, nat>

    ghost predicate Valid()
      reads this, val, key, hash
    {
      && val != key
      && 0 < size == val.Length == key.Length == hash.Length
      && Indexes(key[..], slot)
      && n == Occupied(key[..])
      && (forall i :: 0 <= i < size && key[i].Some? ==> hash[i] == hashOf(key[i].value))
      && DoubledFrom(size, initial)
    }

    /** The map this dictionary stands for; None is the null value. */
    ghost function Contents(): map<string, Value>
      requires Valid()
      reads this, val, key, hash
    {
      MapOf(val[..], slot)
    }

    /** dictionary_new. */
    constructor (wanted: int, h: string -> nat)
      ensures Valid() && fresh(val) && fresh(key) && fresh(hash)
      ensures hashOf == h && Contents() == map[] && initial == size
      ensures size == if wanted < 128 then 128 else wanted
    {
      var sz := if wanted < MIN_SIZE then MIN_SIZE else wanted;
      n, size, hashOf, initial, slot := 0, sz, h, sz, map[];
      val := new Value[sz](_ => None);
      key := new Option<string>[sz](_ => None);
      hash := new nat[sz](_ => 0);
      new;
      OccupiedNone(sz);
      assert key[..] == seq(sz, _ => None);
    }

    /** The scan shared by the three operations: the slot of `k`, or `size`. Comparing hashes first
        never changes the answer. */
    method Locate(k: string) returns (i: nat)
      requires Valid()
      ensures i <= size
      ensures i < size <==> k in slot
      ensures i < size ==> i == slot[k]
    {
      var h := hashOf(k);
      i := 0;
      while i < size
        invariant i <= size
        invariant forall j :: 0 <= j < i ==> key[j] != Some(k)
      {
        if key[i].Some? && h == hash[i] && k == key[i].value {
          assert key[..][i] == Some(k);
          return;
        }
        i := i + 1;
      }
      assert forall j :: 0 <= j < size ==> key[..][j] == key[j];
    }

    /** dictionary_get. */
    method Get(k: string, def: Value) returns (v: Value)
      requires Valid()
      ensures v == if k in Contents() then Contents()[k] else def
    {
      var i := Locate(k);
      if i < size {
        return val[i];
      }
      return def;
    }

    /** The growth step of dictionary_set. */
    method Grow()
      requires Valid()
      modifies this
      ensures Valid() && fresh(val) && fresh(key) && fresh(hash)
      ensures size == 2 * old(size) && n == old(n) && slot == old(slot)
      ensures Contents() == old(Contents())
    {
      IndexGrow(key[..], val[..], slot, size);
      OccupiedAppendEmpty(key[..], size);
      DoubledOnce(size, initial);
      hide Indexes, MapOf, Occupied, DoubledFrom;
      HashGrow(key[..], hash[..], size, hashOf);
      val := MemDouble(val, None);
      key := MemDouble(key, None);
      hash := MemDouble(hash, 0);
      size := 2 * size;
      assert forall i :: 0 <= i < size ==> key[i] == key[..][i] && hash[i] == hash[..][i];
    }

    /** Filling slot `i` with a new key. */
    method Put(i: nat, k: string, v: Value)
      requires Valid() && i < size && key[i].None? && k !in slot
      modifies this`n, this`slot, val, key, hash
      ensures Valid()
      ensures Contents() == old(Contents())[k := v]
      ensures n == old(n) + 1
    {
      hide Indexes, MapOf, Occupied, DoubledFrom;
      IndexPut(key[..], val[..], slot, i, k, v);
      OccupiedUpdate(key[..], i, Some(k));
      ghost var keys, vals := key[..], val[..];
      key[i] := Some(k);
      val[i] := v;
      hash[i] := hashOf(k);
      n := n + 1;
      slot := slot[k := i];
      assert key[..] == keys[i := Some(k)];
      assert val[..] == vals[i := v];
    }

    /** dictionary_set: a null key is refused, anything else is stored. */
    method Set(k: Option<string>, v: Value) returns (r: int)
      requires Valid()
      modifies this, val, key, hash
      ensures Valid()
      ensures r == if k.None? then -1 else 0
      ensures Contents() == if k.None? then old(Contents()) else old(Contents())[k.value := v]
      ensures n == old(n) + (if k.Some? && k.value !in old(Contents()) then 1 else 0)
      ensures size == if n > old(size) then 2 * old(size) else old(size)
      ensures val != old(val) ==> fresh(val)
      ensures key != old(key) ==> fresh(key)
      ensures hash != old(hash) ==> fresh(hash)
    {
      assert Contents().Keys == slot.Keys;
      if n == 0 {
        OccupiedZero(key[..]);
      }
      hide MapOf, Occupied;
      if k.None? { return -1; }
      var i := size;
      if n > 0 {
        i := Locate(k.value);
      }
      if i < size {
        Store(i, k.value, v);
        return 0;
      }
      if n == size {
        Grow();
      }
      i := FirstEmpty();
      Put(i, k.value, v);
      r := 0;
    }

    /** Replacing the value of a key that is present. */
    method Store(i: nat, k: string, v: Value)
      requires Valid() && k in slot && i == slot[k]
      modifies val
      ensures Valid()
      ensures Contents() == old(Contents())[k := v]
    {
      IndexStore(key[..], val[..], slot, k, v);
      hide Indexes, MapOf, Occupied;
      ghost var keys, vals := key[..], val[..];
      val[i] := v;
      assert val[..] == vals[i := v] && key[..] == keys;
    }

    /** The first free slot, which the growth test guarantees to exist. */
    method FirstEmpty() returns (i: nat)
      requires Valid() && n < size
      ensures i < size && key[i].None?
    {
      EmptySlotExists(key[..]);
      i := 0;
      while key[i].Some?
        invariant i < size
        invariant forall j :: 0 <= j < i ==> key[..][j].Some?
        decreases size - i
      {
        i := i + 1;
      }
    }

    lemma SlotIs(k: string)
      requires Valid() && k in slot
      ensures slot[k] < size && key[slot[k]] == Some(k)
    {
      assert key[..][slot[k]] == key[slot[k]];
    }

    /** Emptying the slot of a key that is present. */
    method Erase(i: nat, k: string)
      requires Valid() && k in slot && i == slot[k]
      modifies this`n, this`slot, val, key, hash
      ensures Valid()
      ensures Contents() == old(Contents()) - {k}
      ensures n == old(n) - 1
    {
      SlotIs(k);
      hide Indexes, MapOf, Occupied, DoubledFrom;
      IndexRemove(key[..], val[..], slot, k);
      OccupiedUpdate(key[..], i, None);
      ghost var keys, vals := key[..], val[..];
      key[i] := None;
      val[i] := None;
      hash[i] := 0;
      n := n - 1;
      slot := slot - {k};
      assert key[..] == keys[i := None];
      assert val[..] == vals[i := None];
    }

    /** dictionary_unset. */
    method Unset(k: Option<string>)
      requires Valid()
      modifies this`n, this`slot, val, key, hash
      ensures Valid()
      ensures Contents() == if k.None? then old(Contents()) else old(Contents()) - {k.value}
      ensures n == old(n) - (if k.Some? && k.value in old(Contents()) then 1 else 0)
    {
      if k.None? { return; }
      assert Contents().Keys == slot.Keys;
      hide MapOf, Occupied;
      var i := Locate(k.value);
      if i >= size {
        assert k.value !in Contents();
        return;
      }
      Erase(i, k.value);
    }
  }

  /** Any run of updates on a new dictionary of any size and with any hash function leaves it
      consistent, holding the map that the updates describe. */
  method Replay(wanted: int, h: string -> nat, ops: seq<Op>) returns (d: Dictionary)
    ensures fresh(d) && d.Valid() && d.Contents() == ApplyAll(map[], ops)
    ensures d.n == |ApplyAll(map[], ops)| <= d.size
    ensures DoubledFrom(d.size, if wanted < 128 then 128 else wanted)
  {
    d := new Dictionary(wanted, h);
    hide Indexes, MapOf, Occupied;
    for i := 0 to |ops|
      invariant d.Valid() && fresh(d) && fresh(d.val) && fresh(d.key) && fresh(d.hash)
      invariant d.initial == if wanted < MIN_SIZE then MIN_SIZE else wanted
      invariant d.Contents() == ApplyAll(map[], ops[..i])
    {
      assert ops[..i + 1][..i] == ops[..i];
      match ops[i]
      case SetOp(k, v) =>
        var r := d.Set(Some(k), v);
      case UnsetOp(k) =>
        d.Unset(Some(k));
    }
    assert ops[..|ops|] == ops;
    OccupiedIsCount(d.key[..], d.slot);
    IndexedKeys(d.key[..], d.slot);
    SameCount(d.val[..], d.slot);
  }

  lemma SameCount(vals: seq<Value>, slot: map<string, nat>)
    requires forall k :: k in slot ==> slot[k] < |vals|
    ensures |MapOf(vals, slot)| == |slot|
  {
    assert MapOf(vals, slot).Keys == slot.Keys;
    assert |MapOf(vals, slot).Keys| == |MapOf(vals, slot)|;
  }
}
