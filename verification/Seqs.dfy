/** Sequence identities used by several modules. */
module Seqs {

  function Min(a: nat, b: nat): nat { if a <= b then a else b }

  function Cons<T>(x: T, s: seq<T>): (r: seq<T>)
    ensures |r| == |s| + 1
  {
    [x] + s
  }

  lemma ConsAt<T>(x: T, s: seq<T>, i: nat)
    requires i < |s|
    ensures |Cons(x, s)| == |s| + 1 && Cons(x, s)[i + 1] == s[i]
  {
  }

  function Zeros(n: nat): (s: seq<nat>)
    ensures |s| == n
    ensures forall i :: 0 <= i < n ==> s[i] == 0
  {
    seq(n, _ => 0)
  }

  lemma ZerosConcat(m: nat, n: nat)
    ensures Zeros(m) + Zeros(n) == Zeros(m + n)
  {
  }

  lemma Assoc<T>(a: seq<T>, b: seq<T>, c: seq<T>)
    ensures a + (b + c) == (a + b) + c
  {
  }

  lemma EmptyLeft<T>(s: seq<T>)
    ensures [] + s == s
  {
  }

  lemma EmptyRight<T>(s: seq<T>)
    ensures s + [] == s
  {
  }

  lemma Cut<T>(s: seq<T>, i: nat, j: nat)
    requires i <= j <= |s|
    ensures s[i..] == s[i..j] + s[j..]
    ensures s[i..][j - i..] == s[j..]
    ensures s[i..][..j - i] == s[i..j]
  {
  }

  /** Dropping and taking across a concatenation whose left part is long enough. */
  lemma SplitLeft<T>(a: seq<T>, b: seq<T>, n: nat)
    requires n <= |a|
    ensures (a + b)[..n] == a[..n]
    ensures (a + b)[n..] == a[n..] + b
  {
  }

  lemma TakeSnoc<T>(s: seq<T>, i: nat)
    requires i < |s|
    ensures s[..i + 1] == s[..i] + [s[i]]
  {
  }

  lemma TakeAll<T>(s: seq<T>)
    ensures s[..|s|] == s
  {
  }

  /** The parts one after the other. */
  function Flat<T>(parts: seq<seq<T>>): seq<T>
  {
    if parts == [] then [] else parts[0] + Flat(parts[1..])
  }

  lemma {:induction false} FlatConcat<T>(a: seq<seq<T>>, b: seq<seq<T>>)
    ensures Flat(a + b) == Flat(a) + Flat(b)
  {
    if a == [] {
      EmptyLeft(b);
      EmptyLeft(Flat(b));
    } else {
      assert (a + b)[1..] == a[1..] + b;
      FlatConcat(a[1..], b);
      Assoc(a[0], Flat(a[1..]), Flat(b));
    }
  }

  lemma FlatOne<T>(b: seq<T>)
    ensures Flat([b]) == b
  {
    EmptyRight(b);
  }

  lemma FlatSnoc<T>(parts: seq<seq<T>>, i: nat)
    requires i < |parts|
    ensures parts[..i + 1] == parts[..i] + [parts[i]]
    ensures Flat(parts[..i + 1]) == Flat(parts[..i]) + parts[i]
  {
    TakeSnoc(parts, i);
    FlatConcat(parts[..i], [parts[i]]);
    FlatOne(parts[i]);
  }

  /** `s` with zeroes behind it. */
  ghost predicate Extended(s: seq<nat>, r: seq<nat>) { |r| >= |s| && r == s + Zeros(|r| - |s|) }

  lemma ExtendedNot(s: seq<nat>)
    ensures Extended(s, s)
  {
    EmptyRight(s);
  }

  lemma ExtendedMore(s: seq<nat>, r: seq<nat>)
    requires Extended(s, r)
    ensures Extended(s, r + [0])
  {
    ZerosConcat(|r| - |s|, 1);
    Assoc(s, Zeros(|r| - |s|), Zeros(1));
  }

  lemma TakeNone<T>(a: seq<T>, s: seq<T>)
    ensures a + s[..0] == a
  {
  }

  lemma TakeMore<T>(a: seq<T>, s: seq<T>, i: nat, n: nat)
    requires i + n <= |s|
    ensures (a + s[..i]) + s[i..i + n] == a + s[..i + n]
  {
    Assoc(a, s[..i], s[i..i + n]);
    assert s[..i] + s[i..i + n] == s[..i + n];
  }

  /** Two slices, one behind the other. */
  lemma TwoSlices<T>(a: seq<T>, i: nat, j: nat)
    requires i <= j <= |a|
    ensures a[..i] + a[i..][..j - i] == a[..j] && a[i..][j - i..] == a[j..]
  {
    Cut(a, i, j);
    assert a[..i] + a[i..j] == a[..j];
  }
}
