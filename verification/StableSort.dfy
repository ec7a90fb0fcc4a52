/** The in-place insertion sort the buffer's reference lists are built with. */
module StableSort {

  /** A sort key and what it is the key of.  Descending orders sort by the negated key. */
  datatype Keyed = Keyed(key: int, id: nat)

  function Insert(s: seq<Keyed>, x: Keyed): seq<Keyed> {
    if s == [] || s[|s| - 1].key <= x.key then s + [x]
    else Insert(s[..|s| - 1], x) + [s[|s| - 1]]
  }

  function Sorted(s: seq<Keyed>): seq<Keyed> {
    if s == [] then [] else Insert(Sorted(s[..|s| - 1]), s[|s| - 1])
  }

  /** Ordered by key, entries of equal key by id. */
  predicate Ordered(s: seq<Keyed>) {
    forall i, j | 0 <= i < j < |s| ::
      s[i].key < s[j].key || (s[i].key == s[j].key && s[i].id < s[j].id)
  }

  predicate AscendingIds(s: seq<Keyed>) {
    forall i, j | 0 <= i < j < |s| :: s[i].id < s[j].id
  }

  /** Inserting puts the entry behind everything that is not larger. */
  lemma {:induction false} InsertAt(s: seq<Keyed>, x: Keyed, j: nat)
    requires j <= |s| && (j > 0 ==> s[j - 1].key <= x.key)
    requires forall k | j <= k < |s| :: s[k].key > x.key
    ensures Insert(s, x) == s[..j] + [x] + s[j..]
  {
    if j < |s| {
      var init := s[..|s| - 1];
      InsertAt(init, x, j);
      assert init[..j] == s[..j] && init[j..] + [s[|s| - 1]] == s[j..];
    }
  }

  lemma {:induction false} InsertPlace(s: seq<Keyed>, x: Keyed) returns (j: nat)
    ensures j <= |s| && (j > 0 ==> s[j - 1].key <= x.key)
    ensures forall k | j <= k < |s| :: s[k].key > x.key
    ensures Insert(s, x) == s[..j] + [x] + s[j..]
  {
    j := |s|;
    while j > 0 && s[j - 1].key > x.key
      invariant j <= |s| && forall k | j <= k < |s| :: s[k].key > x.key
    {
      j := j - 1;
    }
    InsertAt(s, x, j);
  }

  lemma InsertKeeps(s: seq<Keyed>, x: Keyed)
    ensures multiset(Insert(s, x)) == multiset(s) + multiset{x}
    ensures Ordered(s) && (forall e | e in s :: e.id < x.id) ==> Ordered(Insert(s, x))
  {
    var j := InsertPlace(s, x);
    assert s == s[..j] + s[j..];
    if Ordered(s) && forall e | e in s :: e.id < x.id { OrderedAround(s, x, j); }
  }

  lemma OrderedAround(s: seq<Keyed>, x: Keyed, j: nat)
    requires Ordered(s) && j <= |s| && (forall e | e in s :: e.id < x.id)
    requires j > 0 ==> s[j - 1].key <= x.key
    requires forall k | j <= k < |s| :: s[k].key > x.key
    ensures Ordered(s[..j] + [x] + s[j..])
  {
    var r := s[..j] + [x] + s[j..];
    forall a, b | 0 <= a < b < |r|
      ensures r[a].key < r[b].key || (r[a].key == r[b].key && r[a].id < r[b].id)
    {
      EntryAround(s, x, j, a);
      EntryAround(s, x, j, b);
      if b == j { assert s[a] in s && (a < j - 1 ==> s[a].key <= s[j - 1].key); }
    }
  }

  lemma EntryAround(s: seq<Keyed>, x: Keyed, j: nat, k: nat)
    requires j <= |s| && k <= |s|
    ensures (s[..j] + [x] + s[j..])[k] == if k < j then s[k] else if k == j then x else s[k - 1]
  {}

  /** Sorting permutes its input and is stable: ties keep the order of their ids. */
  lemma {:induction false} SortIsStable(s: seq<Keyed>)
    requires AscendingIds(s)
    ensures multiset(Sorted(s)) == multiset(s)
    ensures Ordered(Sorted(s))
  {
    if s != [] {
      var init, last := s[..|s| - 1], s[|s| - 1];
      SortIsStable(init);
      assert s == init + [last];
      forall e | e in Sorted(init) ensures e.id < last.id {
        assert e in multiset(init);
      }
      InsertKeeps(Sorted(init), last);
    }
  }

  /** The same, in terms of members. */
  lemma SortedMembers(s: seq<Keyed>)
    requires AscendingIds(s)
    ensures |Sorted(s)| == |s| && Ordered(Sorted(s))
    ensures forall e :: e in Sorted(s) <==> e in s
    ensures forall i, j | 0 <= i < j < |s| :: Sorted(s)[i].id != Sorted(s)[j].id
  {
    SortIsStable(s);
    var r := Sorted(s);
    assert |multiset(r)| == |multiset(s)|;
    forall e ensures e in r <==> e in s {
      assert e in multiset(r) <==> e in multiset(s);
    }
    forall i, j | 0 <= i < j < |s| ensures r[i].id != r[j].id {
      if r[i].id == r[j].id { OneKeyPerId(s, r[i], r[j]); }
    }
  }

  lemma OneKeyPerId(s: seq<Keyed>, x: Keyed, y: Keyed)
    requires AscendingIds(s) && x in s && y in s && x.id == y.id
    ensures x == y
  {
    var a :| 0 <= a < |s| && s[a] == x;
    var b :| 0 <= b < |s| && s[b] == y;
  }

  /** Swaps entry `i` down to its place among the sorted entries before it. */
  method Sink(a: array<Keyed>, i: nat)
    requires i < a.Length
    modifies a
    ensures a[..i + 1] == Insert(old(a[..i]), old(a[i]))
    ensures forall k | i < k < a.Length :: a[k] == old(a[k])
  {
    ghost var before, x := a[..i], a[i];
    var j := i;
    while j > 0 && a[j - 1].key > a[j].key
      invariant j <= i && a[j] == x
      invariant forall k | 0 <= k < j :: a[k] == before[k]
      invariant forall k | j < k <= i :: a[k] == before[k - 1]
      invariant forall k | j <= k < i :: before[k].key > x.key
      invariant forall k | i < k < a.Length :: a[k] == old(a[k])
    {
      a[j - 1], a[j] := a[j], a[j - 1];
      j := j - 1;
    }
    InsertAt(before, x, j);
    assert a[..i + 1] == before[..j] + [x] + before[j..];
  }

  method InsertionSort(a: array<Keyed>, n: nat)
    requires n <= a.Length
    modifies a
    ensures a[..n] == Sorted(old(a[..n]))
    ensures forall k | n <= k < a.Length :: a[k] == old(a[k])
  {
    for i := 0 to n
      invariant a[..i] == Sorted(old(a[..i]))
      invariant forall k | i <= k < a.Length :: a[k] == old(a[k])
    {
      assert old(a[..i + 1])[..i] == old(a[..i]);
      Sink(a, i);
    }
  }
}
