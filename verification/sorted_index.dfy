/** The sorted index of ring positions: what it means for a sequence to be the
    index of a key set, the sort that builds it, and the clockwise successor
    that a lookup in it finds. */
module SortedIndex {
  import opened Keys

  ghost predicate Ascending(s: seq<uint32>)
  {
    forall i, j :: 0 <= i < j < |s| ==> s[i] <= s[j]
  }

  ghost predicate StrictlyAscending(s: seq<uint32>)
  {
    forall i, j :: 0 <= i < j < |s| ==> s[i] < s[j]
  }

  function Elements(s: seq<uint32>): set<uint32>
  {
    set x | x in s
  }

  /** `s` is the sorted index of `keys`: exactly the keys, in strictly ascending order. */
  ghost predicate IsIndexOf(s: seq<uint32>, keys: set<uint32>)
  {
    StrictlyAscending(s) && Elements(s) == keys
  }

  /** The first entry of an index is its least key, and the rest is the index
      of the remaining keys. */
  lemma IndexHead(s: seq<uint32>, keys: set<uint32>)
    requires IsIndexOf(s, keys) && s != []
    ensures forall q :: q in keys ==> s[0] <= q
    ensures IsIndexOf(s[1..], keys - {s[0]})
  {
  }

  /** The index holds each key exactly once. */
  lemma {:induction false} IndexLength(s: seq<uint32>, keys: set<uint32>)
    requires IsIndexOf(s, keys)
    ensures |s| == |keys|
  {
    if s != [] {
      IndexHead(s, keys);
      IndexLength(s[1..], keys - {s[0]});
    }
  }

  /** A key set has only one sorted index, so the index is a function of the ring. */
  lemma {:induction false} IndexUnique(s: seq<uint32>, t: seq<uint32>, keys: set<uint32>)
    requires IsIndexOf(s, keys) && IsIndexOf(t, keys)
    ensures s == t
  {
    if s == [] || t == [] {
      IndexLength(s, keys);
      IndexLength(t, keys);
    } else {
      IndexHead(s, keys);
      IndexHead(t, keys);
      assert s[0] in Elements(s) && t[0] in Elements(t);
      assert s[0] == t[0];
      IndexUnique(s[1..], t[1..], keys - {s[0]});
      assert s == [s[0]] + s[1..] && t == [t[0]] + t[1..];
    }
  }

  /** Two equal entries at different places make a value occur twice. */
  lemma RepeatedEntry(s: seq<uint32>, i: nat, j: nat)
    requires i < j < |s| && s[i] == s[j]
    ensures multiset(s)[s[i]] >= 2
  {
    assert s == s[..j] + [s[j]] + s[j + 1..];
    assert s[i] in s[..j];
  }

  /** An ascending permutation of a key set is the sorted index of that set. */
  lemma SortedPermutationIsIndex(s: seq<uint32>, keys: set<uint32>)
    requires Ascending(s) && multiset(s) == multiset(keys)
    ensures IsIndexOf(s, keys)
  {
    forall i, j | 0 <= i < j < |s|
      ensures s[i] < s[j]
    {
      if s[i] == s[j] {
        RepeatedEntry(s, i, j);
        assert false;
      }
    }
    forall x
      ensures x in Elements(s) <==> x in keys
    {
      assert x in s <==> x in multiset(s);
      assert x in keys <==> x in multiset(keys);
    }
  }

  /** Go's `uint32Type.Swap`: exchange two entries of the array being sorted. */
  method Swap(a: array<uint32>, i: nat, j: nat)
    requires i < a.Length && j < a.Length
    modifies a
    ensures a[i] == old(a[j]) && a[j] == old(a[i])
    ensures forall k :: 0 <= k < a.Length && k != i && k != j ==> a[k] == old(a[k])
    ensures multiset(a[..]) == old(multiset(a[..]))
  {
    a[i], a[j] := a[j], a[i];
  }

  /** Sorts the array in place into ascending order (by Go's `Less`, the `<` on
      positions), keeping its elements. */
  method Sort(a: array<uint32>)
    modifies a
    ensures Ascending(a[..])
    ensures multiset(a[..]) == old(multiset(a[..]))
  {
    var i := 0;
    while i < a.Length
      invariant 0 <= i <= a.Length
      invariant forall p, q :: 0 <= p < q < i ==> a[p] <= a[q]
      invariant multiset(a[..]) == old(multiset(a[..]))
    {
      var j := i;
      while 0 < j && a[j] < a[j - 1]
        invariant 0 <= j <= i
        invariant forall p, q :: 0 <= p < q <= i && q != j ==> a[p] <= a[q]
        invariant multiset(a[..]) == old(multiset(a[..]))
      {
        Swap(a, j - 1, j);
        j := j - 1;
      }
      i := i + 1;
    }
  }

  /** The smallest member of a non-empty set of positions. */
  ghost function Minimum(s: set<uint32>): (m: uint32)
    requires s != {}
    ensures m in s && forall x :: x in s ==> m <= x
    decreases |s|
  {
    var y :| y in s;
    if s == {y} then y
    else
      var m := Minimum(s - {y});
      assert forall x :: x in s ==> x == y || x in s - {y};
      if y < m then y else m
  }

  /** The clockwise successor of `h` among the ring positions `keys`: the least
      position strictly greater than `h`, or, when there is none, the least
      position of all (the walk wraps past 2^32 - 1 back to 0). */
  ghost function ClockwiseSuccessor(keys: set<uint32>, h: uint32): (p: uint32)
    requires keys != {}
    ensures p in keys
  {
    var above := set q | q in keys && h < q;
    if above != {} then Minimum(above) else Minimum(keys)
  }

  /** An index that the binary search can return picks out the clockwise
      successor of the searched position. */
  lemma SearchFindsSuccessor(s: seq<uint32>, keys: set<uint32>, h: uint32, i: nat)
    requires IsIndexOf(s, keys) && i < |s|
    requires (h < s[i] && forall j :: 0 <= j < i ==> s[j] <= h)
          || (i == 0 && forall j :: 0 <= j < |s| ==> s[j] <= h)
    ensures keys != {} && s[i] == ClockwiseSuccessor(keys, h)
  {
    assert s[i] in Elements(s);
    var p := ClockwiseSuccessor(keys, h);
    var above := set q | q in keys && h < q;
    assert p in Elements(s);
    var k :| 0 <= k < |s| && s[k] == p;
    if h < s[i] {
      assert s[i] in above;
      assert p == Minimum(above) && p <= s[i];
      assert i <= k;
    } else {
      forall q | q in keys
        ensures q <= h
      {
        assert q in Elements(s);
      }
      assert above == {};
      assert p == Minimum(keys) && p <= s[0];
    }
  }
}
