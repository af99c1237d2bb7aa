/** The consistent-hashing ring: a map from 32-bit positions to node ids, the
    member set, the sorted index of positions, and the operations that change
    them and look a key up. */
module ConsistentHashing {
  import opened Keys
  import opened SortedIndex
  import opened Placement

  /** The two's-complement 32-bit counter type of the ring (Go's `int32`). */
  newtype int32 = x: int | -0x8000_0000 <= x < 0x8000_0000

  /** `x + 1` as Go computes it on an `int32`: congruent to `x + 1` modulo 2^32,
      so the largest value wraps to the smallest. */
  function WrappingIncrement(x: int32): (r: int32)
    ensures (r as int - x as int - 1) % 0x1_0000_0000 == 0
  {
    if x == 0x7fff_ffff then -0x8000_0000 else x + 1
  }

  /** The virtual-node count a new ring starts with. */
  const DefaultVNodes: int := 20

  datatype Error =
    | RingNil            // lookup on a ring without positions
    | MembersPresent     // the virtual-node count cannot change while there are members
    | VNodesNotPositive  // the virtual-node count must be at least one

  /** The `error` result of an operation that returns nothing else: `Nil` is success. */
  datatype Outcome = Nil | Fail(error: Error)

  datatype Result<T> = Ok(value: T) | Err(error: Error)

  class ConsistentHash {
    var ring: map<uint32, string>
    var members: set<string>
    var numberOfVNodes: int
    var sortedHashes: seq<uint32>
    var count: int32
    /** The hash of a key onto the ring (CRC-32 of its bytes in the system). */
    const hash: Hash

    /** The ring's invariant: a positive virtual-node count, an index that is
        exactly the sorted positions of the ring, and every entry a virtual-node
        position of a member. */
    ghost predicate Valid()
      reads this
    {
      && numberOfVNodes > 0
      && IsIndexOf(sortedHashes, ring.Keys)
      && Consistent(hash, ring, members, numberOfVNodes)
    }

    /** An empty ring with the default virtual-node count. */
    constructor (hash: Hash)
      ensures Valid() && this.hash == hash
      ensures ring == map[] && members == {} && sortedHashes == []
      ensures numberOfVNodes == DefaultVNodes && count == 0
    {
      this.hash := hash;
      ring := map[];
      members := {};
      numberOfVNodes := DefaultVNodes;
      sortedHashes := [];
      count := 0;
    }

    /** Changes the virtual-node count. Refused while there are members (checked
        first) and for a count below one; on refusal nothing changes. */
    method SetVNodeNumber(num: int) returns (err: Outcome)
      requires Valid()
      modifies this`numberOfVNodes
      ensures Valid()
      ensures old(members) != {} ==> err == Fail(MembersPresent)
      ensures old(members) == {} && num <= 0 ==> err == Fail(VNodesNotPositive)
      ensures err == Nil <==> old(members) == {} && num > 0
      ensures numberOfVNodes == if err == Nil then num else old(numberOfVNodes)
    {
      if |members| != 0 {
        err := Fail(MembersPresent);
        return;
      }
      if num <= 0 {
        err := Fail(VNodesNotPositive);
        return;
      }
      NoMembersEmptyRing(hash, ring, numberOfVNodes);
      numberOfVNodes := num;
      err := Nil;
    }

    /** Places the virtual nodes of `ip`, makes it a member, rebuilds the index
        and bumps the counter, even when `ip` was already a member. */
    method AddNode(ip: string)
      requires Valid()
      modifies this`ring, this`members, this`sortedHashes, this`count
      ensures Valid()
      ensures ring == Place(hash, old(ring), ip, numberOfVNodes)
      ensures ring.Keys == old(ring).Keys + Positions(hash, ip, numberOfVNodes)
      ensures forall i :: 0 <= i < numberOfVNodes ==> ring[hash(GenerateKey(ip, i))] == ip
      ensures forall p :: p in old(ring) && p !in Positions(hash, ip, numberOfVNodes) ==> ring[p] == old(ring)[p]
      ensures members == old(members) + {ip}
      ensures count == WrappingIncrement(old(count))
    {
      for i := 0 to numberOfVNodes
        modifies this`ring
        invariant ring == Place(hash, old(ring), ip, i)
      {
        ring := ring[hash(GenerateKey(ip, i)) := ip];
      }
      members := members + {ip};
      UpdateSortedConsistentHash();
      count := WrappingIncrement(count);
      PlaceEffect(hash, old(ring), ip, numberOfVNodes);
      PlaceConsistent(hash, old(ring), old(members), ip, numberOfVNodes);
      assert forall i :: 0 <= i < numberOfVNodes ==> hash(GenerateKey(ip, i)) in Positions(hash, ip, numberOfVNodes);
    }

    /** Places the virtual nodes of every id of `ips`, in order, makes them all
        members and rebuilds the index once; the counter is left alone. */
    method AddNodes(ips: seq<string>)
      requires Valid()
      modifies this`ring, this`members, this`sortedHashes
      ensures Valid()
      ensures ring == PlaceAll(hash, old(ring), ips, numberOfVNodes)
      ensures forall k :: 0 <= k < |ips| ==> Positions(hash, ips[k], numberOfVNodes) <= ring.Keys
      ensures members == old(members) + set k | 0 <= k < |ips| :: ips[k]
    {
      for j := 0 to |ips|
        modifies this`ring, this`members
        invariant ring == PlaceAll(hash, old(ring), ips[..j], numberOfVNodes)
        invariant members == old(members) + set k | 0 <= k < j :: ips[k]
        invariant Consistent(hash, ring, members, numberOfVNodes)
      {
        ghost var before := ring;
        for i := 0 to numberOfVNodes
          modifies this`ring
          invariant ring == Place(hash, before, ips[j], i)
        {
          ring := ring[hash(GenerateKey(ips[j], i)) := ips[j]];
        }
        PlaceConsistent(hash, before, members, ips[j], numberOfVNodes);
        members := members + {ips[j]};
        assert ips[..j + 1][..j] == ips[..j];
      }
      assert ips[..|ips|] == ips;
      UpdateSortedConsistentHash();
      PlaceAllCovers(hash, old(ring), ips, numberOfVNodes);
    }

    /** Deletes the positions of the virtual nodes of `ip`, drops it from the
        members and rebuilds the index; the counter is left alone. Afterwards no
        trace of `ip` is left, so removing it again changes nothing. */
    method RemoveNode(ip: string)
      requires Valid()
      modifies this`ring, this`members, this`sortedHashes
      ensures Valid()
      ensures ring == Unplace(hash, old(ring), ip, numberOfVNodes)
      ensures ring == old(ring) - Positions(hash, ip, numberOfVNodes)
      ensures members == old(members) - {ip}
      ensures forall p :: p in ring ==> ring[p] != ip
      ensures ip !in members && ring.Keys !! Positions(hash, ip, numberOfVNodes)
      ensures old(ip !in members && ring.Keys !! Positions(hash, ip, numberOfVNodes)) ==>
        ring == old(ring) && members == old(members) && sortedHashes == old(sortedHashes)
    {
      for i := 0 to numberOfVNodes
        modifies this`ring
        invariant ring == Unplace(hash, old(ring), ip, i)
      {
        ring := ring - {hash(GenerateKey(ip, i))};
      }
      members := members - {ip};
      UpdateSortedConsistentHash();
      UnplaceEffect(hash, old(ring), ip, numberOfVNodes);
      UnplaceConsistent(hash, old(ring), old(members), ip, numberOfVNodes);
      if old(ip !in members && ring.Keys !! Positions(hash, ip, numberOfVNodes)) {
        assert ring == old(ring);
        IndexUnique(sortedHashes, old(sortedHashes), ring.Keys);
      }
    }

    /** The owner of `name`: the node at the clockwise successor of its hash.
        Fails with `RingNil` exactly when the ring has no positions. */
    method GetNode(name: string) returns (r: Result<string>)
      requires Valid()
      ensures r.Err? <==> ring == map[]
      ensures r.Err? ==> r.error == RingNil
      ensures r.Ok? ==> r.value == ring[ClockwiseSuccessor(ring.Keys, hash(name))]
      ensures r.Ok? ==> r.value in members
    {
      if |ring| == 0 {
        return Err(RingNil);
      }
      var hashKey := hash(name);
      IndexLength(sortedHashes, ring.Keys);
      var index := Search(hashKey);
      SearchFindsSuccessor(sortedHashes, ring.Keys, hashKey, index);
      r := Ok(ring[sortedHashes[index]]);
    }

    /** Rebuilds the sorted index from the keys of the ring: collects them (in
        whatever order the map yields them) and sorts them. */
    method UpdateSortedConsistentHash()
      modifies this`sortedHashes
      ensures IsIndexOf(sortedHashes, ring.Keys)
    {
      var hashes: seq<uint32> := [];
      var rest := ring.Keys;
      while rest != {}
        invariant multiset(hashes) + multiset(rest) == multiset(ring.Keys)
        decreases |rest|
      {
        var k :| k in rest;
        hashes := hashes + [k];
        rest := rest - {k};
      }
      var a := new uint32[|hashes|](i requires 0 <= i < |hashes| => hashes[i]);
      assert a[..] == hashes;
      Sort(a);
      sortedHashes := a[..];
      SortedPermutationIsIndex(sortedHashes, ring.Keys);
    }

    /** The index of the first position strictly greater than `key`, found by
        binary search; 0 when there is none (the search wraps around the ring). */
    method Search(key: uint32) returns (i: int)
      requires Ascending(sortedHashes)
      ensures sortedHashes == [] ==> i == 0
      ensures sortedHashes != [] ==> 0 <= i < |sortedHashes|
      ensures sortedHashes != [] ==>
        (key < sortedHashes[i] && forall j :: 0 <= j < i ==> sortedHashes[j] <= key)
        || (i == 0 && forall j :: 0 <= j < |sortedHashes| ==> sortedHashes[j] <= key)
    {
      var lo, hi := 0, |sortedHashes|;
      while lo < hi
        invariant 0 <= lo <= hi <= |sortedHashes|
        invariant forall j :: 0 <= j < lo ==> sortedHashes[j] <= key
        invariant forall j :: hi <= j < |sortedHashes| ==> key < sortedHashes[j]
      {
        var mid := lo + (hi - lo) / 2;
        if key < sortedHashes[mid] {
          hi := mid;
        } else {
          lo := mid + 1;
        }
      }
      i := lo;
      if i >= |sortedHashes| {
        i := 0;
      }
    }
  }
}
