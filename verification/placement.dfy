/** Virtual-node placement on the ring map: where a node's virtual nodes go,
    what adding and removing them does to the map, and the consistency that
    ties every ring entry to a member. */
module Placement {
  import opened Keys

  /** The hash of a key: the ring position it lands on (CRC-32 in the system). */
  type Hash = string -> uint32

  /** The positions of the first `n` virtual nodes of `ip`. */
  ghost function Positions(hash: Hash, ip: string, n: nat): set<uint32>
  {
    set i: nat | i < n :: hash(GenerateKey(ip, i))
  }

  /** The ring map after writing virtual nodes 0 .. n-1 of `ip` in index order,
      as the placement loop does; a later write to a position wins. */
  function Place(hash: Hash, ring: map<uint32, string>, ip: string, n: nat): map<uint32, string>
    decreases n
  {
    if n == 0 then ring
    else Place(hash, ring, ip, n - 1)[hash(GenerateKey(ip, n - 1)) := ip]
  }

  /** The ring map after deleting the positions of virtual nodes 0 .. n-1 of `ip`,
      as the removal loop does. */
  function Unplace(hash: Hash, ring: map<uint32, string>, ip: string, n: nat): map<uint32, string>
    decreases n
  {
    if n == 0 then ring
    else Unplace(hash, ring, ip, n - 1) - {hash(GenerateKey(ip, n - 1))}
  }

  /** The ring map after placing every node of `ips`, in order, as the batch
      placement loop does. */
  function PlaceAll(hash: Hash, ring: map<uint32, string>, ips: seq<string>, n: nat): map<uint32, string>
    decreases |ips|
  {
    if ips == [] then ring
    else Place(hash, PlaceAll(hash, ring, ips[..|ips| - 1], n), ips[|ips| - 1], n)
  }

  /** Placing a node maps each of its positions to it, adds exactly those
      positions, and leaves every other entry as it was. */
  lemma {:induction false} PlaceEffect(hash: Hash, ring: map<uint32, string>, ip: string, n: nat)
    ensures Place(hash, ring, ip, n).Keys == ring.Keys + Positions(hash, ip, n)
    ensures forall p :: p in Positions(hash, ip, n) ==> Place(hash, ring, ip, n)[p] == ip
    ensures forall p :: p in ring && p !in Positions(hash, ip, n) ==> Place(hash, ring, ip, n)[p] == ring[p]
  {
    if n > 0 {
      PlaceEffect(hash, ring, ip, n - 1);
      assert Positions(hash, ip, n) == Positions(hash, ip, n - 1) + {hash(GenerateKey(ip, n - 1))};
    }
  }

  /** Removing a node deletes exactly its positions. */
  lemma {:induction false} UnplaceEffect(hash: Hash, ring: map<uint32, string>, ip: string, n: nat)
    ensures Unplace(hash, ring, ip, n) == ring - Positions(hash, ip, n)
  {
    if n > 0 {
      UnplaceEffect(hash, ring, ip, n - 1);
      assert Positions(hash, ip, n) == Positions(hash, ip, n - 1) + {hash(GenerateKey(ip, n - 1))};
    }
  }

  /** Removing a node after adding it takes away its positions and nothing else;
      in particular a ring that held none of them, such as the empty ring, is
      restored exactly. */
  lemma RemoveUndoesAdd(hash: Hash, ring: map<uint32, string>, ip: string, n: nat)
    ensures Unplace(hash, Place(hash, ring, ip, n), ip, n) == ring - Positions(hash, ip, n)
    ensures ring.Keys !! Positions(hash, ip, n) ==> Unplace(hash, Place(hash, ring, ip, n), ip, n) == ring
  {
    PlaceEffect(hash, ring, ip, n);
    UnplaceEffect(hash, Place(hash, ring, ip, n), ip, n);
    var r := Unplace(hash, Place(hash, ring, ip, n), ip, n);
    assert r.Keys == (ring - Positions(hash, ip, n)).Keys;
  }

  /** Removing a node twice is the same as removing it once. */
  lemma RemoveIdempotent(hash: Hash, ring: map<uint32, string>, ip: string, n: nat)
    ensures Unplace(hash, Unplace(hash, ring, ip, n), ip, n) == Unplace(hash, ring, ip, n)
  {
    UnplaceEffect(hash, ring, ip, n);
    UnplaceEffect(hash, Unplace(hash, ring, ip, n), ip, n);
  }

  /** With pairwise distinct positions, placing a node on an empty ring gives
      exactly one entry per virtual node. */
  lemma {:induction false} PlaceCount(hash: Hash, ip: string, n: nat)
    requires forall i, j :: 0 <= i < j < n ==> hash(GenerateKey(ip, i)) != hash(GenerateKey(ip, j))
    ensures |Place(hash, map[], ip, n)| == n
  {
    if n > 0 {
      PlaceCount(hash, ip, n - 1);
      var before := Place(hash, map[], ip, n - 1);
      PlaceEffect(hash, map[], ip, n - 1);
      var p := hash(GenerateKey(ip, n - 1));
      assert p !in Positions(hash, ip, n - 1) by {
        forall i: nat | i < n - 1
          ensures hash(GenerateKey(ip, i)) != p
        {
        }
      }
      assert p !in before;
      assert |before[p := ip]| == |before| + 1;
    }
  }

  /** A batch placement puts every position of every listed node on the ring. */
  lemma {:induction false} PlaceAllCovers(hash: Hash, ring: map<uint32, string>, ips: seq<string>, n: nat)
    ensures forall k :: 0 <= k < |ips| ==> Positions(hash, ips[k], n) <= PlaceAll(hash, ring, ips, n).Keys
    decreases |ips|
  {
    if ips != [] {
      var init := ips[..|ips| - 1];
      var before := PlaceAll(hash, ring, init, n);
      PlaceAllCovers(hash, ring, init, n);
      PlaceEffect(hash, before, ips[|ips| - 1], n);
      forall k | 0 <= k < |ips|
        ensures Positions(hash, ips[k], n) <= PlaceAll(hash, ring, ips, n).Keys
      {
        if k < |init| {
          assert ips[k] == init[k];
        }
      }
    }
  }

  /** A position that no listed node has keeps its old entry, or stays absent. */
  lemma {:induction false} PlaceAllElsewhere(hash: Hash, ring: map<uint32, string>, ips: seq<string>, n: nat, p: uint32)
    requires forall k :: 0 <= k < |ips| ==> p !in Positions(hash, ips[k], n)
    ensures p in PlaceAll(hash, ring, ips, n) <==> p in ring
    ensures p in ring ==> PlaceAll(hash, ring, ips, n)[p] == ring[p]
    decreases |ips|
  {
    if ips != [] {
      var init := ips[..|ips| - 1];
      assert forall k :: 0 <= k < |init| ==> init[k] == ips[k];
      PlaceAllElsewhere(hash, ring, init, n, p);
      PlaceEffect(hash, PlaceAll(hash, ring, init, n), ips[|ips| - 1], n);
    }
  }

  /** A position belongs, after a batch placement, to the last listed node that has it. */
  lemma {:induction false} PlaceAllLastWins(hash: Hash, ring: map<uint32, string>, ips: seq<string>, n: nat, k: nat, p: uint32)
    requires k < |ips| && p in Positions(hash, ips[k], n)
    requires forall j :: k < j < |ips| ==> p !in Positions(hash, ips[j], n)
    ensures p in PlaceAll(hash, ring, ips, n) && PlaceAll(hash, ring, ips, n)[p] == ips[k]
    decreases |ips|
  {
    var init, last := ips[..|ips| - 1], ips[|ips| - 1];
    var before := PlaceAll(hash, ring, init, n);
    PlaceEffect(hash, before, last, n);
    if k < |init| {
      assert init[k] == ips[k];
      assert forall j :: k < j < |init| ==> init[j] == ips[j];
      PlaceAllLastWins(hash, ring, init, n, k, p);
    }
  }

  /** Every entry of the ring is a virtual-node position of its owner under
      the current virtual-node count, and the owner is a member. */
  ghost predicate Consistent(hash: Hash, ring: map<uint32, string>, members: set<string>, n: nat)
  {
    forall p :: p in ring ==> ring[p] in members && p in Positions(hash, ring[p], n)
  }

  /** A ring with no members is empty. */
  lemma NoMembersEmptyRing(hash: Hash, ring: map<uint32, string>, n: nat)
    requires Consistent(hash, ring, {}, n)
    ensures ring == map[]
  {
  }

  /** Placing a node and adding it to the members keeps the ring consistent. */
  lemma PlaceConsistent(hash: Hash, ring: map<uint32, string>, members: set<string>, ip: string, n: nat)
    requires Consistent(hash, ring, members, n)
    ensures Consistent(hash, Place(hash, ring, ip, n), members + {ip}, n)
  {
    PlaceEffect(hash, ring, ip, n);
  }

  /** Deleting a node's positions and dropping it from the members keeps the
      ring consistent, and no entry is left for that node. */
  lemma UnplaceConsistent(hash: Hash, ring: map<uint32, string>, members: set<string>, ip: string, n: nat)
    requires Consistent(hash, ring, members, n)
    ensures Consistent(hash, Unplace(hash, ring, ip, n), members - {ip}, n)
    ensures forall p :: p in Unplace(hash, ring, ip, n) ==> Unplace(hash, ring, ip, n)[p] != ip
  {
    UnplaceEffect(hash, ring, ip, n);
  }
}
