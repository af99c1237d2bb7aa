/** Clients of the ring that replay the repository's test cases and the
    lookups a caller relies on, proved from the operations' contracts alone. */
module Scenarios {
  import opened Keys
  import opened SortedIndex
  import opened Placement
  import opened ConsistentHashing

  /** One node on a new ring: with 20 pairwise distinct positions the ring and
      the index both hold 20 entries, and the index is sorted. */
  method AddNodeOnNewRing(hash: Hash) returns (c: ConsistentHash)
    requires forall i, j :: 0 <= i < j < 20 ==>
      hash(GenerateKey("10.140.104.15", i)) != hash(GenerateKey("10.140.104.15", j))
    ensures |c.ring| == 20 && |c.sortedHashes| == 20
    ensures Ascending(c.sortedHashes)
  {
    c := new ConsistentHash(hash);
    c.AddNode("10.140.104.15");
    PlaceCount(hash, "10.140.104.15", 20);
    IndexLength(c.sortedHashes, c.ring.Keys);
  }

  /** The batch test: a slice made with five empty ids, then five addresses
      appended, so the empty id becomes a member too; the index is sorted. */
  method AddNodesOnNewRing(hash: Hash) returns (c: ConsistentHash)
    ensures Ascending(c.sortedHashes)
    ensures "" in c.members
    ensures forall m :: 1 <= m <= 5 ==> "10.140.104." + DecimalString(m) in c.members
  {
    c := new ConsistentHash(hash);
    var nodes: seq<string> := ["", "", "", "", ""];
    for m := 1 to 6
      invariant |nodes| == 4 + m
      invariant nodes[0] == ""
      invariant forall k :: 5 <= k < |nodes| ==> nodes[k] == "10.140.104." + DecimalString(k - 4)
    {
      nodes := nodes + ["10.140.104." + DecimalString(m)];
    }
    c.AddNodes(nodes);
    forall m | 1 <= m <= 5
      ensures "10.140.104." + DecimalString(m) in c.members
    {
      assert nodes[m + 4] == "10.140.104." + DecimalString(m);
    }
  }

  /** Adding a node to a new ring and removing it leaves ring and index empty. */
  method AddThenRemoveOnNewRing(hash: Hash) returns (c: ConsistentHash)
    ensures |c.ring| == 0 && |c.sortedHashes| == 0 && c.members == {}
  {
    c := new ConsistentHash(hash);
    c.AddNode("10.140.104.6");
    c.RemoveNode("10.140.104.6");
    IndexLength(c.sortedHashes, c.ring.Keys);
  }

  /** Once a node is on the ring the virtual-node count can no longer change. */
  method ResizeAfterAdd(hash: Hash) returns (c: ConsistentHash, err: Outcome)
    ensures err == Fail(MembersPresent) && c.numberOfVNodes == DefaultVNodes
  {
    c := new ConsistentHash(hash);
    c.AddNode("A");
    err := c.SetVNodeNumber(5);
  }

  /** A lookup on a new ring fails with `RingNil`. */
  method LookupOnNewRing(hash: Hash, name: string) returns (r: Result<string>)
    ensures r == Err(RingNil)
  {
    var c := new ConsistentHash(hash);
    r := c.GetNode(name);
  }

  /** With a single node on the ring, every key belongs to it. */
  method LookupSingleNode(hash: Hash, name: string) returns (r: Result<string>)
    ensures r == Ok("10.0.0.1")
  {
    var c := new ConsistentHash(hash);
    c.AddNode("10.0.0.1");
    assert hash(GenerateKey("10.0.0.1", 0)) in c.ring;
    r := c.GetNode(name);
  }
}
