/**
 * The ConsistentHash type of package geecache: a ring of virtual-replica
 * positions kept in sorted order, with a map from each position to its real
 * node. Its fields are updated in place by AddNode and AddNodes; Get only reads.
 */
module Geecache {
  import opened Wrappers
  import opened Strconv
  import Sort
  import opened Ring

  class ConsistentHash {
    /** The hash used for replica names and for keys; fixed at construction. */
    const hash: Hash
    /** Virtual replicas per real node; never validated, so it may be zero or negative. */
    const virtualNodes: int
    /** All ring positions, virtual replicas included, duplicates not removed. */
    var nodes: seq<int>
    /** From ring position to the name of the real node placed there. */
    var nodesMap: map<int, string>

    function State(): (s: RingState)
      reads this
    {
      RingState(nodes, nodesMap)
    }

    ghost predicate Valid()
      reads this
    {
      WellFormed(State())
    }

    /**
     * NewConsistent: an empty ring with the given replica count; a missing
     * hash function is replaced by the default one (CRC-32 IEEE in Go), which
     * is passed in here as defaultHash.
     */
    constructor (virtualNodes: int, hash: Option<Hash>, defaultHash: Hash)
      ensures Valid()
      ensures this.virtualNodes == virtualNodes
      ensures this.hash == if hash.Some? then hash.value else defaultHash
      ensures nodes == [] && nodesMap == map[]
    {
      var chosen: Hash := if hash.Some? then hash.value else defaultHash;
      this.hash := chosen;
      this.virtualNodes := virtualNodes;
      nodes := [];
      nodesMap := map[];
    }

    /** Places virtualNodes replicas of node on the ring, then re-sorts the positions. */
    method AddNode(node: string)
      requires Valid()
      modifies this
      ensures Valid()
      ensures State() == AfterAddNode(old(State()), hash, virtualNodes, node)
    {
      ghost var ps := Replicas(hash, virtualNodes, node);
      var i := 0;
      while i < virtualNodes
        invariant 0 <= i <= |ps|
        invariant nodes == old(nodes) + ps[..i]
        invariant nodesMap == Assign(old(nodesMap), ps[..i], node)
      {
        var hashValue := hash(Itoa(i) + node);
        nodes := nodes + [hashValue];
        nodesMap := nodesMap[hashValue := node];
        assert ps[..i + 1] == ps[..i] + [hashValue];
        assert ps[..i + 1][..i] == ps[..i];
        i := i + 1;
      }
      assert ps[..i] == ps;
      assert nodes == old(nodes) + ps && nodesMap == Assign(old(nodesMap), ps, node);
      nodes := Sort.Ints(nodes);
      AfterAddNodeWellFormed(old(State()), hash, virtualNodes, node);
    }

    /** AddNode for each name, in the order given. */
    method AddNodes(names: seq<string>)
      requires Valid()
      modifies this
      ensures Valid()
      ensures State() == AfterAddNodes(old(State()), hash, virtualNodes, names)
    {
      for k := 0 to |names|
        invariant Valid()
        invariant State() == AfterAddNodes(old(State()), hash, virtualNodes, names[..k])
      {
        assert names[..k + 1][..k] == names[..k];
        AddNode(names[k]);
      }
      assert names[..|names|] == names;
    }

    /**
     * The node responsible for key: binary search for the first position at or
     * above the key's hash, wrapping to the first position past the end.
     */
    method Get(key: string) returns (name: string)
      requires Valid()
      ensures name == Lookup(State(), hash(key))
      ensures nodes == [] ==> name == ""
      ensures nodes != [] ==> IsClockwiseOwner(nodesMap.Keys, hash(key), Successor(nodes, hash(key)))
      ensures nodes != [] ==> name == nodesMap[Successor(nodes, hash(key))]
    {
      if |nodes| == 0 {
        return "";
      }
      var hashValue := hash(key);
      var ns := nodes;
      var atOrAbove := i => 0 <= i < |ns| && ns[i] >= hashValue;
      var idx := Sort.Search(|ns|, atOrAbove);
      forall k | 0 <= k < idx
        ensures ns[k] < hashValue
      {
        assert !atOrAbove(k);
      }
      forall k | idx <= k < |ns|
        ensures ns[k] >= hashValue
      {
        assert atOrAbove(k);
      }
      Sort.FirstAtLeastUnique(ns, hashValue, idx);
      var p := ns[idx % |ns|];
      name := if p in nodesMap then nodesMap[p] else "";
      LookupClockwise(State(), hashValue);
    }
  }
}
