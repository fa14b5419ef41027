/**
 * The consistent-hash ring as a value: the sorted slice of ring positions
 * (virtual replicas included) and the map from position to real node name.
 * The functions here say what AddNode, AddNodes and Get of the ConsistentHash
 * type compute; the lemmas state the usual consistent-hashing guarantees about them.
 */
module Ring {
  import opened Strconv
  import opened Sort

  /** The range of Go's uint32. */
  type U32 = x: int | 0 <= x < 0x1_0000_0000

  /** The pluggable hash, Go's `Hash func([]byte) uint32`, applied to a string's bytes. */
  type Hash = string -> U32

  datatype RingState = RingState(nodes: seq<int>, nodesMap: map<int, string>)

  const Empty := RingState([], map[])

  /** The state every operation keeps: positions sorted, and exactly the keys of the map. */
  ghost predicate WellFormed(r: RingState) {
    Sorted(r.nodes) && forall p :: p in r.nodes <==> p in r.nodesMap
  }

  /** The positions of a node's virtual replicas: hash(itoa(i) + node) for 0 <= i < virtualNodes. */
  function Replicas(hash: Hash, virtualNodes: int, node: string): (ps: seq<int>)
    ensures |ps| == if virtualNodes > 0 then virtualNodes else 0
    ensures forall i :: 0 <= i < |ps| ==> ps[i] == hash(Itoa(i) + node)
  {
    seq(if virtualNodes > 0 then virtualNodes else 0, i requires 0 <= i => hash(Itoa(i) + node))
  }

  /** The map after writing m[p] = node for each p of ps in order. */
  function Assign(m: map<int, string>, ps: seq<int>, node: string): (r: map<int, string>)
    ensures forall p :: p in r <==> p in m || p in ps
    ensures forall p :: p in r ==> r[p] == if p in ps then node else m[p]
  {
    if ps == [] then m
    else
      var last := |ps| - 1;
      assert ps == ps[..last] + [ps[last]];
      Assign(m, ps[..last], node)[ps[last] := node]
  }

  /** The ring after AddNode(node): the new positions appended, written into the map, all sorted. */
  function AfterAddNode(r: RingState, hash: Hash, virtualNodes: int, node: string): (r': RingState)
    ensures Sorted(r'.nodes)
    ensures multiset(r'.nodes) == multiset(r.nodes) + multiset(Replicas(hash, virtualNodes, node))
    ensures |r'.nodes| == |r.nodes| + if virtualNodes > 0 then virtualNodes else 0
    ensures forall p :: p in r'.nodesMap <==> p in r.nodesMap || p in Replicas(hash, virtualNodes, node)
    ensures forall p :: p in r'.nodesMap ==>
      r'.nodesMap[p] == if p in Replicas(hash, virtualNodes, node) then node else r.nodesMap[p]
  {
    var ps := Replicas(hash, virtualNodes, node);
    var sorted := SortSeq(r.nodes + ps);
    assert |sorted| == |multiset(sorted)| == |multiset(r.nodes + ps)| == |r.nodes + ps|;
    RingState(sorted, Assign(r.nodesMap, ps, node))
  }

  /** The ring after AddNodes(names...): AddNode for each name, in order. */
  function AfterAddNodes(r: RingState, hash: Hash, virtualNodes: int, names: seq<string>): (r': RingState)
    ensures multiset(r.nodes) <= multiset(r'.nodes)
    ensures forall p :: p in r.nodesMap ==> p in r'.nodesMap
    ensures names != [] ==> Sorted(r'.nodes)
  {
    if names == [] then r
    else
      var last := |names| - 1;
      AfterAddNode(AfterAddNodes(r, hash, virtualNodes, names[..last]), hash, virtualNodes, names[last])
  }

  /** The position Get selects: the first one at or after h, or nodes[0] by wrap-around. */
  function Successor(nodes: seq<int>, h: int): (p: int)
    requires nodes != []
    ensures p in nodes
    ensures p >= h || forall k :: 0 <= k < |nodes| ==> nodes[k] < h
  {
    var i := FirstAtLeast(nodes, h);
    assert i < |nodes| ==> i % |nodes| == i;
    assert i == |nodes| ==> i % |nodes| == 0;
    nodes[i % |nodes|]
  }

  /** Get for a key whose hash is h; "" on an empty ring or a position missing from the map. */
  function Lookup(r: RingState, h: int): (name: string)
    ensures r.nodes == [] ==> name == ""
    ensures name != "" ==> name in r.nodesMap.Values
  {
    if |r.nodes| == 0 then ""
    else
      var p := Successor(r.nodes, h);
      if p in r.nodesMap then r.nodesMap[p] else ""
  }

  /**
   * Independent statement of the ring rule: p is the least position at or above h,
   * or, when every position is below h, the least position of all.
   */
  ghost predicate IsClockwiseOwner(positions: set<int>, h: int, p: int) {
    p in positions &&
    if exists q :: q in positions && q >= h then
      p >= h && forall q :: q in positions && q >= h ==> p <= q
    else
      forall q :: q in positions ==> p <= q
  }

  /** The closed arc walked clockwise from h to p, wrapping past the top of the hash space. */
  predicate OnArc(h: int, p: int, a: int) {
    if h <= p then h <= a <= p else a >= h || a <= p
  }

  lemma OwnerUnique(positions: set<int>, h: int, p: int, p': int)
    requires IsClockwiseOwner(positions, h, p) && IsClockwiseOwner(positions, h, p')
    ensures p == p'
  {
  }

  /** AddNode keeps the ring well formed: still sorted, positions and map keys still agree. */
  lemma AfterAddNodeWellFormed(r: RingState, hash: Hash, virtualNodes: int, node: string)
    requires WellFormed(r)
    ensures WellFormed(AfterAddNode(r, hash, virtualNodes, node))
  {
    var r' := AfterAddNode(r, hash, virtualNodes, node);
    var ps := Replicas(hash, virtualNodes, node);
    forall p
      ensures p in r'.nodes <==> p in r'.nodesMap
    {
      calc {
        p in r'.nodes;
        p in multiset(r'.nodes);
        p in multiset(r.nodes) || p in multiset(ps);
        p in r.nodes || p in ps;
      }
    }
  }

  lemma {:induction false} AfterAddNodesWellFormed(r: RingState, hash: Hash, virtualNodes: int, names: seq<string>)
    requires WellFormed(r)
    ensures WellFormed(AfterAddNodes(r, hash, virtualNodes, names))
  {
    if names != [] {
      var last := |names| - 1;
      AfterAddNodesWellFormed(r, hash, virtualNodes, names[..last]);
      AfterAddNodeWellFormed(AfterAddNodes(r, hash, virtualNodes, names[..last]), hash, virtualNodes, names[last]);
    }
  }

  /** AddNodes grows the positions by max(virtualNodes, 0) per name, duplicates included. */
  lemma {:induction false} AfterAddNodesLength(r: RingState, hash: Hash, virtualNodes: int, names: seq<string>)
    ensures |AfterAddNodes(r, hash, virtualNodes, names).nodes|
         == |r.nodes| + |names| * if virtualNodes > 0 then virtualNodes else 0
  {
    if names != [] {
      var last := |names| - 1;
      AfterAddNodesLength(r, hash, virtualNodes, names[..last]);
      var k := if virtualNodes > 0 then virtualNodes else 0;
      assert (|names| - 1) * k + k == |names| * k;
    }
  }

  /** Adding a batch in two parts is adding it at once: AddNodes is AddNode name by name. */
  lemma {:induction false} AfterAddNodesConcat(r: RingState, hash: Hash, virtualNodes: int, a: seq<string>, b: seq<string>)
    ensures AfterAddNodes(r, hash, virtualNodes, a + b)
         == AfterAddNodes(AfterAddNodes(r, hash, virtualNodes, a), hash, virtualNodes, b)
  {
    if b == [] {
      assert a + b == a;
    } else {
      var last := |b| - 1;
      assert (a + b)[..|a + b| - 1] == a + b[..last];
      assert (a + b)[|a + b| - 1] == b[last];
      AfterAddNodesConcat(r, hash, virtualNodes, a, b[..last]);
    }
  }

  /** Every name in the map after AddNodes was in the map before at that position, or is one of the names added. */
  lemma {:induction false} AfterAddNodesOwners(r: RingState, hash: Hash, virtualNodes: int, names: seq<string>)
    ensures forall p :: p in AfterAddNodes(r, hash, virtualNodes, names).nodesMap ==>
      AfterAddNodes(r, hash, virtualNodes, names).nodesMap[p] in names ||
      (p in r.nodesMap && AfterAddNodes(r, hash, virtualNodes, names).nodesMap[p] == r.nodesMap[p])
  {
    if names != [] {
      var last := |names| - 1;
      assert names == names[..last] + [names[last]];
      AfterAddNodesOwners(r, hash, virtualNodes, names[..last]);
    }
  }

  /** Get walks clockwise: the name it returns belongs to the clockwise owner of h. */
  lemma LookupClockwise(r: RingState, h: int)
    requires WellFormed(r) && r.nodes != []
    ensures IsClockwiseOwner(r.nodesMap.Keys, h, Successor(r.nodes, h))
    ensures Lookup(r, h) == r.nodesMap[Successor(r.nodes, h)]
  {
    var n := |r.nodes|;
    var idx := FirstAtLeast(r.nodes, h);
    if idx < n {
      ClockwiseAt(r, h, idx);
    } else {
      ClockwiseWrapped(r, h);
    }
  }

  lemma ClockwiseAt(r: RingState, h: int, idx: nat)
    requires WellFormed(r) && idx < |r.nodes| && idx == FirstAtLeast(r.nodes, h)
    ensures Successor(r.nodes, h) == r.nodes[idx]
    ensures IsClockwiseOwner(r.nodesMap.Keys, h, r.nodes[idx])
  {
    var p := r.nodes[idx];
    assert idx % |r.nodes| == idx;
    assert p in r.nodes;
    forall q | q in r.nodesMap && q >= h
      ensures p <= q
    {
      assert q in r.nodes;
      var k :| 0 <= k < |r.nodes| && r.nodes[k] == q;
      NotBelowFirstAtLeast(r.nodes, h, k);
    }
  }

  lemma ClockwiseWrapped(r: RingState, h: int)
    requires WellFormed(r) && r.nodes != [] && FirstAtLeast(r.nodes, h) == |r.nodes|
    ensures Successor(r.nodes, h) == r.nodes[0]
    ensures IsClockwiseOwner(r.nodesMap.Keys, h, r.nodes[0])
  {
    var p := r.nodes[0];
    assert p in r.nodes;
    forall q | q in r.nodesMap
      ensures p <= q && q < h
    {
      assert q in r.nodes;
      var k :| 0 <= k < |r.nodes| && r.nodes[k] == q;
    }
  }

  /** Get returns the name mapped at whichever position is the clockwise owner of h. */
  lemma LookupOwner(r: RingState, h: int, p: int)
    requires WellFormed(r) && r.nodes != []
    requires IsClockwiseOwner(r.nodesMap.Keys, h, p)
    ensures Lookup(r, h) == r.nodesMap[p]
  {
    LookupClockwise(r, h);
    OwnerUnique(r.nodesMap.Keys, h, p, Successor(r.nodes, h));
  }

  /** Wrap-around: a hash above every position maps to the owner of the smallest position. */
  lemma LookupWraps(r: RingState, h: int)
    requires WellFormed(r) && r.nodes != []
    requires forall k :: 0 <= k < |r.nodes| ==> r.nodes[k] < h
    ensures Lookup(r, h) == r.nodesMap[r.nodes[0]]
  {
    var n := |r.nodes|;
    assert FirstAtLeast(r.nodes, h) == n;
  }

  /** The clockwise owner of h stays the owner when every added position lies off the arc from h to it. */
  lemma OwnerAfterUnion(positions: set<int>, added: set<int>, h: int, p: int)
    requires IsClockwiseOwner(positions, h, p)
    requires forall a :: a in added ==> !OnArc(h, p, a)
    ensures IsClockwiseOwner(positions + added, h, p)
  {
  }

  /** An owner of the larger set that lies in the smaller set was already its owner. */
  lemma OwnerBeforeUnion(positions: set<int>, added: set<int>, h: int, p: int)
    requires IsClockwiseOwner(positions + added, h, p)
    requires p in positions
    ensures IsClockwiseOwner(positions, h, p)
  {
  }

  /** AddNode's map has the old keys plus the new replica positions. */
  lemma AddNodeKeys(r: RingState, hash: Hash, virtualNodes: int, node: string)
    ensures AfterAddNode(r, hash, virtualNodes, node).nodesMap.Keys
         == r.nodesMap.Keys + set a | a in Replicas(hash, virtualNodes, node)
  {
  }

  /** Re-adding a node whose positions all map to it leaves the map as it was. */
  lemma AddNodeAgainSameMap(r: RingState, hash: Hash, virtualNodes: int, node: string)
    requires forall i :: 0 <= i < |Replicas(hash, virtualNodes, node)| ==>
      Replicas(hash, virtualNodes, node)[i] in r.nodesMap && r.nodesMap[Replicas(hash, virtualNodes, node)[i]] == node
    ensures AfterAddNode(r, hash, virtualNodes, node).nodesMap == r.nodesMap
  {
  }

  /**
   * Adding a node moves a key only onto that node: afterwards the key is owned
   * either by the node just added or by the node that owned it before.
   */
  lemma AddNodeMovesKeysOnlyToNewNode(r: RingState, hash: Hash, virtualNodes: int, node: string, h: int)
    requires WellFormed(r)
    ensures Lookup(AfterAddNode(r, hash, virtualNodes, node), h) in {node, Lookup(r, h)}
  {
    var r' := AfterAddNode(r, hash, virtualNodes, node);
    var ps := Replicas(hash, virtualNodes, node);
    AfterAddNodeWellFormed(r, hash, virtualNodes, node);
    if r'.nodes != [] {
      LookupClockwise(r', h);
      var p' := Successor(r'.nodes, h);
      if p' !in ps {
        AddNodeKeys(r, hash, virtualNodes, node);
        OwnerBeforeUnion(r.nodesMap.Keys, (set a | a in ps), h, p');
        assert r.nodes != [] by {
          assert p' in r.nodesMap;
        }
        LookupClockwise(r, h);
        OwnerUnique(r.nodesMap.Keys, h, p', Successor(r.nodes, h));
      }
    }
  }

  /**
   * Adding a node leaves a key where it was when none of the node's new
   * positions lies on the arc from the key's hash clockwise to its old owner.
   */
  lemma AddNodeKeepsKeysOffNewArcs(r: RingState, hash: Hash, virtualNodes: int, node: string, h: int)
    requires WellFormed(r) && r.nodes != []
    requires forall i :: 0 <= i < |Replicas(hash, virtualNodes, node)| ==>
      !OnArc(h, Successor(r.nodes, h), Replicas(hash, virtualNodes, node)[i])
    ensures Lookup(AfterAddNode(r, hash, virtualNodes, node), h) == Lookup(r, h)
  {
    var r' := AfterAddNode(r, hash, virtualNodes, node);
    var ps := Replicas(hash, virtualNodes, node);
    var p := Successor(r.nodes, h);
    AfterAddNodeWellFormed(r, hash, virtualNodes, node);
    LookupClockwise(r, h);
    AddNodeKeys(r, hash, virtualNodes, node);
    OwnerAfterUnion(r.nodesMap.Keys, (set a | a in ps), h, p);
    assert p !in ps by {
      assert OnArc(h, p, p);
    }
    assert r'.nodes != [] by {
      assert p in r'.nodesMap;
    }
    LookupClockwise(r', h);
    OwnerUnique(r'.nodesMap.Keys, h, p, Successor(r'.nodes, h));
  }

  /**
   * Adding a node whose positions already map to it is not deduplicated: the
   * positions are appended again, yet every lookup stays as it was.
   */
  lemma AddNodeAgainKeepsLookups(r: RingState, hash: Hash, virtualNodes: int, node: string, h: int)
    requires WellFormed(r)
    requires forall i :: 0 <= i < |Replicas(hash, virtualNodes, node)| ==>
      Replicas(hash, virtualNodes, node)[i] in r.nodesMap && r.nodesMap[Replicas(hash, virtualNodes, node)[i]] == node
    ensures |AfterAddNode(r, hash, virtualNodes, node).nodes| == |r.nodes| + if virtualNodes > 0 then virtualNodes else 0
    ensures Lookup(AfterAddNode(r, hash, virtualNodes, node), h) == Lookup(r, h)
  {
    var r' := AfterAddNode(r, hash, virtualNodes, node);
    var ps := Replicas(hash, virtualNodes, node);
    AfterAddNodeWellFormed(r, hash, virtualNodes, node);
    AddNodeAgainSameMap(r, hash, virtualNodes, node);
    if r.nodes != [] {
      assert r'.nodes != [] by {
        assert r.nodes[0] in r'.nodesMap;
      }
      LookupClockwise(r, h);
      LookupClockwise(r', h);
      OwnerUnique(r.nodesMap.Keys, h, Successor(r.nodes, h), Successor(r'.nodes, h));
    }
  }

  /**
   * Starting from the empty ring, the ring is populated exactly when a name was
   * added with a positive replica count, and Get then returns one of the added names.
   */
  lemma GetReturnsAddedName(hash: Hash, virtualNodes: int, names: seq<string>, h: int)
    ensures AfterAddNodes(Empty, hash, virtualNodes, names).nodes != [] <==> names != [] && virtualNodes > 0
    ensures AfterAddNodes(Empty, hash, virtualNodes, names).nodes != [] ==>
      Lookup(AfterAddNodes(Empty, hash, virtualNodes, names), h) in names
  {
    var r := AfterAddNodes(Empty, hash, virtualNodes, names);
    AfterAddNodesLength(Empty, hash, virtualNodes, names);
    if r.nodes != [] {
      AfterAddNodesWellFormed(Empty, hash, virtualNodes, names);
      AfterAddNodesOwners(Empty, hash, virtualNodes, names);
      LookupClockwise(r, h);
    }
  }
}
