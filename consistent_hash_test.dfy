/**
 * The repository's ring test: three replicas per node, a stub hash that reads
 * the key as a decimal number, nodes "2", "4" and "6", then node "8".
 */
module GeecacheTest {
  import opened Wrappers
  import opened Strconv
  import opened Ring
  import opened Geecache

  /**
   * The test's hash: the key parsed by Atoi and converted to uint32; a key
   * Atoi rejects yields Atoi's zero value.
   */
  function StubHash(s: string): (h: U32)
    ensures IsDecimal(s) ==> h == ParseDigits(s) % 0x1_0000_0000
    ensures Atoi(s).None? ==> h == 0
  {
    match Atoi(s)
    case Some(i) => i % 0x1_0000_0000
    case None => 0
  }

  lemma StubHashSmall(s: string)
    requires 1 <= |s| <= 2 && IsDecimal(s)
    ensures StubHash(s) == if |s| == 1 then DigitValue(s[0]) else 10 * DigitValue(s[0]) + DigitValue(s[1])
  {
    assert Atoi(s) == Some(ParseDigits(s));
    assert s[..1] == [s[0]] && [s[0]][..0] == [];
    assert ParseDigits(s[..1]) == DigitValue(s[0]);
  }

  /** Replica i of a one-digit node name d lands at position 10 * i + d. */
  lemma StubReplicas(c: char)
    requires IsDigit(c)
    ensures Replicas(StubHash, 3, [c]) == [DigitValue(c), 10 + DigitValue(c), 20 + DigitValue(c)]
  {
    forall i | 0 <= i < 3
      ensures StubHash(Itoa(i) + [c]) == 10 * i + DigitValue(c)
    {
      assert Itoa(i) == [DigitChar(i)];
      StubHashSmall(Itoa(i) + [c]);
    }
  }

  lemma AssignThree(m: map<int, string>, a: int, b: int, c: int, node: string)
    ensures Assign(m, [a, b, c], node) == m[a := node][b := node][c := node]
  {
    var ps := [a, b, c];
    assert ps[..2] == [a, b] && ps[..2][..1] == [a] && ps[..2][..1][..0] == [];
  }

  /** AddNode of a one-digit name c writes c at positions d, 10 + d and 20 + d, where d is c's value. */
  lemma AddDigitNode(r: RingState, c: char)
    requires IsDigit(c)
    ensures var d := DigitValue(c);
      AfterAddNode(r, StubHash, 3, [c]).nodesMap == r.nodesMap[d := [c]][10 + d := [c]][20 + d := [c]]
  {
    var d := DigitValue(c);
    StubReplicas(c);
    AssignThree(r.nodesMap, d, 10 + d, 20 + d, [c]);
  }

  const POSITIONS_246: set<int> := {2, 12, 22, 4, 14, 24, 6, 16, 26}
  const POSITIONS_2468: set<int> := POSITIONS_246 + {8, 18, 28}

  /** The ring of the test after AddNodes("2", "4", "6"), and after AddNode("8") on top of it. */
  function Ring246(): (r: RingState) {
    AfterAddNodes(Empty, StubHash, 3, ["2", "4", "6"])
  }

  function Ring2468(): (r: RingState) {
    AfterAddNode(Ring246(), StubHash, 3, "8")
  }

  lemma AddOneMore(r: RingState, hash: Hash, virtualNodes: int, names: seq<string>, x: string)
    ensures AfterAddNodes(r, hash, virtualNodes, names + [x])
         == AfterAddNode(AfterAddNodes(r, hash, virtualNodes, names), hash, virtualNodes, x)
  {
    assert (names + [x])[..|names|] == names;
  }

  lemma AddThreeNodes(r: RingState, hash: Hash, virtualNodes: int, a: string, b: string, c: string)
    ensures AfterAddNodes(r, hash, virtualNodes, [a, b, c])
         == AfterAddNode(AfterAddNode(AfterAddNode(r, hash, virtualNodes, a), hash, virtualNodes, b), hash, virtualNodes, c)
  {
    assert [] + [a] == [a] && [a] + [b] == [a, b] && [a, b] + [c] == [a, b, c];
    AddOneMore(r, hash, virtualNodes, [], a);
    AddOneMore(r, hash, virtualNodes, [a], b);
    AddOneMore(r, hash, virtualNodes, [a, b], c);
  }

  lemma Ring246Map()
    ensures Ring246().nodesMap
      == map[2 := "2", 12 := "2", 22 := "2", 4 := "4", 14 := "4", 24 := "4", 6 := "6", 16 := "6", 26 := "6"]
  {
    var r1 := AfterAddNode(Empty, StubHash, 3, "2");
    var r2 := AfterAddNode(r1, StubHash, 3, "4");
    AddThreeNodes(Empty, StubHash, 3, "2", "4", "6");
    AddDigitNode(Empty, '2');
    AddDigitNode(r1, '4');
    AddDigitNode(r2, '6');
  }

  lemma Map246Facts(m: map<int, string>)
    requires m == map[2 := "2", 12 := "2", 22 := "2", 4 := "4", 14 := "4", 24 := "4", 6 := "6", 16 := "6", 26 := "6"]
    ensures m.Keys == POSITIONS_246 && m[2] == "2" && m[12] == "2" && m[24] == "4"
  {
  }

  lemma Map2468Facts(m: map<int, string>, m': map<int, string>)
    requires m == map[2 := "2", 12 := "2", 22 := "2", 4 := "4", 14 := "4", 24 := "4", 6 := "6", 16 := "6", 26 := "6"]
    requires m' == m[8 := "8"][18 := "8"][28 := "8"]
    ensures m'.Keys == POSITIONS_2468 && m'[2] == "2" && m'[12] == "2" && m'[24] == "4" && m'[28] == "8"
  {
  }

  lemma Ring246Facts()
    ensures WellFormed(Ring246()) && Ring246().nodesMap.Keys == POSITIONS_246
    ensures Ring246().nodesMap[2] == "2" && Ring246().nodesMap[12] == "2" && Ring246().nodesMap[24] == "4"
  {
    Ring246Map();
    Map246Facts(Ring246().nodesMap);
    AfterAddNodesWellFormed(Empty, StubHash, 3, ["2", "4", "6"]);
  }

  lemma Ring2468Facts()
    ensures WellFormed(Ring2468()) && Ring2468().nodesMap.Keys == POSITIONS_2468
    ensures Ring2468().nodesMap[2] == "2" && Ring2468().nodesMap[12] == "2"
    ensures Ring2468().nodesMap[24] == "4" && Ring2468().nodesMap[28] == "8"
  {
    Ring246Map();
    AddDigitNode(Ring246(), '8');
    Map2468Facts(Ring246().nodesMap, Ring2468().nodesMap);
    Ring246Facts();
    AfterAddNodeWellFormed(Ring246(), StubHash, 3, "8");
  }

  /** The clockwise owners of the four test keys' hashes on either ring. */
  lemma Owners246(h: int, p: int)
    requires (h, p) in [(2, 2), (11, 12), (23, 24), (27, 2)]
    ensures IsClockwiseOwner(POSITIONS_246, h, p)
  {
  }

  lemma Owners2468(h: int, p: int)
    requires (h, p) in [(2, 2), (11, 12), (23, 24), (27, 28)]
    ensures IsClockwiseOwner(POSITIONS_2468, h, p)
  {
  }

  /** The lookups the test expects on the ring with "2", "4" and "6"; "27" wraps around to "2". */
  lemma Ring246Lookups()
    ensures Lookup(Ring246(), 2) == "2" && Lookup(Ring246(), 11) == "2"
    ensures Lookup(Ring246(), 23) == "4" && Lookup(Ring246(), 27) == "2"
  {
    var r := Ring246();
    Ring246Facts();
    assert 2 in r.nodesMap;
    Owners246(2, 2);
    LookupOwner(r, 2, 2);
    Owners246(11, 12);
    LookupOwner(r, 11, 12);
    Owners246(23, 24);
    LookupOwner(r, 23, 24);
    Owners246(27, 2);
    LookupOwner(r, 27, 2);
  }

  /** After AddNode("8") key "27" moves to "8"; the other three keys keep their nodes. */
  lemma Ring2468Lookups()
    ensures Lookup(Ring2468(), 2) == "2" && Lookup(Ring2468(), 11) == "2"
    ensures Lookup(Ring2468(), 23) == "4" && Lookup(Ring2468(), 27) == "8"
  {
    var r := Ring2468();
    Ring2468Facts();
    assert 2 in r.nodesMap;
    Owners2468(2, 2);
    LookupOwner(r, 2, 2);
    Owners2468(11, 12);
    LookupOwner(r, 11, 12);
    Owners2468(23, 24);
    LookupOwner(r, 23, 24);
    Owners2468(27, 28);
    LookupOwner(r, 27, 28);
  }

  /** StubHash maps the test's keys "2", "11", "23" and "27" to 2, 11, 23 and 27. */
  lemma TestKeyHashes()
    ensures StubHash("2") == 2 && StubHash("11") == 11 && StubHash("23") == 23 && StubHash("27") == 27
  {
    StubHashSmall("2");
    StubHashSmall("11");
    StubHashSmall("23");
    StubHashSmall("27");
  }

  /** Get for the test's four keys "2", "11", "23" and "27", in that order. */
  method GetTestKeys(ring: ConsistentHash) returns (got: seq<string>)
    requires ring.Valid() && ring.hash == StubHash
    ensures got == [Lookup(ring.State(), 2), Lookup(ring.State(), 11), Lookup(ring.State(), 23), Lookup(ring.State(), 27)]
  {
    TestKeyHashes();
    var g2 := ring.Get("2");
    var g11 := ring.Get("11");
    var g23 := ring.Get("23");
    var g27 := ring.Get("27");
    got := [g2, g11, g23, g27];
  }

  /** TestConsistentHash: what Get returns for the four keys, before and after AddNode("8"). */
  method TestConsistentHash() returns (before: seq<string>, after: seq<string>)
    ensures before == ["2", "2", "4", "2"]
    ensures after == ["2", "2", "4", "8"]
  {
    // The default hash is not used: the test supplies its own.
    var ring := new ConsistentHash(3, Some(StubHash), s => 0);
    ring.AddNodes(["2", "4", "6"]);
    assert ring.State() == Ring246();
    before := GetTestKeys(ring);
    Ring246Lookups();
    ring.AddNode("8");
    assert ring.State() == Ring2468();
    after := GetTestKeys(ring);
    Ring2468Lookups();
  }
}
