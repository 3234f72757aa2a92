/**
 * `FindComponents`, the online labelling `DistanceMatrix.findConnectedComponents`
 * runs over the non-zero cells of its matrix: each off-diagonal cell joins
 * its two nodes, by adding one node to the other's cluster, by creating a
 * cluster of the two, or by merging their clusters.
 *
 * The state is a node-to-cluster map, a cluster-to-node-list map and the
 * next cluster id. The pure functions below give each transition; the class
 * `ComponentFinder` performs them in place and is proved to follow them.
 * The invariant `Inv` ties the state to the set of node pairs seen so far,
 * and `ComponentsUnique` shows that the clusters it describes are fixed by
 * that set, whatever the order the cells were visited in.
 */
module Components {
  import opened Common

  /** A labelling state: `nodeToCluster`, `clusterMap` and `clusterNumber`. */
  datatype Clusters = Clusters(nodeToCluster: map<Node, int>, clusterMap: map<int, seq<Node>>, clusterNumber: int)

  function Elements(s: seq<Node>): set<Node> {
    set n | n in s
  }

  /** a and b are joined by a pair of E, in either direction. */
  predicate Adjacent(a: Node, b: Node, E: set<(Node, Node)>) {
    (a, b) in E || (b, a) in E
  }

  ghost function Endpoints(E: set<(Node, Node)>): set<Node> {
    (set p | p in E :: p.0) + (set p | p in E :: p.1)
  }

  /** If S splits B into two non-empty parts, some pair of E crosses between them. */
  ghost predicate Crossed(B: set<Node>, S: set<Node>, E: set<(Node, Node)>) {
    S <= B && S != {} && S != B ==> exists a, b :: a in S && b in B && b !in S && Adjacent(a, b, E)
  }

  /** B is connected by E: no split of B is left uncrossed. */
  ghost predicate Connected(B: set<Node>, E: set<(Node, Node)>) {
    forall S :: Crossed(B, S, E)
  }

  /** The two maps agree: n is mapped to c exactly when n is in c's list. */
  predicate Consistent(s: Clusters) {
    && (forall n :: n in s.nodeToCluster ==>
          s.nodeToCluster[n] in s.clusterMap && n in s.clusterMap[s.nodeToCluster[n]])
    && (forall c, n :: c in s.clusterMap && n in s.clusterMap[c] ==>
          n in s.nodeToCluster && s.nodeToCluster[n] == c)
  }

  /** Every cluster id is below the counter, and every list has two or more distinct nodes. */
  predicate Shaped(s: Clusters) {
    && 0 <= s.clusterNumber
    && forall c :: c in s.clusterMap ==> 0 <= c < s.clusterNumber && Distinct(s.clusterMap[c]) && |s.clusterMap[c]| >= 2
  }

  /**
   * The clusters are the components of the pairs E seen so far: the
   * clustered nodes are exactly the nodes of E, both nodes of a pair share a
   * cluster, and every cluster is connected by E.
   */
  ghost predicate Labels(s: Clusters, E: set<(Node, Node)>) {
    s.nodeToCluster.Keys == Endpoints(E) && Closed(s, E) && AllConnected(s, E)
  }

  /** Both nodes of every pair are clustered, together. */
  ghost predicate Closed(s: Clusters, E: set<(Node, Node)>) {
    forall a, b :: (a, b) in E ==>
      a != b && a in s.nodeToCluster && b in s.nodeToCluster && s.nodeToCluster[a] == s.nodeToCluster[b]
  }

  ghost predicate AllConnected(s: Clusters, E: set<(Node, Node)>) {
    forall c :: c in s.clusterMap ==> Connected(Elements(s.clusterMap[c]), E)
  }

  ghost predicate Inv(s: Clusters, E: set<(Node, Node)>) {
    Consistent(s) && Shaped(s) && Labels(s, E)
  }

  /** The start: no clusters. */
  function Empty(): Clusters {
    Clusters(map[], map[], 0)
  }

  /** `addNodeToCluster` (lines 357-362): append the node to the list and map it to the cluster. */
  function Added(s: Clusters, cluster: int, node: Node): (s': Clusters)
    requires cluster in s.clusterMap
    ensures s'.clusterMap.Keys == s.clusterMap.Keys && s'.clusterNumber == s.clusterNumber
  {
    Clusters(s.nodeToCluster[node := cluster], s.clusterMap[cluster := s.clusterMap[cluster] + [node]], s.clusterNumber)
  }

  /** `createCluster` (lines 364-371): a new cluster numbered by the counter, holding the two nodes. */
  function Created(s: Clusters, node1: Node, node2: Node): (s': Clusters)
    ensures s'.clusterMap.Keys == s.clusterMap.Keys + {s.clusterNumber}
    ensures s'.clusterNumber == s.clusterNumber + 1
  {
    var c := s.clusterNumber;
    var s2 := Added(Added(s.(clusterMap := s.clusterMap[c := []]), c, node1), c, node2);
    s2.(clusterNumber := c + 1)
  }

  /** The node map after `put(n, cluster)` for every n of list, in order. */
  function Relabelled(nodeToCluster: map<Node, int>, list: seq<Node>, cluster: int): (m: map<Node, int>)
    ensures m.Keys == nodeToCluster.Keys + Elements(list)
    ensures forall n :: n in m ==> m[n] == if n in list then cluster else nodeToCluster[n]
  {
    map n | n in nodeToCluster.Keys + Elements(list) :: if n in list then cluster else nodeToCluster[n]
  }

  /** Relabelling one more node of the list is one more `put`. */
  lemma RelabelledStep(nodeToCluster: map<Node, int>, list: seq<Node>, i: int, cluster: int)
    requires 0 <= i < |list|
    ensures Relabelled(nodeToCluster, list[..i + 1], cluster) ==
            Relabelled(nodeToCluster, list[..i], cluster)[list[i] := cluster]
  {
    assert list[..i + 1] == list[..i] + [list[i]];
    ElementsAppend(list[..i], [list[i]]);
  }

  /**
   * `combineClusters` (lines 373-384): nothing for a single cluster;
   * otherwise cluster1 keeps its id and gains cluster2's nodes, which are
   * relabelled, and cluster2 is removed.
   */
  function Combined(s: Clusters, cluster1: int, cluster2: int): (s': Clusters)
    requires cluster1 in s.clusterMap && cluster2 in s.clusterMap
    ensures cluster1 != cluster2 ==> s'.clusterMap.Keys == s.clusterMap.Keys - {cluster2}
    ensures cluster1 in s'.clusterMap && s'.clusterNumber == s.clusterNumber
  {
    if cluster1 == cluster2 then s
    else
      Clusters(Relabelled(s.nodeToCluster, s.clusterMap[cluster2], cluster1),
               (s.clusterMap - {cluster2})[cluster1 := s.clusterMap[cluster1] + s.clusterMap[cluster2]],
               s.clusterNumber)
  }

  /** `apply` on an off-diagonal cell joining node1 and node2 (lines 339-353). */
  function Step(s: Clusters, node1: Node, node2: Node): Clusters
    requires Consistent(s)
  {
    if node1 in s.nodeToCluster then
      if node2 !in s.nodeToCluster then Added(s, s.nodeToCluster[node1], node2)
      else Combined(s, s.nodeToCluster[node1], s.nodeToCluster[node2])
    else if node2 in s.nodeToCluster then Added(s, s.nodeToCluster[node2], node1)
    else Created(s, node1, node2)
  }

  /** The pairs obtained by adding one more pair. */
  lemma EndpointsAdd(E: set<(Node, Node)>, a: Node, b: Node)
    ensures Endpoints(E + {(a, b)}) == Endpoints(E) + {a, b}
  {
    assert (a, b).0 == a && (a, b).1 == b;
  }

  /** More pairs keep a set connected. */
  lemma ConnectedMono(B: set<Node>, E: set<(Node, Node)>, E': set<(Node, Node)>)
    requires Connected(B, E) && E <= E'
    ensures Connected(B, E')
  {
    forall S ensures Crossed(B, S, E') {
      assert Crossed(B, S, E);
    }
  }

  /** Two connected disjoint sets joined by a pair form a connected set. */
  lemma ConnectedUnion(B1: set<Node>, B2: set<Node>, E: set<(Node, Node)>, a: Node, b: Node)
    requires Connected(B1, E) && Connected(B2, E) && B1 !! B2
    requires a in B1 && b in B2 && Adjacent(a, b, E)
    ensures Connected(B1 + B2, E)
  {
    var B := B1 + B2;
    forall S ensures Crossed(B, S, E) {
      if S <= B && S != {} && S != B {
        var S1, S2 := S * B1, S * B2;
        assert S == S1 + S2;
        if S1 != {} && S1 != B1 {
          assert Crossed(B1, S1, E);
          var x, y :| x in S1 && y in B1 && y !in S1 && Adjacent(x, y, E);
          assert x in S && y in B && y !in S;
        } else if S2 != {} && S2 != B2 {
          assert Crossed(B2, S2, E);
          var x, y :| x in S2 && y in B2 && y !in S2 && Adjacent(x, y, E);
          assert x in S && y in B && y !in S;
        } else if S1 == B1 {
          assert S2 != B2;
          assert S2 == {};
          assert a in S1 && b !in S2;
          assert a in S && b in B && b !in S;
        } else {
          assert S1 == {} && S2 == B2;
          assert b in S2 && a !in S1;
          assert b in S && a in B && a !in S && Adjacent(b, a, E);
        }
      }
    }
  }

  /** A single node is connected. */
  lemma ConnectedSingleton(n: Node, E: set<(Node, Node)>)
    ensures Connected({n}, E)
  {
    forall S ensures Crossed({n}, S, E) {
      if S <= {n} && S != {} {
        var x :| x in S;
        assert S == {n};
      }
    }
  }

  lemma ElementsAppend(s: seq<Node>, t: seq<Node>)
    ensures Elements(s + t) == Elements(s) + Elements(t)
  {
    assert forall n :: n in s + t <==> n in s || n in t;
  }

  /** Concatenating distinct lists with no common node gives a distinct list. */
  lemma DistinctAppend(s: seq<Node>, t: seq<Node>)
    requires Distinct(s) && Distinct(t) && Elements(s) !! Elements(t)
    ensures Distinct(s + t)
  {
    forall i, j | 0 <= i < j < |s + t| ensures (s + t)[i] != (s + t)[j] {
      if i < |s| && j >= |s| {
        assert (s + t)[i] in Elements(s) && (s + t)[j] in Elements(t);
      }
    }
  }

  lemma AddedConsistent(s: Clusters, cluster: int, node: Node)
    requires Consistent(s) && cluster in s.clusterMap && node !in s.nodeToCluster
    ensures Consistent(Added(s, cluster, node))
  {
    var s' := Added(s, cluster, node);
    forall d, n | d in s'.clusterMap && n in s'.clusterMap[d]
      ensures n in s'.nodeToCluster && s'.nodeToCluster[n] == d
    {
      if n != node {
        assert n in s.clusterMap[d];
      }
    }
  }

  lemma AddedShaped(s: Clusters, cluster: int, node: Node)
    requires Consistent(s) && Shaped(s) && cluster in s.clusterMap && node !in s.nodeToCluster
    ensures Shaped(Added(s, cluster, node))
  {
    var l := s.clusterMap[cluster];
    assert node !in l;
    assert Elements([node]) == {node};
    DistinctAppend(l, [node]);
  }

  lemma AddedClosed(s: Clusters, E: set<(Node, Node)>, member: Node, node: Node, e: (Node, Node))
    requires s.nodeToCluster.Keys == Endpoints(E) && Closed(s, E)
    requires member in s.nodeToCluster && node !in s.nodeToCluster && s.nodeToCluster[member] in s.clusterMap
    requires e == (member, node) || e == (node, member)
    ensures Added(s, s.nodeToCluster[member], node).nodeToCluster.Keys == Endpoints(E + {e})
    ensures Closed(Added(s, s.nodeToCluster[member], node), E + {e})
  {
    EndpointsAdd(E, e.0, e.1);
  }

  lemma AddedConnected(s: Clusters, E: set<(Node, Node)>, member: Node, node: Node, e: (Node, Node))
    requires Consistent(s) && AllConnected(s, E)
    requires member in s.nodeToCluster && node !in s.nodeToCluster
    requires e == (member, node) || e == (node, member)
    ensures AllConnected(Added(s, s.nodeToCluster[member], node), E + {e})
  {
    var c := s.nodeToCluster[member];
    var s' := Added(s, c, node);
    var E' := E + {e};
    assert node !in s.clusterMap[c];
    ElementsAppend(s.clusterMap[c], [node]);
    assert Elements([node]) == {node};
    forall d | d in s'.clusterMap ensures Connected(Elements(s'.clusterMap[d]), E') {
      ConnectedMono(Elements(s.clusterMap[d]), E, E');
      if d == c {
        ConnectedSingleton(node, E');
        ConnectedUnion(Elements(s.clusterMap[c]), {node}, E', member, node);
      }
    }
  }

  /**
   * Adding a node that has no cluster to the cluster of a node it is joined
   * to keeps the invariant, with the pair now seen.
   */
  lemma AddedKeepsInv(s: Clusters, E: set<(Node, Node)>, member: Node, node: Node, e: (Node, Node))
    requires Inv(s, E) && member in s.nodeToCluster && node !in s.nodeToCluster
    requires e == (member, node) || e == (node, member)
    ensures Inv(Added(s, s.nodeToCluster[member], node), E + {e})
  {
    AddedConsistent(s, s.nodeToCluster[member], node);
    AddedShaped(s, s.nodeToCluster[member], node);
    AddedClosed(s, E, member, node, e);
    AddedConnected(s, E, member, node, e);
  }

  /** A created cluster is numbered by the counter and holds the two nodes. */
  lemma CreatedIs(s: Clusters, node1: Node, node2: Node)
    ensures var c := s.clusterNumber;
      Created(s, node1, node2) ==
        Clusters(s.nodeToCluster[node1 := c][node2 := c], s.clusterMap[c := [node1, node2]], c + 1)
  {
    assert [] + [node1] + [node2] == [node1, node2];
  }

  lemma CreatedConsistent(s: Clusters, node1: Node, node2: Node)
    requires Consistent(s) && Shaped(s) && node1 !in s.nodeToCluster && node2 !in s.nodeToCluster && node1 != node2
    ensures Consistent(Created(s, node1, node2)) && Shaped(Created(s, node1, node2))
  {
    var c := s.clusterNumber;
    CreatedIs(s, node1, node2);
    var s' := Created(s, node1, node2);
    assert c !in s.clusterMap;
    forall d, n | d in s'.clusterMap && n in s'.clusterMap[d]
      ensures n in s'.nodeToCluster && s'.nodeToCluster[n] == d
    {
      if d != c {
        assert n in s.clusterMap[d];
      }
    }
  }

  lemma CreatedLabels(s: Clusters, E: set<(Node, Node)>, node1: Node, node2: Node)
    requires Shaped(s) && Labels(s, E) && node1 !in s.nodeToCluster && node2 !in s.nodeToCluster && node1 != node2
    ensures Labels(Created(s, node1, node2), E + {(node1, node2)})
  {
    var c := s.clusterNumber;
    CreatedIs(s, node1, node2);
    var s' := Created(s, node1, node2);
    var E' := E + {(node1, node2)};
    EndpointsAdd(E, node1, node2);
    assert c !in s.clusterMap;
    assert Elements([node1, node2]) == {node1} + {node2};
    forall d | d in s'.clusterMap ensures Connected(Elements(s'.clusterMap[d]), E') {
      if d == c {
        ConnectedSingleton(node1, E');
        ConnectedSingleton(node2, E');
        ConnectedUnion({node1}, {node2}, E', node1, node2);
      } else {
        ConnectedMono(Elements(s.clusterMap[d]), E, E');
      }
    }
  }

  /** Creating a cluster for two distinct nodes without clusters keeps the invariant. */
  lemma CreatedKeepsInv(s: Clusters, E: set<(Node, Node)>, node1: Node, node2: Node)
    requires Inv(s, E) && node1 !in s.nodeToCluster && node2 !in s.nodeToCluster && node1 != node2
    ensures Inv(Created(s, node1, node2), E + {(node1, node2)})
  {
    CreatedConsistent(s, node1, node2);
    CreatedLabels(s, E, node1, node2);
  }

  lemma CombinedConsistent(s: Clusters, cluster1: int, cluster2: int)
    requires Consistent(s) && cluster1 in s.clusterMap && cluster2 in s.clusterMap && cluster1 != cluster2
    ensures Consistent(Combined(s, cluster1, cluster2))
  {
    var s' := Combined(s, cluster1, cluster2);
    var l1, l2 := s.clusterMap[cluster1], s.clusterMap[cluster2];
    forall n | n in s'.nodeToCluster
      ensures s'.nodeToCluster[n] in s'.clusterMap && n in s'.clusterMap[s'.nodeToCluster[n]]
    {
      if n !in l2 {
        assert n in s.nodeToCluster;
        var d := s.nodeToCluster[n];
        assert n in s.clusterMap[d];
        assert d != cluster2;
      }
    }
    forall d, n | d in s'.clusterMap && n in s'.clusterMap[d]
      ensures n in s'.nodeToCluster && s'.nodeToCluster[n] == d
    {
      if d == cluster1 {
        if n in l1 {
          assert s.nodeToCluster[n] == cluster1;
          assert n !in l2;
        }
      } else {
        assert n in s.clusterMap[d];
        assert n !in l2;
      }
    }
  }

  lemma CombinedShaped(s: Clusters, cluster1: int, cluster2: int)
    requires Consistent(s) && Shaped(s) && cluster1 in s.clusterMap && cluster2 in s.clusterMap && cluster1 != cluster2
    ensures Shaped(Combined(s, cluster1, cluster2))
  {
    var l1, l2 := s.clusterMap[cluster1], s.clusterMap[cluster2];
    forall n | n in Elements(l1) ensures n !in Elements(l2) {
      assert s.nodeToCluster[n] == cluster1;
    }
    DistinctAppend(l1, l2);
  }

  /** A merge relabels nodes that already have a cluster: the clustered nodes stay the same. */
  lemma CombinedKeys(s: Clusters, cluster1: int, cluster2: int)
    requires Consistent(s) && cluster1 in s.clusterMap && cluster2 in s.clusterMap
    ensures Combined(s, cluster1, cluster2).nodeToCluster.Keys == s.nodeToCluster.Keys
  {
    if cluster1 != cluster2 {
      var l2 := s.clusterMap[cluster2];
      forall n | n in Elements(l2) ensures n in s.nodeToCluster {
        assert n in l2;
      }
    }
  }

  lemma CombinedClosed(s: Clusters, E: set<(Node, Node)>, node1: Node, node2: Node)
    requires Consistent(s) && s.nodeToCluster.Keys == Endpoints(E) && Closed(s, E)
    requires node1 in s.nodeToCluster && node2 in s.nodeToCluster && node1 != node2
    requires s.nodeToCluster[node1] != s.nodeToCluster[node2]
    ensures var s' := Combined(s, s.nodeToCluster[node1], s.nodeToCluster[node2]);
      s'.nodeToCluster.Keys == Endpoints(E + {(node1, node2)}) && Closed(s', E + {(node1, node2)})
  {
    var c1, c2 := s.nodeToCluster[node1], s.nodeToCluster[node2];
    var s' := Combined(s, c1, c2);
    var l2 := s.clusterMap[c2];
    EndpointsAdd(E, node1, node2);
    CombinedKeys(s, c1, c2);
    assert node1 !in l2;
    forall a, b | (a, b) in E ensures s'.nodeToCluster[a] == s'.nodeToCluster[b] {
      assert a in l2 <==> s.nodeToCluster[a] == c2;
      assert b in l2 <==> s.nodeToCluster[b] == c2;
    }
  }

  lemma CombinedConnected(s: Clusters, E: set<(Node, Node)>, node1: Node, node2: Node)
    requires Consistent(s) && AllConnected(s, E)
    requires node1 in s.nodeToCluster && node2 in s.nodeToCluster
    requires s.nodeToCluster[node1] != s.nodeToCluster[node2]
    ensures AllConnected(Combined(s, s.nodeToCluster[node1], s.nodeToCluster[node2]), E + {(node1, node2)})
  {
    var c1, c2 := s.nodeToCluster[node1], s.nodeToCluster[node2];
    var s' := Combined(s, c1, c2);
    var E' := E + {(node1, node2)};
    var l1, l2 := s.clusterMap[c1], s.clusterMap[c2];
    forall n | n in Elements(l1) ensures n !in Elements(l2) {
      assert s.nodeToCluster[n] == c1;
    }
    ElementsAppend(l1, l2);
    forall d | d in s'.clusterMap ensures Connected(Elements(s'.clusterMap[d]), E') {
      ConnectedMono(Elements(s.clusterMap[d]), E, E');
      if d == c1 {
        ConnectedMono(Elements(l2), E, E');
        ConnectedUnion(Elements(l1), Elements(l2), E', node1, node2);
      }
    }
  }

  /** Joining two clustered nodes, merging their clusters if they differ, keeps the invariant. */
  lemma CombinedKeepsInv(s: Clusters, E: set<(Node, Node)>, node1: Node, node2: Node)
    requires Inv(s, E) && node1 in s.nodeToCluster && node2 in s.nodeToCluster && node1 != node2
    ensures Inv(Combined(s, s.nodeToCluster[node1], s.nodeToCluster[node2]), E + {(node1, node2)})
  {
    var c1, c2 := s.nodeToCluster[node1], s.nodeToCluster[node2];
    var E' := E + {(node1, node2)};
    if c1 == c2 {
      EndpointsAdd(E, node1, node2);
      forall d | d in s.clusterMap ensures Connected(Elements(s.clusterMap[d]), E') {
        ConnectedMono(Elements(s.clusterMap[d]), E, E');
      }
    } else {
      CombinedConsistent(s, c1, c2);
      CombinedShaped(s, c1, c2);
      CombinedClosed(s, E, node1, node2);
      CombinedConnected(s, E, node1, node2);
    }
  }

  /** One off-diagonal cell keeps the invariant, with its pair now seen. */
  lemma StepKeepsInv(s: Clusters, E: set<(Node, Node)>, node1: Node, node2: Node)
    requires Inv(s, E) && node1 != node2
    ensures Inv(Step(s, node1, node2), E + {(node1, node2)})
  {
    if node1 in s.nodeToCluster {
      if node2 !in s.nodeToCluster {
        AddedKeepsInv(s, E, node1, node2, (node1, node2));
      } else {
        CombinedKeepsInv(s, E, node1, node2);
      }
    } else if node2 in s.nodeToCluster {
      AddedKeepsInv(s, E, node2, node1, (node1, node2));
    } else {
      CreatedKeepsInv(s, E, node1, node2);
    }
  }

  lemma EmptyInv()
    ensures Inv(Empty(), {})
  {
    assert Endpoints({}) == {};
  }

  /**
   * cm lists the connected components of the pairs E that have at least one
   * pair: lists of two or more distinct nodes, pairwise disjoint, covering
   * exactly the nodes of E, each pair inside one list, each list connected.
   */
  ghost predicate IsComponentMap(cm: map<int, seq<Node>>, E: set<(Node, Node)>) {
    && (forall c :: c in cm ==> Distinct(cm[c]) && |cm[c]| >= 2)
    && (forall c, d, n :: c in cm && d in cm && n in cm[c] && n in cm[d] ==> c == d)
    && (forall n :: n in Endpoints(E) ==> exists c :: c in cm && n in cm[c])
    && (forall c, n :: c in cm && n in cm[c] ==> n in Endpoints(E))
    && (forall a, b :: (a, b) in E ==> exists c :: c in cm && a in cm[c] && b in cm[c])
    && (forall c :: c in cm ==> Connected(Elements(cm[c]), E))
  }

  /** Under the invariant, `clusterMap` is a component map of the pairs seen. */
  lemma InvComponentMap(s: Clusters, E: set<(Node, Node)>)
    requires Inv(s, E)
    ensures IsComponentMap(s.clusterMap, E)
  {
    var cm := s.clusterMap;
    forall n | n in Endpoints(E) ensures exists c :: c in cm && n in cm[c] {
      assert n in s.nodeToCluster;
      assert n in cm[s.nodeToCluster[n]];
    }
    forall c, n | c in cm && n in cm[c] ensures n in Endpoints(E) {
      assert n in s.nodeToCluster;
    }
    forall c, d, n | c in cm && d in cm && n in cm[c] && n in cm[d] ensures c == d {
      assert s.nodeToCluster[n] == c && s.nodeToCluster[n] == d;
    }
    forall a, b | (a, b) in E ensures exists c :: c in cm && a in cm[c] && b in cm[c] {
      var c := s.nodeToCluster[a];
      assert s.nodeToCluster[b] == c;
      assert a in cm[c] && b in cm[c];
    }
  }

  /** The node sets of a component map's lists. */
  ghost function Blocks(cm: map<int, seq<Node>>): set<set<Node>> {
    set c | c in cm :: Elements(cm[c])
  }

  /** A list of one component map that meets a list of another lies inside it. */
  lemma BlockInside(cm1: map<int, seq<Node>>, cm2: map<int, seq<Node>>, E: set<(Node, Node)>, c1: int, c2: int, x: Node)
    requires IsComponentMap(cm1, E) && IsComponentMap(cm2, E)
    requires c1 in cm1 && c2 in cm2 && x in cm1[c1] && x in cm2[c2]
    ensures Elements(cm1[c1]) <= Elements(cm2[c2])
  {
    var B1, B2 := Elements(cm1[c1]), Elements(cm2[c2]);
    var S := B1 * B2;
    // no pair leaves the common part within B1, so the common part is all of B1
    forall a, b | a in S && b in B1 && Adjacent(a, b, E) ensures b in S {
      var d :| d in cm2 && a in cm2[d] && b in cm2[d];
      assert d == c2;
    }
    assert x in S;
    assert Crossed(B1, S, E);
    assert S == B1;
  }

  /** Every list of one component map is a list of another of the same pairs. */
  lemma BlocksIncluded(cm1: map<int, seq<Node>>, cm2: map<int, seq<Node>>, E: set<(Node, Node)>)
    requires IsComponentMap(cm1, E) && IsComponentMap(cm2, E)
    ensures Blocks(cm1) <= Blocks(cm2)
  {
    forall B | B in Blocks(cm1) ensures B in Blocks(cm2) {
      var c :| c in cm1 && B == Elements(cm1[c]);
      var x := cm1[c][0];
      assert x in cm1[c];
      assert x in Endpoints(E);
      var c' :| c' in cm2 && x in cm2[c'];
      BlockInside(cm1, cm2, E, c, c', x);
      BlockInside(cm2, cm1, E, c', c, x);
      assert B == Elements(cm2[c']);
    }
  }

  /**
   * Component maps of the same pairs have the same lists up to order and
   * ids: the labelling's result does not depend on the order of the cells.
   */
  lemma ComponentsUnique(cm1: map<int, seq<Node>>, cm2: map<int, seq<Node>>, E: set<(Node, Node)>)
    requires IsComponentMap(cm1, E) && IsComponentMap(cm2, E)
    ensures Blocks(cm1) == Blocks(cm2)
  {
    BlocksIncluded(cm1, cm2, E);
    BlocksIncluded(cm2, cm1, E);
  }

  /** Without off-diagonal cells there are no components. */
  lemma NoPairsNoComponents(cm: map<int, seq<Node>>)
    requires IsComponentMap(cm, {})
    ensures cm == map[]
  {
    var E: set<(Node, Node)> := {};
    assert Endpoints(E) == {};
    forall c | c in cm ensures cm[c][0] in Endpoints(E) {
      assert cm[c][0] in cm[c];
    }
    assert cm.Keys == {};
  }

  /** The state after cells (a, b) and (c, d): two clusters. */
  function TwoPairs(a: Node, b: Node, c: Node, d: Node): Clusters {
    Clusters(map[a := 0, b := 0, c := 1, d := 1], map[0 := [a, b], 1 := [c, d]], 2)
  }

  lemma TwoPairsReached(a: Node, b: Node, c: Node, d: Node)
    requires Distinct([a, b, c, d])
    ensures Step(Empty(), a, b) == Clusters(map[a := 0, b := 0], map[0 := [a, b]], 1)
    ensures Consistent(Step(Empty(), a, b))
    ensures Step(Step(Empty(), a, b), c, d) == TwoPairs(a, b, c, d)
  {
    var q := [a, b, c, d];
    assert q[0] != q[1] && q[0] != q[2] && q[0] != q[3] && q[1] != q[2] && q[1] != q[3] && q[2] != q[3];
    CreatedIs(Empty(), a, b);
    var s1 := Step(Empty(), a, b);
    CreatedIs(s1, c, d);
  }

  lemma TwoPairsMerged(a: Node, b: Node, c: Node, d: Node)
    requires Distinct([a, b, c, d])
    ensures Consistent(TwoPairs(a, b, c, d))
    ensures Step(TwoPairs(a, b, c, d), b, c) ==
      Clusters(map[a := 0, b := 0, c := 0, d := 0], map[0 := [a, b, c, d]], 2)
  {
    var q := [a, b, c, d];
    assert q[0] != q[1] && q[0] != q[2] && q[0] != q[3] && q[1] != q[2] && q[1] != q[3] && q[2] != q[3];
    var s2 := TwoPairs(a, b, c, d);
    TwoPairsConsistent(a, b, c, d);
    var s3 := Step(s2, b, c);
    assert s3 == Combined(s2, 0, 1);
    assert [a, b] + [c, d] == [a, b, c, d];
    assert s3.clusterMap == map[0 := [a, b, c, d]];
    assert Elements([c, d]) == {c, d};
    var m := map[a := 0, b := 0, c := 0, d := 0];
    assert s3.nodeToCluster.Keys == m.Keys;
  }

  lemma TwoPairsConsistent(a: Node, b: Node, c: Node, d: Node)
    requires a != c && a != d && b != c && b != d
    ensures Consistent(TwoPairs(a, b, c, d))
  {
  }

  /**
   * Cells (a, b), (c, d), (b, c) leave one cluster: the first two create
   * clusters 0 and 1, the third merges 1 into 0.
   */
  lemma ChainExample(a: Node, b: Node, c: Node, d: Node)
    requires Distinct([a, b, c, d])
    ensures Consistent(Step(Empty(), a, b)) && Consistent(Step(Step(Empty(), a, b), c, d))
    ensures var s := Step(Step(Step(Empty(), a, b), c, d), b, c);
      s.clusterMap == map[0 := [a, b, c, d]] && s.clusterNumber == 2 &&
      s.nodeToCluster == map[a := 0, b := 0, c := 0, d := 0]
  {
    TwoPairsReached(a, b, c, d);
    TwoPairsMerged(a, b, c, d);
  }

  /**
   * `FindComponents` (lines 324-385): the labelling state, updated in place
   * by `Apply` for each non-zero cell of the matrix over `nodes`.
   */
  class ComponentFinder {
    const nodes: seq<Node>
    var nodeToCluster: map<Node, int>
    var clusterMap: map<int, seq<Node>>
    var clusterNumber: int
    /** The node pairs of the off-diagonal cells visited so far. */
    ghost var visited: set<(Node, Node)>

    function State(): Clusters
      reads this
    {
      Clusters(nodeToCluster, clusterMap, clusterNumber)
    }

    ghost predicate Valid()
      reads this
    {
      Distinct(nodes) && Inv(State(), visited)
    }

    constructor(nodes: seq<Node>)
      requires Distinct(nodes)
      ensures this.nodes == nodes && State() == Empty() && visited == {}
      ensures Valid()
    {
      this.nodes := nodes;
      nodeToCluster := map[];
      clusterMap := map[];
      clusterNumber := 0;
      visited := {};
      EmptyInv();
    }

    method AddNodeToCluster(cluster: int, node: Node)
      requires cluster in clusterMap
      modifies this
      ensures State() == Added(old(State()), cluster, node) && visited == old(visited)
    {
      var nodeList := clusterMap[cluster];
      clusterMap := clusterMap[cluster := nodeList + [node]];
      nodeToCluster := nodeToCluster[node := cluster];
    }

    method CreateCluster(node1: Node, node2: Node)
      modifies this
      ensures State() == Created(old(State()), node1, node2) && visited == old(visited)
    {
      clusterMap := clusterMap[clusterNumber := []];
      AddNodeToCluster(clusterNumber, node1);
      AddNodeToCluster(clusterNumber, node2);
      clusterNumber := clusterNumber + 1;
    }

    method CombineClusters(cluster1: int, cluster2: int)
      requires cluster1 in clusterMap && cluster2 in clusterMap
      modifies this
      ensures State() == Combined(old(State()), cluster1, cluster2) && visited == old(visited)
    {
      if cluster1 == cluster2 {
        return;
      }
      var list1 := clusterMap[cluster1];
      var list2 := clusterMap[cluster2];
      clusterMap := clusterMap - {cluster2};
      for i := 0 to |list2|
        invariant nodeToCluster == Relabelled(old(nodeToCluster), list2[..i], cluster1)
        invariant clusterMap == old(clusterMap) - {cluster2}
        invariant clusterNumber == old(clusterNumber) && visited == old(visited)
      {
        RelabelledStep(old(nodeToCluster), list2, i, cluster1);
        nodeToCluster := nodeToCluster[list2[i] := cluster1];
      }
      assert list2[..|list2|] == list2;
      clusterMap := clusterMap[cluster1 := list1 + list2];
    }

    /** The branches of `apply` for the off-diagonal cell joining node1 and node2 (lines 339-353). */
    method Join(node1: Node, node2: Node)
      requires Consistent(State())
      modifies this
      ensures State() == Step(old(State()), node1, node2) && visited == old(visited)
    {
      if node1 in nodeToCluster {
        if node2 !in nodeToCluster {
          AddNodeToCluster(nodeToCluster[node1], node2);
        } else {
          CombineClusters(nodeToCluster[node1], nodeToCluster[node2]);
        }
      } else {
        if node2 in nodeToCluster {
          AddNodeToCluster(nodeToCluster[node2], node1);
        } else {
          CreateCluster(node1, node2);
        }
      }
    }

    /**
     * `apply(row, column, value)`: a diagonal cell changes nothing; any other
     * cell joins its two nodes. The value is returned unchanged, so the
     * matrix is not modified.
     */
    method Apply(row: int, column: int, value: real) returns (r: real)
      requires Valid() && 0 <= row < |nodes| && 0 <= column < |nodes|
      modifies this
      ensures r == value && Valid()
      ensures row == column ==> State() == old(State()) && visited == old(visited)
      ensures row != column ==>
                State() == Step(old(State()), nodes[row], nodes[column]) &&
                visited == old(visited) + {(nodes[row], nodes[column])}
    {
      if row == column {
        return value;
      }
      var node1, node2 := nodes[row], nodes[column];
      ghost var s := State();
      Join(node1, node2);
      StepKeepsInv(s, visited, node1, node2);
      visited := visited + {(node1, node2)};
      return value;
    }
  }
}
