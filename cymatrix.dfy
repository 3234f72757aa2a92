/**
 * `Matrix`, the attribute table the attribute clusterers work on, built from
 * the nodes of a network (Matrix.java): the node list is sorted by
 * identifier, each node's numeric conditions are collected into a map, and
 * the kept nodes are laid out as rows (or, transposed, as columns) against
 * the conditions. The Java class extends `BaseMatrix`; here a `Matrix` holds
 * its `BaseMatrix` part in the field `base`.
 */
module CyMatrix {
  import opened Common
  import opened Sorting
  import opened Base
  import EdgeWeights

  // ---------------------------------------------------------------------
  // Sorting the node list (sortNodeList, lines 361-378)
  // ---------------------------------------------------------------------

  /** The identifiers of a node list, in order. */
  function Ids(nodes: seq<Node>): seq<string> {
    seq(|nodes|, i requires 0 <= i < |nodes| => nodes[i].identifier)
  }

  /**
   * The `nodeMap` of sortNodeList after putting every node of the list in
   * order: each identifier of the list maps to a node that carries it.
   */
  function NodeMap(nodes: seq<Node>): (m: map<string, Node>)
    ensures forall id :: id in m <==> id in Ids(nodes)
    ensures forall id :: id in m ==> m[id].identifier == id && m[id] in nodes
    decreases |nodes|
  {
    if nodes == [] then map[]
    else
      var prefix := nodes[..|nodes| - 1];
      var last := nodes[|nodes| - 1];
      assert nodes == prefix + [last];
      assert Ids(nodes) == Ids(prefix) + [last.identifier];
      NodeMap(prefix)[last.identifier := last]
  }

  /** A node with no later namesake in the list is the one the map keeps. */
  lemma {:induction false} NodeMapLast(nodes: seq<Node>, j: int)
    requires 0 <= j < |nodes|
    requires forall k :: j < k < |nodes| ==> nodes[k].identifier != nodes[j].identifier
    ensures nodes[j].identifier in NodeMap(nodes)
    ensures NodeMap(nodes)[nodes[j].identifier] == nodes[j]
    decreases |nodes|
  {
    var n := |nodes| - 1;
    if j < n {
      NodeMapLast(nodes[..n], j);
    }
  }

  /**
   * What sortNodeList promises: the identifiers of the result are those of
   * the input (with their multiplicities) in lexicographic order, and each
   * position holds the node the map keeps for that identifier.
   */
  ghost predicate SortsNodes(input: seq<Node>, output: seq<Node>) {
    && |output| == |input|
    && SortedBy(Ids(output), LexLe)
    && multiset(Ids(output)) == multiset(Ids(input))
    && forall i :: 0 <= i < |output| ==>
         output[i].identifier in NodeMap(input) && output[i] == NodeMap(input)[output[i].identifier]
  }

  /** The first loop of sortNodeList (lines 364-369): the identifier array and the map. */
  method IndexNodes(nodeList: seq<Node>) returns (nodeNames: array<string>, nodeMap: map<string, Node>)
    ensures fresh(nodeNames)
    ensures nodeNames[..] == Ids(nodeList)
    ensures nodeMap == NodeMap(nodeList)
  {
    nodeMap := map[];
    nodeNames := new string[|nodeList|];
    for index := 0 to |nodeList|
      invariant nodeMap == NodeMap(nodeList[..index])
      invariant nodeNames[..index] == Ids(nodeList[..index])
    {
      assert nodeList[..index + 1][..index] == nodeList[..index];
      nodeNames[index] := nodeList[index].identifier;
      nodeMap := nodeMap[nodeList[index].identifier := nodeList[index]];
    }
    assert nodeList[..|nodeList|] == nodeList;
  }

  /** The last loop of sortNodeList (lines 373-376): each sorted name looked up in the map. */
  method LookUpAll(nodeNames: seq<string>, nodeMap: map<string, Node>) returns (newList: seq<Node>)
    requires forall i :: 0 <= i < |nodeNames| ==> nodeNames[i] in nodeMap
    ensures |newList| == |nodeNames|
    ensures forall i :: 0 <= i < |nodeNames| ==> newList[i] == nodeMap[nodeNames[i]]
  {
    newList := [];
    for index := 0 to |nodeNames|
      invariant |newList| == index
      invariant forall i :: 0 <= i < index ==> newList[i] == nodeMap[nodeNames[i]]
    {
      newList := newList + [nodeMap[nodeNames[index]]];
    }
  }

  /** `sortNodeList` (lines 361-378). */
  method SortNodeList(nodeList: seq<Node>) returns (result: seq<Node>)
    ensures SortsNodes(nodeList, result)
  {
    var nodeNames, nodeMap := IndexNodes(nodeList);
    LexLeIsTotalPreorder();
    InsertionSort(nodeNames, LexLe);
    var names := nodeNames[..];
    assert multiset(names) == multiset(Ids(nodeList));
    forall i | 0 <= i < |names| ensures names[i] in nodeMap {
      assert names[i] in multiset(names);
    }
    result := LookUpAll(names, nodeMap);
    assert Ids(result) == names;
  }

  /**
   * With unique identifiers, as the nodes of a network have, the sorted list
   * is a rearrangement of the input: the same nodes, each once.
   */
  lemma SortPermutes(input: seq<Node>, output: seq<Node>)
    requires SortsNodes(input, output) && Distinct(Ids(input))
    ensures Distinct(output)
    ensures forall n :: n in output <==> n in input
  {
    DistinctRearranged(Ids(output), Ids(input));
    forall n | n in input ensures n in output {
      var j :| 0 <= j < |input| && input[j] == n;
      forall k | j < k < |input| ensures input[k].identifier != n.identifier {
        assert Ids(input)[j] == n.identifier && Ids(input)[k] == input[k].identifier;
      }
      NodeMapLast(input, j);
      assert Ids(input)[j] == n.identifier;
      assert n.identifier in multiset(Ids(output));
      var i :| 0 <= i < |output| && Ids(output)[i] == n.identifier;
      assert output[i] == n;
    }
    forall q1, q2 | 0 <= q1 < q2 < |output| ensures output[q1] != output[q2] {
      assert Ids(output)[q1] != Ids(output)[q2];
    }
  }

  // ---------------------------------------------------------------------
  // The conditions of each node (buildGeneArrayMatrix, lines 264-298)
  // ---------------------------------------------------------------------

  /**
   * The node attribute store: the declared type of each attribute, and the
   * value of an attribute for the node with a given identifier, when it has
   * one (an integer value is given as a real).
   */
  datatype NodeAttributes = NodeAttributes(
    typeOf: string -> EdgeWeights.AttributeType,
    valueOf: (string, string) -> Option<real>)

  /** The prefix that marks the weight attributes as node attributes. */
  const NodePrefix: string := "node."

  /** The condition names: each weight attribute without its five-character type prefix. */
  function Stripped(weightAttributes: seq<string>): (conds: seq<string>)
    requires forall i :: 0 <= i < |weightAttributes| ==> |weightAttributes[i]| >= |NodePrefix|
    ensures |conds| == |weightAttributes|
    ensures forall i :: 0 <= i < |conds| ==>
      weightAttributes[i] == weightAttributes[i][..|NodePrefix|] + conds[i]
  {
    seq(|weightAttributes|, i requires 0 <= i < |weightAttributes| => weightAttributes[i][|NodePrefix|..])
  }

  /**
   * `substring(5)` drops five UTF-16 code units. When the first five
   * characters lie below U+10000, as those of "node." do, that is exactly
   * what `Stripped` drops.
   */
  lemma StrippedUnits(weightAttributes: seq<string>, i: nat)
    requires forall i :: 0 <= i < |weightAttributes| ==> |weightAttributes[i]| >= |NodePrefix|
    requires i < |weightAttributes|
    requires forall k :: 0 <= k < |NodePrefix| ==> weightAttributes[i][k] as int < 0x1_0000
    ensures Utf16(Stripped(weightAttributes)[i]) == Utf16(weightAttributes[i])[|NodePrefix|..]
  {
    var w := weightAttributes[i];
    assert w == w[..|NodePrefix|] + w[|NodePrefix|..];
    Utf16Append(w[..|NodePrefix|], w[|NodePrefix|..]);
    Utf16Bmp(w[..|NodePrefix|]);
  }

  /** The first weight attribute starts with "node.", so its condition name is `substring(5)` of it. */
  lemma FirstStrippedUnits(weightAttributes: seq<string>)
    requires forall i :: 0 <= i < |weightAttributes| ==> |weightAttributes[i]| >= |NodePrefix|
    requires |weightAttributes| >= 1 && NodePrefix <= weightAttributes[0]
    ensures Utf16(Stripped(weightAttributes)[0]) == Utf16(weightAttributes[0])[|NodePrefix|..]
  {
    StrippedUnits(weightAttributes, 0);
  }

  /** The loop of the `Matrix(weightAttributes, …)` constructor that strips the prefixes (lines 86-89). */
  method StripPrefixes(weightAttributes: seq<string>) returns (attributeArray: array<string>)
    requires forall i :: 0 <= i < |weightAttributes| ==> |weightAttributes[i]| >= |NodePrefix|
    ensures fresh(attributeArray)
    ensures attributeArray[..] == Stripped(weightAttributes)
  {
    attributeArray := new string[|weightAttributes|](_ => "");
    for i := 0 to |weightAttributes|
      invariant attributeArray[..i] == Stripped(weightAttributes)[..i]
    {
      attributeArray[i] := weightAttributes[i][|NodePrefix|..];
    }
  }

  /**
   * A condition enters a node's map when its attribute is integer or floating,
   * and, when missing values are ignored, the node has a value for it.
   */
  predicate Recorded(attrs: NodeAttributes, node: Node, cond: string, ignoreMissing: bool) {
    && attrs.typeOf(cond) != EdgeWeights.TypeOther
    && (!ignoreMissing || attrs.valueOf(node.identifier, cond).Some?)
  }

  /** `thisCondMap` for one node: each recorded condition to the node's value for it, possibly null. */
  function NodeConditions(attrs: NodeAttributes, node: Node, conds: seq<string>, ignoreMissing: bool): map<string, Option<real>> {
    map c | c in conds && Recorded(attrs, node, c, ignoreMissing) :: attrs.valueOf(node.identifier, c)
  }

  lemma NodeConditionsStep(attrs: NodeAttributes, node: Node, conds: seq<string>, c: string, ignoreMissing: bool)
    ensures NodeConditions(attrs, node, conds + [c], ignoreMissing) ==
      if Recorded(attrs, node, c, ignoreMissing)
      then NodeConditions(attrs, node, conds, ignoreMissing)[c := attrs.valueOf(node.identifier, c)]
      else NodeConditions(attrs, node, conds, ignoreMissing)
  {
    var m, m' := NodeConditions(attrs, node, conds, ignoreMissing), NodeConditions(attrs, node, conds + [c], ignoreMissing);
    assert forall x :: x in conds + [c] <==> x in conds || x == c;
    if Recorded(attrs, node, c, ignoreMissing) {
      assert m'.Keys == m.Keys + {c};
    } else {
      assert m'.Keys == m.Keys;
    }
  }

  /** A node enters `nodeCondMap` unless missing values are ignored and its map is empty. */
  predicate Kept(attrs: NodeAttributes, node: Node, conds: seq<string>, ignoreMissing: bool) {
    !ignoreMissing || |NodeConditions(attrs, node, conds, ignoreMissing)| > 0
  }

  /** `nodeCondMap` after the loop over a node list. */
  function ConditionMaps(attrs: NodeAttributes, nodes: seq<Node>, conds: seq<string>, ignoreMissing: bool): map<Node, map<string, Option<real>>> {
    map n | n in nodes && Kept(attrs, n, conds, ignoreMissing) :: NodeConditions(attrs, n, conds, ignoreMissing)
  }

  lemma ConditionMapsStep(attrs: NodeAttributes, nodes: seq<Node>, node: Node, conds: seq<string>, ignoreMissing: bool)
    ensures ConditionMaps(attrs, nodes + [node], conds, ignoreMissing) ==
      if Kept(attrs, node, conds, ignoreMissing)
      then ConditionMaps(attrs, nodes, conds, ignoreMissing)[node := NodeConditions(attrs, node, conds, ignoreMissing)]
      else ConditionMaps(attrs, nodes, conds, ignoreMissing)
  {
    var m, m' := ConditionMaps(attrs, nodes, conds, ignoreMissing), ConditionMaps(attrs, nodes + [node], conds, ignoreMissing);
    var e := if Kept(attrs, node, conds, ignoreMissing)
      then m[node := NodeConditions(attrs, node, conds, ignoreMissing)] else m;
    assert m'.Keys == e.Keys by {
      forall x ensures x in m' <==> x in e {
        assert x in nodes + [node] <==> x in nodes || x == node;
      }
    }
    assert forall x :: x in m' ==> m'[x] == e[x];
  }

  /**
   * Without ignoring missing values every node is kept and its map has every
   * numeric condition; when ignoring them, a node is kept exactly when it has
   * a value for some numeric condition, and its map holds no null.
   */
  lemma KeptIffSomeValue(attrs: NodeAttributes, node: Node, conds: seq<string>, ignoreMissing: bool)
    ensures !ignoreMissing ==> Kept(attrs, node, conds, ignoreMissing)
    ensures !ignoreMissing ==> forall c :: c in conds && attrs.typeOf(c) != EdgeWeights.TypeOther ==>
      c in NodeConditions(attrs, node, conds, ignoreMissing)
    ensures ignoreMissing ==> forall c :: c in NodeConditions(attrs, node, conds, ignoreMissing) ==>
      NodeConditions(attrs, node, conds, ignoreMissing)[c].Some?
    ensures ignoreMissing ==>
      (Kept(attrs, node, conds, ignoreMissing) <==>
       exists c :: c in conds && attrs.typeOf(c) != EdgeWeights.TypeOther && attrs.valueOf(node.identifier, c).Some?)
  {
    var m := NodeConditions(attrs, node, conds, ignoreMissing);
    if ignoreMissing {
      if exists c :: c in conds && attrs.typeOf(c) != EdgeWeights.TypeOther && attrs.valueOf(node.identifier, c).Some? {
        var c :| c in conds && attrs.typeOf(c) != EdgeWeights.TypeOther && attrs.valueOf(node.identifier, c).Some?;
        assert c in m.Keys;
        assert |m.Keys| > 0;
      }
      if |m| > 0 {
        assert m.Keys != {};
        var c :| c in m.Keys;
        assert c in conds && Recorded(attrs, node, c, ignoreMissing);
      }
    }
  }

  /** The inner loop of lines 277-295: one node's condition map. */
  method ConditionsOf(attrs: NodeAttributes, node: Node, conds: seq<string>, ignoreMissing: bool)
    returns (thisCondMap: map<string, Option<real>>)
    ensures thisCondMap == NodeConditions(attrs, node, conds, ignoreMissing)
  {
    thisCondMap := map[];
    for attrIndex := 0 to |conds|
      invariant thisCondMap == NodeConditions(attrs, node, conds[..attrIndex], ignoreMissing)
    {
      var attr := conds[attrIndex];
      assert conds[..attrIndex + 1] == conds[..attrIndex] + [attr];
      NodeConditionsStep(attrs, node, conds[..attrIndex], attr, ignoreMissing);
      var value: Option<real>;
      match attrs.typeOf(attr) {
        case TypeInteger =>
          value := attrs.valueOf(node.identifier, attr);
        case TypeFloating =>
          value := attrs.valueOf(node.identifier, attr);
        case TypeOther =>
          continue;
      }
      if !ignoreMissing || value.Some? {
        thisCondMap := thisCondMap[attr := value];
      }
    }
    assert conds[..|conds|] == conds;
  }

  /** The outer loop of lines 272-298: `nodeCondMap`. */
  method BuildConditionMaps(attrs: NodeAttributes, nodeList: seq<Node>, conds: seq<string>, ignoreMissing: bool)
    returns (nodeCondMap: map<Node, map<string, Option<real>>>)
    ensures nodeCondMap == ConditionMaps(attrs, nodeList, conds, ignoreMissing)
  {
    nodeCondMap := map[];
    for index := 0 to |nodeList|
      invariant nodeCondMap == ConditionMaps(attrs, nodeList[..index], conds, ignoreMissing)
    {
      var node := nodeList[index];
      assert nodeList[..index + 1] == nodeList[..index] + [node];
      ConditionMapsStep(attrs, nodeList[..index], node, conds, ignoreMissing);
      var thisCondMap := ConditionsOf(attrs, node, conds, ignoreMissing);
      if !ignoreMissing || |thisCondMap| > 0 {
        nodeCondMap := nodeCondMap[node := thisCondMap];
      }
    }
    assert nodeList[..|nodeList|] == nodeList;
  }

  // ---------------------------------------------------------------------
  // Laying out the table (buildGeneArrayMatrix, lines 300-356)
  // ---------------------------------------------------------------------

  /** The nodes of a list that have an entry in `nodeCondMap`, in list order: the rows (or columns) of the table. */
  function KeptNodes(nodes: seq<Node>, keys: set<Node>): seq<Node>
    decreases |nodes|
  {
    if nodes == [] then []
    else
      var last := nodes[|nodes| - 1];
      KeptNodes(nodes[..|nodes| - 1], keys) + (if last in keys then [last] else [])
  }

  lemma {:induction false} KeptMembers(nodes: seq<Node>, keys: set<Node>)
    ensures forall n :: n in KeptNodes(nodes, keys) <==> n in nodes && n in keys
    decreases |nodes|
  {
    if nodes != [] {
      var prefix := nodes[..|nodes| - 1];
      KeptMembers(prefix, keys);
      assert nodes == prefix + [nodes[|nodes| - 1]];
    }
  }

  /** The nodes of a list, as a set. */
  function Members(nodes: seq<Node>): set<Node> {
    set n | n in nodes
  }

  lemma MembersStep(prefix: seq<Node>, last: Node, keys: set<Node>)
    requires last !in prefix
    ensures keys * Members(prefix + [last]) == keys * Members(prefix) + (if last in keys then {last} else {})
    ensures last !in keys * Members(prefix)
  {
    assert Members(prefix + [last]) == Members(prefix) + {last};
  }

  /** The kept nodes of a list without repetitions are distinct, and as many as the keys the list meets. */
  lemma {:induction false} KeptCount(nodes: seq<Node>, keys: set<Node>)
    requires Distinct(nodes)
    ensures Distinct(KeptNodes(nodes, keys))
    ensures |KeptNodes(nodes, keys)| == |keys * Members(nodes)|
    decreases |nodes|
  {
    if nodes != [] {
      var prefix := nodes[..|nodes| - 1];
      var last := nodes[|nodes| - 1];
      assert nodes == prefix + [last];
      assert Distinct(prefix);
      KeptCount(prefix, keys);
      KeptMembers(prefix, keys);
      assert last !in prefix;
      MembersStep(prefix, last, keys);
    }
  }

  /** Keeping some nodes of a list sorted by identifier leaves them sorted. */
  lemma {:induction false} KeptSorted(nodes: seq<Node>, keys: set<Node>)
    requires SortedBy(Ids(nodes), LexLe)
    ensures SortedBy(Ids(KeptNodes(nodes, keys)), LexLe)
    decreases |nodes|
  {
    if nodes != [] {
      var n := |nodes| - 1;
      var prefix := nodes[..n];
      assert Ids(prefix) == Ids(nodes)[..n];
      KeptSorted(prefix, keys);
      KeptMembers(prefix, keys);
      var kept := KeptNodes(prefix, keys);
      if nodes[n] in keys {
        forall p | 0 <= p < |kept| ensures LexLe(kept[p].identifier, nodes[n].identifier) {
          assert kept[p] in prefix;
          var i :| 0 <= i < n && prefix[i] == kept[p];
          assert Ids(nodes)[i] == kept[p].identifier && Ids(nodes)[n] == nodes[n].identifier;
        }
        var all := KeptNodes(nodes, keys);
        assert all == kept + [nodes[n]];
        forall p, q | 0 <= p < q < |all| ensures LexLe(Ids(all)[p], Ids(all)[q]) {
          if q < |kept| {
            assert Ids(kept)[p] == Ids(all)[p] && Ids(kept)[q] == Ids(all)[q];
          }
        }
      } else {
        assert KeptNodes(nodes, keys) == kept;
      }
    }
  }

  /** The nodes kept from a prefix of a list come first among those kept from the whole list. */
  lemma {:induction false} KeptPrefix(nodes: seq<Node>, keys: set<Node>, i: nat)
    requires i <= |nodes|
    ensures KeptNodes(nodes[..i], keys) <= KeptNodes(nodes, keys)
    decreases |nodes|
  {
    if i < |nodes| {
      var prefix := nodes[..|nodes| - 1];
      assert prefix[..i] == nodes[..i];
      KeptPrefix(prefix, keys, i);
    } else {
      assert nodes[..i] == nodes;
    }
  }

  /** A missing key reads as a missing value. */
  function CellOf(conditions: map<string, Option<real>>, cond: string): Option<real> {
    if cond in conditions then conditions[cond] else None
  }

  /** The value of one condition of one node in `nodeCondMap`; missing when either is absent. */
  function Entry(nodeCondMap: map<Node, map<string, Option<real>>>, node: Node, cond: string): Option<real> {
    if node in nodeCondMap then CellOf(nodeCondMap[node], cond) else None
  }

  /**
   * One kept node of lines 343-353: it labels row `row` with its identifier,
   * becomes that row's node, and fills the row from its condition map.
   */
  method PlaceRow(m: array2<Option<real>>, rowLabels: array<Option<string>>, rowNodes: array<Option<Node>>,
                  row: nat, node: Node, conds: seq<string>, thisCondMap: map<string, Option<real>>)
    requires row < m.Length0 == rowLabels.Length == rowNodes.Length && m.Length1 == |conds|
    requires forall c :: 0 <= c < m.Length1 ==> m[row, c] == None
    modifies m, rowLabels, rowNodes
    ensures rowLabels[row] == Some(node.identifier) && rowNodes[row] == Some(node)
    ensures forall r :: 0 <= r < m.Length0 && r != row ==> rowLabels[r] == old(rowLabels[r]) && rowNodes[r] == old(rowNodes[r])
    ensures forall c :: 0 <= c < m.Length1 ==> m[row, c] == CellOf(thisCondMap, conds[c])
    ensures forall r, c :: 0 <= r < m.Length0 && r != row && 0 <= c < m.Length1 ==> m[r, c] == old(m[r, c])
  {
    rowLabels[row] := Some(node.identifier);
    rowNodes[row] := Some(node);
    for column := 0 to m.Length1
      invariant forall c :: 0 <= c < m.Length1 ==> m[row, c] == if c < column then CellOf(thisCondMap, conds[c]) else None
      invariant forall r, c :: 0 <= r < m.Length0 && r != row && 0 <= c < m.Length1 ==> m[r, c] == old(m[r, c])
      modifies m
    {
      if conds[column] in thisCondMap {
        m[row, column] := thisCondMap[conds[column]];
      }
    }
  }

  /**
   * One kept node of lines 317-326: it labels column `column` with its
   * identifier, becomes that column's node, and fills the column from its
   * condition map.
   */
  method PlaceColumn(m: array2<Option<real>>, columnLabels: array<Option<string>>, columnNodes: array<Option<Node>>,
                     column: nat, node: Node, conds: seq<string>, thisCondMap: map<string, Option<real>>)
    requires column < m.Length1 == columnLabels.Length == columnNodes.Length && m.Length0 == |conds|
    requires forall r :: 0 <= r < m.Length0 ==> m[r, column] == None
    modifies m, columnLabels, columnNodes
    ensures columnLabels[column] == Some(node.identifier) && columnNodes[column] == Some(node)
    ensures forall c :: 0 <= c < m.Length1 && c != column ==>
      columnLabels[c] == old(columnLabels[c]) && columnNodes[c] == old(columnNodes[c])
    ensures forall r :: 0 <= r < m.Length0 ==> m[r, column] == CellOf(thisCondMap, conds[r])
    ensures forall r, c :: 0 <= r < m.Length0 && 0 <= c < m.Length1 && c != column ==> m[r, c] == old(m[r, c])
  {
    columnLabels[column] := Some(node.identifier);
    columnNodes[column] := Some(node);
    for row := 0 to m.Length0
      invariant forall r :: 0 <= r < m.Length0 ==> m[r, column] == if r < row then CellOf(thisCondMap, conds[r]) else None
      invariant forall r, c :: 0 <= r < m.Length0 && 0 <= c < m.Length1 && c != column ==> m[r, c] == old(m[r, c])
      modifies m
    {
      if conds[row] in thisCondMap {
        m[row, column] := thisCondMap[conds[row]];
      }
    }
  }

  /**
   * Lines 336-355: the conditions label the columns, and each node of the
   * list with an entry in `nodeCondMap` takes the next row, labelled by its
   * identifier and filled from its map.
   */
  method LayoutRows(m: array2<Option<real>>, rowLabels: array<Option<string>>, columnLabels: array<Option<string>>,
                    rowNodes: array<Option<Node>>, nodeList: seq<Node>, conds: seq<string>,
                    nodeCondMap: map<Node, map<string, Option<real>>>)
    requires m.Length0 == rowLabels.Length == rowNodes.Length == |KeptNodes(nodeList, nodeCondMap.Keys)|
    requires m.Length1 == columnLabels.Length == |conds|
    requires rowLabels != columnLabels
    requires forall r, c :: 0 <= r < m.Length0 && 0 <= c < m.Length1 ==> m[r, c] == None
    modifies m, rowLabels, columnLabels, rowNodes
    ensures forall c :: 0 <= c < |conds| ==> columnLabels[c] == Some(conds[c])
    ensures var kept := KeptNodes(nodeList, nodeCondMap.Keys);
      forall r :: 0 <= r < |kept| ==> rowLabels[r] == Some(kept[r].identifier) && rowNodes[r] == Some(kept[r])
    ensures var kept := KeptNodes(nodeList, nodeCondMap.Keys);
      forall r, c :: 0 <= r < m.Length0 && 0 <= c < m.Length1 ==> m[r, c] == Entry(nodeCondMap, kept[r], conds[c])
  {
    SetLabels(columnLabels, conds);
    ghost var kept := KeptNodes(nodeList, nodeCondMap.Keys);
    var row := 0;
    for index := 0 to |nodeList|
      invariant KeptNodes(nodeList[..index], nodeCondMap.Keys) <= kept
      invariant row == |KeptNodes(nodeList[..index], nodeCondMap.Keys)|
      invariant forall c :: 0 <= c < |conds| ==> columnLabels[c] == Some(conds[c])
      invariant forall r :: 0 <= r < row ==> rowLabels[r] == Some(kept[r].identifier)
      invariant forall r :: 0 <= r < row ==> rowNodes[r] == Some(kept[r])
      invariant forall r, c :: 0 <= r < row && 0 <= c < m.Length1 ==> m[r, c] == Entry(nodeCondMap, kept[r], conds[c])
      invariant forall r, c :: row <= r < m.Length0 && 0 <= c < m.Length1 ==> m[r, c] == None
    {
      var node := nodeList[index];
      KeptPrefix(nodeList, nodeCondMap.Keys, index + 1);
      assert nodeList[..index + 1][..index] == nodeList[..index];
      if node !in nodeCondMap {
        continue;
      }
      assert kept[row] == node;
      var thisCondMap := nodeCondMap[node];
      PlaceRow(m, rowLabels, rowNodes, row, node, conds, thisCondMap);
      row := row + 1;
    }
    assert nodeList[..|nodeList|] == nodeList;
  }

  /**
   * Lines 309-330, the transposed layout: the conditions label the rows,
   * and each node of the list with an entry in `nodeCondMap` takes the next
   * column.
   */
  method LayoutColumns(m: array2<Option<real>>, rowLabels: array<Option<string>>, columnLabels: array<Option<string>>,
                       columnNodes: array<Option<Node>>, nodeList: seq<Node>, conds: seq<string>,
                       nodeCondMap: map<Node, map<string, Option<real>>>)
    requires m.Length1 == columnLabels.Length == columnNodes.Length == |KeptNodes(nodeList, nodeCondMap.Keys)|
    requires m.Length0 == rowLabels.Length == |conds|
    requires rowLabels != columnLabels
    requires forall r, c :: 0 <= r < m.Length0 && 0 <= c < m.Length1 ==> m[r, c] == None
    modifies m, rowLabels, columnLabels, columnNodes
    ensures forall r :: 0 <= r < |conds| ==> rowLabels[r] == Some(conds[r])
    ensures var kept := KeptNodes(nodeList, nodeCondMap.Keys);
      forall c :: 0 <= c < |kept| ==> columnLabels[c] == Some(kept[c].identifier) && columnNodes[c] == Some(kept[c])
    ensures var kept := KeptNodes(nodeList, nodeCondMap.Keys);
      forall r, c :: 0 <= r < m.Length0 && 0 <= c < m.Length1 ==> m[r, c] == Entry(nodeCondMap, kept[c], conds[r])
  {
    SetLabels(rowLabels, conds);
    ghost var kept := KeptNodes(nodeList, nodeCondMap.Keys);
    var column := 0;
    for index := 0 to |nodeList|
      invariant KeptNodes(nodeList[..index], nodeCondMap.Keys) <= kept
      invariant column == |KeptNodes(nodeList[..index], nodeCondMap.Keys)|
      invariant forall r :: 0 <= r < |conds| ==> rowLabels[r] == Some(conds[r])
      invariant forall c :: 0 <= c < column ==> columnLabels[c] == Some(kept[c].identifier)
      invariant forall c :: 0 <= c < column ==> columnNodes[c] == Some(kept[c])
      invariant forall r, c :: 0 <= r < m.Length0 && 0 <= c < column ==> m[r, c] == Entry(nodeCondMap, kept[c], conds[r])
      invariant forall r, c :: 0 <= r < m.Length0 && column <= c < m.Length1 ==> m[r, c] == None
    {
      var node := nodeList[index];
      KeptPrefix(nodeList, nodeCondMap.Keys, index + 1);
      assert nodeList[..index + 1][..index] == nodeList[..index];
      if node !in nodeCondMap {
        continue;
      }
      assert kept[column] == node;
      var thisCondMap := nodeCondMap[node];
      PlaceColumn(m, columnLabels, columnNodes, column, node, conds, thisCondMap);
      column := column + 1;
    }
    assert nodeList[..|nodeList|] == nodeList;
  }

  /**
   * The table the gene-array layout describes, one row per node in order:
   * row r, column c holds node r's value for condition c, missing when the
   * node's map has no entry for it.
   */
  function Table(attrs: NodeAttributes, nodes: seq<Node>, conds: seq<string>, ignoreMissing: bool): seq<seq<Option<real>>> {
    seq(|nodes|, r requires 0 <= r < |nodes| =>
      seq(|conds|, c requires 0 <= c < |conds| => CellOf(NodeConditions(attrs, nodes[r], conds, ignoreMissing), conds[c])))
  }

  /**
   * Laying out the nodes `nodeCondMap` kept, in list order, gives the
   * table of their condition maps: the kept nodes are exactly the nodes of
   * the list that pass the keep rule, and each one's entry is its map.
   */
  lemma LayoutIsTable(attrs: NodeAttributes, nodeList: seq<Node>, conds: seq<string>, ignoreMissing: bool)
    ensures var nodeCondMap := ConditionMaps(attrs, nodeList, conds, ignoreMissing);
      var kept := KeptNodes(nodeList, nodeCondMap.Keys);
      var table := Table(attrs, kept, conds, ignoreMissing);
      && (forall n :: n in kept <==> n in nodeList && Kept(attrs, n, conds, ignoreMissing))
      && (forall r, c :: 0 <= r < |kept| && 0 <= c < |conds| ==> Entry(nodeCondMap, kept[r], conds[c]) == table[r][c])
  {
    var nodeCondMap := ConditionMaps(attrs, nodeList, conds, ignoreMissing);
    KeptMembers(nodeList, nodeCondMap.Keys);
  }

  /**
   * The table laid out with the nodes as rows: each row labelled by its
   * node's identifier and holding that node, each column labelled by its
   * condition, and cell (r, c) holding `table[r][c]`.
   */
  ghost predicate RowLayout(b: BaseMatrix, rn: array?<Option<Node>>, cn: array?<Option<Node>>,
                            nodes: seq<Node>, conds: seq<string>, table: seq<seq<Option<real>>>)
    reads b, b.matrix, b.rowLabels, b.columnLabels, rn
    requires b.Valid()
  {
    && b.nRows == |nodes| && b.nColumns == |conds|
    && rn != null && cn == null && rn.Length == |nodes|
    && |table| == |nodes| && (forall r :: 0 <= r < |nodes| ==> |table[r]| == |conds|)
    && (forall r :: 0 <= r < |nodes| ==> b.rowLabels[r] == Some(nodes[r].identifier) && rn[r] == Some(nodes[r]))
    && (forall c :: 0 <= c < |conds| ==> b.columnLabels[c] == Some(conds[c]))
    && (forall r, c :: 0 <= r < |nodes| && 0 <= c < |conds| ==> b.matrix[r, c] == table[r][c])
  }

  /**
   * The transposed layout: the conditions label the rows, the nodes label
   * and are held by the columns, and cell (r, c) holds `table[c][r]`.
   */
  ghost predicate ColumnLayout(b: BaseMatrix, rn: array?<Option<Node>>, cn: array?<Option<Node>>,
                               nodes: seq<Node>, conds: seq<string>, table: seq<seq<Option<real>>>)
    reads b, b.matrix, b.rowLabels, b.columnLabels, cn
    requires b.Valid()
  {
    && b.nRows == |conds| && b.nColumns == |nodes|
    && rn == null && cn != null && cn.Length == |nodes|
    && |table| == |nodes| && (forall c :: 0 <= c < |nodes| ==> |table[c]| == |conds|)
    && (forall r :: 0 <= r < |conds| ==> b.rowLabels[r] == Some(conds[r]))
    && (forall c :: 0 <= c < |nodes| ==> b.columnLabels[c] == Some(nodes[c].identifier) && cn[c] == Some(nodes[c]))
    && (forall r, c :: 0 <= r < |conds| && 0 <= c < |nodes| ==> b.matrix[r, c] == table[c][r])
  }

  /**
   * Lines 300-356: allocate the table for the kept nodes and lay it out,
   * the nodes as rows, or as columns when transposed.
   */
  method LayOut(nodeList: seq<Node>, conds: seq<string>, nodeCondMap: map<Node, map<string, Option<real>>>, transpose: bool,
                ghost table: seq<seq<Option<real>>>)
    returns (b: BaseMatrix, rn: array?<Option<Node>>, cn: array?<Option<Node>>)
    requires |KeptNodes(nodeList, nodeCondMap.Keys)| == |nodeCondMap|
    requires |table| == |nodeCondMap| && forall r :: 0 <= r < |table| ==> |table[r]| == |conds|
    requires var kept := KeptNodes(nodeList, nodeCondMap.Keys);
      forall r, c :: 0 <= r < |kept| && 0 <= c < |conds| ==> Entry(nodeCondMap, kept[r], conds[c]) == table[r][c]
    ensures fresh(b) && fresh(b.matrix) && fresh(b.rowLabels) && fresh(b.columnLabels) && b.Valid()
    ensures rn != null ==> fresh(rn)
    ensures cn != null ==> fresh(cn)
    ensures b.colWeights == null && b.rowWeights == null
    ensures b.transpose == transpose && !b.symmetrical && b.maxAttribute == 0.0
    ensures !transpose ==> RowLayout(b, rn, cn, KeptNodes(nodeList, nodeCondMap.Keys), conds, table)
    ensures transpose ==> ColumnLayout(b, rn, cn, KeptNodes(nodeList, nodeCondMap.Keys), conds, table)
  {
    rn, cn := null, null;
    if transpose {
      b := new BaseMatrix.Unweighted(|conds|, |nodeCondMap|);
      cn := new Option<Node>[|nodeCondMap|](_ => None);
      LayoutColumns(b.matrix, b.rowLabels, b.columnLabels, cn, nodeList, conds, nodeCondMap);
    } else {
      b := new BaseMatrix.Unweighted(|nodeCondMap|, |conds|);
      rn := new Option<Node>[|nodeCondMap|](_ => None);
      LayoutRows(b.matrix, b.rowLabels, b.columnLabels, rn, nodeList, conds, nodeCondMap);
    }
    b.transpose := transpose;
  }

  /**
   * Lines 86-89 and 260-298, before the table is allocated: the condition
   * names, the sorted node list and `nodeCondMap`. The kept nodes are those
   * of the input that pass the keep rule, each once, in identifier order,
   * and there are as many as `nodeCondMap` has entries.
   */
  method Prepare(weightAttributes: seq<string>, nodeList: seq<Node>, attrs: NodeAttributes, ignoreMissing: bool)
    returns (conds: seq<string>, sorted: seq<Node>, nodeCondMap: map<Node, map<string, Option<real>>>)
    requires forall i :: 0 <= i < |weightAttributes| ==> |weightAttributes[i]| >= |NodePrefix|
    requires Distinct(Ids(nodeList))
    ensures conds == Stripped(weightAttributes)
    ensures var kept := KeptNodes(sorted, nodeCondMap.Keys);
      && |kept| == |nodeCondMap|
      && (forall n :: n in kept <==> n in nodeList && Kept(attrs, n, conds, ignoreMissing))
      && Distinct(kept) && SortedBy(Ids(kept), LexLe)
    ensures var kept := KeptNodes(sorted, nodeCondMap.Keys);
      var table := Table(attrs, kept, conds, ignoreMissing);
      forall r, c :: 0 <= r < |kept| && 0 <= c < |conds| ==> Entry(nodeCondMap, kept[r], conds[c]) == table[r][c]
  {
    var attributeArray := StripPrefixes(weightAttributes);
    conds := attributeArray[..];
    sorted := SortNodeList(nodeList);
    SortPermutes(nodeList, sorted);
    nodeCondMap := BuildConditionMaps(attrs, sorted, conds, ignoreMissing);
    LayoutIsTable(attrs, sorted, conds, ignoreMissing);
    KeptCount(sorted, nodeCondMap.Keys);
    KeptSorted(sorted, nodeCondMap.Keys);
    assert nodeCondMap.Keys * Members(sorted) == nodeCondMap.Keys;
  }

  // ---------------------------------------------------------------------
  // Copying (the copy constructor, lines 104-143)
  // ---------------------------------------------------------------------

  /** Copies an array element by element into another of the same length. */
  method CopyArray<T>(src: array<T>, dst: array<T>)
    requires src.Length == dst.Length
    modifies dst
    ensures dst[..] == old(src[..])
  {
    for i := 0 to src.Length
      invariant forall k :: 0 <= k < i ==> dst[k] == old(src[k])
      invariant forall k :: i <= k < src.Length ==> src[k] == old(src[k])
    {
      dst[i] := src[i];
    }
  }

  /** The cell copy of lines 138-139 for one row: only the values that are present are written. */
  method CopyRowCells(src: array2<Option<real>>, dst: array2<Option<real>>, row: nat)
    requires src != dst && src.Length0 == dst.Length0 && src.Length1 == dst.Length1 && row < src.Length0
    requires forall c :: 0 <= c < dst.Length1 ==> dst[row, c] == None
    modifies dst
    ensures forall c :: 0 <= c < dst.Length1 ==> dst[row, c] == src[row, c]
    ensures forall r, c :: 0 <= r < dst.Length0 && r != row && 0 <= c < dst.Length1 ==> dst[r, c] == old(dst[r, c])
  {
    for col := 0 to src.Length1
      invariant forall c :: 0 <= c < dst.Length1 ==> dst[row, c] == if c < col then src[row, c] else None
      invariant forall r, c :: 0 <= r < dst.Length0 && r != row && 0 <= c < dst.Length1 ==> dst[r, c] == old(dst[r, c])
    {
      if src[row, col].Some? {
        dst[row, col] := src[row, col];
      }
    }
  }

  /** The cell copy of the copy constructor: a table with every cell missing becomes a copy of the source. */
  method CopyCells(src: array2<Option<real>>, dst: array2<Option<real>>)
    requires src != dst && src.Length0 == dst.Length0 && src.Length1 == dst.Length1
    requires forall r, c :: 0 <= r < dst.Length0 && 0 <= c < dst.Length1 ==> dst[r, c] == None
    modifies dst
    ensures forall r, c :: 0 <= r < dst.Length0 && 0 <= c < dst.Length1 ==> dst[r, c] == src[r, c]
  {
    for row := 0 to src.Length0
      invariant forall r, c :: 0 <= r < row && 0 <= c < dst.Length1 ==> dst[r, c] == src[r, c]
      invariant forall r, c :: row <= r < dst.Length0 && 0 <= c < dst.Length1 ==> dst[r, c] == None
    {
      CopyRowCells(src, dst, row);
    }
  }

  /** No array of `b` is an array of `d`. */
  ghost predicate SeparateStorage(b: BaseMatrix, d: BaseMatrix)
    reads b, d
  {
    && b.matrix != d.matrix
    && b.rowWeights != d.rowWeights && b.rowWeights != d.colWeights
    && b.colWeights != d.rowWeights && b.colWeights != d.colWeights
    && b.rowLabels != d.rowLabels && b.rowLabels != d.columnLabels
    && b.columnLabels != d.rowLabels && b.columnLabels != d.columnLabels
  }

  /**
   * `b` holds `d`'s cells, row weights and row labels, and its column
   * weights and labels when there is a row; 0.0 and null otherwise.
   */
  ghost predicate ValuesCopied(b: BaseMatrix, d: BaseMatrix)
    reads b, b.matrix, b.rowWeights, b.colWeights, b.rowLabels, b.columnLabels
    reads d, d.matrix, d.rowWeights, d.colWeights, d.rowLabels, d.columnLabels
    requires b.Valid() && d.Valid() && b.nRows == d.nRows && b.nColumns == d.nColumns
    requires b.rowWeights != null && b.colWeights != null
    requires d.nRows > 0 ==> d.rowWeights != null
    requires d.nRows > 0 && d.nColumns > 0 ==> d.colWeights != null
  {
    && (forall r, c :: 0 <= r < b.nRows && 0 <= c < b.nColumns ==> b.matrix[r, c] == d.matrix[r, c])
    && (forall r :: 0 <= r < b.nRows ==> b.rowWeights[r] == d.rowWeights[r] && b.rowLabels[r] == d.rowLabels[r])
    && (forall c :: 0 <= c < b.nColumns ==>
          b.colWeights[c] == (if b.nRows > 0 then d.colWeights[c] else 0.0) &&
          b.columnLabels[c] == (if b.nRows > 0 then d.columnLabels[c] else None))
  }

  /**
   * The `BaseMatrix` part of the copy constructor's loop (lines 130-141):
   * cells, row weights and labels for every row, column weights and labels
   * during the first row.
   */
  method CopyBaseValues(d: BaseMatrix, b: BaseMatrix)
    requires d.Valid() && b.Valid() && b.nRows == d.nRows && b.nColumns == d.nColumns
    requires d.nRows > 0 ==> d.rowWeights != null
    requires d.nRows > 0 && d.nColumns > 0 ==> d.colWeights != null
    requires b.rowWeights != null && b.colWeights != null
    requires b.rowWeights != b.colWeights && b.rowLabels != b.columnLabels
    requires SeparateStorage(b, d)
    requires forall r, c :: 0 <= r < b.nRows && 0 <= c < b.nColumns ==> b.matrix[r, c] == None
    requires forall c :: 0 <= c < b.nColumns ==> b.colWeights[c] == 0.0 && b.columnLabels[c] == None
    modifies b.matrix, b.rowWeights, b.colWeights, b.rowLabels, b.columnLabels
    ensures ValuesCopied(b, d)
  {
    CopyCells(d.matrix, b.matrix);
    if d.nRows > 0 {
      CopyArray(d.rowWeights, b.rowWeights);
      CopyArray(d.rowLabels, b.rowLabels);
      if d.nColumns > 0 {
        CopyArray(d.colWeights, b.colWeights);
      }
      CopyArray(d.columnLabels, b.columnLabels);
    }
  }

  /**
   * The `BaseMatrix` a copy gets (lines 105-111, 124 and 127-141): fresh storage
   * of the same sizes, holding `d`'s values as `ValuesCopied` says, with its
   * transpose flag and the other flags at their defaults.
   */
  method CopyBase(d: BaseMatrix) returns (b: BaseMatrix)
    requires d.Valid()
    requires d.nRows > 0 ==> d.rowWeights != null
    requires d.nRows > 0 && d.nColumns > 0 ==> d.colWeights != null
    ensures b.Valid() && fresh(b) && fresh(b.matrix) && fresh(b.rowLabels) && fresh(b.columnLabels)
    ensures b.nRows == d.nRows && b.nColumns == d.nColumns
    ensures b.rowWeights != null && b.colWeights != null && fresh(b.rowWeights) && fresh(b.colWeights)
    ensures ValuesCopied(b, d)
    ensures b.transpose == d.transpose && !b.symmetrical && b.maxAttribute == 0.0
  {
    b := new BaseMatrix.Blank(d.nRows, d.nColumns);
    b.transpose := d.transpose;
    CopyBaseValues(d, b);
  }

  // ---------------------------------------------------------------------
  // The class
  // ---------------------------------------------------------------------

  class Matrix {
    /** The `BaseMatrix` part: sizes, cells, weights, labels and flags. */
    var base: BaseMatrix
    /** The node of each row (null unless the nodes are the rows). */
    var rowNodes: array?<Option<Node>>
    /** The node of each column (null unless the nodes are the columns). */
    var columnNodes: array?<Option<Node>>
    var ignoreMissing: bool
    var selectedOnly: bool
    /** The nodes in the order the gene-array layout placed them. */
    ghost var layoutNodes: seq<Node>

    ghost predicate Valid()
      reads this, base
    {
      && base.Valid()
      && (rowNodes != null ==> rowNodes.Length == base.nRows)
      && (columnNodes != null ==> columnNodes.Length == base.nColumns)
    }

    /** `getRowNode` (lines 162-166). */
    function GetRowNode(row: int): Option<Node>
      reads this, rowNodes
      requires rowNodes != null ==> 0 <= row < rowNodes.Length
    {
      if rowNodes != null then rowNodes[row] else None
    }

    /** `getColNode` (lines 168-172). */
    function GetColNode(col: int): Option<Node>
      reads this, columnNodes
      requires columnNodes != null ==> 0 <= col < columnNodes.Length
    {
      if columnNodes != null then columnNodes[col] else None
    }

    /**
     * `Matrix(rows, cols)` (lines 145-160): every cell missing, every label
     * null, every weight 0.0, no nodes, every flag false.
     */
    constructor(rows: nat, cols: nat)
      ensures Valid() && fresh(base) && fresh(base.matrix) && fresh(base.rowLabels) && fresh(base.columnLabels)
      ensures base.nRows == rows && base.nColumns == cols
      ensures forall r, c :: 0 <= r < rows && 0 <= c < cols ==> base.matrix[r, c] == None
      ensures fresh(base.rowWeights) && fresh(base.colWeights)
      ensures base.rowWeights != null && forall r :: 0 <= r < rows ==> base.rowWeights[r] == 0.0
      ensures base.colWeights != null && forall c :: 0 <= c < cols ==> base.colWeights[c] == 0.0
      ensures forall r :: 0 <= r < rows ==> base.rowLabels[r] == None
      ensures forall c :: 0 <= c < cols ==> base.columnLabels[c] == None
      ensures rowNodes == null && columnNodes == null
      ensures !base.transpose && !base.symmetrical && base.maxAttribute == 0.0 && !ignoreMissing && !selectedOnly
    {
      base := new BaseMatrix.Blank(rows, cols);
      rowNodes, columnNodes := null, null;
      ignoreMissing, selectedOnly := false, false;
      layoutNodes := [];
    }

    /**
     * The node arrays of a copy (lines 121-126, 131-132 and 136-137): row
     * nodes when this matrix has a first row node, column nodes otherwise;
     * column nodes are filled only when there is a row.
     */
    method CopyNodes() returns (rn: array?<Option<Node>>, cn: array?<Option<Node>>)
      requires Valid()
      requires rowNodes != null ==> base.nRows > 0
      ensures rn != null ==> fresh(rn)
      ensures cn != null ==> fresh(cn)
      ensures (rn != null <==> GetRowNode(0).Some?) && (cn != null <==> rn == null)
      ensures rn != null ==> rn.Length == base.nRows && forall r :: 0 <= r < base.nRows ==> rn[r] == GetRowNode(r)
      ensures cn != null ==> cn.Length == base.nColumns && forall c :: 0 <= c < base.nColumns ==>
        cn[c] == if base.nRows > 0 then GetColNode(c) else None
    {
      rn, cn := null, null;
      if GetRowNode(0).Some? {
        rn := new Option<Node>[base.nRows](_ => None);
        CopyArray(rowNodes, rn);
      } else {
        cn := new Option<Node>[base.nColumns](_ => None);
        if base.nRows > 0 && columnNodes != null {
          CopyArray(columnNodes, cn);
        }
      }
    }

    /**
     * `Matrix(Matrix duplicate)` (lines 104-143). The sizes, cells, row
     * weights, row labels and flags are copied. Column weights, labels and
     * nodes are copied inside the first row's pass, so a duplicate with no
     * rows gives 0.0 and null for them. Node storage follows the
     * duplicate's first row node: rows when it has one, columns otherwise.
     * `maxAttribute` and `symmetrical` are not copied.
     */
    constructor Copy(duplicate: Matrix)
      requires duplicate.Valid()
      requires duplicate.rowNodes != null ==> duplicate.base.nRows > 0
      requires duplicate.base.nRows > 0 ==> duplicate.base.rowWeights != null
      requires duplicate.base.nRows > 0 && duplicate.base.nColumns > 0 ==> duplicate.base.colWeights != null
      ensures Valid() && fresh(base) && fresh(base.matrix) && fresh(base.rowLabels) && fresh(base.columnLabels)
      ensures base.nRows == duplicate.base.nRows && base.nColumns == duplicate.base.nColumns
      ensures base.rowWeights != null && base.colWeights != null && fresh(base.rowWeights) && fresh(base.colWeights)
      ensures rowNodes != null ==> fresh(rowNodes)
      ensures columnNodes != null ==> fresh(columnNodes)
      ensures ValuesCopied(base, duplicate.base)
      ensures (rowNodes != null <==> duplicate.GetRowNode(0).Some?) && (columnNodes != null <==> rowNodes == null)
      ensures rowNodes != null ==> forall r :: 0 <= r < base.nRows ==> rowNodes[r] == duplicate.GetRowNode(r)
      ensures columnNodes != null ==> forall c :: 0 <= c < base.nColumns ==>
        columnNodes[c] == if base.nRows > 0 then duplicate.GetColNode(c) else None
      ensures base.transpose == duplicate.base.transpose
      ensures ignoreMissing == duplicate.ignoreMissing && selectedOnly == duplicate.selectedOnly
      ensures !base.symmetrical && base.maxAttribute == 0.0
    {
      var rn, cn := duplicate.CopyNodes();
      var b := CopyBase(duplicate.base);
      base := b;
      rowNodes, columnNodes := rn, cn;
      ignoreMissing := duplicate.ignoreMissing;
      selectedOnly := duplicate.selectedOnly;
      layoutNodes := duplicate.layoutNodes;
    }
  
    /**
     * `Matrix(weightAttributes, transpose, ignoreMissing, selectedOnly)`
     * when the weight attributes are node attributes (lines 78-93), with
     * `buildGeneArrayMatrix` (lines 256-357). `nodeList` is the list the
     * network supplies: all its nodes, or its selected ones under
     * selectedOnly. The nodes are sorted by identifier; the kept ones, in
     * that order, become the rows, or the columns when transposed, of the
     * table of their condition maps.
     */
    constructor GeneArray(weightAttributes: seq<string>, nodeList: seq<Node>, attrs: NodeAttributes,
                          transpose: bool, ignoreMissing: bool, selectedOnly: bool)
      requires |weightAttributes| >= 1 && NodePrefix <= weightAttributes[0]
      requires forall i :: 0 <= i < |weightAttributes| ==> |weightAttributes[i]| >= |NodePrefix|
      requires Distinct(Ids(nodeList))
      ensures Valid() && fresh(base) && fresh(base.matrix) && fresh(base.rowLabels) && fresh(base.columnLabels)
      ensures base.transpose == transpose && !base.symmetrical
      ensures base.colWeights == null && base.rowWeights == null
      ensures rowNodes != null ==> fresh(rowNodes)
      ensures columnNodes != null ==> fresh(columnNodes)
      ensures this.ignoreMissing == ignoreMissing && this.selectedOnly == selectedOnly
      ensures forall n :: n in layoutNodes <==> n in nodeList && Kept(attrs, n, Stripped(weightAttributes), ignoreMissing)
      ensures Distinct(layoutNodes) && SortedBy(Ids(layoutNodes), LexLe)
      ensures !transpose ==>
        RowLayout(base, rowNodes, columnNodes, layoutNodes, Stripped(weightAttributes),
                  Table(attrs, layoutNodes, Stripped(weightAttributes), ignoreMissing))
      ensures transpose ==>
        ColumnLayout(base, rowNodes, columnNodes, layoutNodes, Stripped(weightAttributes),
                     Table(attrs, layoutNodes, Stripped(weightAttributes), ignoreMissing))
    {
      var conds, sorted, nodeCondMap := Prepare(weightAttributes, nodeList, attrs, ignoreMissing);
      ghost var kept := KeptNodes(sorted, nodeCondMap.Keys);
      ghost var table := Table(attrs, kept, conds, ignoreMissing);
      var b, rn, cn := LayOut(sorted, conds, nodeCondMap, transpose, table);
      base := b;
      rowNodes, columnNodes := rn, cn;
      this.ignoreMissing := ignoreMissing;
      this.selectedOnly := selectedOnly;
      layoutNodes := kept;
    }
  }
}
