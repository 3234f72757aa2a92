/**
 * The edge-weight pipeline of `DistanceMatrix`'s constructor, as functions of
 * the edge list: pass 1 extracts the chosen attribute of each edge, pass 2
 * runs the injected converter over the extracted values, pass 3 patches the
 * edges the converter mapped onto the sentinel. The constructor in module
 * Distance runs these passes as loops over an array and is proved to compute
 * exactly the values defined here.
 */
module EdgeWeights {
  import opened Common

  /** The attribute store's type for the chosen edge attribute. */
  datatype AttributeType = TypeFloating | TypeInteger | TypeOther

  /**
   * A network edge: its endpoints and the chosen attribute's value on it, when
   * the edge has one (an integer attribute's value is given as a real).
   */
  datatype Edge = Edge(source: Node, target: Node, attribute: Option<real>)

  /** The injected `EdgeWeightConverter.convert(weight, minAttribute, maxAttribute)`. */
  type Converter = (real, real, real) -> real

  /** True when pass 1 reads a number from the edge and folds it into the attribute range. */
  predicate Numeric(e: Edge, t: AttributeType) {
    e.attribute.Some? && t != TypeOther
  }

  /**
   * The value pass 1 stores for one edge: the sentinel, replaced by 1.0 for a
   * missing attribute under the "none" attribute name, or by the attribute's
   * value when the attribute is numeric.
   */
  function Extracted(e: Edge, isNone: bool, t: AttributeType): (w: real)
    ensures Numeric(e, t) ==> w == e.attribute.value
    ensures e.attribute.None? ==> w == (if isNone then 1.0 else DoubleMinValue)
    ensures e.attribute.Some? && t == TypeOther ==> w == DoubleMinValue
  {
    match e.attribute
    case None => if isNone then 1.0 else DoubleMinValue
    case Some(v) => if t == TypeOther then DoubleMinValue else v
  }

  /** The array after pass 1. */
  function Pass1(edges: seq<Edge>, isNone: bool, t: AttributeType): (w: seq<real>)
    ensures |w| == |edges|
  {
    seq(|edges|, i requires 0 <= i < |edges| => Extracted(edges[i], isNone, t))
  }

  /** `minAttribute` after pass 1: a running minimum over the numeric values, from `Double.MAX_VALUE`. */
  function MinAttribute(edges: seq<Edge>, t: AttributeType): real
    decreases |edges|
  {
    if edges == [] then DoubleMaxValue
    else
      var m := MinAttribute(edges[..|edges| - 1], t);
      var e := edges[|edges| - 1];
      if Numeric(e, t) then MinReal(m, e.attribute.value) else m
  }

  /** `maxAttribute` after pass 1: a running maximum over the numeric values, from `Double.MIN_VALUE`. */
  function MaxAttribute(edges: seq<Edge>, t: AttributeType): real
    decreases |edges|
  {
    if edges == [] then DoubleMinValue
    else
      var m := MaxAttribute(edges[..|edges| - 1], t);
      var e := edges[|edges| - 1];
      if Numeric(e, t) then MaxReal(m, e.attribute.value) else m
  }

  /** Pass 2 on one value: sentinels are skipped, every other value is converted. */
  function Converted(w: real, minA: real, maxA: real, convert: Converter): real {
    if w == DoubleMinValue then w else convert(w, minA, maxA)
  }

  /** The array after pass 2. */
  function Pass2(p1: seq<real>, minA: real, maxA: real, convert: Converter): (w: seq<real>)
    ensures |w| == |p1|
  {
    seq(|p1|, i requires 0 <= i < |p1| => Converted(p1[i], minA, maxA, convert))
  }

  /** `minWeight` after pass 2: a running minimum over the non-sentinel converted values. */
  function MinWeight(p2: seq<real>): real
    decreases |p2|
  {
    if p2 == [] then DoubleMaxValue
    else
      var m := MinWeight(p2[..|p2| - 1]);
      var w := p2[|p2| - 1];
      if w != DoubleMinValue then MinReal(m, w) else m
  }

  /** `maxWeight` after pass 2: a running maximum over the non-sentinel converted values. */
  function MaxWeight(p2: seq<real>): real
    decreases |p2|
  {
    if p2 == [] then DoubleMinValue
    else
      var m := MaxWeight(p2[..|p2| - 1]);
      var w := p2[|p2| - 1];
      if w != DoubleMinValue then MaxReal(m, w) else m
  }

  /** An edge case: a value the converter turned into the sentinel. */
  predicate IsEdgeCase(p1: seq<real>, p2: seq<real>, i: int)
    requires |p1| == |p2| && 0 <= i < |p1|
  {
    p1[i] != DoubleMinValue && p2[i] == DoubleMinValue
  }

  /** The `edgeCase` list of pass 2 after its first n iterations. */
  function EdgeCases(p1: seq<real>, p2: seq<real>, n: nat): (cases: seq<int>)
    requires |p1| == |p2| && n <= |p1|
    ensures forall k :: k in cases <==> 0 <= k < n && IsEdgeCase(p1, p2, k)
  {
    if n == 0 then []
    else EdgeCases(p1, p2, n - 1) + (if IsEdgeCase(p1, p2, n - 1) then [n - 1] else [])
  }

  /** The weight pass 3 gives every edge case. */
  function CollisionWeight(p2: seq<real>): real {
    MaxWeight(p2) + MaxWeight(p2) / 10.0
  }

  /** The array after pass 3. */
  function Pass3(p1: seq<real>, p2: seq<real>): (w: seq<real>)
    requires |p1| == |p2|
    ensures |w| == |p2|
  {
    seq(|p2|, i requires 0 <= i < |p2| => if IsEdgeCase(p1, p2, i) then CollisionWeight(p2) else p2[i])
  }

  /** The array after passes 1 and 2. */
  function ConvertedWeights(edges: seq<Edge>, isNone: bool, t: AttributeType, convert: Converter): (w: seq<real>)
    ensures |w| == |edges|
  {
    Pass2(Pass1(edges, isNone, t), MinAttribute(edges, t), MaxAttribute(edges, t), convert)
  }

  /** The whole pipeline: the final `edgeWeights` of a `DistanceMatrix`. */
  function Weights(edges: seq<Edge>, isNone: bool, t: AttributeType, convert: Converter): (w: seq<real>)
    ensures |w| == |edges|
  {
    Pass3(Pass1(edges, isNone, t), ConvertedWeights(edges, isNone, t, convert))
  }

  /**
   * An edge with no attribute (under a name other than the "none" one) or a
   * non-numeric one keeps the sentinel to the end, and the converter's
   * output never reaches it.
   */
  lemma SentinelKept(edges: seq<Edge>, isNone: bool, t: AttributeType, convert: Converter, i: int)
    requires 0 <= i < |edges|
    requires (edges[i].attribute.None? && !isNone) || (edges[i].attribute.Some? && t == TypeOther)
    ensures ConvertedWeights(edges, isNone, t, convert)[i] == DoubleMinValue
    ensures Weights(edges, isNone, t, convert)[i] == DoubleMinValue
  {
  }

  /**
   * Under the "none" attribute name a missing attribute starts at 1.0 and is
   * converted like any other weight; its final weight is the converter's
   * output, or the collision weight when that output is the sentinel.
   */
  lemma NoneAttributeConverted(edges: seq<Edge>, t: AttributeType, convert: Converter, i: int)
    requires 0 <= i < |edges| && edges[i].attribute.None?
    ensures Pass1(edges, true, t)[i] == 1.0
    ensures var c := convert(1.0, MinAttribute(edges, t), MaxAttribute(edges, t));
      var p2 := ConvertedWeights(edges, true, t, convert);
      Weights(edges, true, t, convert)[i] == if c == DoubleMinValue then CollisionWeight(p2) else c
  {
    assert 1.0 != DoubleMinValue;
  }

  /**
   * Every numeric value lies in [minAttribute, maxAttribute]; each bound is a
   * numeric value or still its initial value. Edges that are not numeric,
   * such as those given 1.0 under the "none" name, play no part.
   */
  lemma {:induction false} AttributeRange(edges: seq<Edge>, t: AttributeType)
    ensures forall i :: 0 <= i < |edges| && Numeric(edges[i], t) ==>
      MinAttribute(edges, t) <= edges[i].attribute.value <= MaxAttribute(edges, t)
    ensures MinAttribute(edges, t) == DoubleMaxValue ||
      exists i :: 0 <= i < |edges| && Numeric(edges[i], t) && edges[i].attribute.value == MinAttribute(edges, t)
    ensures MaxAttribute(edges, t) == DoubleMinValue ||
      exists i :: 0 <= i < |edges| && Numeric(edges[i], t) && edges[i].attribute.value == MaxAttribute(edges, t)
    decreases |edges|
  {
    if edges != [] {
      var n := |edges| - 1;
      var prefix := edges[..n];
      AttributeRange(prefix, t);
      assert forall i :: 0 <= i < n ==> prefix[i] == edges[i];
      if MinAttribute(edges, t) != DoubleMaxValue && MinAttribute(edges, t) != MinAttribute(prefix, t) {
        assert edges[n].attribute.value == MinAttribute(edges, t);
      }
      if MaxAttribute(edges, t) != DoubleMinValue && MaxAttribute(edges, t) != MaxAttribute(prefix, t) {
        assert edges[n].attribute.value == MaxAttribute(edges, t);
      }
    }
  }

  /**
   * Every converted value other than the sentinel lies in [minWeight,
   * maxWeight]; maxWeight is at least the sentinel, so it is positive.
   */
  lemma {:induction false} WeightRange(p2: seq<real>)
    ensures forall i :: 0 <= i < |p2| && p2[i] != DoubleMinValue ==> MinWeight(p2) <= p2[i] <= MaxWeight(p2)
    ensures MaxWeight(p2) >= DoubleMinValue > 0.0
    ensures MinWeight(p2) == DoubleMaxValue ||
      exists i :: 0 <= i < |p2| && p2[i] != DoubleMinValue && p2[i] == MinWeight(p2)
    ensures MaxWeight(p2) == DoubleMinValue ||
      exists i :: 0 <= i < |p2| && p2[i] != DoubleMinValue && p2[i] == MaxWeight(p2)
    decreases |p2|
  {
    if p2 != [] {
      var n := |p2| - 1;
      var prefix := p2[..n];
      WeightRange(prefix);
      assert forall i :: 0 <= i < n ==> prefix[i] == p2[i];
      if MinWeight(p2) != DoubleMaxValue && MinWeight(p2) != MinWeight(prefix) {
        assert p2[n] == MinWeight(p2);
      }
      if MaxWeight(p2) != DoubleMinValue && MaxWeight(p2) != MaxWeight(prefix) {
        assert p2[n] == MaxWeight(p2);
      }
    }
  }

  /**
   * An edge case ends with the final maxWeight plus a tenth, which is
   * strictly above the final weight of every edge that is not an edge case.
   */
  lemma CollisionAboveAll(p1: seq<real>, p2: seq<real>, i: int, j: int)
    requires |p1| == |p2| && 0 <= i < |p2| && 0 <= j < |p2|
    requires IsEdgeCase(p1, p2, i) && !IsEdgeCase(p1, p2, j)
    ensures Pass3(p1, p2)[i] == MaxWeight(p2) + MaxWeight(p2) / 10.0
    ensures Pass3(p1, p2)[j] < Pass3(p1, p2)[i]
  {
    WeightRange(p2);
  }

  /**
   * The final weight of every edge: the sentinel when pass 1 left it, the
   * collision weight when the converter produced the sentinel, and the
   * converted value otherwise.
   */
  lemma FinalWeight(edges: seq<Edge>, isNone: bool, t: AttributeType, convert: Converter, i: int)
    requires 0 <= i < |edges|
    ensures var p1 := Pass1(edges, isNone, t);
      var c := convert(p1[i], MinAttribute(edges, t), MaxAttribute(edges, t));
      var p2 := Pass2(p1, MinAttribute(edges, t), MaxAttribute(edges, t), convert);
      Weights(edges, isNone, t, convert)[i] ==
        if p1[i] == DoubleMinValue then DoubleMinValue
        else if c == DoubleMinValue then CollisionWeight(p2)
        else c
  {
  }
}
