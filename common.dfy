/**
 * Values shared by the whole model: optional values (Java's null), results
 * (Java's exceptions), Cytoscape nodes, the two double constants the source
 * uses as sentinels, and Java's truncating integer division.
 */
module Common {

  /** A possibly absent value: `None` stands for Java's `null`. */
  datatype Option<+T> = None | Some(value: T)

  /** The outcome of an operation that may throw. */
  datatype Result<+T, +E> = Ok(value: T) | Err(error: E)

  /**
   * A Cytoscape node. Nodes are compared by identity; two nodes may share an
   * identifier, and the root-graph index tells them apart.
   */
  datatype Node = Node(identifier: string, rootGraphIndex: int)

  /** Java's `Double.MIN_VALUE`: the smallest POSITIVE double, 2^-1074. */
  const DoubleMinValue: real := 1.0 / 202402253307310618352495346718917307049556649764142118356901358027430339567995346891960383701437124495187077864316811911389808737385793476867013399940738509921517424276566361364466907742093216341239767678472745068562007483424692698618103355649159556340810056512358769552333414615230502532186327508646006263307707741093494784.0

  /** Java's `Double.MAX_VALUE`: (2^53 - 1) * 2^971. */
  const DoubleMaxValue: real := 179769313486231570814527423731704356798070567525844996598917476803157260780028538760589558632766878171540458953514382464234321326889464182768467546703537516986049910576551282076245490090389328944075868508455133942304583236903222948165808559332123348274797826204144723168738177180919299881250404026184124858368.0

  function Abs(x: int): nat { if x < 0 then -x else x }

  function MinReal(a: real, b: real): real { if a <= b then a else b }

  function MaxReal(a: real, b: real): real { if a >= b then a else b }

  /**
   * Java's `int` division of a non-negative dividend, which truncates toward
   * zero (Dafny's `/` is Euclidean and differs for a negative divisor).
   */
  function JavaDiv(a: nat, b: int): (q: int)
    requires b != 0
    ensures Abs(q) == a / Abs(b)
    ensures q == 0 || (q < 0 <==> b < 0)
    ensures q * b == a <==> a % Abs(b) == 0
  {
    var q := a / Abs(b);
    assert q * Abs(b) + a % Abs(b) == a;
    if b < 0 then
      assert -q * b == q * Abs(b);
      -q
    else q
  }

  /** True when no element occurs twice. */
  predicate Distinct<T(==)>(s: seq<T>) {
    forall i, j :: 0 <= i < j < |s| ==> s[i] != s[j]
  }
}
