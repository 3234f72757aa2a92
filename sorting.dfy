/**
 * Sorting as the source uses it through `java.util.Arrays.sort`: a sort of
 * an array by a total order, and the order of Java strings
 * (`String.compareTo`, comparing their UTF-16 code units lexicographically).
 */
module Sorting {
  import opened Common

  /** Any two elements compare under `le`. */
  ghost predicate Total<T(!new)>(le: (T, T) -> bool) {
    forall x, y :: le(x, y) || le(y, x)
  }

  /** `le` is a total preorder: any two elements compare, and it is transitive. */
  ghost predicate TotalPreorder<T(!new)>(le: (T, T) -> bool) {
    && Total(le)
    && (forall x, y, z :: le(x, y) && le(y, z) ==> le(x, z))
  }

  predicate SortedBy<T>(s: seq<T>, le: (T, T) -> bool) {
    forall p, q :: 0 <= p < q < |s| ==> le(s[p], s[q])
  }

  /**
   * Insertion sort by adjacent exchanges. An element moves left only past
   * elements that are strictly greater, so the sort is stable.
   */
  method InsertionSort<T(!new)>(a: array<T>, le: (T, T) -> bool)
    requires TotalPreorder(le)
    modifies a
    ensures SortedBy(a[..], le)
    ensures multiset(a[..]) == multiset(old(a[..]))
  {
    for i := 0 to a.Length
      invariant SortedBy(a[..i], le)
      invariant multiset(a[..]) == multiset(old(a[..]))
    {
      InsertLast(a, le, i);
    }
    assert a[..a.Length] == a[..];
  }

  /** One step of the insertion sort: element i moves left into the sorted prefix before it. */
  method InsertLast<T(!new)>(a: array<T>, le: (T, T) -> bool, i: int)
    requires TotalPreorder(le)
    requires 0 <= i < a.Length && SortedBy(a[..i], le)
    modifies a
    ensures SortedBy(a[..i + 1], le)
    ensures multiset(a[..]) == multiset(old(a[..]))
  {
    var j := SiftLeft(a, le, i);
    InsertedSorted(a[..], le, j, i);
  }

  /**
   * The exchanges of one insertion step: element i is swapped leftwards while
   * its left neighbour is strictly greater. It stops at j, where every pair of
   * the prefix that avoids j is ordered, the element at j is below all after
   * it, and the one before it (if any) is below it.
   */
  method SiftLeft<T(!new)>(a: array<T>, le: (T, T) -> bool, i: int) returns (j: int)
    requires Total(le)
    requires 0 <= i < a.Length && SortedBy(a[..i], le)
    modifies a
    ensures 0 <= j <= i
    ensures forall p, q :: 0 <= p < q <= i && p != j && q != j ==> le(a[p], a[q])
    ensures forall q :: j < q <= i ==> le(a[j], a[q])
    ensures j == 0 || le(a[j - 1], a[j])
    ensures multiset(a[..]) == multiset(old(a[..]))
  {
    j := i;
    while j > 0 && !le(a[j - 1], a[j])
      invariant 0 <= j <= i
      invariant forall p, q :: 0 <= p < q <= i && p != j && q != j ==> le(a[p], a[q])
      invariant forall q :: j < q <= i ==> le(a[j], a[q])
      invariant multiset(a[..]) == multiset(old(a[..]))
    {
      a[j - 1], a[j] := a[j], a[j - 1];
      j := j - 1;
    }
  }

  /**
   * Where the inserted element stops, the prefix is sorted: the pairs that
   * avoid it were ordered, it is below everything after it, and the element
   * before it is below it.
   */
  lemma InsertedSorted<T(!new)>(s: seq<T>, le: (T, T) -> bool, j: int, i: int)
    requires TotalPreorder(le)
    requires 0 <= j <= i < |s|
    requires forall p, q :: 0 <= p < q <= i && p != j && q != j ==> le(s[p], s[q])
    requires forall q :: j < q <= i ==> le(s[j], s[q])
    requires j == 0 || le(s[j - 1], s[j])
    ensures SortedBy(s[..i + 1], le)
  {
    forall p, q | 0 <= p < q <= i ensures le(s[p], s[q]) {
      if q == j {
        assert le(s[p], s[j - 1]) || p == j - 1;
      }
    }
  }

  /** In a list without repetitions every element occurs at most once. */
  lemma {:induction false} AtMostOnce<T>(s: seq<T>, x: T)
    requires Distinct(s)
    ensures multiset(s)[x] <= 1
    decreases |s|
  {
    if s != [] {
      var p := s[..|s| - 1];
      assert s == p + [s[|s| - 1]];
      AtMostOnce(p, x);
      if x == s[|s| - 1] {
        assert x !in p;
      }
    }
  }

  /** An element at two positions occurs at least twice. */
  lemma Twice<T>(s: seq<T>, q1: int, q2: int)
    requires 0 <= q1 < q2 < |s| && s[q1] == s[q2]
    ensures multiset(s)[s[q1]] >= 2
  {
    assert s == s[..q2] + s[q2..];
    assert s[q1] in s[..q2];
    assert s[q2] == s[q2..][0];
  }

  /** Rearranging a list without repetitions gives a list without repetitions. */
  lemma DistinctRearranged<T>(a: seq<T>, b: seq<T>)
    requires multiset(a) == multiset(b) && Distinct(b)
    ensures Distinct(a)
  {
    forall q1, q2 | 0 <= q1 < q2 < |a| ensures a[q1] != a[q2] {
      if a[q1] == a[q2] {
        Twice(a, q1, q2);
        AtMostOnce(b, a[q1]);
        assert false;
      }
    }
  }

  /**
   * The UTF-16 code units of one character, as a Java string stores it: the
   * character itself below 0x10000, otherwise a high surrogate followed by
   * a low surrogate that together give the character back.
   */
  function CodeUnits(c: char): (u: seq<int>)
    ensures |u| == if c as int < 0x1_0000 then 1 else 2
    ensures forall k :: 0 <= k < |u| ==> 0 <= u[k] < 0x1_0000
    ensures c as int < 0x1_0000 ==> u[0] == c as int && !(0xD800 <= u[0] < 0xDC00)
    ensures c as int >= 0x1_0000 ==>
      && 0xD800 <= u[0] < 0xDC00 && 0xDC00 <= u[1] < 0xE000
      && c as int == 0x1_0000 + (u[0] - 0xD800) * 0x400 + (u[1] - 0xDC00)
  {
    if c as int < 0x1_0000 then [c as int]
    else
      var v := c as int - 0x1_0000;
      [0xD800 + v / 0x400, 0xDC00 + v % 0x400]
  }

  /** The UTF-16 code units of a string, character after character. */
  function Utf16(s: string): (u: seq<int>)
    ensures |s| <= |u| <= 2 * |s|
  {
    if s == [] then [] else CodeUnits(s[0]) + Utf16(s[1..])
  }

  /** Two strings with the same code units are the same string. */
  lemma {:induction false} Utf16Injective(a: string, b: string)
    requires Utf16(a) == Utf16(b)
    ensures a == b
    decreases |a|
  {
    if a != [] && b != [] {
      var ua, ub := CodeUnits(a[0]), CodeUnits(b[0]);
      assert Utf16(a)[0] == ua[0] && Utf16(b)[0] == ub[0];
      assert |ua| == |ub|;
      assert ua == Utf16(a)[..|ua|] && ub == Utf16(b)[..|ub|];
      assert a[0] as int == b[0] as int;
      assert Utf16(a[1..]) == Utf16(a)[|ua|..] == Utf16(b)[|ub|..] == Utf16(b[1..]);
      Utf16Injective(a[1..], b[1..]);
      assert a == [a[0]] + a[1..] && b == [b[0]] + b[1..];
    }
  }

  /** The code units of a concatenation are those of its parts, one after the other. */
  lemma {:induction false} Utf16Append(a: string, b: string)
    ensures Utf16(a + b) == Utf16(a) + Utf16(b)
    decreases |a|
  {
    if a == [] {
      assert a + b == b;
    } else {
      assert (a + b)[1..] == a[1..] + b;
      Utf16Append(a[1..], b);
    }
  }

  /** A string of characters below U+10000 has one code unit per character. */
  lemma {:induction false} Utf16Bmp(s: string)
    requires forall k :: 0 <= k < |s| ==> s[k] as int < 0x1_0000
    ensures |Utf16(s)| == |s|
    decreases |s|
  {
    if s != [] {
      Utf16Bmp(s[1..]);
    }
  }

  /** Lexicographic order on code-unit sequences, a proper prefix first. */
  predicate UnitsLe(a: seq<int>, b: seq<int>)
    decreases |a|
  {
    if a == [] then true
    else if b == [] then false
    else if a[0] != b[0] then a[0] < b[0]
    else UnitsLe(a[1..], b[1..])
  }

  /**
   * Java's `a.compareTo(b) <= 0`: the code units of the two strings compared
   * lexicographically, a proper prefix first.
   */
  predicate LexLe(a: string, b: string) {
    UnitsLe(Utf16(a), Utf16(b))
  }

  lemma {:induction false} UnitsLeTotal(a: seq<int>, b: seq<int>)
    ensures UnitsLe(a, b) || UnitsLe(b, a)
    decreases |a|
  {
    if a != [] && b != [] && a[0] == b[0] {
      UnitsLeTotal(a[1..], b[1..]);
    }
  }

  lemma {:induction false} UnitsLeTransitive(a: seq<int>, b: seq<int>, c: seq<int>)
    requires UnitsLe(a, b) && UnitsLe(b, c)
    ensures UnitsLe(a, c)
    decreases |a|
  {
    if a != [] && b != [] && c != [] && a[0] == b[0] && b[0] == c[0] {
      UnitsLeTransitive(a[1..], b[1..], c[1..]);
    }
  }

  lemma {:induction false} UnitsLeAntisymmetric(a: seq<int>, b: seq<int>)
    requires UnitsLe(a, b) && UnitsLe(b, a)
    ensures a == b
    decreases |a|
  {
    if a != [] && b != [] {
      UnitsLeAntisymmetric(a[1..], b[1..]);
      assert a == [a[0]] + a[1..] && b == [b[0]] + b[1..];
    }
  }

  lemma LexLeTotal(a: string, b: string)
    ensures LexLe(a, b) || LexLe(b, a)
  {
    UnitsLeTotal(Utf16(a), Utf16(b));
  }

  lemma LexLeTransitive(a: string, b: string, c: string)
    requires LexLe(a, b) && LexLe(b, c)
    ensures LexLe(a, c)
  {
    UnitsLeTransitive(Utf16(a), Utf16(b), Utf16(c));
  }

  lemma LexLeAntisymmetric(a: string, b: string)
    requires LexLe(a, b) && LexLe(b, a)
    ensures a == b
  {
    UnitsLeAntisymmetric(Utf16(a), Utf16(b));
    Utf16Injective(a, b);
  }

  /**
   * The order is by code unit, not by character: U+10000 (stored as the
   * surrogates 0xD800 0xDC00) sorts before U+E000.
   */
  lemma SurrogatesFirst()
    ensures LexLe("\U{10000}", "\U{E000}") && !LexLe("\U{E000}", "\U{10000}")
  {
    assert Utf16("\U{10000}") == [0xD800, 0xDC00];
    assert Utf16("\U{E000}") == [0xE000];
  }

  lemma LexLeIsTotalPreorder()
    ensures TotalPreorder(LexLe)
  {
    forall x, y ensures LexLe(x, y) || LexLe(y, x) {
      LexLeTotal(x, y);
    }
    forall x, y, z | LexLe(x, y) && LexLe(y, z) ensures LexLe(x, z) {
      LexLeTransitive(x, y, z);
    }
  }
}
