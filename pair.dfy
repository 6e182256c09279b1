/**
  The two small immutable value types of the XSLT implementation
  (namespace System.Xml.Xsl): Int32Pair, a pair of `int`s with structural
  equality and a combined hash code, and StringPair, a pair of strings that
  only gives its two components back.
 */
module Xsl {

  import opened Wrappers
  import opened Int32

  /**
    What the `object?` argument of Equals can hold, as far as Int32Pair.Equals
    tells values apart: null, a boxed Int32Pair, and values of other types
    (a boxed StringPair or `int` among them, and anything else).
   */
  datatype Obj =
    | Null
    | BoxedInt32Pair(int32Pair: Int32Pair)
    | BoxedStringPair(stringPair: StringPair)
    | BoxedInt32(int32Value: int32)
    | OtherObject

  /** A pair of `int`s; both are fixed by the constructor, which accepts any two. */
  datatype Int32Pair = Int32Pair(left: int32, right: int32) {

    function Left(): (l: int32)
    {
      left
    }

    function Right(): (r: int32)
    {
      right
    }

    /** Equals(object?): only a boxed Int32Pair can be equal, and only one with both fields the same. */
    function Equals(other: Obj): (r: bool)
      ensures r <==> other == BoxedInt32Pair(this)
    {
      match other
      case BoxedInt32Pair(o) => left == o.left && right == o.right
      case _ => false
    }

    /**
      GetHashCode(): the `^` of the components' own hash codes. Because an `int`
      is its own hash code, the hash is zero exactly when the components are
      equal, is negative exactly when their signs differ, and gives either
      component back when combined with the other by `^`.
     */
    function GetHashCode(): (h: int32)
      ensures h == 0 <==> left == right
      ensures h < 0 <==> (left < 0) != (right < 0)
      ensures Xor(h, right) == left && Xor(h, left) == right
    {
      var l, r := Int32.GetHashCode(left), Int32.GetHashCode(right);
      XorZeroIff(l, r);
      XorSign(l, r);
      XorCancel(l, r);
      XorCommutes(l, r);
      XorCancel(r, l);
      Xor(l, r)
    }
  }

  /** A pair of strings, either of which may be null; both are fixed by the constructor. */
  datatype StringPair = StringPair(left: Option<string>, right: Option<string>) {

    function Left(): (l: Option<string>)
    {
      left
    }

    function Right(): (r: Option<string>)
    {
      right
    }
  }

  /** Constructing an Int32Pair never fails, and its accessors give back what it was built from. */
  lemma Int32PairAccessors(a: int32, b: int32)
    ensures Int32Pair(a, b).Left() == a && Int32Pair(a, b).Right() == b
  {
  }

  /** Between two Int32Pairs, Equals is componentwise equality of what the accessors return. */
  lemma EqualsComponentwise(p: Int32Pair, q: Int32Pair)
    ensures p.Equals(BoxedInt32Pair(q)) <==> p.Left() == q.Left() && p.Right() == q.Right()
  {
  }

  /** Null and every value that is not an Int32Pair compare unequal, whatever they hold. */
  lemma EqualsRejectsOtherValues(p: Int32Pair, other: Obj)
    requires !other.BoxedInt32Pair?
    ensures !p.Equals(other)
  {
  }

  /** On Int32Pair arguments, Equals is reflexive, symmetric and transitive. */
  lemma EqualsIsEquivalence()
    ensures forall p: Int32Pair :: p.Equals(BoxedInt32Pair(p))
    ensures forall p: Int32Pair, q: Int32Pair ::
      p.Equals(BoxedInt32Pair(q)) <==> q.Equals(BoxedInt32Pair(p))
    ensures forall p: Int32Pair, q: Int32Pair, s: Int32Pair ::
      p.Equals(BoxedInt32Pair(q)) && q.Equals(BoxedInt32Pair(s)) ==> p.Equals(BoxedInt32Pair(s))
  {
  }

  /** Whatever Equals accepts is a boxed Int32Pair with the same hash code. */
  lemma EqualsAgreesWithHash(p: Int32Pair, other: Obj)
    requires p.Equals(other)
    ensures other.BoxedInt32Pair? && other.int32Pair.GetHashCode() == p.GetHashCode()
  {
  }

  /**
    The hash ignores the order of the components, while Equals does not: a pair
    and its swap collide whenever their components differ.
   */
  lemma HashIgnoresOrder(a: int32, b: int32)
    ensures Int32Pair(a, b).GetHashCode() == Int32Pair(b, a).GetHashCode()
    ensures Int32Pair(a, b).Equals(BoxedInt32Pair(Int32Pair(b, a))) <==> a == b
  {
    XorCommutes(a, b);
  }

  /** A pair whose components are the same value hashes to zero. */
  lemma HashOfEqualComponents(a: int32)
    ensures Int32Pair(a, a).GetHashCode() == 0
  {
  }

  /** A pair with one zero component hashes to its other component. */
  lemma HashWithZeroComponent(a: int32)
    ensures Int32Pair(a, 0).GetHashCode() == a && Int32Pair(0, a).GetHashCode() == a
  {
    XorZero(a);
    XorCommutes(a, 0);
  }

  /** Constructing a StringPair never fails, and it keeps both strings as given, null and empty ones included. */
  lemma StringPairAccessors(s: Option<string>, t: Option<string>)
    ensures StringPair(s, t).Left() == s && StringPair(s, t).Right() == t
  {
  }
}
