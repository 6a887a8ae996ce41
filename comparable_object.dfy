/**
 * `Utils::ComparableObject` (SoftHeapCpp/Utils.h): a wrapper around a possibly
 * null pointer to a key, where a null pointer orders as +infinity.  The pointee
 * type is `int` here, the key type the soft heap and its tests use.
 */
module ComparableObject {

  /** A pointer to a key (`Ptr`) or the null pointer. */
  datatype Key = Null | Ptr(value: int)

  /** `operator==`: identical pointers are equal, a null and a non-null never are,
      otherwise the pointees are compared. */
  predicate Eq(a: Key, b: Key) {
    if a.Null? && b.Null? then true
    else if a.Null? || b.Null? then false
    else a.value == b.value
  }

  /** `operator<`: null is never less than anything; a non-null is less than null. */
  predicate Less(a: Key, b: Key) {
    if a.Null? then false
    else if b.Null? then true
    else a.value < b.value
  }

  predicate Ne(a: Key, b: Key) { !Eq(a, b) }
  predicate LessEq(a: Key, b: Key) { !Less(b, a) }
  predicate Greater(a: Key, b: Key) { Less(b, a) }
  predicate GreaterEq(a: Key, b: Key) { !Less(a, b) }

  /** Reference ordering: a key is its value, and null is above every value. */
  ghost predicate Below(a: Key, b: Key) {
    (a.Ptr? && b.Null?) || (a.Ptr? && b.Ptr? && a.value < b.value)
  }

  lemma NullIsTop(a: Key)
    ensures !Less(Key.Null, a)
    ensures a.Ptr? ==> Less(a, Key.Null)
    ensures LessEq(a, Key.Null) && GreaterEq(Key.Null, a)
  {
  }

  lemma LessAgreesWithExtendedOrder(a: Key, b: Key)
    ensures Less(a, b) <==> Below(a, b)
  {
  }

  /** Equality is structural equality of the wrapped keys (both null, or equal pointees). */
  lemma EqIsValueEquality(a: Key, b: Key)
    ensures Eq(a, b) <==> a == b
    ensures Ne(a, b) <==> a != b
  {
  }

  /** `<` is a strict total order whose incomparable pairs are exactly the equal ones. */
  lemma LessIsStrictTotalOrder(a: Key, b: Key, c: Key)
    ensures !Less(a, a)
    ensures Less(a, b) ==> !Less(b, a)
    ensures Less(a, b) && Less(b, c) ==> Less(a, c)
    ensures Less(a, b) || Less(b, a) || Eq(a, b)
  {
  }

  /** The derived operators agree with `<` and `==`. */
  lemma DerivedOperators(a: Key, b: Key)
    ensures LessEq(a, b) <==> Less(a, b) || Eq(a, b)
    ensures Greater(a, b) <==> !LessEq(a, b)
    ensures GreaterEq(a, b) <==> Greater(a, b) || Eq(a, b)
  {
  }
}
