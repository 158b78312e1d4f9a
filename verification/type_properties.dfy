/** Properties of the type representation: fixed layouts, re-qualification and equality. */
module TypeProperties {
  import opened Wrappers
  import opened Types

  /** The basic variants take the fixed size/alignment pairs of the 32-bit target;
      double is 8 bytes but only 4-aligned. */
  lemma BasicLayouts(c: bool, v: bool)
    ensures TVoid(c, v).SizeOf() == 0 && TVoid(c, v).Alignment() == 0
    ensures TChar(c, v).SizeOf() == 1 && TChar(c, v).Alignment() == 1
    ensures TUChar(c, v).SizeOf() == 1 && TUChar(c, v).Alignment() == 1
    ensures TShort(c, v).SizeOf() == 2 && TShort(c, v).Alignment() == 2
    ensures TUShort(c, v).SizeOf() == 2 && TUShort(c, v).Alignment() == 2
    ensures TLong(c, v).SizeOf() == 4 && TLong(c, v).Alignment() == 4
    ensures TULong(c, v).SizeOf() == 4 && TULong(c, v).Alignment() == 4
    ensures TFloat(c, v).SizeOf() == 4 && TFloat(c, v).Alignment() == 4
    ensures TDouble(c, v).SizeOf() == 8 && TDouble(c, v).Alignment() == 4
    ensures forall r: ExprType :: TPointer(r, c, v).SizeOf() == 4 && TPointer(r, c, v).Alignment() == 4
  {
  }

  /** A complete array is as large as its elements together and aligned like one element;
      an incomplete array has size 0, the element's alignment and, as written, kind ARRAY. */
  lemma ArrayLayouts(e: ExprType, n: int, c: bool, v: bool)
    ensures TArray(e, n, c, v).SizeOf() == e.SizeOf() * n
    ensures TArray(e, n, c, v).Alignment() == e.Alignment()
    ensures TIncompleteArray(e, c, v).SizeOf() == 0
    ensures TIncompleteArray(e, c, v).Alignment() == e.Alignment()
    ensures TIncompleteArray(e, c, v).KindOf() == Array
  {
  }

  /** Integral types are arithmetic and arithmetic types scalar; pointers are scalar but
      not arithmetic; float and double are arithmetic but not integral; void, arrays,
      aggregates and functions are none of these. */
  lemma Classification(t: ExprType)
    ensures t.IsIntegral() ==> t.IsArith()
    ensures t.IsArith() ==> t.IsScalar()
    ensures t.TPointer? ==> t.IsScalar() && !t.IsArith()
    ensures (t.TFloat? || t.TDouble?) ==> t.IsArith() && !t.IsIntegral()
    ensures (t.TVoid? || t.TArray? || t.TIncompleteArray? || t.TStruct? || t.TIncompleteStruct?
             || t.TUnion? || t.TIncompleteUnion? || t.TFunction?) ==> !t.IsScalar()
  {
  }

  /** An arithmetic type equals another type exactly when the other has the same kind,
      whatever the qualifiers. */
  lemma ArithEqualIffSameKind(a: ExprType, b: ExprType)
    requires a.IsArith()
    ensures EqualType(a, b) == Some(true) <==> b.IsArith() && a.KindOf() == b.KindOf()
    ensures EqualType(a, b).Some?
  {
  }

  /** Re-qualifying a re-qualified type is the same as re-qualifying the original, and
      re-qualifying with a type's own flags gives the type back. */
  lemma RequalifyComposes(t: ExprType, c: bool, v: bool, c2: bool, v2: bool)
    requires GetQualifiedType(t, c, v).Some?
    ensures GetQualifiedType(GetQualifiedType(t, c, v).value, c2, v2) == GetQualifiedType(t, c2, v2)
    ensures GetQualifiedType(t, t.IsConst(), t.IsVolatile()) == Some(t)
  {
  }

  /** Equality does not look at qualifiers, on either side. */
  lemma EqualTypeIgnoresQualifiers(a: ExprType, b: ExprType, c: bool, v: bool)
    requires GetQualifiedType(a, c, v).Some?
    ensures EqualType(GetQualifiedType(a, c, v).value, b) == EqualType(a, b)
    ensures EqualType(b, GetQualifiedType(a, c, v).value) == EqualType(b, a)
  {
  }

  /** Void, incomplete arrays, aggregates and functions are equal to nothing, not even
      themselves. */
  lemma NeverEqual(t: ExprType, u: ExprType)
    requires t.TVoid? || t.TIncompleteArray? || t.TStruct? || t.TIncompleteStruct?
          || t.TUnion? || t.TIncompleteUnion? || t.TFunction?
    ensures EqualType(t, u) == Some(false)
  {
  }

  /** A type equals itself exactly when it is built from arithmetic types by pointer and
      complete-array derivation. */
  lemma {:induction false} EqualSelfIffComparable(t: ExprType)
    ensures EqualType(t, t) == Some(Comparable(t))
    decreases t
  {
    match t
    case TPointer(r, _, _) => EqualSelfIffComparable(r);
    case TArray(e, _, _, _) => EqualSelfIffComparable(e);
    case _ =>
  }

  /** Complete arrays compare their element types only: the element counts play no part. */
  lemma ArrayCountIgnored(e: ExprType, n: int, m: int, c: bool, v: bool, c2: bool, v2: bool)
    ensures EqualType(TArray(e, n, c, v), TArray(e, m, c2, v2)) == Some(Comparable(e))
  {
    EqualSelfIffComparable(e);
  }

  /** As written, comparing a complete array with an incomplete one raises (the cast to the
      complete-array class fails), while the comparison the other way round answers false. */
  lemma ArrayAgainstIncompleteArray(e: ExprType, n: int, e2: ExprType, c: bool, v: bool)
    ensures EqualType(TArray(e, n, c, v), TIncompleteArray(e2, c, v)).None?
    ensures EqualType(TIncompleteArray(e2, c, v), TArray(e, n, c, v)) == Some(false)
  {
  }

  /** Where it answers in both directions, equality is symmetric. */
  lemma {:induction false} EqualTypeSymmetric(a: ExprType, b: ExprType)
    requires EqualType(a, b).Some? && EqualType(b, a).Some?
    ensures EqualType(a, b) == EqualType(b, a)
    decreases a.Depth() + b.Depth()
  {
    match a
    case TPointer(r, _, _) =>
      if b.TPointer? {
        EqualTypeSymmetric(b.refT, r);
      }
    case TArray(e, _, _, _) =>
      if b.TArray? {
        EqualTypeSymmetric(b.elemT, e);
      }
    case _ =>
  }

  /** Equality is transitive. */
  lemma {:induction false} EqualTypeTransitive(a: ExprType, b: ExprType, d: ExprType)
    requires EqualType(a, b) == Some(true) && EqualType(b, d) == Some(true)
    ensures EqualType(a, d) == Some(true)
    decreases a.Depth() + b.Depth() + d.Depth()
  {
    match a
    case TPointer(r, _, _) =>
      assert b.TPointer? && d.TPointer?;
      EqualTypeTransitive(d.refT, b.refT, r);
    case TArray(e, _, _, _) =>
      assert b.TArray? && d.TArray?;
      EqualTypeTransitive(d.elemT, b.elemT, e);
    case _ =>
  }

  /** A pair found equal one way round is found equal the other way round. */
  lemma {:induction false} EqualTypeSymmetricTrue(a: ExprType, b: ExprType)
    requires EqualType(a, b) == Some(true)
    ensures EqualType(b, a) == Some(true)
    decreases a.Depth() + b.Depth()
  {
    match a
    case TPointer(r, _, _) =>
      EqualTypeSymmetricTrue(b.refT, r);
    case TArray(e, _, _, _) =>
      EqualTypeSymmetricTrue(b.elemT, e);
    case _ =>
  }
}
