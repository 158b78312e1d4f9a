/**
 * The type representation of the front end: the closed set of C type variants of
 * section 3.1.2.5 of ANSI X3.159-1989 as the compiler encodes them (AST/types.cs), each
 * with its size, alignment and const/volatile flags for a 32-bit target.
 */
module Types {
  import opened Wrappers

  /** The kind tag every type carries. */
  datatype Kind =
    | Error | Void | Char | UChar | Short | UShort | Long | ULong | Float | Double
    | Pointer | Struct | IncompleteStruct | Union | IncompleteUnion | Function
    | Array | IncompleteArray | InitList

  // Sizes and alignments of the 32-bit target.
  const SIZEOF_CHAR: int := 1
  const SIZEOF_SHORT: int := 2
  const SIZEOF_LONG: int := 4
  const SIZEOF_FLOAT: int := 4
  const SIZEOF_DOUBLE: int := 8
  const SIZEOF_POINTER: int := 4

  const ALIGN_CHAR: int := 1
  const ALIGN_SHORT: int := 2
  const ALIGN_LONG: int := 4
  const ALIGN_FLOAT: int := 4
  const ALIGN_DOUBLE: int := 4
  const ALIGN_POINTER: int := 4

  /** A laid-out member of a struct, or a parameter of a function: name, type and offset. */
  datatype StoreEntry = StoreEntry(name: string, ty: ExprType, offset: int)

  /** A C type. Struct, union and function types store the size and alignment their
      layout computed; every other variant derives them from its structure. */
  datatype ExprType =
    | TVoid(isConst: bool, isVolatile: bool)
    | TChar(isConst: bool, isVolatile: bool)
    | TUChar(isConst: bool, isVolatile: bool)
    | TShort(isConst: bool, isVolatile: bool)
    | TUShort(isConst: bool, isVolatile: bool)
    | TLong(isConst: bool, isVolatile: bool)
    | TULong(isConst: bool, isVolatile: bool)
    | TFloat(isConst: bool, isVolatile: bool)
    | TDouble(isConst: bool, isVolatile: bool)
    | TPointer(refT: ExprType, isConst: bool, isVolatile: bool)
    | TIncompleteArray(elemT: ExprType, isConst: bool, isVolatile: bool)
    | TArray(elemT: ExprType, nelems: int, isConst: bool, isVolatile: bool)
    | TIncompleteStruct(tagName: string, isConst: bool, isVolatile: bool)
    | TStruct(attribs: seq<StoreEntry>, structSize: int, structAlign: int, isConst: bool, isVolatile: bool)
    | TUnion(members: seq<(string, ExprType)>, unionSize: int, isConst: bool, isVolatile: bool)
    | TIncompleteUnion(tagName: string, isConst: bool, isVolatile: bool)
    | TFunction(retT: ExprType, args: seq<StoreEntry>, funcSize: int, funcAlign: int, varargs: bool)
  {
    /** The kind tag; an incomplete array is tagged ARRAY, as in the source. */
    function KindOf(): Kind {
      match this
      case TVoid(_, _) => Void
      case TChar(_, _) => Char
      case TUChar(_, _) => UChar
      case TShort(_, _) => Short
      case TUShort(_, _) => UShort
      case TLong(_, _) => Long
      case TULong(_, _) => ULong
      case TFloat(_, _) => Float
      case TDouble(_, _) => Double
      case TPointer(_, _, _) => Pointer
      case TIncompleteArray(_, _, _) => Array
      case TArray(_, _, _, _) => Array
      case TIncompleteStruct(_, _, _) => IncompleteStruct
      case TStruct(_, _, _, _, _) => Struct
      case TUnion(_, _, _, _) => Union
      case TIncompleteUnion(_, _, _) => IncompleteUnion
      case TFunction(_, _, _, _, _) => Function
    }

    /** A function type is always const and never volatile. */
    predicate IsConst() {
      if TFunction? then true else isConst
    }

    predicate IsVolatile() {
      if TFunction? then false else isVolatile
    }

    function SizeOf(): int {
      match this
      case TVoid(_, _) => 0
      case TChar(_, _) => SIZEOF_CHAR
      case TUChar(_, _) => SIZEOF_CHAR
      case TShort(_, _) => SIZEOF_SHORT
      case TUShort(_, _) => SIZEOF_SHORT
      case TLong(_, _) => SIZEOF_LONG
      case TULong(_, _) => SIZEOF_LONG
      case TFloat(_, _) => SIZEOF_FLOAT
      case TDouble(_, _) => SIZEOF_DOUBLE
      case TPointer(_, _, _) => SIZEOF_POINTER
      case TIncompleteArray(_, _, _) => 0
      case TArray(e, n, _, _) => e.SizeOf() * n
      case TIncompleteStruct(_, _, _) => 0
      case TStruct(_, s, _, _, _) => s
      case TUnion(_, s, _, _) => s
      case TIncompleteUnion(_, _, _) => 0
      case TFunction(_, _, s, _, _) => s
    }

    /** A union's alignment is its size, as in the source. */
    function Alignment(): int {
      match this
      case TVoid(_, _) => 0
      case TChar(_, _) => ALIGN_CHAR
      case TUChar(_, _) => ALIGN_CHAR
      case TShort(_, _) => ALIGN_SHORT
      case TUShort(_, _) => ALIGN_SHORT
      case TLong(_, _) => ALIGN_LONG
      case TULong(_, _) => ALIGN_LONG
      case TFloat(_, _) => ALIGN_FLOAT
      case TDouble(_, _) => ALIGN_DOUBLE
      case TPointer(_, _, _) => ALIGN_POINTER
      case TIncompleteArray(e, _, _) => e.Alignment()
      case TArray(e, _, _, _) => e.Alignment()
      case TIncompleteStruct(_, _, _) => 0
      case TStruct(_, _, a, _, _) => a
      case TUnion(_, s, _, _) => s
      case TIncompleteUnion(_, _, _) => 0
      case TFunction(_, _, _, a, _) => a
    }

    /** Integral types: the char, short and long variants, signed and unsigned. */
    predicate IsIntegral() {
      TChar? || TUChar? || TShort? || TUShort? || TLong? || TULong?
    }

    /** Arithmetic types: the integral types, float and double. */
    predicate IsArith()
      ensures IsIntegral() ==> IsArith()
      ensures IsArith() && !IsIntegral() <==> TFloat? || TDouble?
    {
      TChar? || TUChar? || TShort? || TUShort? || TLong? || TULong? || TFloat? || TDouble?
    }

    /** Scalar types: the arithmetic types and pointers. */
    predicate IsScalar()
      ensures IsScalar() <==> IsArith() || TPointer?
      ensures TPointer? ==> !IsArith()
    {
      TChar? || TUChar? || TShort? || TUShort? || TLong? || TULong? || TFloat? || TDouble?
      || TPointer?
    }

    /** Nesting depth through pointer and array element types; a termination measure. */
    function Depth(): nat {
      match this
      case TPointer(r, _, _) => 1 + r.Depth()
      case TIncompleteArray(e, _, _) => 1 + e.Depth()
      case TArray(e, _, _, _) => 1 + e.Depth()
      case _ => 0
    }
  }

  /** The same type with the given qualifiers. `None` stands for the null the source returns
      from the variants that do not override the method: incomplete structs and unions and
      function types. */
  function GetQualifiedType(t: ExprType, c: bool, v: bool): (r: Option<ExprType>)
    ensures r.None? <==> t.TIncompleteStruct? || t.TIncompleteUnion? || t.TFunction?
    ensures r.Some? ==> r.value.KindOf() == t.KindOf()
    ensures r.Some? ==> r.value.IsConst() == c && r.value.IsVolatile() == v
    ensures r.Some? ==> r.value.SizeOf() == t.SizeOf() && r.value.Alignment() == t.Alignment()
    ensures r.Some? ==> SamePayload(r.value, t)
  {
    match t
    case TVoid(_, _) => Some(TVoid(c, v))
    case TChar(_, _) => Some(TChar(c, v))
    case TUChar(_, _) => Some(TUChar(c, v))
    case TShort(_, _) => Some(TShort(c, v))
    case TUShort(_, _) => Some(TUShort(c, v))
    case TLong(_, _) => Some(TLong(c, v))
    case TULong(_, _) => Some(TULong(c, v))
    case TFloat(_, _) => Some(TFloat(c, v))
    case TDouble(_, _) => Some(TDouble(c, v))
    case TPointer(r, _, _) => Some(TPointer(r, c, v))
    case TIncompleteArray(e, _, _) => Some(TIncompleteArray(e, c, v))
    case TArray(e, n, _, _) => Some(TArray(e, n, c, v))
    case TStruct(a, s, al, _, _) => Some(TStruct(a, s, al, c, v))
    case TUnion(m, s, _, _) => Some(TUnion(m, s, c, v))
    case TIncompleteStruct(_, _, _) => None
    case TIncompleteUnion(_, _, _) => None
    case TFunction(_, _, _, _, _) => None
  }

  /** Two types of the same variant that agree on everything except the qualifiers. */
  predicate SamePayload(a: ExprType, b: ExprType) {
    match a
    case TPointer(r, _, _) => b.TPointer? && b.refT == r
    case TIncompleteArray(e, _, _) => b.TIncompleteArray? && b.elemT == e
    case TArray(e, n, _, _) => b.TArray? && b.elemT == e && b.nelems == n
    case TIncompleteStruct(s, _, _) => b.TIncompleteStruct? && b.tagName == s
    case TStruct(at, s, al, _, _) =>
      b.TStruct? && b.attribs == at && b.structSize == s && b.structAlign == al
    case TUnion(m, s, _, _) => b.TUnion? && b.members == m && b.unionSize == s
    case TIncompleteUnion(s, _, _) => b.TIncompleteUnion? && b.tagName == s
    case TFunction(_, _, _, _, _) => a == b
    case _ => a.KindOf() == b.KindOf()
  }

  /** Structural equality as the source implements it. Arithmetic types compare kinds,
      pointers compare referenced types, complete arrays compare element types; every
      other variant answers false. `None` stands for the cast exception the source raises
      when a complete array is compared with an incomplete one (both are tagged ARRAY). */
  function EqualType(a: ExprType, b: ExprType): Option<bool>
    decreases a.Depth() + b.Depth()
  {
    match a
    case TPointer(r, _, _) =>
      if b.KindOf() == Pointer then EqualType(b.refT, r) else Some(false)
    case TArray(e, _, _, _) =>
      if b.KindOf() != Array then Some(false)
      else if b.TIncompleteArray? then None
      else EqualType(b.elemT, e)
    case _ =>
      if a.IsArith() then Some(a.KindOf() == b.KindOf()) else Some(false)
  }

  /** The types `EqualType` finds equal to themselves: arithmetic types, and pointers and
      complete arrays built over them. */
  predicate Comparable(t: ExprType) {
    match t
    case TPointer(r, _, _) => Comparable(r)
    case TArray(e, _, _, _) => Comparable(e)
    case _ => t.IsArith()
  }
}
