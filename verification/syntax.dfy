/**
 * The parse-tree nodes of declarations (SyntaxTree/declarations.cs) as the parser hands
 * them to the resolver. Expressions are already folded: an array size or an enumerator
 * initializer arrives as a constant or as "not a constant".
 */
module Syntax {
  import opened Wrappers

  /** Storage-class keywords, including the parser's NULL and ERROR markers. */
  datatype StorageClassSpec = NullSpec | ErrorSpec | AutoSpec | RegisterSpec | StaticSpec | ExternSpec | TypedefSpec

  /** The basic type-specifier keywords. */
  datatype BasicSpec = VoidKw | CharKw | ShortKw | IntKw | LongKw | FloatKw | DoubleKw | SignedKw | UnsignedKw

  datatype TypeQualifier = NullQual | ConstQual | VolatileQual

  /** A constant expression after folding and the cast to long. */
  datatype ConstExpr = Const(value: int) | NotConst

  /** An initializer; its evaluation belongs to the expression subsystem and is carried
      through unchanged. */
  datatype Initializer = EmptyExpr | InitExpr(id: int)

  datatype TypeSpecifier =
    | BasicSpecifier(kw: BasicSpec)
    | TypedefName(name: string)
    | EnumSpecifier(enumName: string, enums: Option<seq<Enumerator>>)
    /** `hasMembers` is false where the source's member list is null (a mention). */
    | StructSpecifier(structName: string, hasMembers: bool, structDeclns: seq<StructDeclaration>)
    | UnionSpecifier(unionName: string, hasMembers: bool, unionDeclns: seq<StructDeclaration>)

  datatype Enumerator = Enumerator(name: string, init: Option<ConstExpr>)

  datatype DeclnSpecs = DeclnSpecs(scs: seq<StorageClassSpec>, typeSpecs: seq<TypeSpecifier>, quals: seq<TypeQualifier>)

  datatype StructDeclaration = StructDeclaration(specs: DeclnSpecs, declrs: seq<Declr>)

  datatype TypeModifier =
    | FunctionModifier(paramList: ParameterTypeList)
    | ArrayModifier(nelems: ConstExpr)
    | PointerModifier(ptrQuals: seq<TypeQualifier>)

  datatype ParameterTypeList = ParameterTypeList(params: seq<ParameterDeclaration>, varargs: bool)

  datatype ParameterDeclaration = ParameterDeclaration(specs: DeclnSpecs, decl: Declr)

  /** A declarator: a name and its modifiers in source order; `NullDeclarator` is the
      placeholder for an absent declarator. */
  datatype Declr = Declr(name: string, modifiers: seq<TypeModifier>) | NullDeclarator

  datatype InitDeclr = InitDeclr(declr: Declr, init: Initializer)

  datatype Decln = Decln(specs: DeclnSpecs, initDeclrs: seq<InitDeclr>)
}
