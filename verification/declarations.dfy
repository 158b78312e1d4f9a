/**
 * Declaration resolution (SyntaxTree/declarations.cs), following section 3.5 of
 * ANSI X3.159-1989: storage-class specifiers (3.5.1), type specifiers (3.5.2),
 * struct/union specifiers (3.5.2.1), enum specifiers (3.5.2.2) and declarators (3.5.4).
 * Every function takes an environment and returns a new one together with its result;
 * a thrown exception or a logged semantic error is an `Err`.
 */
module Declarations {
  import opened Wrappers
  import opened Types
  import opened Layout
  import opened Environment
  import opened Syntax

  /** The diagnostics the resolver raises. */
  datatype Error =
    | MultipleStorageClasses
    | InvalidStorageClass
    | UnmatchedSpecifiers
    | InvalidSpecifierMix
    | NotImplemented
    | NameNotFound(name: string)
    | NotATypedefName(name: string)
    | NullQualifiedType(name: string)
    | EnumNotDefined(name: string)
    | EnumInitNotConstant
    | TagNotAType(key: string)
    | Redefinition(key: string)
    | MissingMemberList
    | ArraySizeNotConstant
    | UnmodelledLayout

  type Res<T> = Result<T, Error>

  /** The storage class of a resolved declaration. */
  datatype Scs = AutoScs | ExternScs | StaticScs | TypedefScs

  /** One declaration record: name, storage class, type and initializer. */
  datatype DeclRecord = DeclRecord(name: string, scs: Scs, ty: ExprType, init: Initializer)

  // ---------------------------------------------------------------------------
  // Storage classes
  // ---------------------------------------------------------------------------

  /** No specifier means NULL, one is taken as is, more than one is an error. */
  function GetStorageClass(scs: seq<StorageClassSpec>): Res<StorageClassSpec> {
    if |scs| == 0 then Ok(NullSpec)
    else if |scs| == 1 then Ok(scs[0])
    else Err(MultipleStorageClasses)
  }

  /** The switch of `GetSCSType`: NULL, auto and register are automatic. */
  function ScsOf(spec: StorageClassSpec): Res<Scs> {
    match spec
    case AutoSpec => Ok(AutoScs)
    case NullSpec => Ok(AutoScs)
    case RegisterSpec => Ok(AutoScs)
    case ExternSpec => Ok(ExternScs)
    case StaticSpec => Ok(StaticScs)
    case TypedefSpec => Ok(TypedefScs)
    case ErrorSpec => Err(InvalidStorageClass)
  }

  // ---------------------------------------------------------------------------
  // Basic type specifiers
  // ---------------------------------------------------------------------------

  /** A row of the specifier table: a keyword combination and the kind it stands for. */
  datatype Row = Row(keys: seq<BasicSpec>, kind: Kind)

  /** The specifier table, in source order. */
  function BasicTable(): seq<Row> {
    seq(24, i => BasicRow(i))
  }

  /** Row `i` of the specifier table. */
  function BasicRow(i: int): Row {
    if i == 0 then Row([VoidKw], Void)
    else if i == 1 then Row([CharKw], Char)
    else if i == 2 then Row([SignedKw, CharKw], Char)
    else if i == 3 then Row([UnsignedKw, CharKw], UChar)
    else if i == 4 then Row([ShortKw], Short)
    else if i == 5 then Row([SignedKw, ShortKw], Short)
    else if i == 6 then Row([ShortKw, IntKw], Short)
    else if i == 7 then Row([SignedKw, ShortKw, IntKw], Short)
    else if i == 8 then Row([UnsignedKw, ShortKw], UShort)
    else if i == 9 then Row([UnsignedKw, ShortKw, IntKw], UShort)
    else if i == 10 then Row([IntKw], Long)
    else if i == 11 then Row([SignedKw], Long)
    else if i == 12 then Row([SignedKw, IntKw], Long)
    else if i == 13 then Row([LongKw], Long)
    else if i == 14 then Row([SignedKw, LongKw], Long)
    else if i == 15 then Row([LongKw, IntKw], Long)
    else if i == 16 then Row([SignedKw, LongKw, IntKw], Long)
    else if i == 17 then Row([UnsignedKw], ULong)
    else if i == 18 then Row([UnsignedKw, IntKw], ULong)
    else if i == 19 then Row([UnsignedKw, LongKw], ULong)
    else if i == 20 then Row([UnsignedKw, LongKw, IntKw], ULong)
    else if i == 21 then Row([FloatKw], Float)
    else if i == 22 then Row([DoubleKw], Double)
    else Row([LongKw, DoubleKw], Double)
  }

  /** A row qualifies when every one of its keywords occurs among the given ones. */
  predicate RowMatches(row: Row, specs: seq<BasicSpec>) {
    AllIn(row.keys, specs)
  }

  predicate AllIn(keys: seq<BasicSpec>, specs: seq<BasicSpec>)
    decreases |keys|
  {
    |keys| == 0 || (keys[0] in specs && AllIn(keys[1..], specs))
  }

  /** The kind of the first row of `table`, at or after `i`, that qualifies; ERROR when
      none does. */
  function LookupFrom(table: seq<Row>, specs: seq<BasicSpec>, i: nat): Kind
    requires i <= |table|
    decreases |table| - i
  {
    if i == |table| then Error
    else if RowMatches(table[i], specs) then table[i].kind
    else LookupFrom(table, specs, i + 1)
  }

  function GetBasicType(specs: seq<BasicSpec>): Kind {
    LookupFrom(BasicTable(), specs, 0)
  }

  /** The basic type of a kind, with the given qualifiers; `None` for the kinds the
      switch in `GetExprType` does not handle. */
  function BasicTypeOf(k: Kind, c: bool, v: bool): Option<ExprType> {
    match k
    case Char => Some(TChar(c, v))
    case UChar => Some(TUChar(c, v))
    case Short => Some(TShort(c, v))
    case UShort => Some(TUShort(c, v))
    case Long => Some(TLong(c, v))
    case ULong => Some(TULong(c, v))
    case Float => Some(TFloat(c, v))
    case Double => Some(TDouble(c, v))
    case _ => None
  }

  function Keywords(ts: seq<TypeSpecifier>): (r: seq<BasicSpec>)
    requires forall i :: 0 <= i < |ts| ==> ts[i].BasicSpecifier?
    ensures |r| == |ts| && forall i :: 0 <= i < |ts| ==> r[i] == ts[i].kw
  {
    seq(|ts|, i requires 0 <= i < |ts| => ts[i].kw)
  }

  // ---------------------------------------------------------------------------
  // Declaration specifiers
  // ---------------------------------------------------------------------------

  /** `DeclnSpecs.GetSCSType`: the type first, then the storage class. */
  function GetSCSType(env: Env, specs: DeclnSpecs): Res<(Env, Scs, ExprType)>
    decreases specs, 1
  {
    var r :- GetExprType(env, specs);
    var spec :- GetStorageClass(specs.scs);
    var scs :- ScsOf(spec);
    Ok((r.0, scs, r.1))
  }

  /** `DeclnSpecs.GetExprType`: default long, the basic table, or the one non-basic
      specifier; the qualifier list decides const and volatile. */
  function GetExprType(env: Env, specs: DeclnSpecs): Res<(Env, ExprType)>
    decreases specs, 0
  {
    var c := ConstQual in specs.quals;
    var v := VolatileQual in specs.quals;
    var ts := specs.typeSpecs;
    if |ts| == 0 then Ok((env, TLong(c, v)))
    else if forall i :: 0 <= i < |ts| ==> ts[i].BasicSpecifier? then
      match BasicTypeOf(GetBasicType(Keywords(ts)), c, v)
      case Some(t) => Ok((env, t))
      case None => Err(UnmatchedSpecifiers)
    else if |ts| == 1 then SpecifierType(env, ts[0], c, v)
    else Err(InvalidSpecifierMix)
  }

  /** The virtual `TypeSpecifier.GetExprType` of the non-basic specifiers. */
  function SpecifierType(env: Env, ts: TypeSpecifier, c: bool, v: bool): Res<(Env, ExprType)>
    decreases ts
  {
    match ts
    case BasicSpecifier(_) => Err(NotImplemented)
    case TypedefName(name) => TypedefType(env, name, c, v)
    case EnumSpecifier(name, enums) => EnumType(env, name, enums, c, v)
    case StructSpecifier(name, has, list) =>
      if has then TagDefinition(env, false, name, list, c, v) else TagMention(env, false, name, c, v)
    case UnionSpecifier(name, has, list) =>
      if has then TagDefinition(env, true, name, list, c, v) else TagMention(env, true, name, c, v)
  }

  /** `TypedefName.GetExprType`: the bound typedef, re-qualified. A variant whose
      re-qualification is null is reported here. */
  function TypedefType(env: Env, name: string, c: bool, v: bool): Res<(Env, ExprType)> {
    var e := Find(env, name);
    if e.NotFound? then Err(NameNotFound(name))
    else if e.kind != TypedefEntry then Err(NotATypedefName(name))
    else match GetQualifiedType(e.ty, c, v)
      case Some(t) => Ok((env, t))
      case None => Err(NullQualifiedType(name))
  }

  // ---------------------------------------------------------------------------
  // Enums
  // ---------------------------------------------------------------------------

  /** `Enumerator.GetEnumerator`: the counter, or the enumerator's constant. */
  function EnumeratorValue(e: Enumerator, idx: int): Res<int> {
    match e.init
    case None => Ok(idx)
    case Some(Const(n)) => Ok(n)
    case Some(NotConst) => Err(EnumInitNotConstant)
  }

  /** The enumerator loop from counter `idx` on: bind each name as a long constant. */
  function EnumBody(env: Env, enums: seq<Enumerator>, idx: int): Res<Env>
    decreases |enums|
  {
    if |enums| == 0 then Ok(env)
    else
      var value :- EnumeratorValue(enums[0], idx);
      EnumBody(PushEnum(env, enums[0].name, TLong(false, false), value), enums[1..], value + 1)
  }

  /** `EnumSpecifier.GetExprType`. */
  function EnumType(env: Env, name: string, enums: Option<seq<Enumerator>>, c: bool, v: bool): Res<(Env, ExprType)> {
    match enums
    case None =>
      var e := Find(env, "enum " + name);
      if e.NotFound? || e.kind != TypedefEntry then Err(EnumNotDefined(name))
      else Ok((env, TLong(c, v)))
    case Some(list) =>
      var env1 :- EnumBody(env, list, 0);
      Ok((PushEntry(env1, TypedefEntry, "enum " + name, TLong(false, false)), TLong(c, v)))
  }

  // ---------------------------------------------------------------------------
  // Structs and unions
  // ---------------------------------------------------------------------------

  function TagKey(isUnion: bool, name: string): string {
    (if isUnion then "union " else "struct ") + name
  }

  function CompleteKind(isUnion: bool): Kind {
    if isUnion then Union else Struct
  }

  function Placeholder(isUnion: bool, name: string, c: bool, v: bool): ExprType {
    if isUnion then TIncompleteUnion(name, c, v) else TIncompleteStruct(name, c, v)
  }

  /** The existing binding is already a complete aggregate of this kind; an unbound tag
      (the `NotFound` entry) is not. */
  predicate BoundComplete(e: Entry, isUnion: bool) {
    e.Entry? && e.ty.KindOf() == CompleteKind(isUnion)
  }

  /** `TStruct.Create` or `TUnion.Create` on the resolved members. Struct layout needs
      positive member alignments; anything else is reported as unmodelled. */
  function MakeAggregate(isUnion: bool, ms: seq<Member>, c: bool, v: bool): (r: Res<ExprType>)
    ensures r.Ok? ==> r.value.KindOf() == CompleteKind(isUnion)
    ensures r.Ok? ==> r.value.IsConst() == c && r.value.IsVolatile() == v
    ensures r.Err? <==> !isUnion && (|ms| == 0 || !PositiveAlignments(ms))
  {
    if isUnion then Ok(UnionOf(ms, c, v))
    else if |ms| > 0 && PositiveAlignments(ms) then Ok(StructOf(ms, c, v))
    else Err(UnmodelledLayout)
  }

  /** `StructSpecifier.GetExprType` and `UnionSpecifier.GetExprType` without a member
      list: a named mention binds a placeholder the first time, and otherwise returns
      what the tag is bound to. */
  function TagMention(env: Env, isUnion: bool, name: string, c: bool, v: bool): Res<(Env, ExprType)> {
    var key := TagKey(isUnion, name);
    if name == "" then Err(MissingMemberList)
    else
      var e := Find(env, key);
      if e.NotFound? then
        var placeholder := Placeholder(isUnion, name, c, v);
        Ok((PushEntry(env, TypedefEntry, key, placeholder), placeholder))
      else if e.kind != TypedefEntry then Err(TagNotAType(key))
      else Ok((env, e.ty))
  }

  /** `StructSpecifier.GetExprType` and `UnionSpecifier.GetExprType` with a member list:
      an anonymous aggregate is built and not bound; a named one is refused when the tag
      already names a complete aggregate of this kind, otherwise bound as a placeholder
      while its members are resolved and then bound to the complete type. */
  function TagDefinition(env: Env, isUnion: bool, name: string, list: seq<StructDeclaration>,
                         c: bool, v: bool): Res<(Env, ExprType)>
    decreases list, 1
  {
    var key := TagKey(isUnion, name);
    if name == "" then
      var r :- GetAttribs(env, list);
      var t :- MakeAggregate(isUnion, r.1, c, v);
      Ok((r.0, t))
    else if BoundComplete(Find(env, key), isUnion) then Err(Redefinition(key))
    else
      var env1 := PushEntry(env, TypedefEntry, key, Placeholder(isUnion, name, c, v));
      var r :- GetAttribs(env1, list);
      var t :- MakeAggregate(isUnion, r.1, c, v);
      Ok((PushEntry(r.0, TypedefEntry, key, t), t))
  }

  /** `GetAttribs`: the members of every struct declaration, in order. */
  function GetAttribs(env: Env, declns: seq<StructDeclaration>): Res<(Env, seq<Member>)>
    decreases declns, 0
  {
    if |declns| == 0 then Ok((env, []))
    else
      var first :- StructDeclns(env, declns[0]);
      var rest :- GetAttribs(first.0, declns[1..]);
      Ok((rest.0, first.1 + rest.1))
  }

  /** `StructDeclaration.GetDeclns`: one base type, one member per declarator. */
  function StructDeclns(env: Env, d: StructDeclaration): Res<(Env, seq<Member>)>
    decreases d
  {
    var r :- GetExprType(env, d.specs);
    WrapMembers(r.0, d.declrs, r.1)
  }

  function WrapMembers(env: Env, declrs: seq<Declr>, base: ExprType): Res<(Env, seq<Member>)>
    decreases declrs
  {
    if |declrs| == 0 then Ok((env, []))
    else
      var first :- WrapExprType(env, declrs[0], base);
      var rest :- WrapMembers(first.0, declrs[1..], base);
      Ok((rest.0, [(first.2, first.1)] + rest.1))
  }

  // ---------------------------------------------------------------------------
  // Declarators
  // ---------------------------------------------------------------------------

  /** `Declr.WrapExprType` and `NullDeclarator.WrapExprType`: the wrapped type and the name. */
  function WrapExprType(env: Env, d: Declr, t: ExprType): Res<(Env, ExprType, string)>
    decreases d
  {
    match d
    case NullDeclarator => Ok((env, t, ""))
    case Declr(name, mods) =>
      var r :- ApplyModifiers(env, mods, t);
      Ok((r.0, r.1, name))
  }

  /** Apply the modifiers from the last one down to the first. */
  function ApplyModifiers(env: Env, mods: seq<TypeModifier>, t: ExprType): Res<(Env, ExprType)>
    decreases mods
  {
    if |mods| == 0 then Ok((env, t))
    else
      var r :- ModifyType(env, mods[|mods| - 1], t);
      ApplyModifiers(r.0, mods[..|mods| - 1], r.1)
  }

  /** `ModifyType` of the pointer, array and function modifiers. */
  function ModifyType(env: Env, m: TypeModifier, t: ExprType): Res<(Env, ExprType)>
    decreases m
  {
    match m
    case PointerModifier(quals) =>
      Ok((env, TPointer(t, ConstQual in quals, VolatileQual in quals)))
    case ArrayModifier(NotConst) => Err(ArraySizeNotConstant)
    case ArrayModifier(Const(n)) => Ok((env, TArray(t, n, false, false)))
    case FunctionModifier(ptl) =>
      var r :- GetParamTypes(env, ptl.params);
      Ok((r.0, FunctionOf(t, r.1, ptl.varargs)))
  }

  /** `ParameterTypeList.GetParamTypes`: each parameter in the environment the previous
      one left. */
  function GetParamTypes(env: Env, ps: seq<ParameterDeclaration>): Res<(Env, seq<Member>)>
    decreases ps
  {
    if |ps| == 0 then Ok((env, []))
    else
      var first :- GetParamDecln(env, ps[0]);
      var rest :- GetParamTypes(first.0, ps[1..]);
      Ok((rest.0, [(first.1, first.2)] + rest.1))
  }

  /** `ParameterDeclaration.GetParamDecln`: specifiers with storage class, then the declarator. */
  function GetParamDecln(env: Env, p: ParameterDeclaration): Res<(Env, string, ExprType)>
    decreases p
  {
    var r :- GetSCSType(env, p.specs);
    var w :- WrapExprType(r.0, p.decl, r.2);
    Ok((w.0, w.2, w.1))
  }

  // ---------------------------------------------------------------------------
  // Declarations
  // ---------------------------------------------------------------------------

  /** Where a declared name is placed. */
  function Placement(scs: Scs, global: bool): EntryKind {
    match scs
    case AutoScs => if global then GlobalEntry else StackEntry
    case ExternScs => GlobalEntry
    case StaticScs => GlobalEntry
    case TypedefScs => TypedefEntry
  }

  /** `Decln.GetDeclns`: resolve the specifiers once, then declare each declarator. */
  function GetDeclns(env: Env, d: Decln): Res<(Env, seq<(Env, DeclRecord)>)> {
    var r :- GetSCSType(env, d.specs);
    DeclareFrom(r.0, r.1, r.2, d.initDeclrs)
  }

  /** The declarator loop: wrap, place, push, record (with the environment after the push). */
  function DeclareFrom(env: Env, scs: Scs, base: ExprType, ids: seq<InitDeclr>): Res<(Env, seq<(Env, DeclRecord)>)>
    decreases |ids|
  {
    if |ids| == 0 then Ok((env, []))
    else
      var w :- WrapExprType(env, ids[0].declr, base);
      var env2 := PushEntry(w.0, Placement(scs, IsGlobal(w.0)), w.2, w.1);
      var rest :- DeclareFrom(env2, scs, base, ids[1..]);
      Ok((rest.0, [(env2, DeclRecord(w.2, scs, w.1, ids[0].init))] + rest.1))
  }
}
