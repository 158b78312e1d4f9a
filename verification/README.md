# Declaration semantics of a C front end, in Dafny

This project models the core of the semantic analysis of declarations in a C compiler
front end written in C#. It has two parts:

- **The type algebra** (`AST/types.cs`). This is the closed set of C type variants of
  section 3.1.2.5 of ANSI X3.159-1989, each with its size, alignment and const/volatile
  flags for a 32-bit target. It includes struct, union and cdecl parameter layout,
  re-qualification, structural equality and the classification predicates.
- **Declaration resolution** (`SyntaxTree/declarations.cs`). This turns parsed
  declarations into types and declaration records, following section 3.5 of
  ANSI X3.159-1989:
  - storage-class specifiers, including the mapping of NULL/auto/register to automatic
    storage;
  - the basic specifier table, matched by subset in source order;
  - typedef names;
  - enum numbering;
  - the struct/union tag state machine (mention, forward declaration, definition);
  - declarators applied from the last modifier down;
  - parameter lists;
  - the declaration driver, which places every declarator in the environment.

Every resolution step takes an environment and returns a new one with its result. The
environment is an immutable map from names to entries. Tags are stored under the keys
`struct T`, `union T` and `enum T`.

The resolver is written as recursive specification functions, one per source
method. The source's loops are also modelled as methods with loop invariants, each
proved equal to its specification function:
- `StructCreate` and `FunctionCreate` in `layout.dfy`;
- the enumerator, declarator, member, parameter and declaration loops in
  `declaration_loops.dfy`.

Errors are values. A thrown exception, a logged semantic error or a null result in the
source is an `Err` in the model. The only exception is `EqualType`, which returns `None`
for the invalid cast it can raise.

Files:

| file | module | contents |
|---|---|---|
| `wrappers.dfy` | `Wrappers` | `Option` and `Result` |
| `types.dfy` | `Types` | type variants, constants, size/alignment, qualifiers, equality, predicates |
| `layout.dfy` | `Layout` | struct, union and function layout: specification functions and loop methods |
| `environment.dfy` | `Environment` | the abstract environment |
| `syntax.dfy` | `Syntax` | declaration syntax trees, with constant expressions already folded |
| `declarations.dfy` | `Declarations` | the resolver |
| `declaration_loops.dfy` | `DeclarationLoops` | the resolver's loops as methods |
| `type_properties.dfy`, `layout_properties.dfy` | | properties of the type algebra |
| `specifier_properties.dfy`, `tag_properties.dfy`, `declarator_properties.dfy`, `scope_properties.dfy` | | properties of resolution |

## Model

| member | source | states |
|---|---|---|
| Types.GetQualifiedType | AST/types.cs:147-149 | null (`None`) exactly for incomplete structs and unions and for functions, the variants that do not override it. Otherwise the result has the same kind, size, alignment and payload, and exactly the requested const/volatile flags |
| Types.ExprType.IsArith | AST/types.cs:184-201 | integral implies arithmetic; float and double are exactly the arithmetic types that are not integral |
| Types.ExprType.IsScalar | AST/types.cs:176-183 | scalar means arithmetic or pointer; a pointer is not arithmetic |
| TypeProperties.BasicLayouts | AST/types.cs:117-129 | the size/alignment pairs of the basic variants and pointers, including double 8/4 and void 0/0 |
| TypeProperties.ArrayLayouts | AST/types.cs:314-343 | an array's size is element size × count and its alignment the element's; an incomplete array has size 0 and kind ARRAY |
| TypeProperties.Classification | AST/types.cs:132-134 | integral ⇒ arithmetic ⇒ scalar; pointer is scalar, not arithmetic; float/double are not integral; void, arrays, aggregates and functions are not scalar |
| TypeProperties.RequalifyComposes | AST/types.cs:168-170 | re-qualifying twice is re-qualifying once; re-qualifying with a type's own flags is the identity |
| TypeProperties.EqualTypeIgnoresQualifiers | AST/types.cs:190-192 | qualifiers never affect equality, on either side |
| TypeProperties.ArithEqualIffSameKind | AST/types.cs:190-192 | an arithmetic type equals another exactly when the kinds agree |
| TypeProperties.NeverEqual | AST/types.cs:135 | void, incomplete arrays, aggregates and functions are equal to nothing, themselves included |
| TypeProperties.EqualSelfIffComparable | AST/types.cs:303-305 | a type equals itself exactly when it is built from arithmetic types by pointers and complete arrays |
| TypeProperties.ArrayCountIgnored | AST/types.cs:349-351 | complete arrays compare element types, never counts |
| TypeProperties.ArrayAgainstIncompleteArray | AST/types.cs:349-351 | comparing a complete array with an incomplete one raises the cast error; the other way round answers false |
| TypeProperties.EqualTypeSymmetric | AST/types.cs:303-305 | where both directions answer, they agree |
| TypeProperties.EqualTypeSymmetricTrue | AST/types.cs:349-351 | a true answer in one direction is a true answer in the other |
| TypeProperties.EqualTypeTransitive | AST/types.cs:303-305 | equality is transitive |
| Layout.RoundUp | AST/types.cs:387 | the result is the least multiple of the alignment at or above the input |
| Layout.MaxAlignIsMax | AST/types.cs:381-386 | the struct alignment bounds every member's alignment and is one of them, or 0 with no members |
| Layout.StructCreate | AST/types.cs:378-393 | the loop builds exactly `StructOf`: offsets, size and alignment |
| Layout.MaxSize | AST/types.cs:434-441 | the union size bounds every member's size and is one of them, or 0 with no members |
| Layout.ParamUnit | AST/types.cs:503 | each parameter's rounding unit is at least 4 and at least its alignment |
| Layout.FrameAlign | AST/types.cs:498 | the function alignment is at least 4 |
| Layout.FrameAlignIsMax | AST/types.cs:503-509 | the function alignment bounds every unit and is one of them, or 4 |
| Layout.FunctionCreate | AST/types.cs:494-513 | the loop builds exactly `FunctionOf`: parameter offsets, size and alignment |
| LayoutProperties.StructOffsetPlacement | AST/types.cs:386-388 | a member's offset is the previous end rounded up to its alignment, with less than one unit of padding; the first is at 0 |
| LayoutProperties.StructMembersDisjoint | AST/types.cs:380-390 | members keep input order and never overlap |
| LayoutProperties.StructMemberWithinEnd | AST/types.cs:389-391 | each member ends within the running end |
| LayoutProperties.StructOfLayout | AST/types.cs:378-393 | names, types and order kept; alignment is the largest member alignment; size covers every member, is a multiple of the alignment, and is the smallest such |
| LayoutProperties.StructPointExample | AST/types.cs:378-393 | `struct { long x; long y; }` has x at 0, y at 4, size 8, alignment 4 |
| LayoutProperties.UnionOfLayout | AST/types.cs:429-442 | union size is the largest member size (0 with none), alignment equals size, members kept |
| LayoutProperties.MaskRoundIsRoundUp | AST/types.cs:505 | `(x + a - 1) & ~(a - 1)` is round-up for a power-of-two `a` |
| LayoutProperties.AndNotLowBits | AST/types.cs:505 | clearing the low bits of `x` with a power-of-two mask gives the multiple of `a` at or below `x` |
| LayoutProperties.ParamStep | AST/types.cs:498-505 | the first parameter is at 8; each later one is at the previous end rounded to the unit |
| LayoutProperties.ParamOffsetsWordAligned | AST/types.cs:497-505 | with power-of-two units every parameter offset is a multiple of 4 |
| LayoutProperties.ParamEndGrows | AST/types.cs:501-505 | a parameter ends no later than the next offset |
| LayoutProperties.ParamsDisjoint | AST/types.cs:499-505 | parameters are placed in order and never overlap |
| LayoutProperties.FunctionOfLayout | AST/types.cs:487-513 | the function type is const, records each parameter's name, type and offset, has the final offset as size, and as alignment the largest parameter unit, or 4 when every unit is smaller |
| LayoutProperties.CdeclExample | AST/types.cs:494-513 | `(char a, long b)` places a at 8 and b at 12, size 16, alignment 4 |
| LayoutProperties.MisalignedUnionParameter | AST/types.cs:429-431 | as written, a 5-byte union parameter has unit 5 and the bitmask leaves the frame end at 17 |
| LayoutProperties.EmptyFunctionIsNotCreated | AST/types.cs:549-551 | `TEmptyFunction` is void, has no parameters, size 0, alignment 0, is not variadic, and differs from the created empty function |
| Environment.PushEntry | SyntaxTree/declarations.cs:60 | the name is bound to the entry and every other name is untouched |
| Environment.PushEnum | SyntaxTree/declarations.cs:607 | the name is bound as an enumeration constant with its value and every other name is untouched |
| Declarations.MakeAggregate | SyntaxTree/declarations.cs:750-753 | the aggregate is complete, of the specifier's kind, with the requested qualifiers; struct layout fails only where it is not modelled |
| DeclarationLoops.BasicTypeLoop | SyntaxTree/declarations.cs:213-221 | the loop returns the first qualifying row's kind, exactly `GetBasicType` |
| DeclarationLoops.RowMatchesLoop | SyntaxTree/declarations.cs:215 | the loop decides that every key of the row occurs among the keywords |
| DeclarationLoops.WrapLoop | SyntaxTree/declarations.cs:521-530 | the backward loop computes exactly `WrapExprType` |
| DeclarationLoops.EnumLoop | SyntaxTree/declarations.cs:591-614 | the counter loop computes exactly `EnumType` |
| DeclarationLoops.WrapMembersLoop | SyntaxTree/declarations.cs:894-899 | the declarator loop computes exactly `WrapMembers` |
| DeclarationLoops.StructDeclnsLoop | SyntaxTree/declarations.cs:888-902 | computes exactly `StructDeclns` |
| DeclarationLoops.AttribsLoop | SyntaxTree/declarations.cs:688-696 | the loop over struct declarations computes exactly `GetAttribs` |
| DeclarationLoops.ParamTypesLoop | SyntaxTree/declarations.cs:562-571 | the loop over parameters computes exactly `GetParamTypes` |
| DeclarationLoops.DeclnsLoop | SyntaxTree/declarations.cs:21-66 | the declarator loop computes exactly `GetDeclns` |
| SpecifierProperties.StorageClassCount | SyntaxTree/declarations.cs:197-205 | at most one storage-class specifier is accepted; none means NULL |
| SpecifierProperties.StorageClassMapping | SyntaxTree/declarations.cs:108-125 | NULL, auto and register map to automatic storage, typedef to typedef; only ERROR is refused |
| SpecifierProperties.TypeBeforeStorageClass | SyntaxTree/declarations.cs:102-128 | the type is resolved first: its error wins, and on success the environment and type are the type's |
| SpecifierProperties.AllInMeansSubset | SyntaxTree/declarations.cs:215 | a row qualifies exactly when its keywords are a subset of the given ones |
| SpecifierProperties.LookupFromFirstMatch | SyntaxTree/declarations.cs:213-221 | the lookup yields the first qualifying row's kind, or ERROR when none qualifies |
| SpecifierProperties.FirstMatchDecides | SyntaxTree/declarations.cs:214-218 | conversely, the first qualifying row decides the lookup |
| SpecifierProperties.TableKinds | SyntaxTree/declarations.cs:236-275 | the table lists only basic kinds and void; unsigned char is row 3, unsigned short rows 8-9 |
| SpecifierProperties.BasicTypeIsFirstMatch | SyntaxTree/declarations.cs:213-221 | `GetBasicType` is the first qualifying row in source order, ERROR exactly when none does |
| SpecifierProperties.LookupFromSetSemantics | SyntaxTree/declarations.cs:215 | only which keywords occur matters, not their order or repetition |
| SpecifierProperties.BasicTypeSetSemantics | SyntaxTree/declarations.cs:215 | the same, for the source table |
| SpecifierProperties.SingletonRow | SyntaxTree/declarations.cs:236-275 | every keyword has a one-keyword row |
| SpecifierProperties.NonEmptyNeverError | SyntaxTree/declarations.cs:213-221 | a non-empty keyword list never yields ERROR, so inconsistent lists such as `short char` are accepted |
| SpecifierProperties.ShadowedKind | SyntaxTree/declarations.cs:214-218 | a kind all of whose rows contain a keyword whose own row comes first is never picked |
| SpecifierProperties.MissingKeyExcludes | SyntaxTree/declarations.cs:215 | with a keyword absent, no row containing it is picked |
| SpecifierProperties.UnsignedRows | SyntaxTree/declarations.cs:237-246 | the char and short rows precede every unsigned char and unsigned short row |
| SpecifierProperties.UnsignedCharShortUnreachable | SyntaxTree/declarations.cs:239-247 | unsigned char and unsigned short are never the result |
| SpecifierProperties.UnsignedShortIsShort | SyntaxTree/declarations.cs:240 | `unsigned short` resolves to short |
| SpecifierProperties.UnsignedCharIsChar | SyntaxTree/declarations.cs:237 | `unsigned char` resolves to char |
| SpecifierProperties.SkipRows | SyntaxTree/declarations.cs:214-218 | rows that do not qualify are skipped |
| SpecifierProperties.FirstTenRows | SyntaxTree/declarations.cs:236-250 | rows 0 to 9 all need void, char or short |
| SpecifierProperties.UnsignedIntIsLong | SyntaxTree/declarations.cs:251 | `unsigned int` resolves to signed long, since the one-keyword int row comes first |
| SpecifierProperties.LongDoubleIsLong | SyntaxTree/declarations.cs:254 | `long double` resolves to long |
| SpecifierProperties.BasicSpecifiersResolve | SyntaxTree/declarations.cs:146-172 | all-basic specifiers succeed exactly when the table does not give void; the type has the table's kind and exactly the listed qualifiers, and the environment is unchanged |
| SpecifierProperties.DefaultIsLong | SyntaxTree/declarations.cs:141-144 | no type specifier means long with the listed qualifiers |
| SpecifierProperties.MixedSpecifiersRejected | SyntaxTree/declarations.cs:174-182 | a non-basic specifier must stand alone |
| SpecifierProperties.TypedefNameResolution | SyntaxTree/declarations.cs:389-400 | a typedef name resolves exactly when bound as a typedef to a type that can be re-qualified; the result has the bound kind and size and the requested qualifiers |
| SpecifierProperties.TypedefOfFunctionFails | SyntaxTree/declarations.cs:389-400 | a typedef of a function type cannot be used, because its re-qualification is null |
| TagProperties.EnumBodyFailsIffNotConst | SyntaxTree/declarations.cs:637-641 | the enumerator loop fails exactly when some initializer is not constant |
| TagProperties.EnumBodyFrame | SyntaxTree/declarations.cs:602-609 | the loop binds only the enumerators' names and keeps the scope |
| TagProperties.EnumValueShift | SyntaxTree/declarations.cs:606-608 | dropping the first enumerator restarts numbering one past its value |
| TagProperties.EnumBodyBindsAll | SyntaxTree/declarations.cs:601-609 | each unshadowed enumerator is bound as a long constant with its value: its constant, else previous + 1, else 0 |
| TagProperties.EnumExample | SyntaxTree/declarations.cs:601-609 | `enum { A, B = 5, C }` gives 0, 5, 6 |
| TagProperties.EnumTypeResult | SyntaxTree/declarations.cs:591-614 | the type is always long with the requested qualifiers; a body binds `enum T` as a typedef of long; a body-less enum succeeds exactly when `enum T` is a typedef, and changes nothing |
| TagProperties.TagKeysDistinct | SyntaxTree/declarations.cs:719 | struct, union and enum tag keys never collide, and a key determines its tag |
| TagProperties.FirstDefinitionBinds | SyntaxTree/declarations.cs:737-758 | a successful definition yields a complete aggregate of its kind and binds a named tag to it |
| TagProperties.DefineTwiceFails | SyntaxTree/declarations.cs:740-742 | defining a named struct or union a second time fails with a redefinition error |
| TagProperties.MentionAfterDefinition | SyntaxTree/declarations.cs:728-732 | a later mention returns the defined type itself; as written, the mention's own qualifiers are dropped |
| TagProperties.MentionUnboundBindsPlaceholder | SyntaxTree/declarations.cs:715-726 | the first mention binds and returns the incomplete struct or union of that name with the mention's qualifiers, and leaves every other name alone; an anonymous mention is an error |
| TagProperties.MentionOfBoundTag | SyntaxTree/declarations.cs:728-732 | a mention of a tag bound as typedef returns the bound type with the environment unchanged; any other binding is an error |
| TagProperties.MentionThenDefine | SyntaxTree/declarations.cs:737-758 | a forward declaration does not change what the later definition yields |
| TagProperties.TagDefinitionNamed | SyntaxTree/declarations.cs:744-756 | members are resolved with the tag bound to an incomplete placeholder, which a member's mention sees; the tag is then rebound to the complete type |
| TagProperties.AnonymousDefinitionBindsNoTag | SyntaxTree/declarations.cs:700-710 | an anonymous aggregate binds no tag |
| DeclaratorProperties.ApplyModifiersAppend | SyntaxTree/declarations.cs:521-530 | modifiers apply from the end: the inner suffix first, then the outer prefix |
| DeclaratorProperties.OuterModifierIsOutermost | SyntaxTree/declarations.cs:521-530 | a leading pointer modifier makes the result a pointer to what the rest yields |
| DeclaratorProperties.WrapOrderExample | SyntaxTree/declarations.cs:521-530 | `[Pointer, Array(3)]` over char is a pointer to an array of three chars |
| DeclaratorProperties.SimpleModifiersNest | SyntaxTree/declarations.cs:471-501 | pointer and constant-size array modifiers always succeed, keep the environment and add one level each |
| DeclaratorProperties.NonConstantArrayFails | SyntaxTree/declarations.cs:471-483 | any non-constant array size makes the declarator fail |
| DeclaratorProperties.NullDeclaratorIsEmptyDeclarator | SyntaxTree/declarations.cs:533-539 | the null declarator acts as the nameless declarator without modifiers and never fails |
| DeclaratorProperties.FunctionModifierType | SyntaxTree/declarations.cs:448-459 | a function modifier yields a function returning the modified type. It has one parameter per declaration, named by its declarator and typed by wrapping that declarator over its specifiers, in the environment the previous parameters left; the first is at offset 8 |
| DeclaratorProperties.ParamTypesNames | SyntaxTree/declarations.cs:562-571 | one parameter per declaration, in order. Each is named by its declarator and typed by wrapping it over the declaration's specifier type, in the environment the previous parameters left |
| DeclaratorProperties.WrapName | SyntaxTree/declarations.cs:529 | wrapping returns the declarator's own name |
| DeclaratorProperties.WrapMembersNames | SyntaxTree/declarations.cs:888-902 | one member per declarator, in order. Each is named by its declarator and typed by wrapping it over the declaration's base type, in the environment the previous declarators left |
| DeclaratorProperties.AttribsSplit | SyntaxTree/declarations.cs:688-696 | a struct body's member list splits at any declaration: the members of the first k declarations, then those of the rest, resolved where the first k left off |
| DeclaratorProperties.AttribsMembers | SyntaxTree/declarations.cs:688-696 | declaration i of a struct body is resolved where the declarations before it left off, and its members follow all of theirs |
| DeclaratorProperties.PlacementStackIffLocalAuto | SyntaxTree/declarations.cs:38-58 | only automatic objects in a block go on the stack; only typedefs become typedef entries |
| DeclaratorProperties.DeclareRecords | SyntaxTree/declarations.cs:29-63 | one record per declarator, in order. The record's name and type are the declarator wrapped over the base type, in the environment the previous record left. It carries the declaration's storage class and the declarator's initializer, and its name is bound to its type, placed as storage class and scope decide. The final environment is the last recorded one |
| DeclaratorProperties.DeclareStep | SyntaxTree/declarations.cs:29-63 | one turn of the declarator loop: the first record is the first declarator wrapped over the base type and bound, and the rest of the loop runs from the environment that record carries |
| DeclaratorProperties.PlainDeclarator | SyntaxTree/declarations.cs:29-63 | a lone declarator without modifiers declares its name with the base type |
| DeclaratorProperties.CharArrayExample | SyntaxTree/declarations.cs:21-66 | `char buf[10];` at file scope declares a global ten-byte array of char |
| DeclaratorProperties.PointDefinitionExample | SyntaxTree/declarations.cs:737-758 | `struct Point { long x, y; }` with the tag unbound resolves to two long members laid out at 0 and 4 with size 8, and binds `struct Point` to that type |
| DeclaratorProperties.FunctionDeclaratorExample | SyntaxTree/declarations.cs:448-459 | the declarator `f(char a, long b)` over long is a function returning long, with a at 8, b at 12, size 16 and alignment 4 |
| DeclaratorProperties.TypedefIntSpecs | SyntaxTree/declarations.cs:102-128 | `typedef int` resolves to the typedef storage class and long |
| DeclaratorProperties.ConstTypedefSpecs | SyntaxTree/declarations.cs:389-400 | `const T`, with T a typedef of long, resolves to automatic const long |
| DeclaratorProperties.TypedefExample | SyntaxTree/declarations.cs:21-66 | `typedef int T;` then `const T x;` in a block binds T as a typedef of long and x as a stack const long |
| ScopeProperties.ScopeGetSCSType | SyntaxTree/declarations.cs:102-128 | resolving specifiers never changes the scope |
| ScopeProperties.ScopeGetExprType | SyntaxTree/declarations.cs:133-183 | the same for the type specifiers |
| ScopeProperties.ScopeSpecifierType | SyntaxTree/declarations.cs:371-400 | the same for each non-basic specifier |
| ScopeProperties.ScopeEnumBody | SyntaxTree/declarations.cs:601-609 | the same for the enumerator loop |
| ScopeProperties.ScopeTagDefinition | SyntaxTree/declarations.cs:698-766 | the same for struct and union definitions |
| ScopeProperties.ScopeGetAttribs | SyntaxTree/declarations.cs:688-696 | the same for member lists |
| ScopeProperties.ScopeStructDeclns | SyntaxTree/declarations.cs:888-902 | the same for one struct declaration |
| ScopeProperties.ScopeWrapMembers | SyntaxTree/declarations.cs:894-899 | the same for its declarators |
| ScopeProperties.ScopeWrapExprType | SyntaxTree/declarations.cs:521-539 | the same for a declarator |
| ScopeProperties.ScopeApplyModifiers | SyntaxTree/declarations.cs:522-528 | the same for its modifiers |
| ScopeProperties.ScopeModifyType | SyntaxTree/declarations.cs:448-501 | the same for one modifier |
| ScopeProperties.ScopeGetParamTypes | SyntaxTree/declarations.cs:562-571 | the same for a parameter list |
| ScopeProperties.ScopeGetParamDecln | SyntaxTree/declarations.cs:926-938 | the same for one parameter |
| ScopeProperties.ScopeGetDeclns | SyntaxTree/declarations.cs:21-66 | a whole declaration never changes the scope |
| ScopeProperties.ScopeDeclareFrom | SyntaxTree/declarations.cs:29-63 | the same for the declarator loop |

## Left out

- `Parser/parser.cs`: the parser combinators and token matchers are parsing glue, not declaration semantics. The syntax trees are inputs.
- Expression evaluation (`Expr.GetExpr`, `TypeCast.MakeCast`, `IsConstExpr`, `ConstLong`) is not part of this model. An array size or enumerator initializer arrives already folded, as `Const(n)` or `NotConst`. Initializers are carried through unevaluated. `InitializationDeclarator.GetInitDeclr` evaluates its initializer in the environment before wrapping, and that evaluation can fail; the model does not evaluate it and so cannot fail there.
- The internals of `AST.Env` are not part of this model. The environment is a map with `Find`, `PushEntry`, `PushEnum` and a scope flag. `EmptyEnv` stands in for the `AST.Env` constructor, which is outside the modelled files. Scopes, stack offsets and shadowing across scopes are not modelled.
- `Utils.RoundUp` and `Utils.StoreEntry` are not part of this model. `RoundUp` is defined here for positive alignments only. A struct with no members, or with a member of alignment 0 or less (void or incomplete), would round by a non-positive alignment; `MakeAggregate` reports that as `UnmodelledLayout` instead.
- `LayoutProperties.MaskRoundIsRoundUp`, `ParamOffsetsWordAligned` and `ParamsDisjoint` require power-of-two parameter units. The bitmask rounding is modelled exactly (`Layout.AndNot`) but equals round-up only for such units, as `MisalignedUnionParameter` shows.
- 32-bit arithmetic: sizes, offsets, enumerator values and array counts are unbounded integers. Int32 overflow, for example in element size × count, is not modelled.
- `ToString`, `Dump` and `DumpQualifiers` are diagnostic output only.
- `InitializerList.GetExpr` always throws, and `TypeName.GetExprTypeEnv` is obsolete.
- `TypedefType`: a typedef bound to an incomplete struct or union, or to a function type, re-qualifies to null, and the source then passes that null on. The model stops with `NullQualifiedType` at that point.
- Logged semantic errors (`Log.SemantError`) and the null results they come with are failures (`Err`), like thrown exceptions.
- `GetBasicType` enumerates a .NET `Dictionary`. The model reads the table as a sequence in the order the rows are written, which assumes enumeration follows insertion order.
- `Declarations.BoundComplete`: the source reads the type kind of whatever `Find` returns, including the NOT_FOUND entry. The model treats an unbound tag as not a complete aggregate.
