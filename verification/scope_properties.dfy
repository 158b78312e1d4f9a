/**
 * Resolving specifiers and declarators only adds bindings: it never leaves file scope or
 * enters a block. One lemma per resolver function, by the same mutual recursion.
 */
module ScopeProperties {
  import opened Wrappers
  import opened Types
  import opened Environment
  import opened Syntax
  import opened Declarations

  predicate SameScope<T>(env: Env, r: Res<(Env, T)>) {
    r.Ok? ==> IsGlobal(r.value.0) == IsGlobal(env)
  }

  lemma {:induction false} ScopeGetSCSType(env: Env, specs: DeclnSpecs)
    ensures var r := GetSCSType(env, specs);
            r.Ok? ==> IsGlobal(r.value.0) == IsGlobal(env)
    decreases specs, 1
  {
    ScopeGetExprType(env, specs);
  }

  lemma {:induction false} ScopeGetExprType(env: Env, specs: DeclnSpecs)
    ensures SameScope(env, GetExprType(env, specs))
    decreases specs, 0
  {
    var ts := specs.typeSpecs;
    if |ts| == 1 {
      ScopeSpecifierType(env, ts[0], ConstQual in specs.quals, VolatileQual in specs.quals);
    }
  }

  lemma {:induction false} ScopeSpecifierType(env: Env, ts: TypeSpecifier, c: bool, v: bool)
    ensures SameScope(env, SpecifierType(env, ts, c, v))
    decreases ts
  {
    match ts
    case BasicSpecifier(_) =>
    case TypedefName(_) =>
    case EnumSpecifier(name, enums) =>
      if enums.Some? {
        ScopeEnumBody(env, enums.value, 0);
      }
    case StructSpecifier(name, has, list) =>
      if has {
        ScopeTagDefinition(env, false, name, list, c, v);
      }
    case UnionSpecifier(name, has, list) =>
      if has {
        ScopeTagDefinition(env, true, name, list, c, v);
      }
  }

  lemma {:induction false} ScopeEnumBody(env: Env, enums: seq<Enumerator>, idx: int)
    ensures var r := EnumBody(env, enums, idx);
            r.Ok? ==> IsGlobal(r.value) == IsGlobal(env)
    decreases |enums|
  {
    if |enums| > 0 {
      match EnumeratorValue(enums[0], idx)
      case Err(_) =>
      case Ok(value) =>
        ScopeEnumBody(PushEnum(env, enums[0].name, TLong(false, false), value), enums[1..], value + 1);
    }
  }

  lemma {:induction false} ScopeTagDefinition(env: Env, isUnion: bool, name: string, list: seq<StructDeclaration>,
                                              c: bool, v: bool)
    ensures SameScope(env, TagDefinition(env, isUnion, name, list, c, v))
    decreases list, 1
  {
    var key := TagKey(isUnion, name);
    var env1 := if name == "" then env else PushEntry(env, TypedefEntry, key, Placeholder(isUnion, name, c, v));
    ScopeGetAttribs(env1, list);
  }

  lemma {:induction false} ScopeGetAttribs(env: Env, declns: seq<StructDeclaration>)
    ensures SameScope(env, GetAttribs(env, declns))
    decreases declns, 0
  {
    if |declns| > 0 {
      ScopeStructDeclns(env, declns[0]);
      match StructDeclns(env, declns[0])
      case Err(_) =>
      case Ok(first) =>
        ScopeGetAttribs(first.0, declns[1..]);
    }
  }

  lemma {:induction false} ScopeStructDeclns(env: Env, d: StructDeclaration)
    ensures SameScope(env, StructDeclns(env, d))
    decreases d
  {
    ScopeGetExprType(env, d.specs);
    match GetExprType(env, d.specs)
    case Err(_) =>
    case Ok(r) =>
      ScopeWrapMembers(r.0, d.declrs, r.1);
  }

  lemma {:induction false} ScopeWrapMembers(env: Env, declrs: seq<Declr>, base: ExprType)
    ensures SameScope(env, WrapMembers(env, declrs, base))
    decreases declrs
  {
    if |declrs| > 0 {
      ScopeWrapExprType(env, declrs[0], base);
      match WrapExprType(env, declrs[0], base)
      case Err(_) =>
      case Ok(first) =>
        ScopeWrapMembers(first.0, declrs[1..], base);
    }
  }

  lemma {:induction false} ScopeWrapExprType(env: Env, d: Declr, t: ExprType)
    ensures var r := WrapExprType(env, d, t);
            r.Ok? ==> IsGlobal(r.value.0) == IsGlobal(env)
    decreases d
  {
    if d.Declr? {
      ScopeApplyModifiers(env, d.modifiers, t);
    }
  }

  lemma {:induction false} ScopeApplyModifiers(env: Env, mods: seq<TypeModifier>, t: ExprType)
    ensures SameScope(env, ApplyModifiers(env, mods, t))
    decreases mods
  {
    if |mods| > 0 {
      ScopeModifyType(env, mods[|mods| - 1], t);
      match ModifyType(env, mods[|mods| - 1], t)
      case Err(_) =>
      case Ok(r) =>
        ScopeApplyModifiers(r.0, mods[..|mods| - 1], r.1);
    }
  }

  lemma {:induction false} ScopeModifyType(env: Env, m: TypeModifier, t: ExprType)
    ensures SameScope(env, ModifyType(env, m, t))
    decreases m
  {
    if m.FunctionModifier? {
      ScopeGetParamTypes(env, m.paramList.params);
    }
  }

  lemma {:induction false} ScopeGetParamTypes(env: Env, ps: seq<ParameterDeclaration>)
    ensures SameScope(env, GetParamTypes(env, ps))
    decreases ps
  {
    if |ps| > 0 {
      ScopeGetParamDecln(env, ps[0]);
      match GetParamDecln(env, ps[0])
      case Err(_) =>
      case Ok(first) =>
        ScopeGetParamTypes(first.0, ps[1..]);
    }
  }

  lemma {:induction false} ScopeGetParamDecln(env: Env, p: ParameterDeclaration)
    ensures var r := GetParamDecln(env, p);
            r.Ok? ==> IsGlobal(r.value.0) == IsGlobal(env)
    decreases p
  {
    ScopeGetSCSType(env, p.specs);
    match GetSCSType(env, p.specs)
    case Err(_) =>
    case Ok(r) =>
      ScopeWrapExprType(r.0, p.decl, r.2);
  }

  /** A whole declaration keeps the scope too. */
  lemma ScopeGetDeclns(env: Env, d: Decln)
    ensures SameScope(env, GetDeclns(env, d))
  {
    ScopeGetSCSType(env, d.specs);
    match GetSCSType(env, d.specs)
    case Err(_) =>
    case Ok(r) =>
      ScopeDeclareFrom(r.0, r.1, r.2, d.initDeclrs);
  }

  lemma {:induction false} ScopeDeclareFrom(env: Env, scs: Scs, base: ExprType, ids: seq<InitDeclr>)
    ensures SameScope(env, DeclareFrom(env, scs, base, ids))
    decreases |ids|
  {
    if |ids| > 0 {
      ScopeWrapExprType(env, ids[0].declr, base);
      var r := WrapExprType(env, ids[0].declr, base);
      if r.Ok? {
        var w := r.value;
        var env2 := PushEntry(w.0, Placement(scs, IsGlobal(w.0)), w.2, w.1);
        ScopeDeclareFrom(env2, scs, base, ids[1..]);
        assert DeclareFrom(env, scs, base, ids).Ok? ==>
               DeclareFrom(env, scs, base, ids).value.0 == DeclareFrom(env2, scs, base, ids[1..]).value.0;
      }
    }
  }
}
