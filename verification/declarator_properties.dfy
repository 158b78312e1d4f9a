/**
 * Properties of declarators, parameter lists, struct members and whole declarations:
 * the inside-out reading of modifiers, what a declaration binds, and two end-to-end
 * examples.
 */
module DeclaratorProperties {
  import opened Wrappers
  import opened Types
  import opened Layout
  import opened Environment
  import opened Syntax
  import opened Declarations
  import opened ScopeProperties
  import opened SpecifierProperties
  import opened LayoutProperties

  /** The name a declarator declares; the empty name for the null declarator. */
  function DeclrName(d: Declr): string {
    if d.NullDeclarator? then "" else d.name
  }

  // ---------------------------------------------------------------------------
  // Modifiers
  // ---------------------------------------------------------------------------

  /** Modifiers apply from the end of the list: the modifiers of `outer + inner` are
      `inner` applied first, then `outer` to what that yields. */
  lemma {:induction false} ApplyModifiersAppend(env: Env, outer: seq<TypeModifier>, inner: seq<TypeModifier>, t: ExprType)
    ensures ApplyModifiers(env, outer + inner, t) ==
            match ApplyModifiers(env, inner, t)
            case Err(e) => Err(e)
            case Ok(r) => ApplyModifiers(r.0, outer, r.1)
    decreases |inner|
  {
    var all := outer + inner;
    if |inner| == 0 {
      assert all == outer;
    } else {
      var n := |all|;
      assert all[n - 1] == inner[|inner| - 1];
      assert all[..n - 1] == outer + inner[..|inner| - 1];
      match ModifyType(env, inner[|inner| - 1], t)
      case Err(e) =>
      case Ok(r) =>
        ApplyModifiersAppend(r.0, outer, inner[..|inner| - 1], r.1);
    }
  }

  /** The first modifier in the list is the outermost type constructor: a declarator whose
      list starts with a pointer modifier declares a pointer. */
  lemma OuterModifierIsOutermost(env: Env, quals: seq<TypeQualifier>, inner: seq<TypeModifier>, t: ExprType)
    requires ApplyModifiers(env, inner, t).Ok?
    ensures var r := ApplyModifiers(env, [PointerModifier(quals)] + inner, t);
            r.Ok? && r.value.1 == TPointer(ApplyModifiers(env, inner, t).value.1, ConstQual in quals, VolatileQual in quals)
  {
    ApplyModifiersAppend(env, [PointerModifier(quals)], inner, t);
  }

  /** `[Pointer, Array(3)]` over char: the array modifier is applied first, giving a
      pointer to an array of three chars. */
  lemma WrapOrderExample(env: Env)
    ensures WrapExprType(env, Declr("p", [PointerModifier([]), ArrayModifier(Const(3))]), TChar(false, false)) ==
            Ok((env, TPointer(TArray(TChar(false, false), 3, false, false), false, false), "p"))
  {
    var mods := [PointerModifier([]), ArrayModifier(Const(3))];
    assert mods[..1] == [PointerModifier([])] && mods[..1][..0] == [];
  }

  /** Pointer modifiers and constant-size array modifiers. */
  predicate SimpleModifier(m: TypeModifier) {
    m.PointerModifier? || (m.ArrayModifier? && m.nelems.Const?)
  }

  /** Pointer and constant-size array modifiers always succeed, leave the environment as it
      is, and add one level of nesting each. */
  lemma {:induction false} SimpleModifiersNest(env: Env, mods: seq<TypeModifier>, t: ExprType)
    requires forall i :: 0 <= i < |mods| ==> SimpleModifier(mods[i])
    ensures var r := ApplyModifiers(env, mods, t);
            r.Ok? && r.value.0 == env && r.value.1.Depth() == t.Depth() + |mods|
    decreases |mods|
  {
    if |mods| > 0 {
      var m := mods[|mods| - 1];
      assert SimpleModifier(m);
      var r := ModifyType(env, m, t);
      assert r.Ok? && r.value.0 == env && r.value.1.Depth() == t.Depth() + 1;
      var init := mods[..|mods| - 1];
      assert forall i :: 0 <= i < |init| ==> init[i] == mods[i];
      SimpleModifiersNest(env, init, r.value.1);
    }
  }

  /** A declarator with an array modifier whose size is not a constant is rejected. */
  lemma {:induction false} NonConstantArrayFails(env: Env, mods: seq<TypeModifier>, t: ExprType, i: nat)
    requires i < |mods| && mods[i] == ArrayModifier(NotConst)
    ensures ApplyModifiers(env, mods, t).Err?
    decreases |mods|
  {
    var last := |mods| - 1;
    match ModifyType(env, mods[last], t)
    case Err(_) =>
    case Ok(r) =>
      assert i < last;
      assert mods[..last][i] == mods[i];
      NonConstantArrayFails(r.0, mods[..last], r.1, i);
  }

  /** The null declarator behaves as the declarator with no name and no modifiers. */
  lemma NullDeclaratorIsEmptyDeclarator(env: Env, t: ExprType)
    ensures WrapExprType(env, NullDeclarator, t) == WrapExprType(env, Declr("", []), t)
    ensures WrapExprType(env, NullDeclarator, t).Ok?
  {
  }

  /** A function modifier yields a function returning the modified type, with one
      parameter per parameter declaration, each resolved from its own declaration in the
      environment the previous ones left, laid out by `TFunction.Create`. */
  lemma FunctionModifierType(env: Env, ptl: ParameterTypeList, t: ExprType)
    requires ModifyType(env, FunctionModifier(ptl), t).Ok?
    ensures var f := ModifyType(env, FunctionModifier(ptl), t).value.1;
            f.TFunction? && f.retT == t && f.varargs == ptl.varargs && |f.args| == |ptl.params| &&
            (forall i :: 0 <= i < |f.args| ==> f.args[i].name == DeclrName(ptl.params[i].decl)) &&
            (forall i :: 0 <= i < |f.args| ==> ParamResolvesTo(env, ptl.params, i, (f.args[i].name, f.args[i].ty))) &&
            (|f.args| > 0 ==> f.args[0].offset == 2 * REGSZ)
  {
    var r := GetParamTypes(env, ptl.params).value;
    ParamTypesNames(env, ptl.params);
    assert ModifyType(env, FunctionModifier(ptl), t).value.1 == FunctionOf(t, r.1, ptl.varargs);
    var f := FunctionOf(t, r.1, ptl.varargs);
    assert forall i :: 0 <= i < |f.args| ==> (f.args[i].name, f.args[i].ty) == r.1[i];
  }

  // ---------------------------------------------------------------------------
  // Parameters and members
  // ---------------------------------------------------------------------------

  /** Parameter `i` is resolved in the environment the parameters before it left: its
      specifiers give the base type and its declarator is wrapped over that type. */
  predicate ParamResolvesTo(env: Env, ps: seq<ParameterDeclaration>, i: nat, m: Member)
    requires i < |ps|
  {
    var pre := GetParamTypes(env, ps[..i]);
    pre.Ok? &&
    var s := GetSCSType(pre.value.0, ps[i].specs);
    s.Ok? &&
    var w := WrapExprType(s.value.0, ps[i].decl, s.value.2);
    w.Ok? && m == (w.value.2, w.value.1)
  }

  /** One parameter per declaration, named by its declarator, and typed by wrapping that
      declarator over the declaration's specifiers. */
  lemma {:induction false} ParamTypesNames(env: Env, ps: seq<ParameterDeclaration>)
    requires GetParamTypes(env, ps).Ok?
    ensures var ms := GetParamTypes(env, ps).value.1;
            |ms| == |ps| &&
            (forall i :: 0 <= i < |ps| ==> ms[i].0 == DeclrName(ps[i].decl)) &&
            forall i :: 0 <= i < |ps| ==> ParamResolvesTo(env, ps, i, ms[i])
    decreases |ps|
  {
    if |ps| > 0 {
      var first := GetParamDecln(env, ps[0]).value;
      var s := GetSCSType(env, ps[0].specs).value;
      WrapName(s.0, ps[0].decl, s.2);
      ParamTypesNames(first.0, ps[1..]);
      var ms := GetParamTypes(env, ps).value.1;
      var rest := GetParamTypes(first.0, ps[1..]).value.1;
      assert ms == [(first.1, first.2)] + rest;
      assert ps[..0] == [];
      forall i | 0 <= i < |ps|
        ensures ms[i].0 == DeclrName(ps[i].decl) && ParamResolvesTo(env, ps, i, ms[i])
      {
        if i > 0 {
          assert ms[i] == rest[i - 1] && ps[1..][i - 1] == ps[i];
          assert ParamResolvesTo(first.0, ps[1..], i - 1, rest[i - 1]);
          assert ps[..i][0] == ps[0] && ps[..i][1..] == ps[1..][..i - 1];
        }
      }
    }
  }

  /** Wrapping keeps the declarator's name. */
  lemma WrapName(env: Env, d: Declr, t: ExprType)
    requires WrapExprType(env, d, t).Ok?
    ensures WrapExprType(env, d, t).value.2 == DeclrName(d)
  {
  }

  /** Member `i` of a struct declaration is its declarator wrapped over the declaration's
      base type, in the environment the declarators before it left. */
  predicate MemberResolvesTo(env: Env, declrs: seq<Declr>, base: ExprType, i: nat, m: Member)
    requires i < |declrs|
  {
    var pre := WrapMembers(env, declrs[..i], base);
    pre.Ok? &&
    var w := WrapExprType(pre.value.0, declrs[i], base);
    w.Ok? && m == (w.value.2, w.value.1)
  }

  /** One member per declarator of a struct declaration, named by its declarator and typed
      by wrapping it over the base type. */
  lemma {:induction false} WrapMembersNames(env: Env, declrs: seq<Declr>, base: ExprType)
    requires WrapMembers(env, declrs, base).Ok?
    ensures var ms := WrapMembers(env, declrs, base).value.1;
            |ms| == |declrs| &&
            (forall i :: 0 <= i < |declrs| ==> ms[i].0 == DeclrName(declrs[i])) &&
            forall i :: 0 <= i < |declrs| ==> MemberResolvesTo(env, declrs, base, i, ms[i])
    decreases |declrs|
  {
    if |declrs| > 0 {
      var first := WrapExprType(env, declrs[0], base).value;
      WrapName(env, declrs[0], base);
      WrapMembersNames(first.0, declrs[1..], base);
      var ms := WrapMembers(env, declrs, base).value.1;
      var rest := WrapMembers(first.0, declrs[1..], base).value.1;
      assert ms == [(first.2, first.1)] + rest;
      assert declrs[..0] == [];
      forall i | 0 <= i < |declrs|
        ensures ms[i].0 == DeclrName(declrs[i]) && MemberResolvesTo(env, declrs, base, i, ms[i])
      {
        if i > 0 {
          assert ms[i] == rest[i - 1] && declrs[1..][i - 1] == declrs[i];
          assert MemberResolvesTo(first.0, declrs[1..], base, i - 1, rest[i - 1]);
          assert declrs[..i][0] == declrs[0] && declrs[..i][1..] == declrs[1..][..i - 1];
        }
      }
    }
  }

  /** The member list of a struct body splits at any declaration: the members of the first
      `k` declarations, then those of the rest, resolved where the first `k` left off. */
  lemma {:induction false} AttribsSplit(env: Env, declns: seq<StructDeclaration>, k: nat)
    requires GetAttribs(env, declns).Ok? && k <= |declns|
    ensures var pre := GetAttribs(env, declns[..k]);
            pre.Ok? &&
            var post := GetAttribs(pre.value.0, declns[k..]);
            post.Ok? && GetAttribs(env, declns).value == (post.value.0, pre.value.1 + post.value.1)
    decreases k
  {
    if k == 0 {
      assert declns[..0] == [] && declns[0..] == declns;
      assert [] + GetAttribs(env, declns).value.1 == GetAttribs(env, declns).value.1;
    } else {
      var first := StructDeclns(env, declns[0]).value;
      AttribsSplit(first.0, declns[1..], k - 1);
      assert declns[..k][0] == declns[0] && declns[..k][1..] == declns[1..][..k - 1];
      assert declns[1..][k - 1..] == declns[k..];
      var mid := GetAttribs(first.0, declns[1..][..k - 1]).value;
      var post := GetAttribs(mid.0, declns[k..]).value;
      assert GetAttribs(env, declns[..k]).value == (mid.0, first.1 + mid.1);
      assert first.1 + (mid.1 + post.1) == (first.1 + mid.1) + post.1;
    }
  }

  /** A struct body lists the members of each struct declaration in order: declaration `i`
      is resolved where the declarations before it left off, and its members follow all
      of theirs. */
  lemma AttribsMembers(env: Env, declns: seq<StructDeclaration>, i: nat)
    requires GetAttribs(env, declns).Ok? && i < |declns|
    ensures var pre := GetAttribs(env, declns[..i]);
            pre.Ok? &&
            var one := StructDeclns(pre.value.0, declns[i]);
            one.Ok? &&
            var ms := GetAttribs(env, declns).value.1;
            |pre.value.1| + |one.value.1| <= |ms| &&
            ms[..|pre.value.1|] == pre.value.1 &&
            ms[|pre.value.1|..|pre.value.1| + |one.value.1|] == one.value.1
  {
    AttribsSplit(env, declns, i);
    var pre := GetAttribs(env, declns[..i]).value;
    assert declns[i..][0] == declns[i] && declns[i..][1..] == declns[i + 1..];
    var one := StructDeclns(pre.0, declns[i]).value;
    var tail := GetAttribs(one.0, declns[i + 1..]).value;
    var ms := GetAttribs(env, declns).value.1;
    assert ms == pre.1 + (one.1 + tail.1);
  }

  // ---------------------------------------------------------------------------
  // Declarations
  // ---------------------------------------------------------------------------

  /** Only an automatic object in a block goes on the stack; typedefs are the only
      typedef entries. */
  lemma PlacementStackIffLocalAuto(scs: Scs, global: bool)
    ensures Placement(scs, global) == StackEntry <==> scs == AutoScs && !global
    ensures Placement(scs, global) == TypedefEntry <==> scs == TypedefScs
  {
  }

  /** A declaration record agrees with its declarator: the declarator, wrapped over the
      base type in the environment `before` the record, gives the record's name and type;
      the record carries the declaration's storage class and the declarator's initializer,
      keeps the scope, and binds the name to the type in the place the storage class and
      the scope decide. */
  predicate RecordFits(scs: Scs, global: bool, before: Env, base: ExprType, id: InitDeclr, rec: (Env, DeclRecord)) {
    var w := WrapExprType(before, id.declr, base);
    w.Ok? && rec.1.ty == w.value.1 && rec.1.name == w.value.2 &&
    rec.1.scs == scs && rec.1.name == DeclrName(id.declr) && rec.1.init == id.init &&
    IsGlobal(rec.0) == global &&
    Find(rec.0, rec.1.name) == Entry(Placement(scs, global), rec.1.ty, 0)
  }

  /** The environment declarator `i` is wrapped in: the one the loop starts from, then the
      one each record carries. */
  function Before(env: Env, recs: seq<(Env, DeclRecord)>, i: nat): Env
    requires i <= |recs|
  {
    if i == 0 then env else recs[i - 1].0
  }

  /** The declarator loop yields one fitting record per declarator, and the final
      environment is the last recorded one. */
  lemma {:induction false} DeclareRecords(env: Env, scs: Scs, base: ExprType, ids: seq<InitDeclr>)
    requires DeclareFrom(env, scs, base, ids).Ok?
    ensures var res := DeclareFrom(env, scs, base, ids).value;
            |res.1| == |ids| &&
            (|ids| == 0 ==> res.0 == env) &&
            (|ids| > 0 ==> res.0 == res.1[|ids| - 1].0) &&
            forall i :: 0 <= i < |ids| ==>
              RecordFits(scs, IsGlobal(env), Before(env, res.1, i), base, ids[i], res.1[i])
    decreases |ids|
  {
    if |ids| > 0 {
      var env2 := DeclareStep(env, scs, base, ids);
      DeclareRecords(env2, scs, base, ids[1..]);
      var rest := DeclareFrom(env2, scs, base, ids[1..]).value;
      var recs := DeclareFrom(env, scs, base, ids).value.1;
      forall i | 0 < i < |ids|
        ensures RecordFits(scs, IsGlobal(env), recs[i - 1].0, base, ids[i], recs[i])
      {
        assert recs[i] == rest.1[i - 1] && ids[i] == ids[1..][i - 1];
        assert RecordFits(scs, IsGlobal(env2), Before(env2, rest.1, i - 1), base, ids[1..][i - 1], rest.1[i - 1]);
        if i > 1 {
          assert recs[i - 1] == rest.1[i - 2];
        }
        assert Before(env, recs, i) == Before(env2, rest.1, i - 1);
      }
    }
  }

  /** One turn of the declarator loop: the first record fits, and the rest is the loop
      from the environment that record carries. */
  lemma DeclareStep(env: Env, scs: Scs, base: ExprType, ids: seq<InitDeclr>) returns (env2: Env)
    requires |ids| > 0 && DeclareFrom(env, scs, base, ids).Ok?
    ensures IsGlobal(env2) == IsGlobal(env)
    ensures DeclareFrom(env2, scs, base, ids[1..]).Ok?
    ensures var res := DeclareFrom(env, scs, base, ids).value;
            var rest := DeclareFrom(env2, scs, base, ids[1..]).value;
            res.0 == rest.0 && |res.1| == 1 + |rest.1| && res.1[0].0 == env2 &&
            res.1[1..] == rest.1 &&
            RecordFits(scs, IsGlobal(env), env, base, ids[0], res.1[0])
  {
    var w := WrapExprType(env, ids[0].declr, base).value;
    WrapName(env, ids[0].declr, base);
    ScopeWrapExprType(env, ids[0].declr, base);
    env2 := PushEntry(w.0, Placement(scs, IsGlobal(w.0)), w.2, w.1);
    var first := (env2, DeclRecord(w.2, scs, w.1, ids[0].init));
    var rest := DeclareFrom(env2, scs, base, ids[1..]).value;
    assert DeclareFrom(env, scs, base, ids).value == (rest.0, [first] + rest.1);
    assert ([first] + rest.1)[1..] == rest.1;
  }

  // ---------------------------------------------------------------------------
  // End-to-end examples
  // ---------------------------------------------------------------------------

  /** `char buf[10];` at file scope declares a global array of ten plain chars. */
  lemma CharArrayExample()
    ensures var d := Decln(DeclnSpecs([], [BasicSpecifier(CharKw)], []),
                           [InitDeclr(Declr("buf", [ArrayModifier(Const(10))]), EmptyExpr)]);
            var r := GetDeclns(EmptyEnv(true), d);
            var ty := TArray(TChar(false, false), 10, false, false);
            r.Ok? && r.value.1 == [(r.value.0, DeclRecord("buf", AutoScs, ty, EmptyExpr))] &&
            Find(r.value.0, "buf") == Entry(GlobalEntry, ty, 0) &&
            ty.SizeOf() == 10
  {
    assert !RowMatches(BasicTable()[0], [CharKw]);
    assert GetBasicType([CharKw]) == Char;
  }

  /** `typedef int T;` then `const T x;` in a block: `T` is a typedef of long, and `x` a
      const long on the stack. */
  lemma TypedefExample()
    ensures var d1 := Decln(DeclnSpecs([TypedefSpec], [BasicSpecifier(IntKw)], []),
                            [InitDeclr(Declr("T", []), EmptyExpr)]);
            var d2 := Decln(DeclnSpecs([], [TypedefName("T")], [ConstQual]),
                            [InitDeclr(Declr("x", []), EmptyExpr)]);
            var r1 := GetDeclns(EmptyEnv(false), d1);
            r1.Ok? &&
            Find(r1.value.0, "T") == Entry(TypedefEntry, TLong(false, false), 0) &&
            var r2 := GetDeclns(r1.value.0, d2);
            r2.Ok? &&
            r2.value.1[0].1 == DeclRecord("x", AutoScs, TLong(true, false), EmptyExpr) &&
            Find(r2.value.0, "x") == Entry(StackEntry, TLong(true, false), 0) &&
            Find(r2.value.0, "T") == Entry(TypedefEntry, TLong(false, false), 0)
  {
    var env0 := EmptyEnv(false);
    var long := TLong(false, false);
    var specs1 := DeclnSpecs([TypedefSpec], [BasicSpecifier(IntKw)], []);
    var specs2 := DeclnSpecs([], [TypedefName("T")], [ConstQual]);
    TypedefIntSpecs(env0);
    PlainDeclarator(env0, TypedefScs, long, "T", EmptyExpr);
    var env1 := PushEntry(env0, TypedefEntry, "T", long);
    var d1 := Decln(specs1, [InitDeclr(Declr("T", []), EmptyExpr)]);
    assert GetDeclns(env0, d1) == Ok((env1, [(env1, DeclRecord("T", TypedefScs, long, EmptyExpr))]));
    ConstTypedefSpecs(env1);
    PlainDeclarator(env1, AutoScs, TLong(true, false), "x", EmptyExpr);
  }

  /** `struct Point { long x, y; }` where the tag is unbound: the members resolve to two
      longs, the tag is bound to the complete struct, laid out with y at offset 4 and size 8. */
  lemma PointDefinitionExample(env: Env)
    requires Find(env, "struct Point").NotFound?
    ensures var list := [StructDeclaration(DeclnSpecs([], [BasicSpecifier(LongKw)], []), [Declr("x", []), Declr("y", [])])];
            var r := TagDefinition(env, false, "Point", list, false, false);
            var long := TLong(false, false);
            r.Ok? && r.value.1 == StructOf([("x", long), ("y", long)], false, false) &&
            Find(r.value.0, "struct Point") == Entry(TypedefEntry, r.value.1, 0) &&
            r.value.1.attribs[0].offset == 0 && r.value.1.attribs[1].offset == 4 && r.value.1.SizeOf() == 8
  {
    var long := TLong(false, false);
    var key := TagKey(false, "Point");
    assert key == "struct Point";
    var env1 := PushEntry(env, TypedefEntry, key, Placeholder(false, "Point", false, false));
    var d := StructDeclaration(DeclnSpecs([], [BasicSpecifier(LongKw)], []), [Declr("x", []), Declr("y", [])]);
    var ms := [("x", long), ("y", long)];
    PointMembers(env1);
    assert PositiveAlignments(ms);
    assert !BoundComplete(Find(env, key), false);
    StructPointExample();
  }

  /** `f(char a, long b)` declared over long: a function returning long whose parameters are
      laid out by the cdecl rule, a at 8 and b at 12, size 16. */
  lemma FunctionDeclaratorExample(env: Env)
    ensures var ps := [ParameterDeclaration(DeclnSpecs([], [BasicSpecifier(CharKw)], []), Declr("a", [])),
                       ParameterDeclaration(DeclnSpecs([], [BasicSpecifier(LongKw)], []), Declr("b", []))];
            var f := Declr("f", [FunctionModifier(ParameterTypeList(ps, false))]);
            var r := WrapExprType(env, f, TLong(false, false));
            var t := FunctionOf(TLong(false, false), [("a", TChar(false, false)), ("b", TLong(false, false))], false);
            r == Ok((env, t, "f")) &&
            t.args[0].offset == 8 && t.args[1].offset == 12 && t.SizeOf() == 16 && t.Alignment() == 4
  {
    var pa := ParameterDeclaration(DeclnSpecs([], [BasicSpecifier(CharKw)], []), Declr("a", []));
    var pb := ParameterDeclaration(DeclnSpecs([], [BasicSpecifier(LongKw)], []), Declr("b", []));
    var long := TLong(false, false);
    var t := FunctionOf(long, [("a", TChar(false, false)), ("b", long)], false);
    var mods := [FunctionModifier(ParameterTypeList([pa, pb], false))];
    assert WrapExprType(env, Declr("f", mods), long) == Ok((env, t, "f")) by {
      CdeclParams(env);
      assert ModifyType(env, mods[0], long) == Ok((env, t));
      assert mods[..0] == [];
      assert ApplyModifiers(env, mods, long) == Ok((env, t));
    }
    CdeclExample();
  }

  /** The member list `long x, y;`. */
  lemma PointMembers(env: Env)
    ensures var d := StructDeclaration(DeclnSpecs([], [BasicSpecifier(LongKw)], []), [Declr("x", []), Declr("y", [])]);
            GetAttribs(env, [d]) == Ok((env, [("x", TLong(false, false)), ("y", TLong(false, false))]))
  {
    var long := TLong(false, false);
    var d := StructDeclaration(DeclnSpecs([], [BasicSpecifier(LongKw)], []), [Declr("x", []), Declr("y", [])]);
    var ms := [("x", long), ("y", long)];
    LongSpecs(env);
    TwoPlainMembers(env, "x", "y", long);
    assert StructDeclns(env, d) == Ok((env, ms));
    assert [d][1..] == [];
    assert ms + [] == ms;
  }

  /** The parameter list `char a, long b`. */
  lemma CdeclParams(env: Env)
    ensures var ps := [ParameterDeclaration(DeclnSpecs([], [BasicSpecifier(CharKw)], []), Declr("a", [])),
                       ParameterDeclaration(DeclnSpecs([], [BasicSpecifier(LongKw)], []), Declr("b", []))];
            GetParamTypes(env, ps) == Ok((env, [("a", TChar(false, false)), ("b", TLong(false, false))]))
  {
    var long := TLong(false, false);
    var pa := ParameterDeclaration(DeclnSpecs([], [BasicSpecifier(CharKw)], []), Declr("a", []));
    var pb := ParameterDeclaration(DeclnSpecs([], [BasicSpecifier(LongKw)], []), Declr("b", []));
    CharSpecs(env);
    LongSpecs(env);
    PlainWrap(env, "a", TChar(false, false));
    PlainWrap(env, "b", long);
    TwoParams(env, pa, pb, ("a", TChar(false, false)), ("b", long));
  }

  /** A declarator without modifiers leaves the type and the environment as they are. */
  lemma PlainWrap(env: Env, name: string, t: ExprType)
    ensures WrapExprType(env, Declr(name, []), t) == Ok((env, t, name))
  {
    assert ApplyModifiers(env, [], t) == Ok((env, t));
  }

  /** Two plain declarators over one base type give two members of that type. */
  lemma TwoPlainMembers(env: Env, a: string, b: string, t: ExprType)
    ensures WrapMembers(env, [Declr(a, []), Declr(b, [])], t) == Ok((env, [(a, t), (b, t)]))
  {
    var ds := [Declr(a, []), Declr(b, [])];
    PlainWrap(env, a, t);
    PlainWrap(env, b, t);
    assert ds[1..] == [Declr(b, [])] && ds[1..][1..] == [];
    assert [(b, t)] + [] == [(b, t)];
    assert WrapMembers(env, ds[1..], t) == Ok((env, [(b, t)]));
    assert [(a, t)] + [(b, t)] == [(a, t), (b, t)];
    assert WrapMembers(env, ds, t) == Ok((env, [(a, t)] + [(b, t)]));
  }

  /** Two parameters that each resolve without touching the environment. */
  lemma TwoParams(env: Env, p: ParameterDeclaration, q: ParameterDeclaration, mp: Member, mq: Member)
    requires GetSCSType(env, p.specs).Ok? && GetSCSType(env, p.specs).value.0 == env
    requires WrapExprType(env, p.decl, GetSCSType(env, p.specs).value.2) == Ok((env, mp.1, mp.0))
    requires GetSCSType(env, q.specs).Ok? && GetSCSType(env, q.specs).value.0 == env
    requires WrapExprType(env, q.decl, GetSCSType(env, q.specs).value.2) == Ok((env, mq.1, mq.0))
    ensures GetParamTypes(env, [p, q]) == Ok((env, [mp, mq]))
  {
    assert GetParamDecln(env, p) == Ok((env, mp.0, mp.1));
    assert GetParamDecln(env, q) == Ok((env, mq.0, mq.1));
    var ps := [p, q];
    assert ps[1..] == [q] && ps[1..][1..] == [];
    assert [mq] + [] == [mq];
    assert GetParamTypes(env, ps[1..]) == Ok((env, [mq]));
    assert [mp] + [mq] == [mp, mq];
    assert GetParamTypes(env, ps) == Ok((env, [mp] + [mq]));
  }

  /** The specifiers `long`. */
  lemma LongSpecs(env: Env)
    ensures GetExprType(env, DeclnSpecs([], [BasicSpecifier(LongKw)], [])) == Ok((env, TLong(false, false)))
    ensures GetSCSType(env, DeclnSpecs([], [BasicSpecifier(LongKw)], [])) == Ok((env, AutoScs, TLong(false, false)))
  {
    LongIsLong();
    assert Keywords([BasicSpecifier(LongKw)]) == [LongKw];
  }

  /** `long` is the first qualifying row of its own. */
  lemma LongIsLong()
    ensures GetBasicType([LongKw]) == Long
  {
    FirstTenRows([LongKw]);
    SkipRows(BasicTable(), [LongKw], 0, 10);
  }

  /** The specifiers `char`. */
  lemma CharSpecs(env: Env)
    ensures GetSCSType(env, DeclnSpecs([], [BasicSpecifier(CharKw)], [])) == Ok((env, AutoScs, TChar(false, false)))
  {
    assert !RowMatches(BasicTable()[0], [CharKw]);
    assert GetBasicType([CharKw]) == Char;
    assert Keywords([BasicSpecifier(CharKw)]) == [CharKw];
  }

  /** The specifiers `typedef int`. */
  lemma TypedefIntSpecs(env: Env)
    ensures GetSCSType(env, DeclnSpecs([TypedefSpec], [BasicSpecifier(IntKw)], [])) ==
            Ok((env, TypedefScs, TLong(false, false)))
  {
    FirstTenRows([IntKw]);
    SkipRows(BasicTable(), [IntKw], 0, 10);
    assert GetBasicType([IntKw]) == Long;
    assert Keywords([BasicSpecifier(IntKw)]) == [IntKw];
  }

  /** The specifiers `const T` where `T` names a typedef of long. */
  lemma ConstTypedefSpecs(env: Env)
    requires Find(env, "T") == Entry(TypedefEntry, TLong(false, false), 0)
    ensures GetSCSType(env, DeclnSpecs([], [TypedefName("T")], [ConstQual])) ==
            Ok((env, AutoScs, TLong(true, false)))
  {
    assert TypedefType(env, "T", true, false) == Ok((env, TLong(true, false)));
  }

  /** A lone declarator without modifiers declares its name with the base type. */
  lemma PlainDeclarator(env: Env, scs: Scs, base: ExprType, name: string, init: Initializer)
    ensures var env2 := PushEntry(env, Placement(scs, IsGlobal(env)), name, base);
            DeclareFrom(env, scs, base, [InitDeclr(Declr(name, []), init)]) ==
              Ok((env2, [(env2, DeclRecord(name, scs, base, init))]))
  {
    var ids := [InitDeclr(Declr(name, []), init)];
    assert ApplyModifiers(env, [], base) == Ok((env, base));
    assert WrapExprType(env, ids[0].declr, base) == Ok((env, base, name));
    var env2 := PushEntry(env, Placement(scs, IsGlobal(env)), name, base);
    assert ids[1..] == [];
    assert DeclareFrom(env2, scs, base, ids[1..]) == Ok((env2, []));
    var recs := [(env2, DeclRecord(name, scs, base, init))];
    assert recs + [] == recs;
    assert DeclareFrom(env, scs, base, ids) == Ok((env2, recs + []));
  }
}
