/**
 * The loops of SyntaxTree/declarations.cs as methods. Each threads the environment the
 * way the source does and stops at the first failure (the source throws there); each is
 * proved to compute exactly the specification function in `Declarations`.
 */
module DeclarationLoops {
  import opened Wrappers
  import opened Types
  import opened Layout
  import opened Environment
  import opened Syntax
  import opened Declarations

  /** `acc` followed by the list of a successful result; failures pass through. */
  function Prefixed<X>(acc: seq<X>, r: Res<(Env, seq<X>)>): Res<(Env, seq<X>)> {
    match r
    case Ok((e, xs)) => Ok((e, acc + xs))
    case Err(err) => Err(err)
  }

  /** `GetBasicType`: the first row of the table whose keywords all occur in `specs`. */
  method BasicTypeLoop(specs: seq<BasicSpec>) returns (k: Kind)
    ensures k == GetBasicType(specs)
  {
    var i := 0;
    while i < |BasicTable()|
      invariant 0 <= i <= |BasicTable()|
      invariant GetBasicType(specs) == LookupFrom(BasicTable(), specs, i)
    {
      var all := RowMatchesLoop(BasicTable()[i], specs);
      if all {
        return BasicTable()[i].kind;
      }
      i := i + 1;
    }
    return Error;
  }

  /** The key test of `GetBasicType`: no keyword of the row is missing from `specs`. */
  method RowMatchesLoop(row: Row, specs: seq<BasicSpec>) returns (all: bool)
    ensures all == RowMatches(row, specs)
  {
    all := true;
    var j := 0;
    assert row.keys[j..] == row.keys;
    while j < |row.keys|
      invariant 0 <= j <= |row.keys|
      invariant RowMatches(row, specs) <==> all && AllIn(row.keys[j..], specs)
    {
      assert row.keys[j..][1..] == row.keys[j + 1..];
      if row.keys[j] !in specs {
        all := false;
      }
      j := j + 1;
    }
    assert row.keys[j..] == [];
  }

  /** `Declr.WrapExprType`: the modifiers are applied from the last one down. */
  method WrapLoop(env: Env, d: Declr, t: ExprType) returns (r: Res<(Env, ExprType, string)>)
    ensures r == WrapExprType(env, d, t)
  {
    if d.NullDeclarator? {
      return Ok((env, t, ""));
    }
    var mods := d.modifiers;
    var e, ty := env, t;
    var i := |mods|;
    assert mods[..i] == mods;
    while i > 0
      invariant 0 <= i <= |mods|
      invariant ApplyModifiers(env, mods, t) == ApplyModifiers(e, mods[..i], ty)
    {
      assert mods[..i][..i - 1] == mods[..i - 1];
      var m := ModifyType(e, mods[i - 1], ty);
      if m.Err? {
        return Err(m.error);
      }
      e, ty := m.value.0, m.value.1;
      i := i - 1;
    }
    return Ok((e, ty, d.name));
  }

  /** `EnumSpecifier.GetExprType`: the enumerator loop numbers from 0, restarting after
      every explicit value. */
  method EnumLoop(env: Env, name: string, enums: Option<seq<Enumerator>>, c: bool, v: bool)
    returns (r: Res<(Env, ExprType)>)
    ensures r == EnumType(env, name, enums, c, v)
  {
    if enums.None? {
      var entry := Find(env, "enum " + name);
      if entry.NotFound? || entry.kind != TypedefEntry {
        return Err(EnumNotDefined(name));
      }
      return Ok((env, TLong(c, v)));
    }
    var list := enums.value;
    var e := env;
    var idx := 0;
    var i := 0;
    while i < |list|
      invariant 0 <= i <= |list|
      invariant EnumBody(env, list, 0) == EnumBody(e, list[i..], idx)
    {
      assert list[i..][1..] == list[i + 1..];
      var value := EnumeratorValue(list[i], idx);
      if value.Err? {
        return Err(value.error);
      }
      e := PushEnum(e, list[i].name, TLong(false, false), value.value);
      idx := value.value + 1;
      i := i + 1;
    }
    return Ok((PushEntry(e, TypedefEntry, "enum " + name, TLong(false, false)), TLong(c, v)));
  }

  /** The declarator loop of `StructDeclaration.GetDeclns`. */
  method WrapMembersLoop(env: Env, declrs: seq<Declr>, base: ExprType) returns (r: Res<(Env, seq<Member>)>)
    ensures r == WrapMembers(env, declrs, base)
  {
    var e := env;
    var attribs: seq<Member> := [];
    var i := 0;
    assert declrs[i..] == declrs;
    PrefixedEmpty(WrapMembers(env, declrs, base));
    while i < |declrs|
      invariant 0 <= i <= |declrs|
      invariant WrapMembers(env, declrs, base) == Prefixed(attribs, WrapMembers(e, declrs[i..], base))
    {
      assert declrs[i..][1..] == declrs[i + 1..];
      var w := WrapLoop(e, declrs[i], base);
      if w.Err? {
        return Err(w.error);
      }
      assert attribs + ([(w.value.2, w.value.1)] + []) == attribs + [(w.value.2, w.value.1)];
      PrefixedAppend(attribs, [(w.value.2, w.value.1)], WrapMembers(w.value.0, declrs[i + 1..], base));
      e := w.value.0;
      attribs := attribs + [(w.value.2, w.value.1)];
      i := i + 1;
    }
    assert declrs[i..] == [] && attribs + [] == attribs;
    return Ok((e, attribs));
  }

  /** `StructDeclaration.GetDeclns`: one base type, one member per declarator. */
  method StructDeclnsLoop(env: Env, d: StructDeclaration) returns (r: Res<(Env, seq<Member>)>)
    ensures r == StructDeclns(env, d)
  {
    var s := GetExprType(env, d.specs);
    if s.Err? {
      return Err(s.error);
    }
    r := WrapMembersLoop(s.value.0, d.declrs, s.value.1);
  }

  /** `GetAttribs`: the members of every struct declaration, in order. */
  method AttribsLoop(env: Env, declns: seq<StructDeclaration>) returns (r: Res<(Env, seq<Member>)>)
    ensures r == GetAttribs(env, declns)
  {
    var e := env;
    var attribs: seq<Member> := [];
    var i := 0;
    assert declns[i..] == declns;
    PrefixedEmpty(GetAttribs(env, declns));
    while i < |declns|
      invariant 0 <= i <= |declns|
      invariant GetAttribs(env, declns) == Prefixed(attribs, GetAttribs(e, declns[i..]))
    {
      assert declns[i..][1..] == declns[i + 1..];
      var s := StructDeclnsLoop(e, declns[i]);
      if s.Err? {
        return Err(s.error);
      }
      PrefixedAppend(attribs, s.value.1, GetAttribs(s.value.0, declns[i + 1..]));
      e := s.value.0;
      attribs := attribs + s.value.1;
      i := i + 1;
    }
    assert declns[i..] == [] && attribs + [] == attribs;
    return Ok((e, attribs));
  }

  /** `ParameterTypeList.GetParamTypes`: each parameter in the environment the previous
      one left. */
  method ParamTypesLoop(env: Env, ps: seq<ParameterDeclaration>) returns (r: Res<(Env, seq<Member>)>)
    ensures r == GetParamTypes(env, ps)
  {
    var e := env;
    var params: seq<Member> := [];
    var i := 0;
    assert ps[i..] == ps;
    PrefixedEmpty(GetParamTypes(env, ps));
    while i < |ps|
      invariant 0 <= i <= |ps|
      invariant GetParamTypes(env, ps) == Prefixed(params, GetParamTypes(e, ps[i..]))
    {
      assert ps[i..][1..] == ps[i + 1..];
      var p := GetParamDecln(e, ps[i]);
      if p.Err? {
        return Err(p.error);
      }
      PrefixedAppend(params, [(p.value.1, p.value.2)], GetParamTypes(p.value.0, ps[i + 1..]));
      e := p.value.0;
      params := params + [(p.value.1, p.value.2)];
      i := i + 1;
    }
    assert ps[i..] == [] && params + [] == params;
    return Ok((e, params));
  }

  /** `Decln.GetDeclns`: resolve the specifiers once, then for every declarator wrap the
      type, choose the entry kind, push the name and record the declaration together with
      the environment after the push. */
  method DeclnsLoop(env: Env, d: Decln) returns (r: Res<(Env, seq<(Env, DeclRecord)>)>)
    ensures r == GetDeclns(env, d)
  {
    var s := GetSCSType(env, d.specs);
    if s.Err? {
      return Err(s.error);
    }
    var e, scs, base := s.value.0, s.value.1, s.value.2;
    var ids := d.initDeclrs;
    var declns: seq<(Env, DeclRecord)> := [];
    var i := 0;
    assert ids[i..] == ids;
    PrefixedEmpty(DeclareFrom(e, scs, base, ids));
    while i < |ids|
      invariant 0 <= i <= |ids|
      invariant GetDeclns(env, d) == Prefixed(declns, DeclareFrom(e, scs, base, ids[i..]))
    {
      assert ids[i..][1..] == ids[i + 1..];
      var w := WrapLoop(e, ids[i].declr, base);
      if w.Err? {
        return Err(w.error);
      }
      var loc := Placement(scs, IsGlobal(w.value.0));
      var e2 := PushEntry(w.value.0, loc, w.value.2, w.value.1);
      var record := (e2, DeclRecord(w.value.2, scs, w.value.1, ids[i].init));
      PrefixedAppend(declns, [record], DeclareFrom(e2, scs, base, ids[i + 1..]));
      e := e2;
      declns := declns + [record];
      i := i + 1;
    }
    assert ids[i..] == [] && declns + [] == declns;
    return Ok((e, declns));
  }

  lemma PrefixedEmpty<X>(r: Res<(Env, seq<X>)>)
    ensures Prefixed([], r) == r
  {
    if r.Ok? {
      assert [] + r.value.1 == r.value.1;
    }
  }

  /** Prefixing twice is prefixing with the concatenation. */
  lemma PrefixedAppend<X>(acc: seq<X>, xs: seq<X>, r: Res<(Env, seq<X>)>)
    ensures Prefixed(acc, Prefixed(xs, r)) == Prefixed(acc + xs, r)
  {
    if r.Ok? {
      assert acc + (xs + r.value.1) == (acc + xs) + r.value.1;
    }
  }
}
