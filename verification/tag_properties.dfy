/**
 * Properties of enum, struct and union specifiers: what the enumerator loop binds and
 * with which values, and how tags are bound by mentions and definitions.
 */
module TagProperties {
  import opened Wrappers
  import opened Types
  import opened Layout
  import opened Environment
  import opened Syntax
  import opened Declarations

  // ---------------------------------------------------------------------------
  // Enumerators
  // ---------------------------------------------------------------------------

  /** The value of enumerator `i` as section 3.5.2.2 of ANSI X3.159-1989 defines it: its
      constant if it has one, otherwise one more than the previous enumerator, and the
      starting counter for the first. */
  function EnumValueAt(enums: seq<Enumerator>, idx: int, i: nat): int
    requires i < |enums|
    decreases i
  {
    var counter := if i == 0 then idx else EnumValueAt(enums, idx, i - 1) + 1;
    match enums[i].init
    case Some(Const(n)) => n
    case _ => counter
  }

  predicate HasNonConstant(enums: seq<Enumerator>) {
    exists i :: 0 <= i < |enums| && enums[i].init == Some(NotConst)
  }

  /** The enumerator loop fails exactly when some initializer is not a constant. */
  lemma {:induction false} EnumBodyFailsIffNotConst(env: Env, enums: seq<Enumerator>, idx: int)
    ensures EnumBody(env, enums, idx).Err? <==> HasNonConstant(enums)
    ensures EnumBody(env, enums, idx).Err? ==> EnumBody(env, enums, idx).error == EnumInitNotConstant
    decreases |enums|
  {
    if |enums| > 0 {
      var e := enums[0];
      if e.init != Some(NotConst) {
        var value := EnumeratorValue(e, idx).value;
        EnumBodyFailsIffNotConst(PushEnum(env, e.name, TLong(false, false), value), enums[1..], value + 1);
        if HasNonConstant(enums[1..]) {
          var k :| 0 <= k < |enums[1..]| && enums[1..][k].init == Some(NotConst);
          assert enums[k + 1].init == Some(NotConst);
        }
        if HasNonConstant(enums) {
          var k :| 0 <= k < |enums| && enums[k].init == Some(NotConst);
          assert k > 0 && enums[1..][k - 1].init == Some(NotConst);
        }
      } else {
        assert enums[0].init == Some(NotConst);
      }
    }
  }

  /** The enumerator loop binds nothing but the enumerators' names and keeps the scope. */
  lemma {:induction false} EnumBodyFrame(env: Env, enums: seq<Enumerator>, idx: int, name: string)
    requires EnumBody(env, enums, idx).Ok?
    requires forall i :: 0 <= i < |enums| ==> enums[i].name != name
    ensures Find(EnumBody(env, enums, idx).value, name) == Find(env, name)
    ensures IsGlobal(EnumBody(env, enums, idx).value) == IsGlobal(env)
    decreases |enums|
  {
    if |enums| > 0 {
      var value := EnumeratorValue(enums[0], idx).value;
      var env1 := PushEnum(env, enums[0].name, TLong(false, false), value);
      assert forall i :: 0 <= i < |enums[1..]| ==> enums[1..][i] == enums[i + 1];
      EnumBodyFrame(env1, enums[1..], value + 1, name);
    }
  }

  /** Dropping the first enumerator restarts the numbering one past its value. */
  lemma {:induction false} EnumValueShift(enums: seq<Enumerator>, idx: int, i: nat)
    requires 1 <= i < |enums|
    ensures EnumValueAt(enums, idx, i) == EnumValueAt(enums[1..], EnumValueAt(enums, idx, 0) + 1, i - 1)
    decreases i
  {
    if i > 1 {
      EnumValueShift(enums, idx, i - 1);
    }
  }

  /** Each enumerator that is not shadowed by a later one of the same name ends up bound as
      an enumeration constant of type long with the value `EnumValueAt` assigns it. */
  lemma {:induction false} EnumBodyBindsAll(env: Env, enums: seq<Enumerator>, idx: int, i: nat)
    requires EnumBody(env, enums, idx).Ok?
    requires i < |enums|
    requires forall j :: i < j < |enums| ==> enums[j].name != enums[i].name
    ensures Find(EnumBody(env, enums, idx).value, enums[i].name) == Entry(EnumEntry, TLong(false, false), EnumValueAt(enums, idx, i))
    decreases |enums|
  {
    var value := EnumeratorValue(enums[0], idx).value;
    assert value == EnumValueAt(enums, idx, 0);
    var env1 := PushEnum(env, enums[0].name, TLong(false, false), value);
    assert forall k :: 0 <= k < |enums[1..]| ==> enums[1..][k] == enums[k + 1];
    if i == 0 {
      EnumBodyFrame(env1, enums[1..], value + 1, enums[0].name);
    } else {
      EnumBodyBindsAll(env1, enums[1..], value + 1, i - 1);
      EnumValueShift(enums, idx, i);
    }
  }

  /** `enum { A, B = 5, C }` numbers its enumerators 0, 5 and 6. */
  lemma EnumExample(env: Env)
    ensures var enums := [Enumerator("A", None), Enumerator("B", Some(Const(5))), Enumerator("C", None)];
            var r := EnumBody(env, enums, 0);
            r.Ok? &&
            Find(r.value, "A") == Entry(EnumEntry, TLong(false, false), 0) &&
            Find(r.value, "B") == Entry(EnumEntry, TLong(false, false), 5) &&
            Find(r.value, "C") == Entry(EnumEntry, TLong(false, false), 6)
  {
    var enums := [Enumerator("A", None), Enumerator("B", Some(Const(5))), Enumerator("C", None)];
    EnumBodyFailsIffNotConst(env, enums, 0);
    assert !HasNonConstant(enums);
    assert enums[0].name != enums[1].name && enums[0].name != enums[2].name && enums[1].name != enums[2].name;
    EnumBodyBindsAll(env, enums, 0, 0);
    EnumBodyBindsAll(env, enums, 0, 1);
    EnumBodyBindsAll(env, enums, 0, 2);
  }

  /** An enum specifier always denotes long with the specifier's qualifiers. With a body it
      binds the tag as a typedef of long; without one it changes nothing and succeeds exactly
      when the tag is bound as a typedef. */
  lemma EnumTypeResult(env: Env, name: string, enums: Option<seq<Enumerator>>, c: bool, v: bool)
    ensures var r := EnumType(env, name, enums, c, v);
            r.Ok? ==> r.value.1 == TLong(c, v)
    ensures var r := EnumType(env, name, enums, c, v);
            enums.Some? && r.Ok? ==> Find(r.value.0, "enum " + name) == Entry(TypedefEntry, TLong(false, false), 0)
    ensures var r := EnumType(env, name, enums, c, v);
            enums.None? ==> (r.Ok? <==> Find(env, "enum " + name).Entry? && Find(env, "enum " + name).kind == TypedefEntry)
    ensures var r := EnumType(env, name, enums, c, v);
            enums.None? && r.Ok? ==> r.value.0 == env
  {
  }

  // ---------------------------------------------------------------------------
  // Tags
  // ---------------------------------------------------------------------------

  /** Struct and union tags live in separate name spaces inside the one table, apart from
      enum tags and from each other, and a tag key determines its tag. */
  lemma {:induction false} TagKeysDistinct(u1: bool, n1: string, u2: bool, n2: string, m: string)
    ensures TagKey(u1, n1) == TagKey(u2, n2) <==> u1 == u2 && n1 == n2
    ensures TagKey(u1, n1) != "enum " + m
  {
    var k1, k2 := TagKey(u1, n1), TagKey(u2, n2);
    assert k1[0] == (if u1 then 'u' else 's');
    assert k2[0] == (if u2 then 'u' else 's');
    assert ("enum " + m)[0] == 'e';
    if k1 == k2 {
      assert u1 == u2;
      var p := if u1 then "union " else "struct ";
      assert k1 == p + n1 && k2 == p + n2;
      assert n1 == k1[|p|..] && n2 == k2[|p|..];
    }
  }

  /** A successful definition yields a complete aggregate of its kind and binds a named tag
      to it. */
  lemma FirstDefinitionBinds(env: Env, isUnion: bool, name: string, list: seq<StructDeclaration>, c: bool, v: bool)
    requires TagDefinition(env, isUnion, name, list, c, v).Ok?
    ensures var r := TagDefinition(env, isUnion, name, list, c, v).value;
            r.1.KindOf() == CompleteKind(isUnion) &&
            (name != "" ==> Find(r.0, TagKey(isUnion, name)) == Entry(TypedefEntry, r.1, 0))
  {
    var key := TagKey(isUnion, name);
    var env1 := if name == "" then env else PushEntry(env, TypedefEntry, key, Placeholder(isUnion, name, c, v));
    var attrs := GetAttribs(env1, list);
    assert attrs.Ok?;
    var agg := MakeAggregate(isUnion, attrs.value.1, c, v);
    assert agg.Ok?;
  }

  /** A named struct or union cannot be defined twice in one environment. */
  lemma DefineTwiceFails(env: Env, isUnion: bool, name: string, list: seq<StructDeclaration>, c: bool, v: bool,
                         list2: seq<StructDeclaration>, c2: bool, v2: bool)
    requires name != ""
    requires TagDefinition(env, isUnion, name, list, c, v).Ok?
    ensures var env1 := TagDefinition(env, isUnion, name, list, c, v).value.0;
            TagDefinition(env1, isUnion, name, list2, c2, v2) == Err(Redefinition(TagKey(isUnion, name)))
  {
    FirstDefinitionBinds(env, isUnion, name, list, c, v);
  }

  /** A mention after a definition returns the defined type itself: the mention's own
      qualifiers are not applied, and nothing is bound. */
  lemma MentionAfterDefinition(env: Env, isUnion: bool, name: string, list: seq<StructDeclaration>, c: bool, v: bool,
                               c2: bool, v2: bool)
    requires name != ""
    requires TagDefinition(env, isUnion, name, list, c, v).Ok?
    ensures var r := TagDefinition(env, isUnion, name, list, c, v).value;
            TagMention(r.0, isUnion, name, c2, v2) == Ok((r.0, r.1))
  {
    FirstDefinitionBinds(env, isUnion, name, list, c, v);
  }

  /** The first mention of a named tag binds an incomplete placeholder carrying the
      mention's qualifiers; an anonymous mention is an error. */
  lemma MentionUnboundBindsPlaceholder(env: Env, isUnion: bool, name: string, c: bool, v: bool)
    requires Find(env, TagKey(isUnion, name)).NotFound?
    ensures name == "" ==> TagMention(env, isUnion, name, c, v) == Err(MissingMemberList)
    ensures name != "" ==>
            var r := TagMention(env, isUnion, name, c, v);
            r.Ok? && r.value.1 == Placeholder(isUnion, name, c, v) &&
            r.value.1.KindOf() != CompleteKind(isUnion) &&
            r.value.1.IsConst() == c && r.value.1.IsVolatile() == v &&
            Find(r.value.0, TagKey(isUnion, name)) == Entry(TypedefEntry, r.value.1, 0) &&
            forall other :: other != TagKey(isUnion, name) ==> Find(r.value.0, other) == Find(env, other)
  {
  }

  /** A forward declaration does not change what a later definition of the same tag
      yields: the definition sees the placeholder, which is not complete, and replaces it. */
  lemma MentionThenDefine(env: Env, isUnion: bool, name: string, c: bool, v: bool,
                          list: seq<StructDeclaration>, c2: bool, v2: bool)
    requires name != "" && Find(env, TagKey(isUnion, name)).NotFound?
    ensures var env1 := TagMention(env, isUnion, name, c, v).value.0;
            TagDefinition(env1, isUnion, name, list, c2, v2) == TagDefinition(env, isUnion, name, list, c2, v2)
  {
    var key := TagKey(isUnion, name);
    var env1 := TagMention(env, isUnion, name, c, v).value.0;
    var p := Placeholder(isUnion, name, c2, v2);
    assert env1 == PushEntry(env, TypedefEntry, key, Placeholder(isUnion, name, c, v));
    assert !BoundComplete(Find(env1, key), isUnion) && !BoundComplete(Find(env, key), isUnion);
    assert PushEntry(env1, TypedefEntry, key, p) == PushEntry(env, TypedefEntry, key, p) by {
      assert env1.table[key := Entry(TypedefEntry, p, 0)] == env.table[key := Entry(TypedefEntry, p, 0)];
    }
    TagDefinitionNamed(env1, isUnion, name, list, c2, v2);
    TagDefinitionNamed(env, isUnion, name, list, c2, v2);
  }

  /** A named definition where the tag is not yet complete resolves its members in the
      environment where the tag is bound to an incomplete placeholder, so a member that
      mentions the tag (a pointer to the aggregate itself) sees that placeholder; the tag is
      then rebound to the complete type. */
  lemma TagDefinitionNamed(env: Env, isUnion: bool, name: string, list: seq<StructDeclaration>, c: bool, v: bool)
    requires name != "" && !BoundComplete(Find(env, TagKey(isUnion, name)), isUnion)
    ensures var key := TagKey(isUnion, name);
            var p := Placeholder(isUnion, name, c, v);
            var env1 := PushEntry(env, TypedefEntry, key, p);
            TagDefinition(env, isUnion, name, list, c, v) ==
              (match GetAttribs(env1, list)
               case Err(e) => Err(e)
               case Ok(r) =>
                 match MakeAggregate(isUnion, r.1, c, v)
                 case Err(e) => Err(e)
                 case Ok(t) => Ok((PushEntry(r.0, TypedefEntry, key, t), t))) &&
            p.KindOf() != CompleteKind(isUnion) &&
            forall c2: bool, v2: bool :: TagMention(env1, isUnion, name, c2, v2) == Ok((env1, p))
  {
  }

  /** A mention of a bound tag returns the bound type unchanged when the binding is a
      typedef entry, leaving the environment as it is, and is an error otherwise. */
  lemma MentionOfBoundTag(env: Env, isUnion: bool, name: string, c: bool, v: bool)
    requires name != "" && Find(env, TagKey(isUnion, name)).Entry?
    ensures var e := Find(env, TagKey(isUnion, name));
            var r := TagMention(env, isUnion, name, c, v);
            (e.kind == TypedefEntry ==> r == Ok((env, e.ty))) &&
            (e.kind != TypedefEntry ==> r == Err(TagNotAType(TagKey(isUnion, name))))
  {
  }

  /** An anonymous struct or union binds no tag: the environment afterwards is the one
      its members left. */
  lemma AnonymousDefinitionBindsNoTag(env: Env, isUnion: bool, list: seq<StructDeclaration>, c: bool, v: bool)
    requires TagDefinition(env, isUnion, "", list, c, v).Ok?
    ensures GetAttribs(env, list).Ok?
    ensures TagDefinition(env, isUnion, "", list, c, v).value.0 == GetAttribs(env, list).value.0
  {
  }
}
