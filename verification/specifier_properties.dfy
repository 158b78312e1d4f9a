/**
 * Properties of declaration specifiers: storage classes, the basic-type table and the
 * dispatch of `DeclnSpecs.GetExprType`.
 */
module SpecifierProperties {
  import opened Wrappers
  import opened Types
  import opened Environment
  import opened Syntax
  import opened Declarations

  // ---------------------------------------------------------------------------
  // Storage classes
  // ---------------------------------------------------------------------------

  /** At most one storage-class specifier is accepted; none means NULL. */
  lemma StorageClassCount(scs: seq<StorageClassSpec>)
    ensures GetStorageClass(scs).Ok? <==> |scs| <= 1
    ensures |scs| == 0 ==> GetStorageClass(scs) == Ok(NullSpec)
    ensures |scs| == 1 ==> GetStorageClass(scs) == Ok(scs[0])
  {
  }

  /** NULL, auto and register all give automatic storage; only the ERROR specifier is refused. */
  lemma StorageClassMapping(spec: StorageClassSpec)
    ensures ScsOf(spec) == Ok(AutoScs) <==> spec == NullSpec || spec == AutoSpec || spec == RegisterSpec
    ensures ScsOf(spec).Err? <==> spec == ErrorSpec
    ensures ScsOf(spec) == Ok(TypedefScs) <==> spec == TypedefSpec
  {
  }

  /** The type is resolved before the storage class is looked at: a type error wins over a
      storage-class error, and on success the environment and type are those of the type. */
  lemma TypeBeforeStorageClass(env: Env, specs: DeclnSpecs)
    ensures GetExprType(env, specs).Err? ==> GetSCSType(env, specs) == Err(GetExprType(env, specs).error)
    ensures GetSCSType(env, specs).Ok? <==>
              GetExprType(env, specs).Ok? && |specs.scs| <= 1 && !(|specs.scs| == 1 && specs.scs[0] == ErrorSpec)
    ensures GetSCSType(env, specs).Ok? ==>
              GetSCSType(env, specs).value.0 == GetExprType(env, specs).value.0 &&
              GetSCSType(env, specs).value.2 == GetExprType(env, specs).value.1
  {
  }

  // ---------------------------------------------------------------------------
  // The basic-type table
  // ---------------------------------------------------------------------------

  /** A row qualifies exactly when none of its keywords is missing from the list. */
  lemma {:induction false} AllInMeansSubset(keys: seq<BasicSpec>, specs: seq<BasicSpec>)
    ensures AllIn(keys, specs) <==> forall k :: k in keys ==> k in specs
    decreases |keys|
  {
    if |keys| > 0 {
      AllInMeansSubset(keys[1..], specs);
      assert forall k :: k in keys <==> k == keys[0] || k in keys[1..];
    }
  }

  /** No row of `table` at or after `i` qualifies. */
  predicate NoMatchFrom(table: seq<Row>, specs: seq<BasicSpec>, i: int) {
    forall j :: 0 <= i <= j < |table| ==> !RowMatches(table[j], specs)
  }

  /** Row `j` is the first row of `table`, at or after `i`, that qualifies. */
  predicate FirstMatchAt(table: seq<Row>, specs: seq<BasicSpec>, i: int, j: int) {
    0 <= i <= j < |table| && RowMatches(table[j], specs) &&
    forall m :: i <= m < j ==> !RowMatches(table[m], specs)
  }

  /** The lookup from row `i` yields the kind of the first qualifying row, or ERROR when
      there is none (for a table that does not itself list ERROR). */
  lemma {:induction false} LookupFromFirstMatch(table: seq<Row>, specs: seq<BasicSpec>, i: nat)
    requires i <= |table|
    requires forall j :: 0 <= j < |table| ==> table[j].kind != Error
    ensures LookupFrom(table, specs, i) == Error <==> NoMatchFrom(table, specs, i)
    ensures LookupFrom(table, specs, i) != Error ==>
              exists j :: FirstMatchAt(table, specs, i, j) && table[j].kind == LookupFrom(table, specs, i)
    decreases |table| - i
  {
    if i < |table| {
      if RowMatches(table[i], specs) {
        assert FirstMatchAt(table, specs, i, i);
      } else {
        LookupFromFirstMatch(table, specs, i + 1);
        if LookupFrom(table, specs, i) != Error {
          var j :| FirstMatchAt(table, specs, i + 1, j) && table[j].kind == LookupFrom(table, specs, i);
          assert FirstMatchAt(table, specs, i, j);
        }
      }
    }
  }

  /** Conversely, the first qualifying row decides the lookup. */
  lemma {:induction false} FirstMatchDecides(table: seq<Row>, specs: seq<BasicSpec>, i: nat, j: nat)
    requires i <= j && FirstMatchAt(table, specs, i, j)
    ensures LookupFrom(table, specs, i) == table[j].kind
    decreases j - i
  {
    if i < j {
      FirstMatchDecides(table, specs, i + 1, j);
    }
  }

  /** The kinds the table lists: the basic types and void. */
  predicate IsBasicKind(k: Kind) {
    k in {Void, Char, UChar, Short, UShort, Long, ULong, Float, Double}
  }

  lemma TableKinds()
    ensures forall j :: 0 <= j < |BasicTable()| ==> IsBasicKind(BasicTable()[j].kind)
    ensures forall j :: 0 <= j < |BasicTable()| && BasicTable()[j].kind == UChar ==> j == 3
    ensures forall j :: 0 <= j < |BasicTable()| && BasicTable()[j].kind == UShort ==> j == 8 || j == 9
  {
  }

  /** `GetBasicType` yields the kind of the first row, in table order, whose keywords all
      occur among the given ones, and ERROR exactly when no row qualifies. */
  lemma BasicTypeIsFirstMatch(specs: seq<BasicSpec>)
    ensures GetBasicType(specs) == Error <==> NoMatchFrom(BasicTable(), specs, 0)
    ensures GetBasicType(specs) != Error ==>
              exists j :: FirstMatchAt(BasicTable(), specs, 0, j) && BasicTable()[j].kind == GetBasicType(specs)
    ensures IsBasicKind(GetBasicType(specs)) || GetBasicType(specs) == Error
  {
    TableKinds();
    LookupFromFirstMatch(BasicTable(), specs, 0);
  }

  /** Only which keywords occur matters: order and repetition are ignored. */
  lemma {:induction false} LookupFromSetSemantics(table: seq<Row>, s1: seq<BasicSpec>, s2: seq<BasicSpec>, i: nat)
    requires i <= |table|
    requires forall k :: k in s1 <==> k in s2
    ensures LookupFrom(table, s1, i) == LookupFrom(table, s2, i)
    decreases |table| - i
  {
    if i < |table| {
      AllInMeansSubset(table[i].keys, s1);
      AllInMeansSubset(table[i].keys, s2);
      LookupFromSetSemantics(table, s1, s2, i + 1);
    }
  }

  lemma BasicTypeSetSemantics(s1: seq<BasicSpec>, s2: seq<BasicSpec>)
    requires forall k :: k in s1 <==> k in s2
    ensures GetBasicType(s1) == GetBasicType(s2)
  {
    LookupFromSetSemantics(BasicTable(), s1, s2, 0);
  }

  /** The row index of the one-keyword row for `k`. */
  function SingletonRow(k: BasicSpec): (j: nat)
    ensures j < |BasicTable()| && BasicTable()[j].keys == [k]
  {
    match k
    case VoidKw => 0
    case CharKw => 1
    case ShortKw => 4
    case IntKw => 10
    case SignedKw => 11
    case LongKw => 13
    case UnsignedKw => 17
    case FloatKw => 21
    case DoubleKw => 22
  }

  /** Every keyword has a row of its own, so a non-empty keyword list never yields ERROR:
      inconsistent combinations such as `short char` are accepted. */
  lemma NonEmptyNeverError(specs: seq<BasicSpec>)
    requires |specs| > 0
    ensures GetBasicType(specs) != Error
  {
    BasicTypeIsFirstMatch(specs);
    assert RowMatches(BasicTable()[SingletonRow(specs[0])], specs);
  }

  /** A kind every one of whose rows contains keyword `k`, and which a one-keyword row
      for `k` precedes, is never the result of the lookup. */
  lemma {:induction false} ShadowedKind(table: seq<Row>, specs: seq<BasicSpec>, i: nat, a: nat, k: BasicSpec, kind: Kind)
    requires i <= a < |table| && table[a].keys == [k] && table[a].kind != kind && kind != Error
    requires forall j :: i <= j < |table| && table[j].kind == kind ==> a < j && k in table[j].keys
    ensures LookupFrom(table, specs, i) != kind
    decreases a - i
  {
    if i < a {
      if !RowMatches(table[i], specs) {
        ShadowedKind(table, specs, i + 1, a, k, kind);
      }
    } else if !RowMatches(table[a], specs) {
      AllInMeansSubset(table[a].keys, specs);
      MissingKeyExcludes(table, specs, a + 1, k, kind);
    }
  }

  /** With keyword `k` absent, no row containing `k` can be the one the lookup picks. */
  lemma {:induction false} MissingKeyExcludes(table: seq<Row>, specs: seq<BasicSpec>, i: nat, k: BasicSpec, kind: Kind)
    requires i <= |table| && k !in specs && kind != Error
    requires forall j :: i <= j < |table| && table[j].kind == kind ==> k in table[j].keys
    ensures LookupFrom(table, specs, i) != kind
    decreases |table| - i
  {
    if i < |table| {
      AllInMeansSubset(table[i].keys, specs);
      MissingKeyExcludes(table, specs, i + 1, k, kind);
    }
  }

  lemma UnsignedRows()
    ensures BasicTable()[1] == Row([CharKw], Char) && BasicTable()[4] == Row([ShortKw], Short)
    ensures forall j :: 0 <= j < |BasicTable()| && BasicTable()[j].kind == UChar ==> 1 < j && CharKw in BasicTable()[j].keys
    ensures forall j :: 0 <= j < |BasicTable()| && BasicTable()[j].kind == UShort ==> 4 < j && ShortKw in BasicTable()[j].keys
  {
  }

  /** Every row for an unsigned char or unsigned short contains `char` or `short`, whose own
      row comes earlier, so those kinds are never the result. */
  lemma UnsignedCharShortUnreachable(specs: seq<BasicSpec>)
    ensures GetBasicType(specs) != UChar && GetBasicType(specs) != UShort
  {
    UnsignedRows();
    ShadowedKind(BasicTable(), specs, 0, 1, CharKw, UChar);
    ShadowedKind(BasicTable(), specs, 0, 4, ShortKw, UShort);
  }

  /** `unsigned short` is short: the one-keyword `short` row comes first. */
  lemma UnsignedShortIsShort()
    ensures GetBasicType([UnsignedKw, ShortKw]) == Short
  {
  }

  /** `unsigned char` is char. */
  lemma UnsignedCharIsChar()
    ensures GetBasicType([UnsignedKw, CharKw]) == Char
  {
  }

  /** Rows that do not qualify are skipped. */
  lemma {:induction false} SkipRows(table: seq<Row>, specs: seq<BasicSpec>, i: nat, j: nat)
    requires i <= j <= |table|
    requires forall m :: i <= m < j ==> !RowMatches(table[m], specs)
    ensures LookupFrom(table, specs, i) == LookupFrom(table, specs, j)
    decreases j - i
  {
    if i < j {
      SkipRows(table, specs, i + 1, j);
    }
  }

  /** Rows 0 to 9 all need `void`, `char` or `short`. */
  lemma FirstTenRows(specs: seq<BasicSpec>)
    requires VoidKw !in specs && CharKw !in specs && ShortKw !in specs
    ensures forall m :: 0 <= m < 10 ==> !RowMatches(BasicTable()[m], specs)
  {
    assert forall m :: 0 <= m < 10 ==>
      VoidKw in BasicTable()[m].keys || CharKw in BasicTable()[m].keys || ShortKw in BasicTable()[m].keys;
    forall m | 0 <= m < 10 {
      AllInMeansSubset(BasicTable()[m].keys, specs);
    }
  }

  /** `unsigned int` is signed long: the one-keyword `int` row comes first. */
  lemma UnsignedIntIsLong()
    ensures GetBasicType([UnsignedKw, IntKw]) == Long
  {
    var ui := [UnsignedKw, IntKw];
    FirstTenRows(ui);
    SkipRows(BasicTable(), ui, 0, 10);
  }

  /** `long double` is long: the one-keyword `long` row comes first. */
  lemma LongDoubleIsLong()
    ensures GetBasicType([LongKw, DoubleKw]) == Long
  {
    var ld := [LongKw, DoubleKw];
    FirstTenRows(ld);
    SkipRows(BasicTable(), ld, 0, 10);
  }

  // ---------------------------------------------------------------------------
  // GetExprType
  // ---------------------------------------------------------------------------

  /** With only basic specifiers the environment is untouched, the type is the table's kind
      and carries exactly the qualifiers listed; `void` is refused. */
  lemma BasicSpecifiersResolve(env: Env, specs: DeclnSpecs)
    requires |specs.typeSpecs| > 0
    requires forall i :: 0 <= i < |specs.typeSpecs| ==> specs.typeSpecs[i].BasicSpecifier?
    ensures GetExprType(env, specs).Ok? <==> GetBasicType(Keywords(specs.typeSpecs)) != Void
    ensures GetExprType(env, specs).Ok? ==>
              var t := GetExprType(env, specs).value.1;
              GetExprType(env, specs).value.0 == env &&
              t.KindOf() == GetBasicType(Keywords(specs.typeSpecs)) &&
              t.IsArith() &&
              t.IsConst() == (ConstQual in specs.quals) && t.IsVolatile() == (VolatileQual in specs.quals)
  {
    var k := GetBasicType(Keywords(specs.typeSpecs));
    assert k in {Void, Char, Short, Long, ULong, Float, Double} by {
      BasicTypeIsFirstMatch(Keywords(specs.typeSpecs));
      NonEmptyNeverError(Keywords(specs.typeSpecs));
      UnsignedCharShortUnreachable(Keywords(specs.typeSpecs));
    }
    assert GetExprType(env, specs) ==
           match BasicTypeOf(k, ConstQual in specs.quals, VolatileQual in specs.quals)
           case Some(t) => Ok((env, t))
           case None => Err(UnmatchedSpecifiers);
  }

  /** No type specifier at all means `long` (the source's int). */
  lemma DefaultIsLong(env: Env, scs: seq<StorageClassSpec>, quals: seq<TypeQualifier>)
    ensures GetExprType(env, DeclnSpecs(scs, [], quals)) == Ok((env, TLong(ConstQual in quals, VolatileQual in quals)))
  {
  }

  /** A struct, union, enum or typedef name must stand alone among the type specifiers. */
  lemma MixedSpecifiersRejected(env: Env, specs: DeclnSpecs, i: nat)
    requires |specs.typeSpecs| >= 2 && i < |specs.typeSpecs| && !specs.typeSpecs[i].BasicSpecifier?
    ensures GetExprType(env, specs) == Err(InvalidSpecifierMix)
  {
  }

  /** A typedef name resolves to its bound type re-qualified with the requested
      qualifiers; an unbound name, a name that is not a typedef and a type whose
      re-qualification is null are errors. */
  lemma TypedefNameResolution(env: Env, name: string, c: bool, v: bool)
    ensures TypedefType(env, name, c, v).Ok? <==>
              Find(env, name).Entry? && Find(env, name).kind == TypedefEntry &&
              Find(env, name).ty.KindOf() !in {IncompleteStruct, IncompleteUnion, Function}
    ensures TypedefType(env, name, c, v).Ok? ==>
              var t := TypedefType(env, name, c, v).value.1;
              var bound := Find(env, name).ty;
              TypedefType(env, name, c, v).value.0 == env &&
              t.KindOf() == bound.KindOf() && t.SizeOf() == bound.SizeOf() &&
              t.IsConst() == c && t.IsVolatile() == v
  {
  }

  /** A typedef of a function type cannot be used: its re-qualification is null. */
  lemma TypedefOfFunctionFails(env: Env, name: string, f: ExprType, c: bool, v: bool)
    requires f.TFunction?
    requires Find(env, name) == Entry(TypedefEntry, f, 0)
    ensures TypedefType(env, name, c, v) == Err(NullQualifiedType(name))
  {
  }
}
