/** Properties of struct, union and parameter layout. */
module LayoutProperties {
  import opened Types
  import opened Layout

  // ---------------------------------------------------------------------------
  // Structs
  // ---------------------------------------------------------------------------

  /** Each member sits at the end of the previous member (0 for the first) rounded up to
      its own alignment, with less than one alignment unit of padding. */
  lemma StructOffsetPlacement(ms: seq<Member>, i: nat)
    requires PositiveAlignments(ms) && i < |ms|
    ensures StructOffset(ms, i) % ms[i].1.Alignment() == 0
    ensures StructEnd(ms, i) <= StructOffset(ms, i) < StructEnd(ms, i) + ms[i].1.Alignment()
    ensures i == 0 ==> StructOffset(ms, i) == 0
    ensures i > 0 ==> StructOffset(ms, i) >= StructOffset(ms, i - 1) + ms[i - 1].1.SizeOf()
  {
    if i == 0 {
      var a := ms[0].1.Alignment();
      DivModUnique(StructOffset(ms, 0), a, 0, StructOffset(ms, 0));
    }
  }

  /** Members are laid out in input order and never overlap. */
  lemma {:induction false} StructMembersDisjoint(ms: seq<Member>, i: nat, j: nat)
    requires PositiveAlignments(ms) && NonNegativeSizes(ms)
    requires i < j < |ms|
    ensures StructOffset(ms, i) + ms[i].1.SizeOf() <= StructOffset(ms, j)
    decreases j
  {
    if j > i + 1 {
      StructMembersDisjoint(ms, i, j - 1);
    }
  }

  /** Every member ends within the first `n` members' running end. */
  lemma StructMemberWithinEnd(ms: seq<Member>, i: nat, n: nat)
    requires PositiveAlignments(ms) && NonNegativeSizes(ms)
    requires i < n <= |ms|
    ensures StructOffset(ms, i) + ms[i].1.SizeOf() <= StructEnd(ms, n)
  {
    if i < n - 1 {
      StructMembersDisjoint(ms, i, n - 1);
    }
  }

  /** The struct keeps its members' order, names and types; its alignment is the largest
      member alignment; its size covers every member and is the smallest multiple of the
      alignment that does. */
  lemma StructOfLayout(ms: seq<Member>, c: bool, v: bool)
    requires |ms| > 0 && PositiveAlignments(ms) && NonNegativeSizes(ms)
    ensures StructOf(ms, c, v).KindOf() == Struct
    ensures StructOf(ms, c, v).IsConst() == c && StructOf(ms, c, v).IsVolatile() == v
    ensures |StructOf(ms, c, v).attribs| == |ms|
    ensures forall i :: 0 <= i < |ms| ==>
      var e := StructOf(ms, c, v).attribs[i];
      e.name == ms[i].0 && e.ty == ms[i].1 && e.offset == StructOffset(ms, i)
    ensures forall i :: 0 <= i < |ms| ==> ms[i].1.Alignment() <= StructOf(ms, c, v).Alignment()
    ensures exists i :: 0 <= i < |ms| && ms[i].1.Alignment() == StructOf(ms, c, v).Alignment()
    ensures StructOf(ms, c, v).Alignment() > 0
    ensures StructOf(ms, c, v).SizeOf() % StructOf(ms, c, v).Alignment() == 0
    ensures forall i :: 0 <= i < |ms| ==>
      StructOffset(ms, i) + ms[i].1.SizeOf() <= StructOf(ms, c, v).SizeOf()
    ensures StructOf(ms, c, v).SizeOf() < StructEnd(ms, |ms|) + StructOf(ms, c, v).Alignment()
  {
    var t := StructOf(ms, c, v);
    MaxAlignIsMax(ms, |ms|);
    forall i | 0 <= i < |ms|
      ensures StructOffset(ms, i) + ms[i].1.SizeOf() <= t.SizeOf()
    {
      StructMemberWithinEnd(ms, i, |ms|);
    }
  }

  /** `struct Point { long x; long y; }`: size 8, alignment 4, x at 0, y at 4. */
  lemma StructPointExample()
    ensures var t := StructOf([("x", TLong(false, false)), ("y", TLong(false, false))], false, false);
      t.SizeOf() == 8 && t.Alignment() == 4 && |t.attribs| == 2
      && t.attribs[0].offset == 0 && t.attribs[1].offset == 4
  {
    var ms := [("x", TLong(false, false)), ("y", TLong(false, false))];
    assert StructOffset(ms, 0) == 0 by {
      StructOffsetPlacement(ms, 0);
    }
    assert StructEnd(ms, 1) == 4;
    assert StructOffset(ms, 1) == RoundUp(4, 4);
    DivModUnique(4, 4, 1, 0);
    assert StructEnd(ms, 2) == 8;
    DivModUnique(8, 4, 2, 0);
  }

  // ---------------------------------------------------------------------------
  // Unions
  // ---------------------------------------------------------------------------

  /** A union's size is its largest member's size (0 with none) and its alignment is that
      same size; the members are kept as given. */
  lemma UnionOfLayout(ms: seq<Member>, c: bool, v: bool)
    ensures UnionOf(ms, c, v).KindOf() == Union && UnionOf(ms, c, v).members == ms
    ensures UnionOf(ms, c, v).Alignment() == UnionOf(ms, c, v).SizeOf()
    ensures |ms| == 0 ==> UnionOf(ms, c, v).SizeOf() == 0
    ensures forall i :: 0 <= i < |ms| ==> ms[i].1.SizeOf() <= UnionOf(ms, c, v).SizeOf()
    ensures |ms| > 0 ==> exists i :: 0 <= i < |ms| && ms[i].1.SizeOf() == UnionOf(ms, c, v).SizeOf()
  {
  }

  // ---------------------------------------------------------------------------
  // Parameters
  // ---------------------------------------------------------------------------

  predicate IsPow2(a: int)
    decreases if a > 0 then a else 0
  {
    a == 1 || (a > 1 && a % 2 == 0 && IsPow2(a / 2))
  }

  /** `(x / a) / b == x / (a * b)` for positive divisors. */
  lemma DivDiv(x: int, a: int, b: int)
    requires a > 0 && b > 0
    ensures (x / a) / b == x / (a * b)
  {
    var q1, r1 := x / a, x % a;
    var q2, r2 := q1 / b, q1 % b;
    assert x == q2 * (a * b) + (r2 * a + r1) by {
      assert x == q1 * a + r1;
      assert q1 == q2 * b + r2;
    }
    assert 0 <= r2 * a + r1 < a * b by {
      MulAtLeast(b - r2, a);
      assert (b - r2) * a == b * a - r2 * a;
    }
    DivModUnique(x, a * b, q2, r2 * a + r1);
  }

  /** For a power of two `a`, masking with `~(a - 1)` clears the low bits: it rounds down
      to a multiple of `a`. */
  lemma {:induction false} AndNotLowBits(x: int, a: int)
    requires IsPow2(a)
    ensures AndNot(x, a - 1) == (x / a) * a
    decreases a
  {
    if a == 1 {
      DivModUnique(x, 1, x, 0);
    } else {
      var h := a / 2;
      assert a == 2 * h;
      assert (a - 1) / 2 == h - 1 && (a - 1) % 2 == 1;
      AndNotLowBits(x / 2, h);
      DivDiv(x, 2, h);
      assert AndNot(x, a - 1) == 2 * ((x / 2 / h) * h);
    }
  }

  /** For a power of two the source's bitmask rounding is rounding up. */
  lemma MaskRoundIsRoundUp(x: int, a: int)
    requires IsPow2(a)
    ensures a > 0 && MaskRound(x, a) == RoundUp(x, a)
  {
    Pow2Positive(a);
    AndNotLowBits(x + a - 1, a);
    RoundUpByQuotient(x, a);
  }

  /** Rounding up is `((x + a - 1) / a) * a`. */
  lemma RoundUpByQuotient(x: int, a: int)
    requires a > 0
    ensures RoundUp(x, a) == ((x + a - 1) / a) * a
  {
    var q, r := x / a, x % a;
    assert x == q * a + r;
    if r == 0 {
      DivModUnique(x + a - 1, a, q, a - 1);
    } else {
      assert (q + 1) * a == q * a + a;
      DivModUnique(x + a - 1, a, q + 1, r - 1);
    }
  }

  lemma {:induction false} Pow2Positive(a: int)
    requires IsPow2(a)
    ensures a >= 1
    decreases if a > 0 then a else 0
  {
  }

  /** A power of two at least 4 is a multiple of 4. */
  lemma {:induction false} Pow2MultipleOf4(a: int)
    requires IsPow2(a) && a >= 4
    ensures a % 4 == 0
    decreases a
  {
    if a > 4 {
      Pow2MultipleOf4(a / 2);
    }
  }

  /** Every parameter unit `max(4, alignment)` is a power of two. */
  predicate Pow2Units(ms: seq<Member>) {
    forall i :: 0 <= i < |ms| ==> IsPow2(ParamUnit(ms[i].1))
  }

  /** The first parameter is at offset 8; after each parameter the offset advances by its
      size and rounds up to its unit, so each parameter's end is a multiple of its unit. */
  lemma ParamStep(ms: seq<Member>, i: nat)
    requires i < |ms| && IsPow2(ParamUnit(ms[i].1))
    ensures ParamEnd(ms, 0) == 2 * SIZEOF_LONG
    ensures ParamEnd(ms, i + 1) == RoundUp(ParamEnd(ms, i) + ms[i].1.SizeOf(), ParamUnit(ms[i].1))
    ensures ParamEnd(ms, i + 1) % ParamUnit(ms[i].1) == 0
    ensures ParamEnd(ms, i) + ms[i].1.SizeOf() <= ParamEnd(ms, i + 1)
  {
    MaskRoundIsRoundUp(ParamEnd(ms, i) + ms[i].1.SizeOf(), ParamUnit(ms[i].1));
  }

  /** A multiple of a multiple of `d` is a multiple of `d`. */
  lemma MultipleOfMultiple(x: int, u: int, d: int)
    requires u > 0 && d > 0 && x % u == 0 && u % d == 0
    ensures x % d == 0
  {
    var k, m := x / u, u / d;
    assert x == k * u;
    assert u == m * d;
    assert x == (k * m) * d;
    DivModUnique(x, d, k * m, 0);
  }

  /** With power-of-two units, every parameter offset is word-aligned. */
  lemma ParamOffsetsWordAligned(ms: seq<Member>, n: nat)
    requires n <= |ms| && Pow2Units(ms)
    ensures ParamEnd(ms, n) % 4 == 0
  {
    if n > 0 {
      var u := ParamUnit(ms[n - 1].1);
      ParamStep(ms, n - 1);
      Pow2MultipleOf4(u);
      MultipleOfMultiple(ParamEnd(ms, n), u, 4);
    } else {
      DivModUnique(8, 4, 2, 0);
    }
  }

  /** A parameter ends no later than the next parameter's offset. */
  lemma ParamEndGrows(ms: seq<Member>, i: nat)
    requires i < |ms| && IsPow2(ParamUnit(ms[i].1))
    ensures ParamEnd(ms, i) + ms[i].1.SizeOf() <= ParamEnd(ms, i + 1)
  {
    MaskRoundIsRoundUp(ParamEnd(ms, i) + ms[i].1.SizeOf(), ParamUnit(ms[i].1));
  }

  /** With power-of-two units and non-negative sizes, parameters are placed in order and
      never overlap. */
  lemma {:induction false} ParamsDisjoint(ms: seq<Member>, i: nat, j: nat)
    requires Pow2Units(ms) && NonNegativeSizes(ms)
    requires i < j <= |ms|
    ensures ParamEnd(ms, i) + ms[i].1.SizeOf() <= ParamEnd(ms, j)
    decreases j
  {
    var k := j - 1;
    assert ParamEnd(ms, k) + ms[k].1.SizeOf() <= ParamEnd(ms, j) by {
      assert IsPow2(ParamUnit(ms[k].1));
      ParamEndGrows(ms, k);
    }
    if i < k {
      ParamsDisjoint(ms, i, k);
      assert ms[k].1.SizeOf() >= 0;
    }
  }

  /** The function type is const and not volatile, records each parameter's offset, has the
      final offset as its size and the largest unit (at least 4) as its alignment. */
  lemma FunctionOfLayout(ret: ExprType, ms: seq<Member>, varargs: bool)
    ensures FunctionOf(ret, ms, varargs).KindOf() == Function
    ensures FunctionOf(ret, ms, varargs).IsConst() && !FunctionOf(ret, ms, varargs).IsVolatile()
    ensures |FunctionOf(ret, ms, varargs).args| == |ms|
    ensures forall i :: 0 <= i < |ms| ==>
      var e := FunctionOf(ret, ms, varargs).args[i];
      e.name == ms[i].0 && e.ty == ms[i].1 && e.offset == ParamEnd(ms, i)
    ensures |ms| > 0 ==> FunctionOf(ret, ms, varargs).args[0].offset == 8
    ensures FunctionOf(ret, ms, varargs).SizeOf() == ParamEnd(ms, |ms|)
    ensures FunctionOf(ret, ms, varargs).Alignment() >= 4
    ensures forall i :: 0 <= i < |ms| ==> ParamUnit(ms[i].1) <= FunctionOf(ret, ms, varargs).Alignment()
    ensures FunctionOf(ret, ms, varargs).Alignment() == REGSZ ||
            exists i :: 0 <= i < |ms| && ParamUnit(ms[i].1) == FunctionOf(ret, ms, varargs).Alignment()
  {
    FrameAlignIsMax(ms, |ms|);
  }

  /** `long f(char a, long b)`: a at 8, b at 12, size 16, alignment 4. */
  lemma CdeclExample()
    ensures var t := FunctionOf(TLong(false, false), [("a", TChar(false, false)), ("b", TLong(false, false))], false);
      |t.args| == 2 && t.args[0].offset == 8 && t.args[1].offset == 12
      && t.SizeOf() == 16 && t.Alignment() == 4
  {
    var ms := [("a", TChar(false, false)), ("b", TLong(false, false))];
    assert IsPow2(4) by {
      assert IsPow2(2);
    }
    assert ParamUnit(ms[0].1) == 4 && ParamUnit(ms[1].1) == 4;
    assert ParamEnd(ms, 1) == 12 by {
      ParamStep(ms, 0);
      DivModUnique(9, 4, 2, 1);
    }
    assert ParamEnd(ms, 2) == 16 by {
      ParamStep(ms, 1);
      DivModUnique(16, 4, 4, 0);
    }
    assert FrameAlign(ms, 2) == 4;
  }

  /** As written: a union's alignment is its size, so a 5-byte union parameter has unit 5,
      which is not a power of two; the bitmask then leaves the frame end at 17, a multiple of
      neither 4 nor 5. */
  lemma MisalignedUnionParameter()
    ensures var u := UnionOf([("a", TArray(TChar(false, false), 5, false, false))], false, false);
      u.Alignment() == 5
      && FunctionOf(TVoid(false, false), [("u", u)], false).SizeOf() == 17
  {
    var u := UnionOf([("a", TArray(TChar(false, false), 5, false, false))], false, false);
    var ms := [("u", u)];
    assert u.SizeOf() == 5;
    assert ParamUnit(u) == 5;
    assert ParamEnd(ms, 1) == AndNot(17, 4);
    assert AndNot(17, 4) == 17 by {
      assert AndNot(8, 2) == 8 by {
        assert AndNot(4, 1) == 4 by {
          assert AndNot(2, 0) == 2;
        }
      }
    }
  }

  /** `TEmptyFunction` is not what `TFunction.Create` yields for a void function without
      parameters: the placeholder has size and alignment 0, the created one 8 and 4. */
  lemma EmptyFunctionIsNotCreated()
    ensures EmptyFunction().KindOf() == Function && EmptyFunction().args == []
    ensures EmptyFunction().retT == TVoid(false, false) && !EmptyFunction().varargs
    ensures EmptyFunction().SizeOf() == 0 && EmptyFunction().Alignment() == 0
    ensures FunctionOf(TVoid(false, false), [], false).SizeOf() == 8
    ensures FunctionOf(TVoid(false, false), [], false).Alignment() == 4
    ensures EmptyFunction() != FunctionOf(TVoid(false, false), [], false)
  {
  }
}
