/**
 * Aggregate layout (AST/types.cs): struct member offsets with padding, union size, and
 * the stack offsets of function parameters under the IA-32 cdecl convention (first
 * parameter two machine words above the frame base). Each layout is given by
 * specification functions over the member prefix; the methods are the source's loops,
 * proved to compute exactly those functions.
 */
module Layout {
  import opened Types

  /** A member as the resolver hands it over: name and type. */
  type Member = (string, ExprType)

  function Max(a: int, b: int): int {
    if a > b then a else b
  }

  /** The least multiple of `a` that is at least `x`. */
  function RoundUp(x: int, a: int): (r: int)
    requires a > 0
    ensures r % a == 0
    ensures x <= r < x + a
  {
    var q := x / a;
    if x % a == 0 then x
    else
      DivModUnique((q + 1) * a, a, q + 1, 0);
      x + (a - x % a)
  }

  /** Euclidean division is determined by quotient and remainder. */
  lemma DivModUnique(x: int, a: int, q: int, r: int)
    requires a > 0 && 0 <= r < a && x == q * a + r
    ensures x / a == q && x % a == r
  {
    var q0, r0 := x / a, x % a;
    assert x == q0 * a + r0;
    assert (q - q0) * a == r0 - r;
    if q > q0 {
      MulAtLeast(q - q0, a);
    } else if q < q0 {
      MulAtLeast(q0 - q, a);
    }
  }

  lemma {:induction false} MulAtLeast(d: int, a: int)
    requires d >= 1 && a > 0
    ensures d * a >= a
    decreases d
  {
    if d > 1 {
      MulAtLeast(d - 1, a);
      assert d * a == (d - 1) * a + a;
    }
  }

  // ---------------------------------------------------------------------------
  // Structs (TStruct.Create)
  // ---------------------------------------------------------------------------

  predicate PositiveAlignments(ms: seq<Member>) {
    forall i :: 0 <= i < |ms| ==> ms[i].1.Alignment() > 0
  }

  predicate NonNegativeSizes(ms: seq<Member>) {
    forall i :: 0 <= i < |ms| ==> ms[i].1.SizeOf() >= 0
  }

  /** The running offset after the first `n` members have been placed. */
  function StructEnd(ms: seq<Member>, n: nat): int
    requires n <= |ms| && PositiveAlignments(ms)
    decreases n, 0
  {
    if n == 0 then 0
    else StructOffset(ms, n - 1) + ms[n - 1].1.SizeOf()
  }

  /** Member `i` sits at the end of the previous members rounded up to its own alignment. */
  function StructOffset(ms: seq<Member>, i: nat): int
    requires i < |ms| && PositiveAlignments(ms)
    decreases i, 1
  {
    RoundUp(StructEnd(ms, i), ms[i].1.Alignment())
  }

  /** The largest alignment among the first `n` members; 0 for none. */
  function MaxAlign(ms: seq<Member>, n: nat): int
    requires n <= |ms|
  {
    if n == 0 then 0
    else
      var prev := MaxAlign(ms, n - 1);
      if ms[n - 1].1.Alignment() > prev then ms[n - 1].1.Alignment()
      else prev
  }

  /** `MaxAlign` is the maximum: no member's alignment exceeds it, and it is one of them
      (or 0). */
  lemma {:induction false} MaxAlignIsMax(ms: seq<Member>, n: nat)
    requires n <= |ms|
    ensures n == 0 ==> MaxAlign(ms, n) == 0
    ensures forall i :: 0 <= i < n ==> ms[i].1.Alignment() <= MaxAlign(ms, n)
    ensures MaxAlign(ms, n) == 0 || exists i :: 0 <= i < n && ms[i].1.Alignment() == MaxAlign(ms, n)
  {
    if n > 0 {
      MaxAlignIsMax(ms, n - 1);
    }
  }

  /** The struct `TStruct.Create` builds from `ms`. */
  function StructOf(ms: seq<Member>, c: bool, v: bool): ExprType
    requires |ms| > 0 && PositiveAlignments(ms)
  {
    var align := MaxAlign(ms, |ms|);
    TStruct(seq(|ms|, i requires 0 <= i < |ms| => StoreEntry(ms[i].0, ms[i].1, StructOffset(ms, i))),
            RoundUp(StructEnd(ms, |ms|), align), align, c, v)
  }

  /** The source's loop: place each member, track the largest alignment, add the
      trailing padding. */
  method StructCreate(ms: seq<Member>, c: bool, v: bool) returns (t: ExprType)
    requires |ms| > 0 && PositiveAlignments(ms)
    ensures t == StructOf(ms, c, v)
  {
    var attribs: seq<StoreEntry> := [];
    var offset := 0;
    var alignment := 0;
    var i := 0;
    while i < |ms|
      invariant 0 <= i <= |ms|
      invariant |attribs| == i
      invariant forall j {:trigger attribs[j]} :: 0 <= j < i ==> attribs[j] == StoreEntry(ms[j].0, ms[j].1, StructOffset(ms, j))
      invariant offset == StructEnd(ms, i)
      invariant alignment == MaxAlign(ms, i)
    {
      var currAlign := ms[i].1.Alignment();
      if currAlign > alignment {
        alignment := currAlign;
      }
      assert alignment == MaxAlign(ms, i + 1);
      offset := RoundUp(offset, currAlign);
      assert offset == StructOffset(ms, i);
      attribs := attribs + [StoreEntry(ms[i].0, ms[i].1, offset)];
      offset := offset + ms[i].1.SizeOf();
      assert offset == StructEnd(ms, i + 1);
      i := i + 1;
    }
    offset := RoundUp(offset, alignment);
    t := TStruct(attribs, offset, alignment, c, v);
  }

  // ---------------------------------------------------------------------------
  // Unions (TUnion.Create)
  // ---------------------------------------------------------------------------

  /** The largest member size; 0 with no members. */
  function MaxSize(ms: seq<Member>): (r: int)
    ensures |ms| == 0 ==> r == 0
    ensures forall i :: 0 <= i < |ms| ==> ms[i].1.SizeOf() <= r
    ensures |ms| > 0 ==> exists i :: 0 <= i < |ms| && ms[i].1.SizeOf() == r
  {
    if |ms| == 0 then 0
    else if |ms| == 1 then ms[0].1.SizeOf()
    else
      var rest := MaxSize(ms[1..]);
      assert forall i :: 1 <= i < |ms| ==> ms[i] == ms[1..][i - 1];
      Max(ms[0].1.SizeOf(), rest)
  }

  /** The union `TUnion.Create` builds: its size, which is also its alignment, is the
      largest member size. */
  function UnionOf(ms: seq<Member>, c: bool, v: bool): ExprType {
    TUnion(ms, MaxSize(ms), c, v)
  }

  // ---------------------------------------------------------------------------
  // Functions (TFunction.Create, TEmptyFunction)
  // ---------------------------------------------------------------------------

  /** The register size of the 32-bit target. */
  const REGSZ: int := SIZEOF_LONG

  /** `x & ~m` on two's-complement integers, for a non-negative mask `m`. */
  function AndNot(x: int, m: nat): int
    decreases m
  {
    if m == 0 then x
    else 2 * AndNot(x / 2, m / 2) + (if x % 2 == 1 && m % 2 == 0 then 1 else 0)
  }

  /** The source's bitmask rounding `(x + a - 1) & ~(a - 1)`. */
  function MaskRound(x: int, a: int): int
    requires a >= 1
  {
    AndNot(x + a - 1, a - 1)
  }

  /** Every parameter occupies at least one register-sized slot. */
  function ParamUnit(t: ExprType): (u: int)
    ensures u >= REGSZ && u >= t.Alignment()
  {
    Max(REGSZ, t.Alignment())
  }

  /** The stack offset after the first `n` parameters; parameter `i` sits at `ParamEnd(ms, i)`. */
  function ParamEnd(ms: seq<Member>, n: nat): int
    requires n <= |ms|
  {
    if n == 0 then 2 * REGSZ
    else MaskRound(ParamEnd(ms, n - 1) + ms[n - 1].1.SizeOf(), ParamUnit(ms[n - 1].1))
  }

  /** The largest parameter unit among the first `n` parameters, and at least REGSZ. */
  function FrameAlign(ms: seq<Member>, n: nat): (r: int)
    requires n <= |ms|
    ensures r >= REGSZ
  {
    if n == 0 then REGSZ
    else
      var prev := FrameAlign(ms, n - 1);
      if ParamUnit(ms[n - 1].1) > prev then ParamUnit(ms[n - 1].1) else prev
  }

  /** `FrameAlign` is the largest unit, or REGSZ when that is larger. */
  lemma {:induction false} FrameAlignIsMax(ms: seq<Member>, n: nat)
    requires n <= |ms|
    ensures forall i :: 0 <= i < n ==> ParamUnit(ms[i].1) <= FrameAlign(ms, n)
    ensures FrameAlign(ms, n) == REGSZ || exists i :: 0 <= i < n && ParamUnit(ms[i].1) == FrameAlign(ms, n)
  {
    if n > 0 {
      FrameAlignIsMax(ms, n - 1);
    }
  }

  /** The function type `TFunction.Create` builds. */
  function FunctionOf(ret: ExprType, ms: seq<Member>, varargs: bool): ExprType {
    TFunction(ret, seq(|ms|, i requires 0 <= i < |ms| => StoreEntry(ms[i].0, ms[i].1, ParamEnd(ms, i))),
              ParamEnd(ms, |ms|), FrameAlign(ms, |ms|), varargs)
  }

  /** The source's loop: place each parameter, advance past it and round to its unit. */
  method FunctionCreate(ret: ExprType, ms: seq<Member>, varargs: bool) returns (t: ExprType)
    ensures t == FunctionOf(ret, ms, varargs)
  {
    var args: seq<StoreEntry> := [];
    var regsz := SIZEOF_LONG;
    var offset := 2 * regsz;
    var alignment := regsz;
    var i := 0;
    while i < |ms|
      invariant 0 <= i <= |ms|
      invariant |args| == i
      invariant forall j {:trigger args[j]} :: 0 <= j < i ==> args[j] == StoreEntry(ms[j].0, ms[j].1, ParamEnd(ms, j))
      invariant offset == ParamEnd(ms, i)
      invariant alignment == FrameAlign(ms, i)
    {
      ParamStepUnfold(ms, i);
      args := args + [StoreEntry(ms[i].0, ms[i].1, offset)];
      offset := offset + ms[i].1.SizeOf();
      var currAlign := Max(regsz, ms[i].1.Alignment());
      offset := AndNot(offset + currAlign - 1, currAlign - 1);
      if currAlign > alignment {
        alignment := currAlign;
      }
      i := i + 1;
    }
    t := TFunction(ret, args, offset, alignment, varargs);
  }

  /** One step of the parameter loop, spelled out. */
  lemma ParamStepUnfold(ms: seq<Member>, i: nat)
    requires i < |ms|
    ensures var u := Max(REGSZ, ms[i].1.Alignment());
            ParamEnd(ms, i + 1) == AndNot(ParamEnd(ms, i) + ms[i].1.SizeOf() + u - 1, u - 1) &&
            FrameAlign(ms, i + 1) == (if u > FrameAlign(ms, i) then u else FrameAlign(ms, i))
  {
  }

  /** `TEmptyFunction`: returns void, takes nothing, size and alignment 0, not variadic. */
  function EmptyFunction(): ExprType {
    TFunction(TVoid(false, false), [], 0, 0, false)
  }
}
