/**
 * impl/src/serde.rs: the `Serialize` and `Deserialize` impls of the `impl/`
 * generation. Deserialisation goes through a visitor with one `visit_*`
 * function per integer type a data format may hand over; each either casts
 * the value to the repr and calls `from_int`, or first checks it against the
 * repr's bounds, `as`-cast into the visited type, and forwards it to the
 * repr's own `visit_*` function.
 */
module ImplSerde {
  import opened Outcomes
  import opened Syn
  import opened ImplAst
  import RustInt
  import Decimal
  import Generated
  import SrcError

  /** `SIZES`: the visited widths, `isize`/`usize` excluded. */
  const Sizes: seq<IntSize> := [N8, N16, N32, N64, N128]

  function ReprWidth(repr: Repr, p: RustInt.PointerWidth): RustInt.Width {
    SizeWidth(repr.size, p)
  }

  /** `int_ty::MIN`. */
  function ReprMin(repr: Repr, p: RustInt.PointerWidth): int {
    RustInt.Min(IsSigned(repr.style), ReprWidth(repr, p))
  }

  /** `int_ty::MAX`. */
  function ReprMax(repr: Repr, p: RustInt.PointerWidth): int {
    RustInt.Max(IsSigned(repr.style), ReprWidth(repr, p))
  }

  predicate InReprRange(repr: Repr, p: RustInt.PointerWidth, v: int) {
    RustInt.InRange(IsSigned(repr.style), ReprWidth(repr, p), v)
  }

  /**
   * The body of a generated `visit_*` function.
   * `Direct(style, size)`: `from_int(v as {style}{size})`, its error mapped through `E::custom`.
   * `Bounded(intTy, checkMin, style, size)`: the consts `MIN` and `MAX` taken from
   * `intTy` (see `BoundMin` and `BoundMax`), then `if (MIN <= v &&)? v <= MAX`
   * `self.visit_{style}{size}(v as {style}{size})`, else the out-of-range error.
   */
  datatype VisitBody =
    | Direct(castStyle: IntStyle, castSize: IntSize)
    | Bounded(intTy: Repr, checkMin: bool, forwardStyle: IntStyle, forwardSize: IntSize)

  /** `fn visit_{style}{size}<E>(self, v: {style}{size}) -> Result<Self::Value, E>`. */
  datatype VisitFn = VisitFn(name: string, style: IntStyle, size: IntSize, body: VisitBody)

  function VisitName(style: IntStyle, size: IntSize): string {
    "visit_" + StyleFragment(style) + SizeFragment(size)
  }

  /**
   * A bounded body's `const MIN`: `int_ty::MIN as visit_ty` when both bounds are
   * checked, and `int_ty::MIN` itself (used only in the message) otherwise.
   */
  function BoundMin(f: VisitFn, p: RustInt.PointerWidth): int
    requires f.body.Bounded?
  {
    var repr := f.body.intTy;
    if f.body.checkMin then RustInt.Cast(ReprMin(repr, p), IsSigned(f.style), SizeWidth(f.size, p))
    else ReprMin(repr, p)
  }

  /** A bounded body's `const MAX`: `int_ty::MAX as visit_ty`. */
  function BoundMax(f: VisitFn, p: RustInt.PointerWidth): int
    requires f.body.Bounded?
  {
    RustInt.Cast(ReprMax(f.body.intTy, p), IsSigned(f.style), SizeWidth(f.size, p))
  }

  /**
   * `visit_fn(int_enum, int_ty, int_ty.size, style, size)`: the decision table.
   * A visited type of the repr's style and no larger goes straight to
   * `from_int`. A signed repr visited as unsigned checks only `v <= MAX`, with
   * `MIN` left as the repr's own minimum. Everything else checks
   * `MIN <= v && v <= MAX` with both bounds `as`-cast into the visited type.
   */
  function VisitFnSpec(repr: Repr, p: RustInt.PointerWidth, style: IntStyle, size: IntSize): VisitFn {
    var body :=
      if repr.style == style && SizeLe(size, repr.size) then Direct(repr.style, repr.size)
      else Bounded(repr, !(repr.style == Signed && style == Unsigned), repr.style, repr.size);
    VisitFn(VisitName(style, size), style, size, body)
  }

  /** How many visit functions a repr of this style gets per visited width. */
  function PerSize(style: IntStyle): nat {
    if style == Signed then 2 else 1
  }

  /**
   * The visit functions in the order `visit_fns` pushes them: for each width
   * of `SIZES`, the repr's own style, then (for a signed repr) the unsigned one.
   */
  function VisitFnsSpec(repr: Repr, p: RustInt.PointerWidth): (fns: seq<VisitFn>) {
    if repr.style == Signed then
      seq(10, k requires 0 <= k < 10 => VisitFnSpec(repr, p, if k % 2 == 0 then Signed else Unsigned, Sizes[k / 2]))
    else
      seq(5, k requires 0 <= k < 5 => VisitFnSpec(repr, p, Unsigned, Sizes[k]))
  }

  /** `visit_fns`: the `for` loop over `SIZES` that pushes into `fns`. */
  method VisitFns(repr: Repr, p: RustInt.PointerWidth) returns (fns: seq<VisitFn>)
    ensures fns == VisitFnsSpec(repr, p)
  {
    fns := [];
    for i := 0 to |Sizes|
      invariant fns == VisitFnsUpTo(repr, p, i)
    {
      fns := fns + SizeVisitFns(repr, p, Sizes[i]);
    }
    VisitFnsUpToAll(repr, p);
  }

  /** The functions `visit_fns` pushes for one width: the repr's own style, then (signed repr) unsigned. */
  function SizeVisitFns(repr: Repr, p: RustInt.PointerWidth, size: IntSize): seq<VisitFn> {
    if repr.style == Signed then [VisitFnSpec(repr, p, Signed, size), VisitFnSpec(repr, p, Unsigned, size)]
    else [VisitFnSpec(repr, p, Unsigned, size)]
  }

  /** The functions pushed for the first `i` widths of `SIZES`. */
  function VisitFnsUpTo(repr: Repr, p: RustInt.PointerWidth, i: nat): (fns: seq<VisitFn>)
    requires i <= |Sizes|
    ensures |fns| == PerSize(repr.style) * i
  {
    if i == 0 then [] else VisitFnsUpTo(repr, p, i - 1) + SizeVisitFns(repr, p, Sizes[i - 1])
  }

  lemma {:induction false} VisitFnsUpToAt(repr: Repr, p: RustInt.PointerWidth, i: nat, k: nat)
    requires i <= |Sizes| && k < PerSize(repr.style) * i
    ensures VisitFnsUpTo(repr, p, i)[k] == VisitFnsSpec(repr, p)[k]
  {
    var n := PerSize(repr.style) * (i - 1);
    var last := SizeVisitFns(repr, p, Sizes[i - 1]);
    assert VisitFnsUpTo(repr, p, i) == VisitFnsUpTo(repr, p, i - 1) + last;
    if k < n {
      VisitFnsUpToAt(repr, p, i - 1, k);
    } else if repr.style == Unsigned {
      assert k == i - 1;
      assert VisitFnsUpTo(repr, p, i)[k] == last[0];
    } else if k == n {
      assert k % 2 == 0 && k / 2 == i - 1;
      assert VisitFnsUpTo(repr, p, i)[k] == last[0];
    } else {
      assert k == n + 1 && k % 2 == 1 && k / 2 == i - 1;
      assert VisitFnsUpTo(repr, p, i)[k] == last[1];
    }
  }

  lemma VisitFnsUpToAll(repr: Repr, p: RustInt.PointerWidth)
    ensures VisitFnsUpTo(repr, p, |Sizes|) == VisitFnsSpec(repr, p)
  {
    forall k | 0 <= k < |VisitFnsSpec(repr, p)|
      ensures VisitFnsUpTo(repr, p, |Sizes|)[k] == VisitFnsSpec(repr, p)[k]
    {
      VisitFnsUpToAt(repr, p, |Sizes|, k);
    }
  }

  /**
   * An unsigned repr gets the five unsigned visit functions; a signed repr gets
   * ten, the signed one of each width followed by the unsigned one.
   */
  lemma VisitFnsShape(repr: Repr, p: RustInt.PointerWidth)
    ensures var fns := VisitFnsSpec(repr, p);
            && (repr.style == Unsigned ==>
                  |fns| == 5 && forall k :: 0 <= k < 5 ==> fns[k].style == Unsigned && fns[k].size == Sizes[k])
            && (repr.style == Signed ==>
                  |fns| == 10
                  && forall k :: 0 <= k < 5 ==>
                       fns[2 * k].style == Signed && fns[2 * k].size == Sizes[k]
                       && fns[2 * k + 1].style == Unsigned && fns[2 * k + 1].size == Sizes[k])
    ensures forall k :: 0 <= k < |VisitFnsSpec(repr, p)| ==>
              VisitFnsSpec(repr, p)[k].name == VisitName(VisitFnsSpec(repr, p)[k].style, VisitFnsSpec(repr, p)[k].size)
  {
    var fns := VisitFnsSpec(repr, p);
    forall k | 0 <= k < |fns|
      ensures fns[k].name == VisitName(fns[k].style, fns[k].size)
    {
      GeneratedEntries(repr, p, k);
    }
    if repr.style == Signed {
      forall k | 0 <= k < 5
        ensures fns[2 * k].style == Signed && fns[2 * k].size == Sizes[k]
        ensures fns[2 * k + 1].style == Unsigned && fns[2 * k + 1].size == Sizes[k]
      {
        assert (2 * k) % 2 == 0 && (2 * k) / 2 == k;
        assert (2 * k + 1) % 2 == 1 && (2 * k + 1) / 2 == k;
        VisitFnSpecFields(repr, p, Signed, Sizes[k]);
        VisitFnSpecFields(repr, p, Unsigned, Sizes[k]);
      }
    } else {
      forall k | 0 <= k < 5
        ensures fns[k].style == Unsigned && fns[k].size == Sizes[k]
      {
        VisitFnSpecFields(repr, p, Unsigned, Sizes[k]);
      }
    }
  }

  lemma VisitFnSpecFields(repr: Repr, p: RustInt.PointerWidth, style: IntStyle, size: IntSize)
    ensures var f := VisitFnSpec(repr, p, style, size);
            f.name == VisitName(style, size) && f.style == style && f.size == size
  {
  }

  /** What a call of a visitor's `visit_*` function leads to. */
  datatype Outcome =
    | Accepted(variant: nat)                      // Ok(variant)
    | NotAVariant(value: int)                     // Err(E::custom(IntEnumError::__new(value)))
    | OutOfRange(value: int, min: int, max: int)  // Err("unknown variant `v`, out of range [MIN, MAX]")
    | Unhandled                                   // the visitor has no such function
    | TooDeep                                     // more nested forwarding than `depth` allows

  /** The message of the out-of-range error. */
  function OutOfRangeMessage(v: int, min: int, max: int): string {
    "unknown variant `" + Decimal.IntToDecimal(v) + "`, out of range ["
    + Decimal.IntToDecimal(min) + ", " + Decimal.IntToDecimal(max) + "]"
  }

  /** The visitor's function for values of type `{style}{size}`, when it has one. */
  function Lookup(fns: seq<VisitFn>, style: IntStyle, size: IntSize): (r: Option<nat>)
    ensures r.Some? ==> r.value < |fns| && fns[r.value].style == style && fns[r.value].size == size
    ensures r.None? ==> forall k :: 0 <= k < |fns| ==> !(fns[k].style == style && fns[k].size == size)
    decreases |fns|
  {
    if fns == [] then None
    else if fns[0].style == style && fns[0].size == size then Some(0)
    else match Lookup(fns[1..], style, size)
      case Some(k) => Some(k + 1)
      case None => None
  }

  /**
   * A data format calling `visit_{style}{size}(v)` on the visitor made of
   * `fns`, for an enum whose `from_int` arms are `arms`. Forwarding to another
   * visit function uses up one unit of `depth`.
   */
  function Run(fns: seq<VisitFn>, arms: seq<Generated.Arm>, p: RustInt.PointerWidth,
               style: IntStyle, size: IntSize, v: int, depth: nat): Outcome
    decreases depth
  {
    match Lookup(fns, style, size)
    case None => Unhandled
    case Some(k) =>
      match fns[k].body
      case Direct(cs, cz) =>
        (match Generated.FromInt<()>(arms, RustInt.Cast(v, IsSigned(cs), SizeWidth(cz, p)))
         case Ok(variant) => Accepted(variant)
         case Err(e) => NotAVariant(SrcError.Value(e)))
      case Bounded(_, checkMin, fs, fz) =>
        var min := BoundMin(fns[k], p);
        var max := BoundMax(fns[k], p);
        if (checkMin ==> min <= v) && v <= max then
          if depth == 0 then TooDeep
          else Run(fns, arms, p, fs, fz, RustInt.Cast(v, IsSigned(fs), SizeWidth(fz, p)), depth - 1)
        else OutOfRange(v, min, max)
  }

  /**
   * What deserialising `v` should give: the variant `from_int` finds when `v`
   * fits the repr, `from_int`'s error when it fits but names no variant, and
   * the out-of-range error, with the repr's bounds, otherwise.
   */
  function Expected(arms: seq<Generated.Arm>, repr: Repr, p: RustInt.PointerWidth, v: int): Outcome {
    if InReprRange(repr, p, v) then
      match Generated.FromInt<()>(arms, v)
      case Ok(variant) => Accepted(variant)
      case Err(_) => NotAVariant(v)
    else OutOfRange(v, ReprMin(repr, p), ReprMax(repr, p))
  }

  /** For the five fixed widths the derived `PartialOrd` compares bit widths. */
  lemma SizeLeIsBitsLe(a: IntSize, b: IntSize, p: RustInt.PointerWidth)
    requires a != Size && b != Size
    ensures SizeLe(a, b) <==> RustInt.Bits(SizeWidth(a, p)) <= RustInt.Bits(SizeWidth(b, p))
  {
  }

  /** A strictly wider type has at least twice as many values, and a multiple of them. */
  lemma WiderModulus(narrow: RustInt.Width, wide: RustInt.Width)
    requires RustInt.Bits(narrow) < RustInt.Bits(wide)
    ensures RustInt.Modulus(narrow) * 2 <= RustInt.Modulus(wide)
    ensures (RustInt.Modulus(wide) / 2) % RustInt.Modulus(narrow) == 0
  {
    match narrow
    case W8 => match wide { case W8 => case W16 => case W32 => case W64 => case W128 => }
    case W16 => match wide { case W8 => case W16 => case W32 => case W64 => case W128 => }
    case W32 => match wide { case W8 => case W16 => case W32 => case W64 => case W128 => }
    case W64 => match wide { case W8 => case W16 => case W32 => case W64 => case W128 => }
    case W128 =>
  }

  /** `iN::MAX as uM` for a narrower `uM` is `uM::MAX`. */
  lemma SignedMaxAsNarrowerUnsigned(narrow: RustInt.Width, wide: RustInt.Width)
    requires RustInt.Bits(narrow) < RustInt.Bits(wide)
    ensures RustInt.Cast(RustInt.Max(true, wide), false, narrow) == RustInt.Max(false, narrow)
  {
    MaxCastsInto(narrow, wide);
  }

  /** `uN::MAX as iM` for a signed `iM` no wider than it is `-1`. */
  lemma UnsignedMaxAsNotWiderSigned(narrow: RustInt.Width, wide: RustInt.Width)
    requires RustInt.Bits(narrow) <= RustInt.Bits(wide)
    ensures RustInt.Cast(RustInt.Max(false, wide), true, narrow) == -1
  {
    MaxCastsInto(narrow, wide);
  }

  /**
   * The two casts of a `MAX` into a type no wider, one width at a time (each
   * case is a computation on constants).
   */
  lemma MaxCastsInto(narrow: RustInt.Width, wide: RustInt.Width)
    requires RustInt.Bits(narrow) <= RustInt.Bits(wide)
    ensures RustInt.Bits(narrow) < RustInt.Bits(wide) ==>
              RustInt.Cast(RustInt.Max(true, wide), false, narrow) == RustInt.Max(false, narrow)
    ensures RustInt.Cast(RustInt.Max(false, wide), true, narrow) == -1
  {
    match narrow
    case W8 => MaxCastsIntoW8(wide);
    case W16 => MaxCastsIntoW16(wide);
    case W32 => MaxCastsIntoW32(wide);
    case W64 => MaxCastsIntoW64(wide);
    case W128 =>
  }

  lemma MaxCastsIntoW8(wide: RustInt.Width)
    ensures RustInt.Bits(wide) > 8 ==> RustInt.Cast(RustInt.Max(true, wide), false, RustInt.W8) == RustInt.Max(false, RustInt.W8)
    ensures RustInt.Bits(wide) >= 8 ==> RustInt.Cast(RustInt.Max(false, wide), true, RustInt.W8) == -1
  {
    match wide { case W8 => case W16 => case W32 => case W64 => case W128 => }
  }

  lemma MaxCastsIntoW16(wide: RustInt.Width)
    ensures RustInt.Bits(wide) > 16 ==> RustInt.Cast(RustInt.Max(true, wide), false, RustInt.W16) == RustInt.Max(false, RustInt.W16)
    ensures RustInt.Bits(wide) >= 16 ==> RustInt.Cast(RustInt.Max(false, wide), true, RustInt.W16) == -1
  {
    match wide { case W8 => case W16 => case W32 => case W64 => case W128 => }
  }

  lemma MaxCastsIntoW32(wide: RustInt.Width)
    ensures RustInt.Bits(wide) > 32 ==> RustInt.Cast(RustInt.Max(true, wide), false, RustInt.W32) == RustInt.Max(false, RustInt.W32)
    ensures RustInt.Bits(wide) >= 32 ==> RustInt.Cast(RustInt.Max(false, wide), true, RustInt.W32) == -1
  {
    match wide { case W8 => case W16 => case W32 => case W64 => case W128 => }
  }

  lemma MaxCastsIntoW64(wide: RustInt.Width)
    ensures RustInt.Bits(wide) > 64 ==> RustInt.Cast(RustInt.Max(true, wide), false, RustInt.W64) == RustInt.Max(false, RustInt.W64)
    ensures RustInt.Bits(wide) >= 64 ==> RustInt.Cast(RustInt.Max(false, wide), true, RustInt.W64) == -1
  {
    match wide { case W8 => case W16 => case W32 => case W64 => case W128 => }
  }

  /**
   * How a visit function treats `v` for the repr: a `Direct` body only gets
   * values that fit the repr, and a `Bounded` body forwards to the repr's own
   * type, lets `v` through exactly when it fits the repr, and otherwise reports
   * the repr's own bounds.
   */
  predicate Decides(f: VisitFn, repr: Repr, p: RustInt.PointerWidth, v: int) {
    match f.body
    case Direct(cs, cz) => cs == repr.style && cz == repr.size && InReprRange(repr, p, v)
    case Bounded(_, checkMin, fs, fz) =>
      && fs == repr.style && fz == repr.size
      && ((checkMin ==> BoundMin(f, p) <= v) && v <= BoundMax(f, p) <==> InReprRange(repr, p, v))
      && (!InReprRange(repr, p, v) ==> BoundMin(f, p) == ReprMin(repr, p) && BoundMax(f, p) == ReprMax(repr, p))
  }

  /**
   * One visit function, for every value of its type except the combination
   * `visit_fns` never generates (an unsigned repr visited as a signed type that
   * is not wider): a `Direct` body only sees values that fit the repr, and a
   * `Bounded` body lets through exactly the values that fit the repr, reports
   * the repr's own bounds when it rejects, and forwards to the repr's own type.
   */
  lemma VisitFnDecides(repr: Repr, p: RustInt.PointerWidth, style: IntStyle, size: IntSize, v: int)
    requires repr.size != Size && size != Size
    requires !(repr.style == Unsigned && style == Signed
               && RustInt.Bits(SizeWidth(size, p)) <= RustInt.Bits(ReprWidth(repr, p)))
    requires RustInt.InRange(IsSigned(style), SizeWidth(size, p), v)
    ensures Decides(VisitFnSpec(repr, p, style, size), repr, p, v)
  {
    SizeLeIsBitsLe(size, repr.size, p);
    if repr.style == style && SizeLe(size, repr.size) {
      RustInt.WidenSameSign(IsSigned(style), SizeWidth(size, p), ReprWidth(repr, p), v);
    } else if repr.style == Signed && style == Unsigned {
      SignedReprUnsignedVisitDecides(repr, p, size, v);
    } else {
      WiderVisitDecides(repr, p, style, size, v);
    }
  }

  /** A signed repr visited as unsigned checks `v <= MAX as visit_ty`, which is exactly "fits the repr". */
  lemma SignedReprUnsignedVisitDecides(repr: Repr, p: RustInt.PointerWidth, size: IntSize, v: int)
    requires repr.style == Signed && repr.size != Size && size != Size
    requires RustInt.InRange(false, SizeWidth(size, p), v)
    ensures Decides(VisitFnSpec(repr, p, Unsigned, size), repr, p, v)
  {
    var w := SizeWidth(size, p);
    var rw := ReprWidth(repr, p);
    if RustInt.Bits(w) < RustInt.Bits(rw) {
      SignedMaxAsNarrowerUnsigned(w, rw);
      WiderModulus(w, rw);
    } else {
      if w != rw {
        WiderModulus(rw, w);
      }
      RustInt.CastInRange(ReprMax(repr, p), false, w);
    }
  }

  /**
   * A visited type strictly wider than the repr (of either style, except an
   * unsigned visit of a signed repr) holds both of the repr's bounds, so the
   * casts keep them and the check is exactly "fits the repr".
   */
  lemma WiderVisitDecides(repr: Repr, p: RustInt.PointerWidth, style: IntStyle, size: IntSize, v: int)
    requires repr.size != Size && size != Size
    requires !(repr.style == style && SizeLe(size, repr.size)) && !(repr.style == Signed && style == Unsigned)
    requires !(repr.style == Unsigned && style == Signed
               && RustInt.Bits(SizeWidth(size, p)) <= RustInt.Bits(ReprWidth(repr, p)))
    ensures Decides(VisitFnSpec(repr, p, style, size), repr, p, v)
  {
    var w := SizeWidth(size, p);
    var rw := ReprWidth(repr, p);
    var signed := IsSigned(style);
    SizeLeIsBitsLe(size, repr.size, p);
    if repr.style == style {
      RustInt.WidenSameSign(signed, rw, w, ReprMin(repr, p));
      RustInt.WidenSameSign(signed, rw, w, ReprMax(repr, p));
    } else {
      RustInt.WidenUnsignedToSigned(rw, w, ReprMin(repr, p));
      RustInt.WidenUnsignedToSigned(rw, w, ReprMax(repr, p));
    }
    RustInt.CastInRange(ReprMin(repr, p), signed, w);
    RustInt.CastInRange(ReprMax(repr, p), signed, w);
  }

  /**
   * `visit_fn` with an unsigned repr and a signed visited type no wider than it
   * (never generated): `MAX` wraps to -1, so `MIN <= v && v <= MAX` is false and
   * every value is rejected as out of range.
   */
  lemma UnsignedReprSignedVisitRejectsAll(repr: Repr, p: RustInt.PointerWidth, size: IntSize, v: int)
    requires repr.style == Unsigned && size != Size
    requires RustInt.Bits(SizeWidth(size, p)) <= RustInt.Bits(ReprWidth(repr, p))
    ensures var f := VisitFnSpec(repr, p, Signed, size);
            && f.body.Bounded? && f.body.checkMin && BoundMin(f, p) == 0 && BoundMax(f, p) == -1
            && !(BoundMin(f, p) <= v && v <= BoundMax(f, p))
  {
    UnsignedMaxAsNotWiderSigned(SizeWidth(size, p), ReprWidth(repr, p));
  }

  /** `visit_fns` never pairs an unsigned repr with a signed visited type. */
  lemma UnsignedReprVisitsOnlyUnsigned(repr: Repr, p: RustInt.PointerWidth)
    requires repr.style == Unsigned
    ensures forall k :: 0 <= k < |VisitFnsSpec(repr, p)| ==> VisitFnsSpec(repr, p)[k].style == Unsigned
  {
  }

  /** Every generated function is the table's entry for its own visited type. */
  lemma GeneratedEntries(repr: Repr, p: RustInt.PointerWidth, k: nat)
    requires k < |VisitFnsSpec(repr, p)|
    ensures var f := VisitFnsSpec(repr, p)[k];
            f == VisitFnSpec(repr, p, f.style, f.size) && f.size != Size
            && (f.style == Signed ==> repr.style == Signed)
  {
  }

  /**
   * The visitor has a function for `{style}{size}` exactly when `size` is one of
   * the five fixed widths and the style is unsigned or the repr is signed, and
   * the function it finds is the table's entry.
   */
  lemma LookupGenerated(repr: Repr, p: RustInt.PointerWidth, style: IntStyle, size: IntSize)
    ensures var r := Lookup(VisitFnsSpec(repr, p), style, size);
            r.Some? <==> size != Size && (style == Unsigned || repr.style == Signed)
    ensures var r := Lookup(VisitFnsSpec(repr, p), style, size);
            r.Some? ==> VisitFnsSpec(repr, p)[r.value] == VisitFnSpec(repr, p, style, size)
  {
    var fns := VisitFnsSpec(repr, p);
    var r := Lookup(fns, style, size);
    if r.Some? {
      GeneratedEntries(repr, p, r.value);
    }
    if size != Size && (style == Unsigned || repr.style == Signed) {
      var k := GeneratedPosition(repr, p, style, size);
    }
  }

  /** Where `visit_fns` pushes the function for `{style}{size}`. */
  lemma GeneratedPosition(repr: Repr, p: RustInt.PointerWidth, style: IntStyle, size: IntSize) returns (k: nat)
    requires size != Size && (style == Unsigned || repr.style == Signed)
    ensures k < |VisitFnsSpec(repr, p)|
    ensures VisitFnsSpec(repr, p)[k].style == style && VisitFnsSpec(repr, p)[k].size == size
  {
    var i := DeclarationIndex(size);
    assert Sizes[i] == size;
    VisitFnsShape(repr, p);
    if repr.style == Signed {
      k := 2 * i + (if style == Signed then 0 else 1);
    } else {
      k := i;
    }
  }

  /**
   * The meaning of the generated visitor: whichever of its functions a data
   * format calls, with any value of that function's type, the result is the
   * variant `from_int` finds when the value fits the repr, `from_int`'s error
   * when it fits but names no variant, and "out of range [MIN, MAX]" with the
   * repr's bounds otherwise. One level of forwarding is all it takes.
   */
  lemma GeneratedVisitorMeaning(repr: Repr, p: RustInt.PointerWidth, arms: seq<Generated.Arm>,
                                style: IntStyle, size: IntSize, v: int, depth: nat)
    requires repr.size != Size && depth >= 1
    requires Lookup(VisitFnsSpec(repr, p), style, size).Some?
    requires RustInt.InRange(IsSigned(style), SizeWidth(size, p), v)
    ensures Run(VisitFnsSpec(repr, p), arms, p, style, size, v, depth) == Expected(arms, repr, p, v)
  {
    var idx := GeneratedFnDecides(repr, p, style, size, v);
    if InReprRange(repr, p, v) {
      ReprOwnVisitFn(repr, p, arms, v, depth - 1);
    }
    RunOfDecidedFn(VisitFnsSpec(repr, p), arms, p, repr, style, size, v, depth, idx);
  }

  /** The generated function for `{style}{size}`, found by `Lookup`, decides `v` as `Decides` says. */
  lemma GeneratedFnDecides(repr: Repr, p: RustInt.PointerWidth, style: IntStyle, size: IntSize, v: int)
    returns (idx: nat)
    requires repr.size != Size && Lookup(VisitFnsSpec(repr, p), style, size).Some?
    requires RustInt.InRange(IsSigned(style), SizeWidth(size, p), v)
    ensures Lookup(VisitFnsSpec(repr, p), style, size) == Some(idx)
    ensures Decides(VisitFnsSpec(repr, p)[idx], repr, p, v)
  {
    LookupGenerated(repr, p, style, size);
    idx := Lookup(VisitFnsSpec(repr, p), style, size).value;
    VisitFnDecides(repr, p, style, size, v);
  }

  /**
   * One call of a visit function whose body has the properties `VisitFnDecides`
   * establishes, in a visitor whose function for the repr's own type behaves
   * as expected.
   */
  lemma RunOfDecidedFn(fns: seq<VisitFn>, arms: seq<Generated.Arm>, p: RustInt.PointerWidth, repr: Repr,
                       style: IntStyle, size: IntSize, v: int, depth: nat, idx: nat)
    requires depth >= 1 && Lookup(fns, style, size) == Some(idx)
    requires Decides(fns[idx], repr, p, v)
    requires InReprRange(repr, p, v) ==>
               Run(fns, arms, p, repr.style, repr.size,
                   RustInt.Cast(v, IsSigned(repr.style), SizeWidth(repr.size, p)), depth - 1)
               == Expected(arms, repr, p, v)
    ensures Run(fns, arms, p, style, size, v, depth) == Expected(arms, repr, p, v)
  {
    if fns[idx].body.Direct? {
      RunDirect(fns, arms, p, idx, style, size, v, depth);
      RustInt.CastInRange(v, IsSigned(repr.style), ReprWidth(repr, p));
    } else {
      RunBounded(fns, arms, p, idx, style, size, v, depth);
    }
  }

  /** One step of `Run` into a `Direct` body. */
  lemma RunDirect(fns: seq<VisitFn>, arms: seq<Generated.Arm>, p: RustInt.PointerWidth, idx: nat,
                  style: IntStyle, size: IntSize, v: int, depth: nat)
    requires Lookup(fns, style, size) == Some(idx) && fns[idx].body.Direct?
    ensures var b := fns[idx].body;
            Run(fns, arms, p, style, size, v, depth)
            == match Generated.FromInt<()>(arms, RustInt.Cast(v, IsSigned(b.castStyle), SizeWidth(b.castSize, p)))
               case Ok(variant) => Accepted(variant)
               case Err(e) => NotAVariant(SrcError.Value(e))
  {
  }

  /** One step of `Run` into a `Bounded` body. */
  lemma RunBounded(fns: seq<VisitFn>, arms: seq<Generated.Arm>, p: RustInt.PointerWidth, idx: nat,
                   style: IntStyle, size: IntSize, v: int, depth: nat)
    requires Lookup(fns, style, size) == Some(idx) && fns[idx].body.Bounded? && depth >= 1
    ensures var f := fns[idx];
            var b := f.body;
            Run(fns, arms, p, style, size, v, depth)
            == if (b.checkMin ==> BoundMin(f, p) <= v) && v <= BoundMax(f, p)
               then Run(fns, arms, p, b.forwardStyle, b.forwardSize,
                        RustInt.Cast(v, IsSigned(b.forwardStyle), SizeWidth(b.forwardSize, p)), depth - 1)
               else OutOfRange(v, BoundMin(f, p), BoundMax(f, p))
  {
  }

  /** The repr's own visit function passes every value of the repr to `from_int` unchanged. */
  lemma ReprOwnVisitFn(repr: Repr, p: RustInt.PointerWidth, arms: seq<Generated.Arm>, v: int, depth: nat)
    requires repr.size != Size && InReprRange(repr, p, v)
    ensures Run(VisitFnsSpec(repr, p), arms, p, repr.style, repr.size,
                RustInt.Cast(v, IsSigned(repr.style), SizeWidth(repr.size, p)), depth)
            == Expected(arms, repr, p, v)
  {
    RustInt.CastInRange(v, IsSigned(repr.style), ReprWidth(repr, p));
    LookupGenerated(repr, p, repr.style, repr.size);
    assert VisitFnSpec(repr, p, repr.style, repr.size).body == Direct(repr.style, repr.size);
  }

  /** `serde_fn`'s two uses. */
  datatype SerdeFn = SerializeFn | DeserializeFn

  /** `serde_fn(serde, int_ty)`: the method `serialize_{repr}` or `deserialize_{repr}`. */
  function SerdeFnName(which: SerdeFn, repr: Repr): string {
    (if which == SerializeFn then "serialize" else "deserialize") + "_" + repr.ident
  }

  /** `ser_impl`: `serialize` converts `*self` with `int_value` and calls `serializer.serialize_{repr}(n as repr)`. */
  datatype SerImpl = SerImpl(crate: Path, enumName: string, repr: Repr, serializeMethod: string)

  /** `de_impl`: the visitor's `expecting` text, its visit functions, and `deserializer.deserialize_{repr}(Visitor)`. */
  datatype DeImpl = DeImpl(crate: Path, enumName: string, expecting: string, visitFns: seq<VisitFn>, deserializeMethod: string)

  datatype SerdeImpls = SerdeImpls(ser: SerImpl, de: DeImpl)

  const NotSupportedPrefix: string := "serde is not supported for `"

  /**
   * `serde_impl`: `isize` and `usize` are refused at the repr's identifier;
   * any other repr gets the serialize impl and then the deserialize impl.
   */
  function SerdeImpl(crate: Path, input: Input, p: RustInt.PointerWidth): (r: Result<SerdeImpls, seq<Error>>)
    ensures r.Err? <==> input.repr.size == Size
    ensures r.Err? ==> r.error == [Error(NotSupportedPrefix + input.repr.ident + "`", ReprIdent)]
    ensures r.Ok? ==> r.value.ser.enumName == input.ident && r.value.de.enumName == input.ident
                      && r.value.ser.repr == input.repr
                      && r.value.ser.serializeMethod == "serialize_" + input.repr.ident
                      && r.value.de.deserializeMethod == "deserialize_" + input.repr.ident
                      && r.value.de.expecting == input.repr.ident + " integer"
                      && r.value.de.visitFns == VisitFnsSpec(input.repr, p)
  {
    if input.repr.size == Size then Err([Error(NotSupportedPrefix + input.repr.ident + "`", ReprIdent)])
    else
      var repr := input.repr;
      Ok(SerdeImpls(
        SerImpl(crate, input.ident, repr, SerdeFnName(SerializeFn, repr)),
        DeImpl(crate, input.ident, repr.ident + " integer", VisitFnsSpec(repr, p), SerdeFnName(DeserializeFn, repr))))
  }

  /** A call a `Serialize` impl makes on its serializer. */
  datatype SerializerCall = SerializerCall(methodName: string, value: int)

  /** The generated `serialize` for the variant at position `variant`. */
  function Serialize(s: SerImpl, arms: seq<Generated.Arm>, p: RustInt.PointerWidth, variant: nat): SerializerCall
    requires variant < |arms|
  {
    var n := Generated.IntValue(arms, variant);
    SerializerCall(s.serializeMethod, RustInt.Cast(n, IsSigned(s.repr.style), ReprWidth(s.repr, p)))
  }

  /**
   * Round trip through a data format: serializing a variant hands its
   * discriminant to `serialize_{repr}`, and handing that value back to any
   * generated visit function whose type can hold it gives the same variant.
   */
  lemma SerializeThenVisit(crate: Path, input: Input, p: RustInt.PointerWidth, variant: nat, k: nat)
    requires Generated.Distinct(input.variants)
    requires forall j :: 0 <= j < |input.variants| ==> InReprRange(input.repr, p, input.variants[j].1)
    requires SerdeImpl(crate, input, p).Ok?
    requires variant < |input.variants|
    requires k < |SerdeImpl(crate, input, p).value.de.visitFns|
    ensures var impls := SerdeImpl(crate, input, p).value;
            var call := Serialize(impls.ser, input.variants, p, variant);
            var f := impls.de.visitFns[k];
            && call == SerializerCall("serialize_" + input.repr.ident, input.variants[variant].1)
            && (RustInt.InRange(IsSigned(f.style), SizeWidth(f.size, p), call.value) ==>
                  Run(impls.de.visitFns, input.variants, p, f.style, f.size, call.value, 1) == Accepted(variant))
  {
    var repr := input.repr;
    var n := input.variants[variant].1;
    RustInt.CastInRange(n, IsSigned(repr.style), ReprWidth(repr, p));
    var f := VisitFnsSpec(repr, p)[k];
    if RustInt.InRange(IsSigned(f.style), SizeWidth(f.size, p), n) {
      GeneratedEntries(repr, p, k);
      LookupGenerated(repr, p, f.style, f.size);
      GeneratedVisitorMeaning(repr, p, input.variants, f.style, f.size, n, 1);
      Generated.FromIntOfIntValue<()>(input.variants, variant);
    }
  }
}
