/**
 * int-enum-impl/src/serde.rs: the `Serialize`/`Deserialize` impls of the
 * `int-enum-impl/` generation, emitted only with the `serialize` feature.
 * Serialization sends the enum's integer through `serialize_<int>`.
 * Deserialization calls `deserialize_any` with a visitor that has exactly
 * one visit method: `visit_i128`/`visit_u128` for the 128-bit reprs,
 * `visit_i64` for the other signed ones and `visit_u64` for the other
 * unsigned ones, each checking the repr's bounds before calling `from_int`.
 *
 * Which visit method a value reaches depends on the data format and on
 * serde's provided `Visitor` methods: `visit_i8`..`visit_i32` forward to
 * `visit_i64`, `visit_u8`..`visit_u32` forward to `visit_u64`, and the 64-
 * and 128-bit ones refuse the value as being of the wrong type. Both are
 * modelled here as documented by serde; the format is a parameter (the
 * visit type it uses).
 */
module IntEnumImplSerde {
  import opened Outcomes
  import opened RustInt
  import Decimal
  import Generated
  import Base = IntEnumImplBase

  /** The integer type of a visit method's argument (`visit_u64` takes a `u64`). */
  datatype VisitType = VisitType(signed: bool, width: Width)

  function TypeName(t: VisitType): string {
    (if t.signed then "i" else "u") + Decimal.NatToDecimal(Bits(t.width))
  }

  function VisitName(t: VisitType): string {
    "visit_" + TypeName(t)
  }

  /** The condition a generated visit method checks before calling `from_int`. */
  datatype Guard =
    | NoGuard                    // the 128-bit methods: the argument already has the repr's type
    | Between(min: int, max: int) // `MIN <= v && v <= MAX`
    | AtMost(max: int)           // `v <= MAX`
    | FitsRepr                   // the value fits the repr (used by the corrected visitor)

  /** `fn visit_<t><E>(self, v: t) -> Result<Self::Value, E>` with its guard. */
  datatype IntVisitFn = IntVisitFn(param: VisitType, guard: Guard)

  /** The repr's signedness and width. */
  function ReprKind(intName: string, p: PointerWidth): (bool, Width)
    requires intName in IntTypeNames()
  {
    NameKind(intName, p).value
  }

  /**
   * `visit_fn`: the one visit method for the repr. The bounds are `<repr>::MIN as
   * i64` and `<repr>::MAX as i64` (or `as u64`); these casts never wrap, so the
   * guard is exactly the repr's range.
   */
  function VisitFn(intName: string, p: PointerWidth): (f: IntVisitFn)
    requires intName in IntTypeNames()
    ensures var (signed, w) := ReprKind(intName, p);
            && (w == W128 ==> f == IntVisitFn(VisitType(signed, W128), NoGuard))
            && (w != W128 && signed ==> f == IntVisitFn(VisitType(true, W64), Between(Min(true, w), Max(true, w))))
            && (w != W128 && !signed ==> f == IntVisitFn(VisitType(false, W64), AtMost(Max(false, w))))
  {
    var (signed, w) := ReprKind(intName, p);
    match intName
    case "i128" => IntVisitFn(VisitType(true, W128), NoGuard)
    case "u128" => IntVisitFn(VisitType(false, W128), NoGuard)
    case "i8" | "i16" | "i32" | "i64" | "isize" =>
      WidenSameSign(true, w, W64, Min(true, w));
      WidenSameSign(true, w, W64, Max(true, w));
      CastInRange(Min(true, w), true, W64);
      CastInRange(Max(true, w), true, W64);
      IntVisitFn(VisitType(true, W64), Between(Cast(Min(true, w), true, W64), Cast(Max(true, w), true, W64)))
    case _ =>
      WidenSameSign(false, w, W64, Max(false, w));
      CastInRange(Max(false, w), false, W64);
      IntVisitFn(VisitType(false, W64), AtMost(Cast(Max(false, w), false, W64)))
  }

  /** The error for a value that is out of range or names no variant. */
  function UnknownValue(enumName: string, v: int, alloc: bool): string {
    if alloc then "unknown " + enumName + " value: " + Decimal.IntToDecimal(v)
    else "unknown " + enumName + " value"
  }

  /** What deserializing one integer gives. */
  datatype Outcome = Accepted(variant: nat) | Rejected(message: string) | InvalidType(visit: string)

  predicate Passes(g: Guard, repr: (bool, Width), v: int) {
    match g
    case NoGuard => true
    case Between(min, max) => min <= v <= max
    case AtMost(max) => v <= max
    case FitsRepr => InRange(repr.0, repr.1, v)
  }

  /** A call of a generated visit method: the guard, then `from_int(v as repr)`. */
  function Call(f: IntVisitFn, b: Base.ImplBlock, repr: (bool, Width), v: int, alloc: bool): Outcome {
    if Passes(f.guard, repr, v) then
      match Base.FromInt(b, Cast(v, repr.0, repr.1))
      case Ok(k) => Accepted(k)
      case Err(_) => Rejected(UnknownValue(b.enumName, v, alloc))
    else Rejected(UnknownValue(b.enumName, v, alloc))
  }

  /** What deserialization should do: the variant for `v` if `v` fits the repr and names one, else the error. */
  function Expected(b: Base.ImplBlock, repr: (bool, Width), v: int, alloc: bool): Outcome {
    if InRange(repr.0, repr.1, v) then
      match Base.FromInt(b, v)
      case Ok(k) => Accepted(k)
      case Err(_) => Rejected(UnknownValue(b.enumName, v, alloc))
    else Rejected(UnknownValue(b.enumName, v, alloc))
  }

  /**
   * The generated method does what is expected for every argument it can
   * receive: it accepts exactly the values that fit the repr and name a
   * variant, and gives the same error for out-of-range and unknown values.
   */
  lemma VisitFnMeaning(intName: string, p: PointerWidth, b: Base.ImplBlock, v: int, alloc: bool)
    requires intName in IntTypeNames()
    requires InRange(VisitFn(intName, p).param.signed, VisitFn(intName, p).param.width, v)
    ensures Call(VisitFn(intName, p), b, ReprKind(intName, p), v, alloc) == Expected(b, ReprKind(intName, p), v, alloc)
  {
    var (signed, w) := ReprKind(intName, p);
    if InRange(signed, w, v) {
      CastInRange(v, signed, w);
    }
  }

  /** The visitor's method for `t` among `fns`, if it defines one. */
  function FindFn(fns: seq<IntVisitFn>, t: VisitType): (r: Option<IntVisitFn>)
    ensures r.Some? ==> r.value in fns && r.value.param == t
    ensures r.None? <==> forall k :: 0 <= k < |fns| ==> fns[k].param != t
    decreases |fns|
  {
    if fns == [] then None
    else if fns[0].param == t then Some(fns[0])
    else FindFn(fns[1..], t)
  }

  /**
   * The method a format's call `visit_<t>(v)` ends up in: the visitor's own, or
   * for types narrower than 64 bits serde's forwarding to the 64-bit method
   * of the same signedness; `None` when serde's provided method refuses.
   */
  function Reached(fns: seq<IntVisitFn>, t: VisitType): (r: Option<IntVisitFn>)
    ensures r.Some? ==> r.value in fns && r.value.param.signed == t.signed
                        && (r.value.param.width == t.width || (Bits(t.width) < 64 && r.value.param.width == W64))
  {
    match FindFn(fns, t)
    case Some(f) => Some(f)
    case None => if Bits(t.width) < 64 then FindFn(fns, VisitType(t.signed, W64)) else None
  }

  /** A format delivering `v` through `visit_<t>` to a visitor made of `fns`. */
  function Visit(fns: seq<IntVisitFn>, b: Base.ImplBlock, repr: (bool, Width), t: VisitType, v: int, alloc: bool)
    : Outcome
  {
    match Reached(fns, t)
    case None => InvalidType(VisitName(t))
    case Some(f) => Call(f, b, repr, v, alloc)
  }

  /** Whether a value delivered through `visit_<t>` reaches the one generated method of `intName`. */
  predicate ReachesGenerated(intName: string, p: PointerWidth, t: VisitType)
    requires intName in IntTypeNames()
  {
    var (signed, w) := ReprKind(intName, p);
    t.signed == signed && (if w == W128 then t.width == W128 else Bits(t.width) <= 64)
  }

  /**
   * The visitor as generated: a value delivered through a visit type of the
   * repr's signedness (any width up to 64 bits, or exactly 128 bits for a
   * 128-bit repr) is deserialized as expected; through any other visit type
   * it is refused by serde as being of the wrong type.
   */
  lemma GeneratedVisitor(intName: string, p: PointerWidth, b: Base.ImplBlock, t: VisitType, v: int, alloc: bool)
    requires intName in IntTypeNames() && InRange(t.signed, t.width, v)
    ensures Visit([VisitFn(intName, p)], b, ReprKind(intName, p), t, v, alloc)
            == if ReachesGenerated(intName, p, t) then Expected(b, ReprKind(intName, p), v, alloc)
               else InvalidType(VisitName(t))
  {
    var f := VisitFn(intName, p);
    var (signed, w) := ReprKind(intName, p);
    if ReachesGenerated(intName, p, t) {
      assert Reached([f], t) == Some(f) by {
        if t != f.param {
          assert FindFn([f], t) == None;
        }
      }
      WidenSameSign(t.signed, t.width, f.param.width, v);
      VisitFnMeaning(intName, p, b, v, alloc);
    } else {
      assert FindFn([f], t) == None;
      if Bits(t.width) < 64 {
        assert FindFn([f], VisitType(t.signed, W64)) == None;
      }
    }
  }

  /**
   * The corrected visitor: `visit_i64`, `visit_u64`, `visit_i128` and
   * `visit_u128`, each accepting a value exactly when it fits the repr
   * (`<repr>::try_from(v)`), as the `impl/` generation does by emitting both
   * signed and unsigned visit methods.
   */
  function CorrectedVisitFns(): (fns: seq<IntVisitFn>)
    ensures forall k :: 0 <= k < |fns| ==> fns[k].guard == FitsRepr
  {
    [IntVisitFn(VisitType(true, W64), FitsRepr), IntVisitFn(VisitType(false, W64), FitsRepr),
     IntVisitFn(VisitType(true, W128), FitsRepr), IntVisitFn(VisitType(false, W128), FitsRepr)]
  }

  /** With the corrected visitor, every format's delivery of every value is deserialized as expected. */
  lemma CorrectedVisitor(repr: (bool, Width), b: Base.ImplBlock, t: VisitType, v: int, alloc: bool)
    ensures Visit(CorrectedVisitFns(), b, repr, t, v, alloc) == Expected(b, repr, v, alloc)
  {
    var fns := CorrectedVisitFns();
    assert fns[0].param == VisitType(true, W64) && fns[1].param == VisitType(false, W64);
    assert fns[2].param == VisitType(true, W128) && fns[3].param == VisitType(false, W128);
    var t64 := VisitType(t.signed, W64);
    assert FindFn(fns, t64).Some?;
    if t.width == W128 {
      assert FindFn(fns, t).Some?;
    }
    var f := Reached(fns, t).value;
    if InRange(repr.0, repr.1, v) {
      CastInRange(v, repr.0, repr.1);
    }
  }

  /**
   * `#[repr(i8)] enum E { A = 1 }`: a format that hands the non-negative `1` to
   * `visit_u64` (as JSON readers commonly do) gets a type error from the
   * generated visitor, although `1` is `A`; the corrected visitor accepts it.
   */
  lemma SignedReprRefusesUnsignedDelivery(p: PointerWidth, alloc: bool)
    ensures var b := Base.ImplBlock("E", "i8", [("A", IntEnumImplParseOne())]);
            var u64 := VisitType(false, W64);
            && Expected(b, (true, W8), 1, alloc) == Accepted(0)
            && Visit([VisitFn("i8", p)], b, (true, W8), u64, 1, alloc) == InvalidType(VisitName(u64))
            && Visit(CorrectedVisitFns(), b, (true, W8), u64, 1, alloc) == Accepted(0)
  {
    var b := Base.ImplBlock("E", "i8", [("A", IntEnumImplParseOne())]);
    var u64 := VisitType(false, W64);
    assert Base.Arms(b) == [("A", 1)];
    assert Base.FromInt(b, 1) == Ok(0);
    assert ReprKind("i8", p) == (true, W8);
    GeneratedVisitor("i8", p, b, u64, 1, alloc);
    CorrectedVisitor((true, W8), b, u64, 1, alloc);
  }

  /** The literal `1i8`. */
  function IntEnumImplParseOne(): Base.P.Int {
    Base.P.Int(false, Base.P.LitInt(1, "i8"))
  }

  /** The integer methods of `serde::Serializer`; there is none for `isize` or `usize`. */
  function SerializerIntMethods(): set<string> {
    {"serialize_i8", "serialize_i16", "serialize_i32", "serialize_i64", "serialize_i128",
     "serialize_u8", "serialize_u16", "serialize_u32", "serialize_u64", "serialize_u128"}
  }

  /** `serialize_impl`'s method: `serialize_<int>`. */
  function SerializeMethod(intName: string): string {
    "serialize_" + intName
  }

  /**
   * The method exists exactly for the ten fixed-width reprs: for `isize` and
   * `usize` the generated `serialize` calls a method `Serializer` does not have.
   */
  lemma SerializeMethodExists(intName: string)
    requires intName in IntTypeNames()
    ensures SerializeMethod(intName) in SerializerIntMethods() <==> intName != "isize" && intName != "usize"
  {
    var m := SerializeMethod(intName);
    if intName == "isize" || intName == "usize" {
      assert m[|m| - 1] == 'e';
      assert m !in SerializerIntMethods();
    } else {
      match intName
      case "i8" => assert m == "serialize_i8";
      case "i16" => assert m == "serialize_i16";
      case "i32" => assert m == "serialize_i32";
      case "i64" => assert m == "serialize_i64";
      case "i128" => assert m == "serialize_i128";
      case "u8" => assert m == "serialize_u8";
      case "u16" => assert m == "serialize_u16";
      case "u32" => assert m == "serialize_u32";
      case "u64" => assert m == "serialize_u64";
      case "u128" => assert m == "serialize_u128";
      case _ =>
    }
  }

  /**
   * The corrected serializer method, as the `impl/` generation has it: the
   * pointer-sized reprs are refused with "serde is not supported for `<int>`",
   * and every other repr serializes through its own method.
   */
  function CorrectedSerializeMethod(intName: string): (r: Result<string, string>)
    requires intName in IntTypeNames()
    ensures r.Ok? ==> r.value in SerializerIntMethods() && r.value == SerializeMethod(intName)
    ensures r.Err? <==> intName == "isize" || intName == "usize"
  {
    SerializeMethodExists(intName);
    if intName == "isize" || intName == "usize" then Err("serde is not supported for `" + intName + "`")
    else Ok(SerializeMethod(intName))
  }

  /** `impl Serialize for Enum`: `serializer.<method>(to_int(self))`. */
  datatype SerImpl = SerImpl(enumName: string, intType: string, serializeMethod: string)

  /** `impl Deserialize for Enum`: `deserializer.<method>(Visitor)`, the visitor's `expecting` and its method. */
  datatype DeImpl = DeImpl(enumName: string, expecting: string, deserializeMethod: string, visitFn: IntVisitFn)

  datatype SerdeItem = SerializeItem(ser: SerImpl) | DeserializeItem(de: DeImpl)

  /** `serde_impls`: nothing without the `serialize` feature, else the two impls. */
  function SerdeImpls(serializeFeature: bool, enumName: string, intName: string, p: PointerWidth)
    : (r: seq<SerdeItem>)
    requires serializeFeature ==> intName in IntTypeNames()
    ensures r == [] <==> !serializeFeature
    ensures serializeFeature ==>
              && |r| == 2 && r[0].SerializeItem? && r[1].DeserializeItem?
              && r[0].ser.serializeMethod == SerializeMethod(intName)
              && r[1].de.expecting == intName + " integer" && r[1].de.deserializeMethod == "deserialize_any"
              && r[1].de.visitFn == VisitFn(intName, p)
  {
    if !serializeFeature then []
    else
      [SerializeItem(SerImpl(enumName, intName, SerializeMethod(intName))),
       DeserializeItem(DeImpl(enumName, intName + " integer", "deserialize_any", VisitFn(intName, p)))]
  }

  /**
   * Serializing a variant and reading the number back through the repr's own
   * visit type (a format that keeps the type) gives the same variant back, for
   * the visitor as generated, when the variants' values are distinct and fit
   * the repr.
   */
  lemma RoundTripSameType(intName: string, p: PointerWidth, b: Base.ImplBlock, variant: nat, alloc: bool)
    requires intName in IntTypeNames() && variant < |b.arms| && Generated.Distinct(Base.Arms(b))
    requires InRange(ReprKind(intName, p).0, ReprKind(intName, p).1, Base.IntValue(b, variant))
    ensures var (signed, w) := ReprKind(intName, p);
            Visit([VisitFn(intName, p)], b, (signed, w), VisitType(signed, w), Base.IntValue(b, variant), alloc)
            == Accepted(variant)
  {
    var (signed, w) := ReprKind(intName, p);
    Base.FromIntOfIntValue(b, variant);
    GeneratedVisitor(intName, p, b, VisitType(signed, w), Base.IntValue(b, variant), alloc);
  }

  /**
   * With the corrected visitor the round trip holds whatever visit type the
   * format chooses, as long as that type can hold the number.
   */
  lemma RoundTripAnyType(repr: (bool, Width), b: Base.ImplBlock, t: VisitType, variant: nat, alloc: bool)
    requires variant < |b.arms| && Generated.Distinct(Base.Arms(b))
    requires InRange(repr.0, repr.1, Base.IntValue(b, variant))
    ensures Visit(CorrectedVisitFns(), b, repr, t, Base.IntValue(b, variant), alloc) == Accepted(variant)
  {
    Base.FromIntOfIntValue(b, variant);
    CorrectedVisitor(repr, b, t, Base.IntValue(b, variant), alloc);
  }
}
