/**
 * impl/src/expand.rs: what the `impl/` generation emits for an accepted
 * enum. The `IntEnum` impl comes first; the `From`/`TryFrom` impls follow
 * when the `convert` feature is on, and the serde impls last when the
 * `serde` feature is on. The crate path the impls name (`int_enum`) is found
 * by reading the manifest, which is left out: here it is a parameter.
 */
module ImplExpand {
  import opened Outcomes
  import opened Syn
  import opened ImplAst
  import ImplSerde
  import Generated
  import SrcError
  import RustInt

  /**
   * `impl IntEnum for Enum { type Int = repr; fn int_value; fn from_int }`, its
   * match arms given by the `(variant, discriminant)` pairs in order.
   */
  datatype BaseImpl = BaseImpl(crate: Path, enumName: string, intType: string, arms: seq<Generated.Arm>)

  /** An item of the derive's output. */
  datatype Item =
    | IntEnumItem(base: BaseImpl)
    | FromItem(crate: Path, enumName: string, intType: string)     // From<Enum> for Int: int_value(n)
    | TryFromItem(crate: Path, enumName: string, intType: string)  // TryFrom<Int> for Enum: from_int(n)
    | SerializeItem(ser: ImplSerde.SerImpl)
    | DeserializeItem(de: ImplSerde.DeImpl)

  /** `base`: one `int_value` arm and one `from_int` arm per variant, in order. */
  function Base(crate: Path, input: Input): BaseImpl {
    BaseImpl(crate, input.ident, input.repr.ident, input.variants)
  }

  /** `int_value(self)` of the generated impl, for the variant at position `variant`. */
  function BaseIntValue(b: BaseImpl, variant: nat): int
    requires variant < |b.arms|
  {
    Generated.IntValue(b.arms, variant)
  }

  /** `from_int(n)` of the generated impl. */
  function BaseFromInt(b: BaseImpl, n: int): Result<nat, SrcError.IntEnumError<()>> {
    Generated.FromInt(b.arms, n)
  }

  /** `convert`: `From<Enum> for Int` and then `TryFrom<Int> for Enum`. */
  function Convert(crate: Path, input: Input): seq<Item> {
    [FromItem(crate, input.ident, input.repr.ident), TryFromItem(crate, input.ident, input.repr.ident)]
  }

  /** The `IntEnum` impl among `items` for the enum `enumName`, if any. */
  function FindBase(items: seq<Item>, enumName: string): (r: Option<BaseImpl>)
    ensures r.Some? ==> IntEnumItem(r.value) in items
    ensures r.Some? ==> r.value.enumName == enumName
    decreases |items|
  {
    if items == [] then None
    else if items[0].IntEnumItem? && items[0].base.enumName == enumName then Some(items[0].base)
    else FindBase(items[1..], enumName)
  }

  /** `items` holds `impl From<Enum> for Int`. */
  predicate HasFrom(items: seq<Item>, enumName: string, intType: string) {
    exists k :: 0 <= k < |items| && items[k].FromItem? && items[k].enumName == enumName && items[k].intType == intType
  }

  /** `items` holds `impl TryFrom<Int> for Enum`. */
  predicate HasTryFrom(items: seq<Item>, enumName: string, intType: string) {
    exists k :: 0 <= k < |items| && items[k].TryFromItem? && items[k].enumName == enumName && items[k].intType == intType
  }

  /**
   * `<Int as From<Enum>>::from(variant)` in a program made of `items`: the
   * `From` impl delegates to the enum's `int_value`.
   */
  function CallFrom(items: seq<Item>, enumName: string, intType: string, variant: nat): Option<int> {
    if !HasFrom(items, enumName, intType) then None
    else match FindBase(items, enumName)
      case Some(b) => if variant < |b.arms| && b.intType == intType then Some(BaseIntValue(b, variant)) else None
      case None => None
  }

  /** `<Enum as TryFrom<Int>>::try_from(n)`: delegates to the enum's `from_int`. */
  function CallTryFrom(items: seq<Item>, enumName: string, intType: string, n: int)
    : Option<Result<nat, SrcError.IntEnumError<()>>>
  {
    if !HasTryFrom(items, enumName, intType) then None
    else match FindBase(items, enumName)
      case Some(b) => if b.intType == intType then Some(BaseFromInt(b, n)) else None
      case None => None
  }

  /** `derive`, as a value: extraction, then the impls in their fixed order. */
  function DeriveSpec(node: DeriveInput, crate: Path, convertFeature: bool, serdeFeature: bool,
                      p: RustInt.PointerWidth): Result<seq<Item>, seq<Error>> {
    match FromSynSpec(node)
    case Err(e) => Err(e)
    case Ok(input) =>
      var output := [IntEnumItem(Base(crate, input))] + (if convertFeature then Convert(crate, input) else []);
      if !serdeFeature then Ok(output)
      else match ImplSerde.SerdeImpl(crate, input, p)
        case Err(e) => Err(e)
        case Ok(s) => Ok(output + [SerializeItem(s.ser), DeserializeItem(s.de)])
  }

  /**
   * `derive`: builds `output` with `append_all`, returning early with the
   * error of `Input::from_syn` or of `serde_impl`.
   */
  method Derive(node: DeriveInput, crate: Path, convertFeature: bool, serdeFeature: bool,
                p: RustInt.PointerWidth) returns (r: Result<seq<Item>, seq<Error>>)
    ensures r == DeriveSpec(node, crate, convertFeature, serdeFeature, p)
  {
    var input := FromSyn(node);
    if input.Err? {
      return Err(input.error);
    }
    var output := [IntEnumItem(Base(crate, input.value))];
    if convertFeature {
      output := output + Convert(crate, input.value);
    } else {
      assert output == output + [];
    }
    if serdeFeature {
      var s := ImplSerde.SerdeImpl(crate, input.value, p);
      if s.Err? {
        return Err(s.error);
      }
      output := output + [SerializeItem(s.value.ser), DeserializeItem(s.value.de)];
    }
    return Ok(output);
  }

  /**
   * `derive` fails, with no output, exactly when extraction fails or the serde
   * impl refuses the repr, and reports that step's error; otherwise it emits the
   * `IntEnum` impl, then the two conversion impls, then the two serde impls.
   */
  lemma DeriveOutcome(node: DeriveInput, crate: Path, convertFeature: bool, serdeFeature: bool,
                      p: RustInt.PointerWidth)
    ensures var r := DeriveSpec(node, crate, convertFeature, serdeFeature, p);
            r.Err? <==> FromSynSpec(node).Err? || (serdeFeature && FromSynSpec(node).value.repr.size == Size)
    ensures var r := DeriveSpec(node, crate, convertFeature, serdeFeature, p);
            FromSynSpec(node).Err? ==> r == Err(FromSynSpec(node).error)
    ensures var r := DeriveSpec(node, crate, convertFeature, serdeFeature, p);
            r.Ok? ==>
              var items := r.value;
              var input := FromSynSpec(node).value;
              var c := if convertFeature then 2 else 0;
              && |items| == 1 + c + (if serdeFeature then 2 else 0)
              && items[0] == IntEnumItem(Base(crate, input))
              && (convertFeature ==> items[1].FromItem? && items[2].TryFromItem?)
              && (serdeFeature ==> items[1 + c].SerializeItem? && items[2 + c].DeserializeItem?)
  {
  }

  /**
   * The generated `IntEnum` impl: `int_value` gives each declared variant its
   * own discriminant, and `from_int(n)` gives the first declared variant whose
   * discriminant is `n`, or an error carrying `n` when there is none.
   */
  lemma BaseMeaning(node: DeriveInput, crate: Path, n: int)
    requires FromSynSpec(node).Ok?
    ensures node.data.EnumData?
    ensures var b := Base(crate, FromSynSpec(node).value);
            var vs := node.data.variants;
            && b.enumName == node.ident && b.intType == FromSynSpec(node).value.repr.ident
            && |b.arms| == |vs|
            && (forall k :: 0 <= k < |vs| ==> BaseIntValue(b, k) == vs[k].discriminant.value)
            && (BaseFromInt(b, n).Ok? ==>
                  var k := BaseFromInt(b, n).value;
                  k < |vs| && vs[k].discriminant == Some(n)
                  && forall j :: 0 <= j < k ==> vs[j].discriminant != Some(n))
            && (BaseFromInt(b, n).Err? <==> forall j :: 0 <= j < |vs| ==> vs[j].discriminant != Some(n))
            && (BaseFromInt(b, n).Err? ==> SrcError.Value(BaseFromInt(b, n).error) == n)
  {
    FromSynVariantsInOrder(node);
  }

  /** With distinct discriminants, `from_int(int_value(v)) == Ok(v)` for every variant. */
  lemma BaseRoundTrip(node: DeriveInput, crate: Path, variant: nat)
    requires FromSynSpec(node).Ok? && variant < |FromSynSpec(node).value.variants|
    requires Generated.Distinct(FromSynSpec(node).value.variants)
    ensures var b := Base(crate, FromSynSpec(node).value);
            BaseFromInt(b, BaseIntValue(b, variant)) == Ok(variant)
  {
    Generated.FromIntOfIntValue<()>(FromSynSpec(node).value.variants, variant);
  }

  /**
   * With the `convert` feature, `From<Enum>` gives what `int_value` gives and
   * `TryFrom<Int>` gives what `from_int` gives, for the derived enum and repr.
   */
  lemma ConvertDelegates(node: DeriveInput, crate: Path, serdeFeature: bool, p: RustInt.PointerWidth,
                         variant: nat, n: int)
    requires DeriveSpec(node, crate, true, serdeFeature, p).Ok?
    ensures var items := DeriveSpec(node, crate, true, serdeFeature, p).value;
            var input := FromSynSpec(node).value;
            var b := Base(crate, input);
            && CallTryFrom(items, input.ident, input.repr.ident, n) == Some(BaseFromInt(b, n))
            && (variant < |input.variants| ==>
                  CallFrom(items, input.ident, input.repr.ident, variant) == Some(BaseIntValue(b, variant)))
  {
    var items := DeriveSpec(node, crate, true, serdeFeature, p).value;
    var input := FromSynSpec(node).value;
    var b := Base(crate, input);
    assert items[0] == IntEnumItem(b);
    assert FindBase(items, input.ident) == Some(b);
    assert items[1] == FromItem(crate, input.ident, input.repr.ident);
    assert items[2] == TryFromItem(crate, input.ident, input.repr.ident);
    assert HasFrom(items, input.ident, input.repr.ident);
    assert HasTryFrom(items, input.ident, input.repr.ident);
  }
}
