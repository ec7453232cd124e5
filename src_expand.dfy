/**
 * src/expand.rs: the `src/` generation emits `From<Enum> for Repr` and
 * `TryFrom<Repr> for Enum`, both carrying the enum's generics. `try_from`
 * compares with guards `v if v == (discriminant)`, so any constant
 * expression works as a discriminant, and an unmatched value comes back as
 * `Err(v)`: the error type is the repr integer itself.
 *
 * `derive_enum` calls `ast::get_repr` and `ast::get_variants`; src/ast.rs
 * defines `Repr::from_attributes` instead and no `get_variants`. The first is
 * modelled by `SrcAst.FromAttributesSpec`; for the second, only the rule the
 * tests check is modelled: a variant without `= discriminant` takes 0 when it
 * is the first, and the previous variant's value plus one otherwise.
 */
module SrcExpand {
  import opened Outcomes
  import opened Syn
  import SrcAst
  import Generated

  const StructMessage: string := "this trait cannot be derived for structs"
  const UnionMessage: string := "this trait cannot be derived for unions"

  /** `impl<..> From<Enum<..>> for Repr where ..`, one arm `Enum::V => d,` per variant. */
  datatype FromImpl = FromImpl(generics: Generics, enumName: string, repr: string, arms: seq<Generated.Arm>)

  /**
   * `impl<..> TryFrom<Repr> for Enum<..> where .. { type Error = ..; }`, one guard
   * `v if v == (d) => Ok(Enum::V),` per variant and then `v => Err(v)`.
   */
  datatype TryFromImpl = TryFromImpl(generics: Generics, enumName: string, repr: string, errorType: string,
                                     arms: seq<Generated.Arm>)

  datatype Output = Output(fromImpl: FromImpl, tryFromImpl: TryFromImpl)

  /** The discriminant a variant ends up with, given the one before it (if any). */
  function ImplicitNext(prev: Option<int>, written: Option<int>): int {
    match written
    case Some(d) => d
    case None => if prev.None? then 0 else prev.value + 1
  }

  /** `(variant, discriminant)` pairs with omitted discriminants filled in. */
  function ResolveDiscriminants(vs: seq<Variant>): (arms: seq<Generated.Arm>)
    ensures |arms| == |vs|
    ensures forall k :: 0 <= k < |vs| ==> arms[k].0 == vs[k].ident
    ensures forall k :: 0 <= k < |vs| && vs[k].discriminant.Some? ==> arms[k].1 == vs[k].discriminant.value
    ensures |vs| > 0 && vs[0].discriminant.None? ==> arms[0].1 == 0
    ensures forall k :: 0 < k < |vs| && vs[k].discriminant.None? ==> arms[k].1 == arms[k - 1].1 + 1
    decreases |vs|
  {
    if vs == [] then []
    else
      var n := |vs| - 1;
      var prev := ResolveDiscriminants(vs[..n]);
      assert forall k :: 0 <= k < n ==> vs[..n][k] == vs[k];
      prev + [(vs[n].ident, ImplicitNext(if n == 0 then None else Some(prev[n - 1].1), vs[n].discriminant))]
  }

  /**
   * After a variant with value `d`, a run of variants without discriminants
   * counts up from it: the `m`-th one after it has `d + m`, whatever the sign of `d`.
   */
  lemma {:induction false} ImplicitRunCountsUp(vs: seq<Variant>, j: nat, k: nat)
    requires j <= k < |vs|
    requires forall m :: j < m <= k ==> vs[m].discriminant.None?
    ensures ResolveDiscriminants(vs)[k].1 == ResolveDiscriminants(vs)[j].1 + (k - j)
    decreases k - j
  {
    if j < k {
      ImplicitRunCountsUp(vs, j, k - 1);
    }
  }

  /** `derive_enum`: the repr is resolved first, and its error stops everything. */
  function DeriveEnum(attrs: seq<Attribute>, ident: string, generics: Generics, variants: seq<Variant>)
    : (r: Result<Output, seq<Error>>)
    ensures r.Err? <==> SrcAst.FromAttributesSpec(attrs).Err?
    ensures r.Err? ==> r.error == SrcAst.FromAttributesSpec(attrs).error
    ensures r.Ok? ==>
              var repr := SrcAst.FromAttributesSpec(attrs).value.ident;
              && r.value.fromImpl.generics == generics && r.value.tryFromImpl.generics == generics
              && r.value.fromImpl.enumName == ident && r.value.tryFromImpl.enumName == ident
              && r.value.fromImpl.repr == repr && r.value.tryFromImpl.repr == repr
              && r.value.tryFromImpl.errorType == repr
              && r.value.fromImpl.arms == ResolveDiscriminants(variants) && r.value.tryFromImpl.arms == r.value.fromImpl.arms
  {
    match SrcAst.FromAttributesSpec(attrs)
    case Err(e) => Err(e)
    case Ok(repr) =>
      var arms := ResolveDiscriminants(variants);
      Ok(Output(FromImpl(generics, ident, repr.ident, arms),
                TryFromImpl(generics, ident, repr.ident, repr.ident, arms)))
  }

  /** `derive`: structs and unions are refused at the call site; enums go to `derive_enum`. */
  function Derive(input: DeriveInput): (r: Result<Output, seq<Error>>)
    ensures input.data.StructData? ==> r == Err([Error(StructMessage, CallSite)])
    ensures input.data.UnionData? ==> r == Err([Error(UnionMessage, CallSite)])
    ensures input.data.EnumData? ==> r == DeriveEnum(input.attrs, input.ident, input.generics, input.data.variants)
    ensures r.Ok? ==> input.data.EnumData?
  {
    match input.data
    case EnumData(variants) => DeriveEnum(input.attrs, input.ident, input.generics, variants)
    case StructData => Err([Error(StructMessage, CallSite)])
    case UnionData => Err([Error(UnionMessage, CallSite)])
  }

  /** `<Repr as From<Enum>>::from(variant)`: the variant's arm gives its discriminant. */
  function From(f: FromImpl, variant: nat): int
    requires variant < |f.arms|
  {
    Generated.IntValue(f.arms, variant)
  }

  /**
   * `<Enum as TryFrom<Repr>>::try_from(v)`: the first guard that holds picks
   * its variant; when none does, `v` itself is the error.
   */
  function TryFrom(t: TryFromImpl, v: int): (r: Result<nat, int>)
    ensures r.Ok? ==> r.value < |t.arms| && t.arms[r.value].1 == v
                      && forall j :: 0 <= j < r.value ==> t.arms[j].1 != v
    ensures r.Err? <==> forall j :: 0 <= j < |t.arms| ==> t.arms[j].1 != v
    ensures r.Err? ==> r.error == v
  {
    match Generated.FirstMatch(t.arms, v)
    case Some(k) => Ok(k)
    case None => Err(v)
  }

  /** With distinct discriminants, `try_from(from(v)) == Ok(v)` for every variant. */
  lemma TryFromOfFrom(out: Output, variant: nat)
    requires out.tryFromImpl.arms == out.fromImpl.arms && Generated.Distinct(out.fromImpl.arms)
    requires variant < |out.fromImpl.arms|
    ensures TryFrom(out.tryFromImpl, From(out.fromImpl, variant)) == Ok(variant)
  {
    var arms := out.fromImpl.arms;
    assert forall j :: 0 <= j < variant ==> arms[j].1 != arms[variant].1;
  }

  /** A value `try_from` accepts converts back to itself through `from`. */
  lemma FromOfTryFrom(out: Output, v: int)
    requires out.tryFromImpl.arms == out.fromImpl.arms && TryFrom(out.tryFromImpl, v).Ok?
    ensures From(out.fromImpl, TryFrom(out.tryFromImpl, v).value) == v
  {
  }

  function Unit(name: string, d: Option<int>): Variant {
    Variant(name, Fields.Unit, d)
  }

  /**
   * The `#[repr(i16)]` enum `Zero, MinusOne = -1, One = 1, Two, MinusFive = -5,
   * MinusFour, MinusThree`: values 0, -1, 1, 2, -5, -4, -3; `try_from(-2)` and
   * `try_from(3)` give back `Err(-2)` and `Err(3)`.
   */
  lemma ImplicitDiscriminantsExample()
    ensures var vs := [Unit("Zero", None), Unit("MinusOne", Some(-1)), Unit("One", Some(1)), Unit("Two", None),
                       Unit("MinusFive", Some(-5)), Unit("MinusFour", None), Unit("MinusThree", None)];
            var arms := ResolveDiscriminants(vs);
            var t := TryFromImpl(Generics([], []), "NoDiscr", "i16", "i16", arms);
            && (forall k :: 0 <= k < 7 ==> arms[k].1 == [0, -1, 1, 2, -5, -4, -3][k])
            && TryFrom(t, -2) == Err(-2) && TryFrom(t, 3) == Err(3) && TryFrom(t, -3) == Ok(6)
  {
    var vs := [Unit("Zero", None), Unit("MinusOne", Some(-1)), Unit("One", Some(1)), Unit("Two", None),
               Unit("MinusFive", Some(-5)), Unit("MinusFour", None), Unit("MinusThree", None)];
    var arms := ResolveDiscriminants(vs);
    assert arms[0].1 == 0;
    assert arms[1].1 == -1;
    assert arms[2].1 == 1;
    assert arms[3].1 == 2;
    assert arms[4].1 == -5;
    assert arms[5].1 == -4;
    assert arms[6].1 == -3;
    var expected := [0, -1, 1, 2, -5, -4, -3];
    assert forall k :: 0 <= k < 7 ==> arms[k].1 == expected[k];
    var t := TryFromImpl(Generics([], []), "NoDiscr", "i16", "i16", arms);
    assert TryFrom(t, -2).Err?;
    assert TryFrom(t, 3).Err?;
    assert TryFrom(t, -3).Ok?;
  }
}
