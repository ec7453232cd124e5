/**
 * int-enum-impl/src/base.rs: the `IntEnum` impl of the `int-enum-impl/`
 * generation. `int_value` has one arm `Enum::V => { <literal> }` per parsed
 * pair and `from_int` one arm `<literal> => Ok(Enum::V)` per pair, followed
 * by `_ => Err(IntEnumError::__new(n))`; the literals are the pairs'
 * suffixed discriminants (`-5i8`). The impl is wrapped in the dummy const
 * for trait `IntEnum` and the enum's name.
 */
module IntEnumImplBase {
  import opened Outcomes
  import P = IntEnumImplParse
  import Dummy = IntEnumImplDummy
  import Generated
  import SrcError

  /** `impl _int_enum::IntEnum for Enum { type Int = repr; .. }`, its arms given by `arms` in order. */
  datatype ImplBlock = ImplBlock(enumName: string, intType: string, arms: seq<(string, P.Int)>)

  /** `int_enum_impl`: the impl block for the parsed enum, inside its dummy const. */
  function IntEnumImpl(input: P.IntEnum, crateName: Option<string>): (r: Result<Dummy.DummyConst<ImplBlock>, string>)
    ensures r.Err? <==> crateName.None?
    ensures r.Err? ==> r.error == Dummy.MissingCrate
    ensures r.Ok? ==> r.value.name == Dummy.DummyConstName("IntEnum", input.ident)
    ensures r.Ok? ==> r.value.code.enumName == input.ident && r.value.code.intType == input.repr
                      && r.value.code.arms == input.variants
  {
    Dummy.WrapInConst("IntEnum", input.ident, ImplBlock(input.ident, input.repr, input.variants), crateName)
  }

  /** The arms as `(variant, value)`: the value each literal pattern or expression denotes. */
  function Arms(b: ImplBlock): (r: seq<Generated.Arm>)
    ensures |r| == |b.arms|
    ensures forall k :: 0 <= k < |r| ==> r[k] == (b.arms[k].0, P.IntValue(b.arms[k].1))
  {
    seq(|b.arms|, k requires 0 <= k < |b.arms| => (b.arms[k].0, P.IntValue(b.arms[k].1)))
  }

  /** `int_value(self)` for the variant at position `variant`. */
  function IntValue(b: ImplBlock, variant: nat): int
    requires variant < |b.arms|
  {
    Generated.IntValue(Arms(b), variant)
  }

  /** `from_int(n)`: the first arm whose literal is `n`, or `IntEnumError::__new(n)`. */
  function FromInt(b: ImplBlock, n: int): Result<nat, SrcError.IntEnumError<()>> {
    Generated.FromInt(Arms(b), n)
  }

  /**
   * For the pairs made from parsed variants: one arm per variant, in order, each
   * literal suffixed with the repr; `int_value` gives the discriminant as it
   * was written (in whatever radix), and `from_int(n)` gives the first variant
   * written with value `n`, or an error carrying `n`.
   */
  lemma ImplOfParsedVariants(raw: seq<P.IntEnumVariant>, ident: string, repr: string, n: int)
    requires P.SuffixName(repr)
    ensures var b := ImplBlock(ident, repr, P.Pairs(raw, repr));
            && |b.arms| == |raw|
            && (forall k :: 0 <= k < |raw| ==>
                  && b.arms[k].0 == raw[k].ident && b.arms[k].1.lit.suffix == repr
                  && IntValue(b, k) == P.IntValue(raw[k].discriminant))
            && (FromInt(b, n).Ok? ==>
                  var k := FromInt(b, n).value;
                  && k < |raw| && P.IntValue(raw[k].discriminant) == n
                  && forall j :: 0 <= j < k ==> P.IntValue(raw[j].discriminant) != n)
            && (FromInt(b, n).Err? <==> forall j :: 0 <= j < |raw| ==> P.IntValue(raw[j].discriminant) != n)
            && (FromInt(b, n).Err? ==> SrcError.Value(FromInt(b, n).error) == n)
  {
    var b := ImplBlock(ident, repr, P.Pairs(raw, repr));
    forall k | 0 <= k < |raw|
      ensures b.arms[k].1.lit.suffix == repr && P.IntValue(b.arms[k].1) == P.IntValue(raw[k].discriminant)
    {
      P.IntoPairKeepsValue(raw[k], repr);
    }
  }

  /** With distinct values, `from_int(int_value(v)) == Ok(v)` for every variant. */
  lemma FromIntOfIntValue(b: ImplBlock, variant: nat)
    requires Generated.Distinct(Arms(b)) && variant < |b.arms|
    ensures FromInt(b, IntValue(b, variant)) == Ok(variant)
  {
    Generated.FromIntOfIntValue<()>(Arms(b), variant);
  }

  /** A value `from_int` accepts gives itself back through `int_value`. */
  lemma IntValueOfFromInt(b: ImplBlock, n: int)
    requires FromInt(b, n).Ok?
    ensures FromInt(b, n).value < |b.arms| && IntValue(b, FromInt(b, n).value) == n
  {
  }

  /**
   * `#[repr(u16)] enum E { A = 0x41 }` (tokens as the parser sees them) gives the
   * arm `E::A => 65u16`, so `int_value(A) == 65` and `from_int(65) == Ok(A)`.
   */
  lemma HexLiteralExample()
    ensures var ts := [P.OuterAttr(P.ReprList([P.Word("u16")])), P.Ident("enum"), P.Ident("E"),
                       P.Brace([P.Ident("A"), P.Punct('='), P.Lit(P.LitInt(65, ""))])];
            var parsed := P.ParseIntEnumSpec(ts);
            && parsed.Ok? && parsed.value.repr == "u16" && parsed.value.ident == "E"
            && |parsed.value.variants| == 1
            && parsed.value.variants[0] == ("A", P.Int(false, P.LitInt(65, "u16")))
            && var b := ImplBlock("E", "u16", parsed.value.variants);
               IntValue(b, 0) == 65 && FromInt(b, 65) == Ok(0)
  {
    var ts := [P.OuterAttr(P.ReprList([P.Word("u16")])), P.Ident("enum"), P.Ident("E"),
               P.Brace([P.Ident("A"), P.Punct('='), P.Lit(P.LitInt(65, ""))])];
    var body := [P.Ident("A"), P.Punct('='), P.Lit(P.LitInt(65, ""))];
    var x := P.Int(false, P.LitInt(65, ""));
    assert body == P.RenderVariants([("A", x)], false);
    P.ParseRenderedVariants([("A", x)], false, "u16");
    assert ts[0] == P.OuterAttr(P.ReprList([P.Word("u16")])) && ts[1] == P.Ident("enum");
    assert P.ParseOuterAttrs(ts, 1) == ([], 1);
    assert [P.ReprList([P.Word("u16")])] + [] == [P.ReprList([P.Word("u16")])];
    assert P.ParseOuterAttrs(ts, 0) == ([P.ReprList([P.Word("u16")])], 1);
    assert P.ReprFromAttrsSpec([P.ReprList([P.Word("u16")])]) == Ok("u16");
    P.HeaderOfRepr(ts, "u16");
    assert P.ParseHeader(ts) == Ok(P.Header("u16", "E", body));
    P.IntoPairKeepsValue(P.IntEnumVariant([], "A", x), "u16");
  }
}
