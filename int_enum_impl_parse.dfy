/**
 * int-enum-impl/src/parse.rs: the `int-enum-impl/` generation parses the
 * enum itself, token by token. Every variant must be written `Name = int`
 * (an optional `-` and an integer literal); the repr comes from the first
 * `#[repr(..)]` list, which must hold exactly one of the twelve integer
 * names. Each discriminant literal is rewritten in decimal with the repr as
 * its suffix (`0x41` becomes `65u16`).
 */
module IntEnumImplParse {
  import opened Outcomes
  import opened Syn
  import Decimal
  import RustInt

  /**
   * An integer literal token: its value and its suffix. `65u16` has value 65 and
   * suffix "u16"; `0x41` has value 65 and no suffix.
   */
  datatype LitInt = LitInt(value: nat, suffix: string)

  /** The tokens the parser sees. An outer attribute `#[..]` is one token here. */
  datatype Token =
    | Ident(name: string)
    | Punct(ch: char)
    | Lit(lit: LitInt)
    | OtherLit(text: string)
    | OuterAttr(attr: Attribute)
    | Brace(inner: seq<Token>)
    | Paren(inner: seq<Token>)

  /** `LitInt::base10_digits`: the literal's value in decimal, whatever radix it was written in. */
  function Base10Digits(l: LitInt): string {
    Decimal.NatToDecimal(l.value)
  }

  /** `LitInt::new(text, ..)` for a decimal literal: leading digits, then the suffix. */
  function NewLitInt(text: string): LitInt
    requires SplitDigitsNonEmpty(text)
  {
    var parts := Decimal.SplitDigits(text);
    LitInt(Decimal.DecimalValue(parts.0), parts.1)
  }

  predicate SplitDigitsNonEmpty(text: string) {
    Decimal.SplitDigits(text).0 != []
  }

  /** `Int`: an optional `-` token and an integer literal. */
  datatype Int = Int(neg: bool, lit: LitInt)

  /** The integer an `Int` denotes. */
  function IntValue(x: Int): int {
    if x.neg then -(x.lit.value as int) else x.lit.value
  }

  /** `Int::parse` at position `pos`: the `Int` and the position after it. */
  function ParseInt(ts: seq<Token>, pos: nat): (r: Result<(Int, nat), Error>)
    ensures r.Ok? ==> pos < r.value.1 <= |ts|
  {
    var neg := pos < |ts| && ts[pos] == Punct('-');
    var p := if neg then pos + 1 else pos;
    if p < |ts| && ts[p].Lit? then Ok((Int(neg, ts[p].lit), p + 1))
    else Err(ParseFailure(BodyTokenAt(p)))
  }

  /** `Int::to_tokens`: the `-` exactly when there was one, then the literal. */
  function IntTokens(x: Int): seq<Token> {
    (if x.neg then [Punct('-')] else []) + [Lit(x.lit)]
  }

  /** Printing an `Int` and parsing it back, whatever follows, gives the same `Int`. */
  lemma ParseIntOfTokens(pre: seq<Token>, x: Int, rest: seq<Token>)
    ensures ParseInt(pre + IntTokens(x) + rest, |pre|) == Ok((x, |pre| + |IntTokens(x)|))
  {
    var ts := pre + IntTokens(x) + rest;
    if x.neg {
      assert ts[|pre|] == Punct('-') && ts[|pre| + 1] == Lit(x.lit);
    } else {
      assert ts[|pre|] == Lit(x.lit);
    }
  }

  /** What `Int::parse` consumed is exactly what `to_tokens` prints for its result. */
  lemma TokensOfParseInt(ts: seq<Token>, pos: nat)
    requires ParseInt(ts, pos).Ok?
    ensures var (x, q) := ParseInt(ts, pos).value; ts[pos..q] == IntTokens(x)
  {
  }

  /** `IntEnumVariant`: outer attributes, the name, `=`, and the discriminant. */
  datatype IntEnumVariant = IntEnumVariant(attrs: seq<Attribute>, ident: string, discriminant: Int)

  /** `Attribute::parse_outer`: the outer attributes from `pos` on, and the position after them. */
  function ParseOuterAttrs(ts: seq<Token>, pos: nat): (r: (seq<Attribute>, nat))
    requires pos <= |ts|
    ensures pos <= r.1 <= |ts|
    ensures r.1 == |ts| || !ts[r.1].OuterAttr?
    ensures |r.0| == r.1 - pos
    decreases |ts| - pos
  {
    if pos < |ts| && ts[pos].OuterAttr? then
      var rest := ParseOuterAttrs(ts, pos + 1);
      ([ts[pos].attr] + rest.0, rest.1)
    else ([], pos)
  }

  /** `IntEnumVariant::parse`: fails at the first token that does not fit `#[..]* Name = Int`. */
  function ParseVariant(ts: seq<Token>, pos: nat): (r: Result<(IntEnumVariant, nat), Error>)
    requires pos <= |ts|
    ensures r.Ok? ==> pos < r.value.1 <= |ts|
  {
    var (attrs, p) := ParseOuterAttrs(ts, pos);
    if p >= |ts| || !ts[p].Ident? then Err(ParseFailure(BodyTokenAt(p)))
    else if p + 1 >= |ts| || ts[p + 1] != Punct('=') then Err(ParseFailure(BodyTokenAt(p + 1)))
    else match ParseInt(ts, p + 2)
      case Err(e) => Err(e)
      case Ok((x, q)) => Ok((IntEnumVariant(attrs, ts[p].name, x), q))
  }

  /** A repr name: non-empty and not starting with a digit, as every integer type name is. */
  predicate SuffixName(repr: string) {
    repr != [] && !Decimal.IsDigit(repr[0])
  }

  /**
   * `IntEnumVariant::into_pair`: keeps the name and the sign, and replaces the
   * literal by its base-10 digits followed by the repr.
   */
  function IntoPair(v: IntEnumVariant, repr: string): (string, Int)
    requires SuffixName(repr)
  {
    var text := Base10Digits(v.discriminant.lit) + repr;
    Decimal.SplitDigitsOfConcat(Base10Digits(v.discriminant.lit), repr);
    (v.ident, Int(v.discriminant.neg, NewLitInt(text)))
  }

  /** The rewritten literal has the same value, now suffixed with the repr. */
  lemma IntoPairKeepsValue(v: IntEnumVariant, repr: string)
    requires SuffixName(repr)
    ensures var (ident, x) := IntoPair(v, repr);
            && ident == v.ident && x.neg == v.discriminant.neg
            && x.lit == LitInt(v.discriminant.lit.value, repr)
            && IntValue(x) == IntValue(v.discriminant)
  {
    var digits := Base10Digits(v.discriminant.lit);
    Decimal.SplitDigitsOfConcat(digits, repr);
    Decimal.DecimalRoundTrip(v.discriminant.lit.value);
  }

  /** The variant loop, from position `pos` of the brace's contents: the variants in order, as parsed. */
  function VariantsFrom(ts: seq<Token>, pos: nat): Result<seq<IntEnumVariant>, Error>
    requires pos <= |ts|
    decreases |ts| - pos
  {
    if pos == |ts| then Ok([])
    else match ParseVariant(ts, pos)
      case Err(e) => Err(e)
      case Ok((v, p)) =>
        if p == |ts| then Ok([v])
        else if ts[p] != Punct(',') then Err(ParseFailure(BodyTokenAt(p)))
        else match VariantsFrom(ts, p + 1)
          case Err(e) => Err(e)
          case Ok(rest) => Ok([v] + rest)
  }

  /** `into_pair` applied to each variant, in order. */
  function Pairs(vs: seq<IntEnumVariant>, repr: string): (r: seq<(string, Int)>)
    requires SuffixName(repr)
    ensures |r| == |vs|
    ensures forall k :: 0 <= k < |vs| ==> r[k] == IntoPair(vs[k], repr)
  {
    seq(|vs|, k requires 0 <= k < |vs| => IntoPair(vs[k], repr))
  }

  /** What `IntEnum::parse` pushes into `variants`: the pairs of the parsed variants, or the first error. */
  function VariantPairs(ts: seq<Token>, repr: string): Result<seq<(string, Int)>, Error>
    requires SuffixName(repr)
  {
    match VariantsFrom(ts, 0)
    case Err(e) => Err(e)
    case Ok(vs) => Ok(Pairs(vs, repr))
  }

  /** `done` followed by whatever the loop still produces from `r`. */
  function Prepend(done: seq<IntEnumVariant>, r: Result<seq<IntEnumVariant>, Error>): Result<seq<IntEnumVariant>, Error> {
    match r
    case Ok(rest) => Ok(done + rest)
    case Err(e) => Err(e)
  }

  /**
   * The `loop` of `IntEnum::parse`: stop when the contents are used up, parse a
   * variant and push its pair, stop again if nothing is left, else eat a comma.
   */
  method ParseVariants(ts: seq<Token>, repr: string) returns (r: Result<seq<(string, Int)>, Error>)
    requires SuffixName(repr)
    ensures r == VariantPairs(ts, repr)
  {
    var variants: seq<(string, Int)> := [];
    ghost var done: seq<IntEnumVariant> := [];
    var pos := 0;
    PrependNothing(VariantsFrom(ts, 0));
    while pos < |ts|
      invariant pos <= |ts|
      invariant Prepend(done, VariantsFrom(ts, pos)) == VariantsFrom(ts, 0)
      invariant variants == Pairs(done, repr)
      decreases |ts| - pos
    {
      var parsed := ParseVariant(ts, pos);
      VariantsFromStep(ts, pos, done);
      if parsed.Err? {
        VariantPairsOfWhole(ts, repr);
        return Err(parsed.error);
      }
      var v, p := parsed.value.0, parsed.value.1;
      PairsSnoc(done, v, repr);
      variants := variants + [IntoPair(v, repr)];
      if p == |ts| {
        VariantPairsOfWhole(ts, repr);
        return Ok(variants);
      }
      if ts[p] != Punct(',') {
        VariantPairsOfWhole(ts, repr);
        return Err(ParseFailure(BodyTokenAt(p)));
      }
      done := done + [v];
      pos := p + 1;
    }
    VariantsFromEnd(ts, done);
    VariantPairsOfWhole(ts, repr);
    return Ok(variants);
  }

  /** `VariantPairs` in terms of what the variant loop yields. */
  lemma VariantPairsOfWhole(ts: seq<Token>, repr: string)
    requires SuffixName(repr)
    ensures VariantsFrom(ts, 0).Err? ==> VariantPairs(ts, repr) == Err(VariantsFrom(ts, 0).error)
    ensures VariantsFrom(ts, 0).Ok? ==> VariantPairs(ts, repr) == Ok(Pairs(VariantsFrom(ts, 0).value, repr))
  {
  }

  /** At the end of the contents the loop yields nothing more. */
  lemma VariantsFromEnd(ts: seq<Token>, done: seq<IntEnumVariant>)
    ensures Prepend(done, VariantsFrom(ts, |ts|)) == Ok(done)
  {
    assert done + [] == done;
  }

  lemma PrependNothing(r: Result<seq<IntEnumVariant>, Error>)
    ensures Prepend([], r) == r
  {
    if r.Ok? {
      assert [] + r.value == r.value;
    }
  }

  /** One turn of the loop: how what is still to come from `pos` follows from the variant parsed there. */
  lemma VariantsFromStep(ts: seq<Token>, pos: nat, done: seq<IntEnumVariant>)
    requires pos < |ts|
    ensures ParseVariant(ts, pos).Err? ==> Prepend(done, VariantsFrom(ts, pos)) == Err(ParseVariant(ts, pos).error)
    ensures ParseVariant(ts, pos).Ok? ==>
              var (v, p) := ParseVariant(ts, pos).value;
              && (p == |ts| ==> Prepend(done, VariantsFrom(ts, pos)) == Ok(done + [v]))
              && (p < |ts| && ts[p] != Punct(',') ==>
                    Prepend(done, VariantsFrom(ts, pos)) == Err(ParseFailure(BodyTokenAt(p))))
              && (p < |ts| && ts[p] == Punct(',') ==>
                    Prepend(done, VariantsFrom(ts, pos)) == Prepend(done + [v], VariantsFrom(ts, p + 1)))
  {
    if ParseVariant(ts, pos).Ok? {
      var (v, p) := ParseVariant(ts, pos).value;
      if p < |ts| && ts[p] == Punct(',') && VariantsFrom(ts, p + 1).Ok? {
        assert (done + [v]) + VariantsFrom(ts, p + 1).value == done + ([v] + VariantsFrom(ts, p + 1).value);
      }
    }
  }

  /** Pushing one more pair. */
  lemma PairsSnoc(done: seq<IntEnumVariant>, v: IntEnumVariant, repr: string)
    requires SuffixName(repr)
    ensures Pairs(done + [v], repr) == Pairs(done, repr) + [IntoPair(v, repr)]
  {
    var a := Pairs(done + [v], repr);
    var b := Pairs(done, repr) + [IntoPair(v, repr)];
    forall k | 0 <= k < |a|
      ensures a[k] == b[k]
    {
      if k < |done| {
        assert (done + [v])[k] == done[k];
      } else {
        assert (done + [v])[k] == v;
      }
    }
    assert a == b;
  }

  /** The tokens of `Name = int` followed by a comma (or nothing, for the last one when `trailing` is off). */
  function RenderVariants(vs: seq<(string, Int)>, trailing: bool): seq<Token>
    decreases |vs|
  {
    if vs == [] then []
    else
      var one := [Ident(vs[0].0), Punct('=')] + IntTokens(vs[0].1);
      if |vs| == 1 && !trailing then one
      else one + [Punct(',')] + RenderVariants(vs[1..], trailing)
  }

  /** Written variants `Name = int`, without attributes. */
  function Written(vs: seq<(string, Int)>): (r: seq<IntEnumVariant>)
    ensures |r| == |vs|
    ensures forall k :: 0 <= k < |vs| ==> r[k] == IntEnumVariant([], vs[k].0, vs[k].1)
  {
    seq(|vs|, k requires 0 <= k < |vs| => IntEnumVariant([], vs[k].0, vs[k].1))
  }

  /**
   * Comma-separated `Name = int` variants parse back to one variant each, in
   * order, with or without a trailing comma; an empty body gives no variants.
   * Each pushed pair keeps the name and the value, suffixed with the repr.
   */
  lemma ParseRenderedVariants(vs: seq<(string, Int)>, trailing: bool, repr: string)
    requires SuffixName(repr)
    ensures VariantsFrom(RenderVariants(vs, trailing), 0) == Ok(Written(vs))
    ensures var r := VariantPairs(RenderVariants(vs, trailing), repr);
            && r.Ok? && |r.value| == |vs|
            && forall k :: 0 <= k < |vs| ==>
                 && r.value[k].0 == vs[k].0 && r.value[k].1.neg == vs[k].1.neg
                 && r.value[k].1.lit == LitInt(vs[k].1.lit.value, repr)
  {
    var ts := RenderVariants(vs, trailing);
    assert ts[0..] == ts;
    ParseRenderedVariantsAt(ts, 0, vs, trailing);
    forall k | 0 <= k < |vs|
      ensures IntoPair(Written(vs)[k], repr).1.lit == LitInt(vs[k].1.lit.value, repr)
    {
      IntoPairKeepsValue(Written(vs)[k], repr);
    }
  }

  /** The same, for rendered variants that fill the tokens from position `pos` on. */
  lemma {:induction false} ParseRenderedVariantsAt(ts: seq<Token>, pos: nat, vs: seq<(string, Int)>, trailing: bool)
    requires pos <= |ts| && ts[pos..] == RenderVariants(vs, trailing)
    ensures VariantsFrom(ts, pos) == Ok(Written(vs))
    decreases |vs|
  {
    if vs == [] {
      assert |ts[pos..]| == 0;
    } else {
      var q := RenderedFirst(ts, pos, vs, trailing);
      var v := IntEnumVariant([], vs[0].0, vs[0].1);
      ParseVariantAt(ts, pos, vs[0].0, vs[0].1);
      WrittenCons(vs);
      if |vs| == 1 && !trailing {
        assert vs[1..] == [];
        assert Written(vs) == [v];
        VariantsFromLast(ts, pos, v);
      } else {
        ParseRenderedVariantsAt(ts, q + 1, vs[1..], trailing);
        VariantsFromComma(ts, pos, v, q, Written(vs[1..]));
      }
    }
  }

  /** A variant that ends the contents is the last one the loop yields. */
  lemma VariantsFromLast(ts: seq<Token>, pos: nat, v: IntEnumVariant)
    requires pos < |ts| && ParseVariant(ts, pos) == Ok((v, |ts|))
    ensures VariantsFrom(ts, pos) == Ok([v])
  {
  }

  /**
   * Where the first rendered variant ends: at the end of the tokens when it is
   * the last one without a trailing comma, and otherwise at a comma followed
   * by the rendering of the others.
   */
  lemma RenderedFirst(ts: seq<Token>, pos: nat, vs: seq<(string, Int)>, trailing: bool) returns (q: nat)
    requires vs != [] && pos <= |ts| && ts[pos..] == RenderVariants(vs, trailing)
    ensures q == pos + 2 + |IntTokens(vs[0].1)| <= |ts|
    ensures ts[pos..q] == [Ident(vs[0].0), Punct('=')] + IntTokens(vs[0].1)
    ensures |vs| == 1 && !trailing ==> q == |ts|
    ensures |vs| > 1 || trailing ==> q < |ts| && ts[q] == Punct(',') && ts[q + 1..] == RenderVariants(vs[1..], trailing)
  {
    var one := [Ident(vs[0].0), Punct('=')] + IntTokens(vs[0].1);
    q := pos + |one|;
    if |vs| == 1 && !trailing {
      assert ts[pos..] == one + [];
      SliceOfConcat(ts, pos, one, []);
    } else {
      var rest := RenderVariants(vs[1..], trailing);
      assert ts[pos..] == one + ([Punct(',')] + rest);
      SliceOfConcat(ts, pos, one, [Punct(',')] + rest);
      SliceOfConcat(ts, q, [Punct(',')], rest);
    }
  }

  /** Tokens from `pos` on that are `a` followed by `b`: `a` comes first, then `b`. */
  lemma SliceOfConcat(ts: seq<Token>, pos: nat, a: seq<Token>, b: seq<Token>)
    requires pos <= |ts| && ts[pos..] == a + b
    ensures pos + |a| <= |ts| && ts[pos..pos + |a|] == a && ts[pos + |a|..] == b
    ensures |b| > 0 ==> ts[pos + |a|] == b[0]
  {
    assert |ts| - pos == |a| + |b|;
    forall k | 0 <= k < |a|
      ensures ts[pos..pos + |a|][k] == a[k]
    {
      assert ts[pos..][k] == (a + b)[k];
    }
    forall k | 0 <= k < |b|
      ensures ts[pos + |a|..][k] == b[k]
    {
      assert ts[pos..][|a| + k] == (a + b)[|a| + k];
    }
  }

  lemma WrittenCons(vs: seq<(string, Int)>)
    requires vs != []
    ensures [IntEnumVariant([], vs[0].0, vs[0].1)] + Written(vs[1..]) == Written(vs)
  {
    assert forall k :: 0 <= k < |vs| - 1 ==> vs[1..][k] == vs[k + 1];
  }

  /** One step of the loop: a variant, a comma, and then whatever the rest yields. */
  lemma VariantsFromComma(ts: seq<Token>, pos: nat, v: IntEnumVariant, p: nat, rest: seq<IntEnumVariant>)
    requires pos < |ts| && ParseVariant(ts, pos) == Ok((v, p))
    requires p < |ts| && ts[p] == Punct(',') && VariantsFrom(ts, p + 1) == Ok(rest)
    ensures VariantsFrom(ts, pos) == Ok([v] + rest)
  {
  }

  /** `Name = int` at position `pos` parses as one variant without attributes, whatever follows it. */
  lemma ParseVariantAt(ts: seq<Token>, pos: nat, name: string, x: Int)
    requires pos + 2 + |IntTokens(x)| <= |ts|
    requires ts[pos..pos + 2 + |IntTokens(x)|] == [Ident(name), Punct('=')] + IntTokens(x)
    ensures ParseVariant(ts, pos) == Ok((IntEnumVariant([], name, x), pos + 2 + |IntTokens(x)|))
  {
    var s := ts[pos..pos + 2 + |IntTokens(x)|];
    assert ts[pos] == s[0] == Ident(name) && ts[pos + 1] == s[1] == Punct('=');
    assert ParseOuterAttrs(ts, pos) == ([], pos);
    if x.neg {
      assert ts[pos + 2] == s[2] == Punct('-') && ts[pos + 3] == s[3] == Lit(x.lit);
    } else {
      assert ts[pos + 2] == s[2] == Lit(x.lit);
    }
  }

  const GenericsMessage: string := "generics are not supported for IntEnum"
  const ReprMissingIntType: string := "repr missing int type"
  const OnlyOneRepr: string := "only one repr expected"
  const InvalidIntType: string := "invalid int type"
  const NoReprFound: string := "no #[repr(...)] found"

  /** `validate_repr`'s `VALID_REPRS`, unsigned names first. */
  const ValidReprs: seq<string> :=
    ["u8", "u16", "u32", "u64", "u128", "usize", "i8", "i16", "i32", "i64", "i128", "isize"]

  /** `validate_repr` as a value. */
  function ValidateReprSpec(path: Path, at: Origin): (r: Result<string, seq<Error>>)
    ensures r.Ok? <==> GetIdent(path).Some? && GetIdent(path).value in RustInt.IntTypeNames()
    ensures r.Ok? ==> GetIdent(path) == Some(r.value)
    ensures r.Err? ==> r.error == [Error(InvalidIntType, at)]
  {
    match GetIdent(path)
    case None => Err([Error(InvalidIntType, at)])
    case Some(ident) => if ident in ValidReprs then Ok(ident) else Err([Error(InvalidIntType, at)])
  }

  /** `validate_repr`: a single identifier, compared with each valid name in turn. */
  method ValidateRepr(path: Path, at: Origin) returns (r: Result<string, seq<Error>>)
    ensures r == ValidateReprSpec(path, at)
  {
    var ident := GetIdent(path);
    if ident.None? {
      return Err([Error(InvalidIntType, at)]);
    }
    for k := 0 to |ValidReprs|
      invariant ident.value !in ValidReprs[..k]
    {
      if ident.value == ValidReprs[k] {
        return Ok(ident.value);
      }
    }
    assert ValidReprs[..|ValidReprs|] == ValidReprs;
    return Err([Error(InvalidIntType, at)]);
  }

  /** One "only one repr expected" per entry after the first of the list at attribute `i`. */
  function ExtraEntryErrors(n: nat, i: nat): (errs: seq<Error>)
    requires n >= 1
    ensures |errs| == n - 1
    ensures forall k :: 0 <= k < n - 1 ==> errs[k] == Error(OnlyOneRepr, EntryAt(i, k + 1))
  {
    seq(n - 1, k requires 0 <= k < n - 1 => Error(OnlyOneRepr, EntryAt(i, k + 1)))
  }

  /** What `repr_from_attrs` returns for the `repr(..)` list at attribute `i`. */
  function ReprListDecision(nested: seq<NestedMeta>, i: nat): (r: Result<string, seq<Error>>)
    ensures |nested| == 0 ==> r == Err([Error(ReprMissingIntType, NestedAt(i))])
    ensures |nested| >= 2 ==> r == Err(ExtraEntryErrors(|nested|, i))
    ensures |nested| == 1 ==>
              (r.Ok? <==> nested[0].NestedItem? && nested[0].meta.MetaPath?
                          && GetIdent(nested[0].meta.path).Some?
                          && GetIdent(nested[0].meta.path).value in RustInt.IntTypeNames())
    ensures |nested| == 1 && r.Ok? ==> GetIdent(nested[0].meta.path) == Some(r.value)
    ensures |nested| == 1 && r.Err? ==> r.error == [Error(InvalidIntType, EntryAt(i, 0))]
  {
    if |nested| == 0 then Err([Error(ReprMissingIntType, NestedAt(i))])
    else if |nested| >= 2 then Err(ExtraEntryErrors(|nested|, i))
    else match nested[0]
      case NestedItem(MetaPath(path)) => ValidateReprSpec(path, EntryAt(i, 0))
      case _ => Err([Error(InvalidIntType, EntryAt(i, 0))])
  }

  /** `repr_from_attrs`, continuing from attribute `i`. */
  function ReprFromAttrsFrom(attrs: seq<Attribute>, i: nat): Result<string, seq<Error>>
    requires i <= |attrs|
    decreases |attrs| - i
  {
    if i == |attrs| then Err([Error(NoReprFound, CallSite)])
    else match ParseMeta(attrs[i], i)
      case Err(e) => Err([e])
      case Ok(meta) =>
        if meta.MetaList? && IsIdent(meta.path, "repr") then ReprListDecision(meta.nested, i)
        else ReprFromAttrsFrom(attrs, i + 1)
  }

  function ReprFromAttrsSpec(attrs: seq<Attribute>): Result<string, seq<Error>> {
    ReprFromAttrsFrom(attrs, 0)
  }

  /**
   * `repr_from_attrs`: the loop over the attributes, and inside it the
   * `while let` loop that combines one error per extra entry into `errs`.
   */
  method ReprFromAttrs(attrs: seq<Attribute>) returns (r: Result<string, seq<Error>>)
    ensures r == ReprFromAttrsSpec(attrs)
  {
    for i := 0 to |attrs|
      invariant ReprFromAttrsFrom(attrs, i) == ReprFromAttrsSpec(attrs)
    {
      var meta := ParseMeta(attrs[i], i);
      if meta.Err? {
        return Err([meta.error]);
      }
      if meta.value.MetaList? {
        if !IsIdent(meta.value.path, "repr") {
          continue;
        }
        var nested := meta.value.nested;
        if |nested| == 0 {
          return Err([Error(ReprMissingIntType, NestedAt(i))]);
        }
        var errs: Option<seq<Error>> := None;
        var k := 1;
        while k < |nested|
          invariant 1 <= k <= |nested|
          invariant errs == if k == 1 then None else Some(ExtraEntryErrors(k, i))
        {
          var err := Error(OnlyOneRepr, EntryAt(i, k));
          match errs {
            case Some(es) =>
              assert es + [err] == ExtraEntryErrors(k + 1, i);
              errs := Some(es + [err]);
            case None =>
              assert [err] == ExtraEntryErrors(k + 1, i);
              errs := Some([err]);
          }
          k := k + 1;
        }
        if errs.Some? {
          return Err(errs.value);
        }
        if !(nested[0].NestedItem? && nested[0].meta.MetaPath?) {
          return Err([Error(InvalidIntType, EntryAt(i, 0))]);
        }
        r := ValidateRepr(nested[0].meta.path, EntryAt(i, 0));
        return r;
      }
    }
    return Err([Error(NoReprFound, CallSite)]);
  }

  /** A `repr(..)` list attribute: the only kind that stops the search. */
  predicate IsReprList(a: Attribute) {
    a.args.ListArgs? && IsIdent(a.path, "repr")
  }

  /**
   * The first `repr(..)` list alone decides, provided every attribute before it
   * parses; with none at all the result is "no #[repr(...)] found".
   */
  lemma {:induction false} FirstReprListDecides(attrs: seq<Attribute>, i: nat)
    requires i <= |attrs|
    requires forall k :: i <= k < |attrs| ==> !attrs[k].args.Unparsable?
    ensures ReprFromAttrsFrom(attrs, i)
            == if exists j :: i <= j < |attrs| && IsReprList(attrs[j])
               then ReprListDecision(attrs[FirstReprList(attrs, i)].args.nested, FirstReprList(attrs, i))
               else Err([Error(NoReprFound, CallSite)])
    decreases |attrs| - i
  {
    if i < |attrs| && !IsReprList(attrs[i]) {
      FirstReprListDecides(attrs, i + 1);
      if exists j :: i <= j < |attrs| && IsReprList(attrs[j]) {
        var j :| i <= j < |attrs| && IsReprList(attrs[j]);
        assert i + 1 <= j;
      }
    }
  }

  /** The position of the first `repr(..)` list from `i` on (`|attrs|` when there is none). */
  function FirstReprList(attrs: seq<Attribute>, i: nat): (j: nat)
    requires i <= |attrs|
    ensures i <= j <= |attrs|
    ensures forall k :: i <= k < j ==> !IsReprList(attrs[k])
    ensures j < |attrs| ==> IsReprList(attrs[j])
    ensures j == |attrs| ==> !exists k :: i <= k < |attrs| && IsReprList(attrs[k])
    decreases |attrs| - i
  {
    if i == |attrs| || IsReprList(attrs[i]) then i else FirstReprList(attrs, i + 1)
  }

  /** An accepted repr is one of the twelve integer type names, named alone in a `repr(..)` list. */
  lemma {:induction false} ReprFromAttrsOk(attrs: seq<Attribute>, i: nat)
    requires i <= |attrs| && ReprFromAttrsFrom(attrs, i).Ok?
    ensures ReprFromAttrsFrom(attrs, i).value in RustInt.IntTypeNames()
    ensures exists j :: i <= j < |attrs| && IsReprList(attrs[j]) && |attrs[j].args.nested| == 1
                        && attrs[j].args.nested[0].NestedItem? && attrs[j].args.nested[0].meta.MetaPath?
                        && GetIdent(attrs[j].args.nested[0].meta.path) == Some(ReprFromAttrsFrom(attrs, i).value)
    decreases |attrs| - i
  {
    var meta := ParseMeta(attrs[i], i).value;
    if meta.MetaList? && IsIdent(meta.path, "repr") {
      assert IsReprList(attrs[i]);
    } else {
      ReprFromAttrsOk(attrs, i + 1);
    }
  }

  /** `IntEnum`: the repr name, the enum's name, and the `(variant, Int)` pairs. */
  datatype IntEnum = IntEnum(repr: string, ident: string, variants: seq<(string, Int)>)

  /** `Visibility` parsing: `pub`, optionally followed by its parenthesised restriction. */
  function SkipVisibility(ts: seq<Token>, p: nat): (q: nat)
    requires p <= |ts|
    ensures p <= q <= |ts|
  {
    if p < |ts| && ts[p] == Ident("pub") then
      if p + 1 < |ts| && ts[p + 1].Paren? then p + 2 else p + 1
    else p
  }

  /** Where the header puts things: the repr, the enum's name, and the braced contents. */
  datatype Header = Header(repr: string, ident: string, body: seq<Token>)

  /**
   * `IntEnum::parse` up to the braces: outer attributes and the repr they
   * give, visibility, `enum`, the name, the generics check, the brace group.
   */
  function ParseHeader(ts: seq<Token>): (r: Result<Header, seq<Error>>)
    ensures r.Ok? ==> SuffixName(r.value.repr) && r.value.repr in RustInt.IntTypeNames()
  {
    var parsed := ParseOuterAttrs(ts, 0);
    match ReprFromAttrsSpec(parsed.0)
    case Err(e) => Err(e)
    case Ok(repr) =>
      ReprFromAttrsOk(parsed.0, 0);
      HeaderAfter(ts, SkipVisibility(ts, parsed.1), repr)
  }

  /** The header from the `enum` keyword on, at position `q`, the repr being known. */
  function HeaderAfter(ts: seq<Token>, q: nat, repr: string): (r: Result<Header, seq<Error>>)
    ensures r.Ok? ==> r.value.repr == repr && q + 2 < |ts| && ts[q] == Ident("enum")
                      && ts[q + 1] == Ident(r.value.ident) && ts[q + 2] == Brace(r.value.body)
  {
    if q >= |ts| || ts[q] != Ident("enum") then Err([ParseFailure(ItemTokenAt(q))])
    else if q + 1 >= |ts| || !ts[q + 1].Ident? then Err([ParseFailure(ItemTokenAt(q + 1))])
    else if q + 2 < |ts| && ts[q + 2] == Punct('<') then Err([Error(GenericsMessage, ItemTokenAt(q + 2))])
    else if q + 2 >= |ts| || !ts[q + 2].Brace? then Err([ParseFailure(ItemTokenAt(q + 2))])
    else Ok(Header(repr, ts[q + 1].name, ts[q + 2].inner))
  }

  /** `IntEnum::parse` as a value: the header, then the variant loop over the braces' contents. */
  function ParseIntEnumSpec(ts: seq<Token>): Result<IntEnum, seq<Error>> {
    match ParseHeader(ts)
    case Err(e) => Err(e)
    case Ok(h) =>
      match VariantPairs(h.body, h.repr)
      case Err(e) => Err([e])
      case Ok(vs) => Ok(IntEnum(h.repr, h.ident, vs))
  }

  /** `IntEnum::parse`, with the variant loop run by `ParseVariants`. */
  method ParseIntEnum(ts: seq<Token>) returns (r: Result<IntEnum, seq<Error>>)
    ensures r == ParseIntEnumSpec(ts)
  {
    var header := ParseHeader(ts);
    if header.Err? {
      return Err(header.error);
    }
    var h := header.value;
    var vs := ParseVariants(h.body, h.repr);
    if vs.Err? {
      return Err([vs.error]);
    }
    return Ok(IntEnum(h.repr, h.ident, vs.value));
  }

  /** A `<` right after the enum's name is refused with "generics are not supported for IntEnum". */
  lemma GenericsRejected(repr: Attribute, name: string, rest: seq<Token>)
    requires ReprFromAttrsSpec([repr]).Ok?
    ensures ParseIntEnumSpec([OuterAttr(repr), Ident("enum"), Ident(name), Punct('<')] + rest)
            == Err([Error(GenericsMessage, ItemTokenAt(3))])
  {
    var ts := [OuterAttr(repr), Ident("enum"), Ident(name), Punct('<')] + rest;
    assert ts[0] == OuterAttr(repr) && ts[1] == Ident("enum");
    assert ParseOuterAttrs(ts, 1) == ([], 1);
    assert [repr] + [] == [repr];
    assert ParseOuterAttrs(ts, 0) == ([repr], 1);
    HeaderOfRepr(ts, ReprFromAttrsSpec([repr]).value);
    GenericsInHeader(ts, 1, ReprFromAttrsSpec([repr]).value);
  }

  /** The generics check, once the header is known to start at `q`. */
  lemma GenericsInHeader(ts: seq<Token>, q: nat, repr: string)
    requires ParseHeader(ts) == HeaderAfter(ts, q, repr)
    requires q + 2 < |ts| && ts[q] == Ident("enum") && ts[q + 1].Ident? && ts[q + 2] == Punct('<')
    ensures ParseIntEnumSpec(ts) == Err([Error(GenericsMessage, ItemTokenAt(q + 2))])
  {
    HeaderErrorStops(ts);
  }

  /** A header error is the whole parse's error. */
  lemma HeaderErrorStops(ts: seq<Token>)
    requires ParseHeader(ts).Err?
    ensures ParseIntEnumSpec(ts) == Err(ParseHeader(ts).error)
  {
  }

  /** Once the attributes give a repr, the rest of the header decides. */
  lemma HeaderOfRepr(ts: seq<Token>, repr: string)
    requires ReprFromAttrsSpec(ParseOuterAttrs(ts, 0).0) == Ok(repr)
    ensures ParseHeader(ts) == HeaderAfter(ts, SkipVisibility(ts, ParseOuterAttrs(ts, 0).1), repr)
  {
  }

  /**
   * On success, the repr is what the outer attributes give, the name follows
   * `enum`, and the variants are those of the braces' contents, in order,
   * their literals suffixed with the repr.
   */
  lemma ParseIntEnumOk(ts: seq<Token>)
    requires ParseIntEnumSpec(ts).Ok?
    ensures var e := ParseIntEnumSpec(ts).value;
            var parsed := ParseOuterAttrs(ts, 0);
            var q := SkipVisibility(ts, parsed.1);
            && ReprFromAttrsSpec(parsed.0) == Ok(e.repr) && e.repr in RustInt.IntTypeNames()
            && q + 2 < |ts| && ts[q] == Ident("enum") && ts[q + 1] == Ident(e.ident) && ts[q + 2].Brace?
            && VariantPairs(ts[q + 2].inner, e.repr) == Ok(e.variants)
  {
    var h := ParseHeader(ts).value;
    HeaderParts(ts);
    assert ParseIntEnumSpec(ts).value == IntEnum(h.repr, h.ident, VariantPairs(h.body, h.repr).value);
  }

  lemma HeaderParts(ts: seq<Token>)
    requires ParseHeader(ts).Ok?
    ensures var h := ParseHeader(ts).value;
            var parsed := ParseOuterAttrs(ts, 0);
            && ReprFromAttrsSpec(parsed.0) == Ok(h.repr)
            && HeaderAfter(ts, SkipVisibility(ts, parsed.1), h.repr) == Ok(h)
  {
  }

  function ReprList(entries: seq<NestedMeta>): Attribute {
    Attribute(SimplePath("repr"), ListArgs(entries))
  }

  function Word(name: string): NestedMeta {
    NestedItem(MetaPath(SimplePath(name)))
  }

  /**
   * `#[repr(u8)]` gives `u8`; `#[repr(u8, i16)]` is refused with one "only one
   * repr expected" at the second entry; `#[repr()]` is "repr missing int type";
   * `#[repr(C)]` is "invalid int type"; no attribute at all is "no #[repr(...)] found".
   */
  lemma ReprExamples()
    ensures ReprFromAttrsSpec([ReprList([Word("u8")])]) == Ok("u8")
    ensures ReprFromAttrsSpec([ReprList([Word("u8"), Word("i16")])]) == Err([Error(OnlyOneRepr, EntryAt(0, 1))])
    ensures ReprFromAttrsSpec([ReprList([])]) == Err([Error(ReprMissingIntType, NestedAt(0))])
    ensures ReprFromAttrsSpec([ReprList([Word("C")])]) == Err([Error(InvalidIntType, EntryAt(0, 0))])
    ensures ReprFromAttrsSpec([]) == Err([Error(NoReprFound, CallSite)])
  {
    assert ExtraEntryErrors(2, 0) == [Error(OnlyOneRepr, EntryAt(0, 1))];
    assert "C" !in ValidReprs;
  }
}
