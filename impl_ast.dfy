/**
 * impl/src/ast.rs: how the `impl/` generation reads a derive input. The
 * representation comes from the first non-empty `#[repr(..)]` list and must
 * be exactly one of the twelve integer names; every variant needs an
 * explicit discriminant, and all variants lacking one are reported together.
 */
module ImplAst {
  import opened Outcomes
  import opened Syn
  import RustInt

  datatype IntStyle = Signed | Unsigned

  /**
   * `IntSize`. The Rust enum declares `_8 = 8, _16 = 16, _32 = 32, _64 = 64,
   * _128 = 128` and then `Size`, here `N8` .. `N128` and `Size`.
   */
  datatype IntSize = N8 | N16 | N32 | N64 | N128 | Size

  /** The declared discriminants; `Size` takes the implicit one, 128 + 1. */
  function Discriminant(z: IntSize): nat {
    match z
    case N8 => 8
    case N16 => 16
    case N32 => 32
    case N64 => 64
    case N128 => 128
    case Size => 129
  }

  /** Position of the size in the enum declaration. */
  function DeclarationIndex(z: IntSize): nat {
    match z
    case N8 => 0
    case N16 => 1
    case N32 => 2
    case N64 => 3
    case N128 => 4
    case Size => 5
  }

  /** The derived `PartialOrd`'s `<=`, which compares discriminants. */
  predicate SizeLe(a: IntSize, b: IntSize) {
    Discriminant(a) <= Discriminant(b)
  }

  /** `_8 < _16 < _32 < _64 < _128 < Size`: the order is the declaration order. */
  lemma SizeOrderIsDeclarationOrder(a: IntSize, b: IntSize)
    ensures SizeLe(a, b) <==> DeclarationIndex(a) <= DeclarationIndex(b)
  {
  }

  /** `IdentFragment for IntStyle`. */
  function StyleFragment(s: IntStyle): string {
    match s
    case Signed => "i"
    case Unsigned => "u"
  }

  /** `IdentFragment for IntSize`. */
  function SizeFragment(z: IntSize): string {
    match z
    case N8 => "8"
    case N16 => "16"
    case N32 => "32"
    case N64 => "64"
    case N128 => "128"
    case Size => "size"
  }

  datatype Repr = Repr(ident: string, style: IntStyle, size: IntSize)

  /** The bit width of a size; `Size` has the target's pointer width. */
  function SizeWidth(z: IntSize, p: RustInt.PointerWidth): RustInt.Width {
    match z
    case N8 => RustInt.W8
    case N16 => RustInt.W16
    case N32 => RustInt.W32
    case N64 => RustInt.W64
    case N128 => RustInt.W128
    case Size => RustInt.PointerBits(p)
  }

  predicate IsSigned(s: IntStyle) {
    s == Signed
  }

  const InvalidRepr: string :=
    "invalid repr, expected one of:\n    i8, i16, i32, i64, i128, isize,\n    u8, u16, u32, u64, u128, usize"
  const ConflictingReprs: string := "conflicting reprs"
  const MissingRepr: string := "missing `repr` attribute"
  const OnlyEnums: string := "only enums are supported"
  const MissingDiscriminator: string := "missing discriminator"

  function SizeOfFragment(s: string): Option<IntSize> {
    match s
    case "8" => Some(N8)
    case "16" => Some(N16)
    case "32" => Some(N32)
    case "64" => Some(N64)
    case "128" => Some(N128)
    case "size" => Some(Size)
    case _ => None
  }

  /**
   * `Repr::from_ident`: a leading `i` or `u` gives the style, the rest must
   * be one of `8 16 32 64 128 size`; anything else is `INVALID_REPR` at `at`.
   */
  function FromIdent(name: string, at: Origin): (r: Result<Repr, seq<Error>>)
    ensures r.Ok? ==> r.value.ident == name
                      && name == StyleFragment(r.value.style) + SizeFragment(r.value.size)
    ensures r.Err? ==> r.error == [Error(InvalidRepr, at)]
  {
    if |name| == 0 || (name[0] != 'i' && name[0] != 'u') then Err([Error(InvalidRepr, at)])
    else
      var style := if name[0] == 'i' then Signed else Unsigned;
      match SizeOfFragment(name[1..])
      case None => Err([Error(InvalidRepr, at)])
      case Some(size) =>
        assert name == [name[0]] + name[1..];
        Ok(Repr(name, style, size))
  }

  /** Printing a style and a size as an identifier and parsing it back gives them again. */
  lemma FromIdentOfFragments(style: IntStyle, size: IntSize, at: Origin)
    ensures FromIdent(StyleFragment(style) + SizeFragment(size), at)
            == Ok(Repr(StyleFragment(style) + SizeFragment(size), style, size))
  {
    var name := StyleFragment(style) + SizeFragment(size);
    assert name[1..] == SizeFragment(size);
  }

  /** Every style and size print as one of the twelve integer type names. */
  lemma FragmentsAreIntTypeName(style: IntStyle, size: IntSize)
    ensures StyleFragment(style) + SizeFragment(size) in RustInt.IntTypeNames()
  {
    var name := StyleFragment(style) + SizeFragment(size);
    match style
    case Signed => {
      match size
      case N8 => { assert name == "i8"; }
      case N16 => { assert name == "i16"; }
      case N32 => { assert name == "i32"; }
      case N64 => { assert name == "i64"; }
      case N128 => { assert name == "i128"; }
      case Size => { assert name == "isize"; }
    }
    case Unsigned => {
      match size
      case N8 => { assert name == "u8"; }
      case N16 => { assert name == "u16"; }
      case N32 => { assert name == "u32"; }
      case N64 => { assert name == "u64"; }
      case N128 => { assert name == "u128"; }
      case Size => { assert name == "usize"; }
    }
  }

  /** Each of the twelve integer type names is a style followed by a size. */
  lemma IntTypeNameIsFragments(name: string) returns (style: IntStyle, size: IntSize)
    requires name in RustInt.IntTypeNames()
    ensures name == StyleFragment(style) + SizeFragment(size)
  {
    if name == "i8" { style, size := Signed, N8; }
    else if name == "i16" { style, size := Signed, N16; }
    else if name == "i32" { style, size := Signed, N32; }
    else if name == "i64" { style, size := Signed, N64; }
    else if name == "i128" { style, size := Signed, N128; }
    else if name == "isize" { style, size := Signed, Size; }
    else if name == "u8" { style, size := Unsigned, N8; }
    else if name == "u16" { style, size := Unsigned, N16; }
    else if name == "u32" { style, size := Unsigned, N32; }
    else if name == "u64" { style, size := Unsigned, N64; }
    else if name == "u128" { style, size := Unsigned, N128; }
    else { style, size := Unsigned, Size; }
  }

  /** `from_ident` accepts exactly the twelve integer type names. */
  lemma FromIdentAcceptsIntTypeNames(name: string, at: Origin)
    ensures FromIdent(name, at).Ok? <==> name in RustInt.IntTypeNames()
  {
    if name in RustInt.IntTypeNames() {
      var style, size := IntTypeNameIsFragments(name);
      FromIdentOfFragments(style, size, at);
    }
    if FromIdent(name, at).Ok? {
      var r := FromIdent(name, at).value;
      FragmentsAreIntTypeName(r.style, r.size);
    }
  }

  /** The repr named by the single entry of a `repr(..)` list at attribute `i`. */
  function EntryRepr(entry: NestedMeta, i: nat): (r: Result<Repr, seq<Error>>)
    ensures r.Ok? ==> entry.NestedItem? && entry.meta.MetaPath?
                      && GetIdent(entry.meta.path) == Some(r.value.ident)
    ensures r.Err? ==> r.error == [Error(InvalidRepr, EntryAt(i, 0))]
  {
    match entry
    case NestedItem(MetaPath(path)) =>
      (match GetIdent(path)
       case Some(ident) => FromIdent(ident, EntryAt(i, 0))
       case None => Err([Error(InvalidRepr, EntryAt(i, 0))]))
    case _ => Err([Error(InvalidRepr, EntryAt(i, 0))])
  }

  /**
   * What `from_attrs` does with the attribute at position `i`: `None` when it
   * goes on to the next attribute, otherwise the result it returns.
   */
  function AttrDecision(a: Attribute, i: nat): (r: Option<Result<Repr, seq<Error>>>)
    ensures r.None? <==> !a.args.Unparsable?
                         && !(a.args.ListArgs? && IsIdent(a.path, "repr") && |a.args.nested| > 0)
    ensures a.args.Unparsable? ==> r == Some(Err([ParseFailure(AttrAt(i))]))
    ensures a.args.ListArgs? && IsIdent(a.path, "repr") && |a.args.nested| >= 2
            ==> r == Some(Err([Error(ConflictingReprs, NestedAt(i))]))
    ensures a.args.ListArgs? && IsIdent(a.path, "repr") && |a.args.nested| == 1
            ==> r == Some(EntryRepr(a.args.nested[0], i))
  {
    match ParseMeta(a, i)
    case Err(e) => Some(Err([e]))
    case Ok(meta) =>
      if !meta.MetaList? || !IsIdent(meta.path, "repr") || |meta.nested| == 0 then None
      else if |meta.nested| >= 2 then Some(Err([Error(ConflictingReprs, NestedAt(i))]))
      else Some(EntryRepr(meta.nested[0], i))
  }

  /** `from_attrs`, continuing from attribute `i`. */
  function FromAttrsFrom(attrs: seq<Attribute>, i: nat): Result<Repr, seq<Error>>
    requires i <= |attrs|
    decreases |attrs| - i
  {
    if i == |attrs| then Err([Error(MissingRepr, WholeInput)])
    else match AttrDecision(attrs[i], i)
      case Some(r) => r
      case None => FromAttrsFrom(attrs, i + 1)
  }

  function FromAttrsSpec(attrs: seq<Attribute>): Result<Repr, seq<Error>> {
    FromAttrsFrom(attrs, 0)
  }

  /** `Repr::from_attrs`: the loop over the attributes, with `continue` and early returns. */
  method FromAttrs(attrs: seq<Attribute>) returns (r: Result<Repr, seq<Error>>)
    ensures r == FromAttrsSpec(attrs)
  {
    var i := 0;
    while i < |attrs|
      invariant 0 <= i <= |attrs|
      invariant FromAttrsFrom(attrs, i) == FromAttrsSpec(attrs)
    {
      var meta := ParseMeta(attrs[i], i);
      if meta.Err? {
        return Err([meta.error]);
      }
      if meta.value.MetaList? {
        if !IsIdent(meta.value.path, "repr") {
          i := i + 1;
          continue;
        }
        var nested := meta.value.nested;
        if |nested| == 0 {
          i := i + 1;
          continue;
        }
        if |nested| >= 2 {
          return Err([Error(ConflictingReprs, NestedAt(i))]);
        }
        var ident: Option<string> := None;
        if nested[0].NestedItem? && nested[0].meta.MetaPath? {
          ident := GetIdent(nested[0].meta.path);
        }
        if ident.None? {
          return Err([Error(InvalidRepr, EntryAt(i, 0))]);
        }
        return FromIdent(ident.value, EntryAt(i, 0));
      }
      i := i + 1;
    }
    return Err([Error(MissingRepr, WholeInput)]);
  }

  /**
   * The first attribute that decides (one that fails to parse, or a non-empty
   * `repr` list) alone determines the result; every attribute before it is skipped.
   */
  lemma {:induction false} FirstDecidingAttributeDecides(attrs: seq<Attribute>, j: nat)
    requires j < |attrs| && AttrDecision(attrs[j], j).Some?
    requires forall k :: 0 <= k < j ==> AttrDecision(attrs[k], k).None?
    ensures FromAttrsSpec(attrs) == AttrDecision(attrs[j], j).value
  {
    SkipUpTo(attrs, 0, j);
  }

  lemma {:induction false} SkipUpTo(attrs: seq<Attribute>, i: nat, j: nat)
    requires i <= j < |attrs|
    requires forall k :: i <= k < j ==> AttrDecision(attrs[k], k).None?
    ensures FromAttrsFrom(attrs, i) == FromAttrsFrom(attrs, j)
    decreases j - i
  {
    if i < j {
      SkipUpTo(attrs, i + 1, j);
    }
  }

  /** With no deciding attribute, the result is "missing `repr` attribute". */
  lemma {:induction false} NoDecidingAttributeIsMissingRepr(attrs: seq<Attribute>, i: nat)
    requires i <= |attrs|
    requires forall k :: i <= k < |attrs| ==> AttrDecision(attrs[k], k).None?
    ensures FromAttrsFrom(attrs, i) == Err([Error(MissingRepr, WholeInput)])
    decreases |attrs| - i
  {
    if i < |attrs| {
      NoDecidingAttributeIsMissingRepr(attrs, i + 1);
    }
  }

  /** The accepted representation is named by a `repr` attribute's single plain entry. */
  lemma {:induction false} FromAttrsOkIsSingleEntry(attrs: seq<Attribute>, i: nat)
    requires i <= |attrs| && FromAttrsFrom(attrs, i).Ok?
    ensures exists j :: i <= j < |attrs| && attrs[j].args.ListArgs? && IsIdent(attrs[j].path, "repr")
                        && |attrs[j].args.nested| == 1
                        && attrs[j].args.nested[0].NestedItem? && attrs[j].args.nested[0].meta.MetaPath?
                        && GetIdent(attrs[j].args.nested[0].meta.path) == Some(FromAttrsFrom(attrs, i).value.ident)
    decreases |attrs| - i
  {
    var d := AttrDecision(attrs[i], i);
    if d.None? {
      FromAttrsOkIsSingleEntry(attrs, i + 1);
    } else {
      assert i <= i < |attrs|;
    }
  }

  /** Missing discriminants, one error per variant without one, in declaration order. */
  function MissingErrors(vs: seq<Variant>): (r: seq<Error>)
    ensures forall e :: e in r ==> e.Error? && e.message == MissingDiscriminator && e.origin.VariantAt?
                                   && e.origin.variant < |vs| && vs[e.origin.variant].discriminant.None?
    ensures forall k :: 0 <= k < |vs| && vs[k].discriminant.None? ==> Error(MissingDiscriminator, VariantAt(k)) in r
    ensures forall a, b :: 0 <= a < b < |r| ==> r[a].origin.variant < r[b].origin.variant
    decreases |vs|
  {
    if vs == [] then []
    else
      var n := |vs| - 1;
      var prev := MissingErrors(vs[..n]);
      assert forall k :: 0 <= k < n ==> vs[..n][k] == vs[k];
      prev + (if vs[n].discriminant.None? then [Error(MissingDiscriminator, VariantAt(n))] else [])
  }

  /** The `(ident, discriminant)` pairs of variants that all have one. */
  function Pairs(vs: seq<Variant>): (r: seq<(string, int)>)
    requires forall k :: 0 <= k < |vs| ==> vs[k].discriminant.Some?
    ensures |r| == |vs|
    ensures forall k :: 0 <= k < |vs| ==> r[k] == (vs[k].ident, vs[k].discriminant.value)
    decreases |vs|
  {
    if vs == [] then []
    else
      var n := |vs| - 1;
      assert forall k :: 0 <= k < n ==> vs[..n][k] == vs[k];
      Pairs(vs[..n]) + [(vs[n].ident, vs[n].discriminant.value)]
  }

  /** Appending a variant extends the errors or the pairs, never both. */
  lemma VariantsSpecSnoc(vs: seq<Variant>, i: nat)
    requires i < |vs|
    ensures var prev := VariantsSpec(vs[..i]);
            VariantsSpec(vs[..i + 1])
            == match vs[i].discriminant
               case Some(d) => if prev.Ok? then Ok(prev.value + [(vs[i].ident, d)]) else prev
               case None => Err((if prev.Ok? then [] else prev.error) + [Error(MissingDiscriminator, VariantAt(i))])
  {
    var w := vs[..i + 1];
    assert w[..i] == vs[..i] && w[i] == vs[i] && |w| == i + 1;
    var prevMissing := MissingErrors(vs[..i]);
    var extra := if vs[i].discriminant.None? then [Error(MissingDiscriminator, VariantAt(i))] else [];
    assert MissingErrors(w) == prevMissing + extra;
    match vs[i].discriminant
    case Some(d) =>
      assert MissingErrors(w) == prevMissing;
      if prevMissing == [] {
        assert Pairs(w) == Pairs(vs[..i]) + [(vs[i].ident, d)];
      }
    case None =>
      assert MissingErrors(w) != [];
  }

  /** The value the variant loop of `from_syn` leaves in its accumulator. */
  function VariantsSpec(vs: seq<Variant>): (r: Result<seq<(string, int)>, seq<Error>>)
    ensures r.Ok? <==> forall k :: 0 <= k < |vs| ==> vs[k].discriminant.Some?
  {
    var missing := MissingErrors(vs);
    if missing == [] then
      assert forall k :: 0 <= k < |vs| ==> vs[k].discriminant.Some?;
      Ok(Pairs(vs))
    else
      assert missing[0] in missing;
      Err(missing)
  }

  /** The input the base impl is generated from. */
  datatype Input = Input(ident: string, repr: Repr, variants: seq<(string, int)>)

  /**
   * `from_syn` as a value: a non-enum is refused before anything else, then a
   * repr error is returned unchanged, and only then are the variants checked.
   */
  function FromSynSpec(node: DeriveInput): (r: Result<Input, seq<Error>>)
    ensures !node.data.EnumData? ==> r == Err([Error(OnlyEnums, WholeInput)])
    ensures node.data.EnumData? && FromAttrsSpec(node.attrs).Err? ==> r == Err(FromAttrsSpec(node.attrs).error)
    ensures r.Ok? <==> node.data.EnumData? && FromAttrsSpec(node.attrs).Ok?
                       && forall k :: 0 <= k < |node.data.variants| ==> node.data.variants[k].discriminant.Some?
    ensures node.data.EnumData? && FromAttrsSpec(node.attrs).Ok? && r.Err? ==> r.error == MissingErrors(node.data.variants)
    ensures r.Ok? ==> r.value.ident == node.ident && r.value.repr == FromAttrsSpec(node.attrs).value
  {
    if !node.data.EnumData? then Err([Error(OnlyEnums, WholeInput)])
    else match FromAttrsSpec(node.attrs)
      case Err(e) => Err(e)
      case Ok(repr) =>
        match VariantsSpec(node.data.variants)
        case Err(e) => Err(e)
        case Ok(ps) => Ok(Input(node.ident, repr, ps))
  }

  /**
   * `Input::from_syn`: rejects non-enums, then resolves the repr, then walks
   * the variants, pushing pairs while all is well and combining every
   * "missing discriminator" into one error.
   */
  method FromSyn(node: DeriveInput) returns (r: Result<Input, seq<Error>>)
    ensures r == FromSynSpec(node)
  {
    if !node.data.EnumData? {
      return Err([Error(OnlyEnums, WholeInput)]);
    }
    var repr := FromAttrs(node.attrs);
    if repr.Err? {
      return Err(repr.error);
    }
    var vs := node.data.variants;
    var variants: Result<seq<(string, int)>, seq<Error>> := Ok([]);
    for i := 0 to |vs|
      invariant variants == VariantsSpec(vs[..i])
    {
      VariantsSpecSnoc(vs, i);
      var err := Error(MissingDiscriminator, VariantAt(i));
      if vs[i].discriminant.Some? {
        if variants.Ok? {
          variants := Ok(variants.value + [(vs[i].ident, vs[i].discriminant.value)]);
        }
      } else if variants.Ok? {
        assert [] + [err] == [err];
        variants := Err([err]);
      } else {
        variants := Err(variants.error + [err]);
      }
    }
    assert vs[..|vs|] == vs;
    if variants.Err? {
      return Err(variants.error);
    }
    return Ok(Input(node.ident, repr.value, variants.value));
  }

  /**
   * On success there is one pair per declared variant, in declaration order,
   * each with its own discriminant.
   */
  lemma FromSynVariantsInOrder(node: DeriveInput)
    requires FromSynSpec(node).Ok?
    ensures node.data.EnumData?
    ensures |FromSynSpec(node).value.variants| == |node.data.variants|
    ensures forall k :: 0 <= k < |node.data.variants| ==>
              FromSynSpec(node).value.variants[k]
              == (node.data.variants[k].ident, node.data.variants[k].discriminant.value)
  {
  }

  /** A repr error is reported before, and instead of, any variant error. */
  lemma ReprErrorComesFirst(node: DeriveInput)
    requires node.data.EnumData? && FromAttrsSpec(node.attrs).Err?
    ensures FromSynSpec(node) == Err(FromAttrsSpec(node.attrs).error)
  {
  }
}
