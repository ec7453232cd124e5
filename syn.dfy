/**
 * The parts of the host's parsed syntax that the macro reads: attributes and
 * their meta items, the derive input, and the diagnostics it reports.
 * Parsing source text into these values is the host's (and the `syn`
 * library's) business; only the outcome of that parsing is modelled here.
 */
module Syn {
  import opened Outcomes

  /** One path segment; `hasArguments` is true for `Foo<T>` or `Foo(..)` segments. */
  datatype Segment = Segment(ident: string, hasArguments: bool)

  /** A path such as `repr`, `::core::u8` or `a::b`. */
  datatype Path = Path(leadingColon: bool, segments: seq<Segment>)

  /** The path made of the single identifier `name`. */
  function SimplePath(name: string): Path {
    Path(false, [Segment(name, false)])
  }

  /** `Path::get_ident`: the identifier of a path made of exactly one plain segment. */
  function GetIdent(p: Path): (r: Option<string>)
    ensures r.Some? <==> !p.leadingColon && |p.segments| == 1 && !p.segments[0].hasArguments
    ensures r.Some? ==> r.value == p.segments[0].ident
  {
    if !p.leadingColon && |p.segments| == 1 && !p.segments[0].hasArguments
    then Some(p.segments[0].ident)
    else None
  }

  /** `Path::is_ident`. */
  predicate IsIdent(p: Path, name: string) {
    GetIdent(p) == Some(name)
  }

  /** A meta item: `name`, `name(nested, ..)` or `name = literal`. */
  datatype Meta =
    | MetaPath(path: Path)
    | MetaList(path: Path, nested: seq<NestedMeta>)
    | MetaNameValue(path: Path, lit: string)

  /** An entry of a meta list: a meta item or a bare literal such as `1` or `"x"`. */
  datatype NestedMeta = NestedItem(meta: Meta) | NestedLit(lit: string)

  /** What follows an attribute's path inside `#[..]`. */
  datatype AttrArgs =
    | NoArgs                           // #[path]
    | ListArgs(nested: seq<NestedMeta>) // #[path(a, b(c), "lit")]
    | EqArgs(lit: string)              // #[path = "lit"]
    | Unparsable                       // tokens that form no meta item

  datatype Attribute = Attribute(path: Path, args: AttrArgs)

  /**
   * Where a diagnostic points. Attribute, entry and variant positions are
   * 0-based; token positions count the input's tokens; `ReprIdent` is the
   * repr's identifier.
   */
  datatype Origin =
    | CallSite
    | WholeInput
    | AttrAt(attr: nat)
    | NestedAt(attr: nat)
    | EntryAt(attr: nat, entry: nat)
    | VariantAt(variant: nat)
    | ItemTokenAt(pos: nat)
    | BodyTokenAt(pos: nat)
    | ReprIdent

  /**
   * One message of a diagnostic. `ParseFailure` is an error raised by the
   * parsing library itself, whose wording is not part of this model.
   */
  datatype Error = Error(message: string, origin: Origin) | ParseFailure(origin: Origin)

  /** `Attribute::parse_meta` for the attribute at position `i`. */
  function ParseMeta(a: Attribute, i: nat): (r: Result<Meta, Error>)
    ensures r.Err? <==> a.args.Unparsable?
    ensures r.Ok? ==> r.value.path == a.path
    ensures r.Err? ==> r.error == ParseFailure(AttrAt(i))
  {
    match a.args
    case NoArgs => Ok(MetaPath(a.path))
    case ListArgs(nested) => Ok(MetaList(a.path, nested))
    case EqArgs(lit) => Ok(MetaNameValue(a.path, lit))
    case Unparsable => Err(ParseFailure(AttrAt(i)))
  }

  /**
   * `attr.parse_args_with(Punctuated::<Meta, Token![,]>::parse_terminated)`:
   * the attribute must carry a parenthesised list whose every entry is a meta item.
   */
  function ParseArgsAsMetas(a: Attribute, i: nat): (r: Result<seq<Meta>, Error>)
    ensures r.Ok? <==> a.args.ListArgs? && forall k :: 0 <= k < |a.args.nested| ==> a.args.nested[k].NestedItem?
    ensures r.Ok? ==> |r.value| == |a.args.nested|
                      && forall k :: 0 <= k < |r.value| ==> a.args.nested[k] == NestedItem(r.value[k])
    ensures r.Err? ==> r.error == ParseFailure(AttrAt(i))
  {
    if a.args.ListArgs? && forall k :: 0 <= k < |a.args.nested| ==> a.args.nested[k].NestedItem?
    then Ok(seq(|a.args.nested|, k requires 0 <= k < |a.args.nested| => a.args.nested[k].meta))
    else Err(ParseFailure(AttrAt(i)))
  }

  /** Generic parameters and where clause, copied into generated impls untouched. */
  datatype Generics = Generics(params: seq<string>, whereClause: seq<string>)

  /** The payload shape of a variant: none, `(..)` or `{..}`. */
  datatype Fields = Unit | Unnamed(count: nat) | Named(names: seq<string>)

  /** A variant with its evaluated discriminant, when one was written. */
  datatype Variant = Variant(ident: string, fields: Fields, discriminant: Option<int>)

  datatype Data = EnumData(variants: seq<Variant>) | StructData | UnionData

  /** `syn::DeriveInput`. */
  datatype DeriveInput = DeriveInput(attrs: seq<Attribute>, ident: string, generics: Generics, data: Data)
}
