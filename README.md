# int-enum derive engine, modelled in Dafny

`IntEnum` is a Rust derive macro. It reads an enum with integer
discriminants and a `#[repr(..)]` attribute, and it generates conversions
between the enum and its integer representation. Optionally it also generates
serde `Serialize`/`Deserialize` impls. The repository has three historical
generations of the macro: `impl/`, `int-enum-impl/` and `src/`. They
disagree on several policies, so each source file has its own Dafny module
and the generations are never merged.

| module (file) | models |
|---|---|
| `ImplAst` (impl_ast.dfy) | impl/src/ast.rs: `IntStyle`, `IntSize`, their ident fragments, `Repr::from_ident`, `Repr::from_attrs` (a loop, as a method), `Input::from_syn` (a variant loop that accumulates errors, as a method) |
| `SrcAst` (src_ast.dfy) | src/ast.rs: `Repr::from_attributes`, nested loops as a method; the first valid name wins and the default is `isize` |
| `IntEnumImplParse` (int_enum_impl_parse.dfy) | int-enum-impl/src/parse.rs: `Int` parse and `to_tokens`, `IntEnumVariant` parse and `into_pair`, the `IntEnum::parse` variant loop, `repr_from_attrs` with its `while let` error loop, and `validate_repr` |
| `Generated` (generated.dfy) | what the emitted `int_value`/`from_int` match arms compute, shared by all three generations |
| `ImplExpand` (impl_expand.dfy) | impl/src/expand.rs: `derive`, with the output built step by step in a method, plus `base` and `convert` |
| `SrcExpand` (src_expand.dfy) | src/expand.rs: `derive`, `derive_enum`, the `From`/`TryFrom` guards and the implicit-discriminant rule |
| `IntEnumImplBase` (int_enum_impl_base.dfy) | int-enum-impl/src/base.rs: `int_enum_impl` |
| `ImplSerde` (impl_serde.dfy) | impl/src/serde.rs: `serde_impl`, `ser_impl`, `de_impl`, `serde_fn`, `visit_fns` (a loop, as a method) and `visit_fn`'s bounds table |
| `IntEnumImplSerde` (int_enum_impl_serde.dfy) | int-enum-impl/src/serde.rs: `serde_impls`, `serialize_impl`, `deserialize_impl` and `visit_fn` |
| `SrcError` (src_error.dfy) | src/error.rs: `IntEnumError`: `__new`, `value`, `Display`, `Debug` and derived equality |
| `IntEnumImplDummy` (int_enum_impl_dummy.dfy) | int-enum-impl/src/dummy.rs: `wrap_in_const` and the dummy const's name |
| `RustInt`, `Decimal`, `Syn`, `Outcomes` | Rust's integer types and the `as` cast (two's-complement wrapping); decimal printing; the attribute and meta syntax the macro reads; `Option` and `Result` |

Modelling choices:

- Attributes are a typed tree: `Syn.Attribute` has a path and arguments, and the arguments hold `Meta`/`NestedMeta` entries.
- Errors are lists of messages. Each message carries an `Origin` that says which attribute, entry, variant or token it points at. A combined `syn::Error` is the list of its parts, in order.
- Discriminants are integers that rustc has already evaluated. A variant is identified by its position in the declaration.
- A Rust `as` cast is `RustInt.Cast`, which wraps modulo 2^bits. So `u8::MAX as i8` is −1, not 255.
- The pointer width of `isize`/`usize` is a parameter (`RustInt.PointerWidth`).
- The runtime crate's path or name is a parameter. In `int-enum-impl/` it is an `Option`, and `None` means the manifest lookup failed.
- Loops in the source are Dafny methods. Each method is proved equal to a recursive specification function, and the properties are lemmas about those functions.

Differences between the generations that the model keeps:

- **Repr policy.** `impl/` lets the first non-empty `repr` list decide. Two or more entries there are "conflicting reprs", and no `repr` at all is an error.
- `int-enum-impl/` reports one "only one repr expected" error for each extra entry. An empty list is "repr missing int type".
- `src/` returns the first entry anywhere that is a valid integer name, skips everything else, and defaults to `isize`.
- **Missing discriminants.** `impl/` requires a discriminant on every variant and reports all missing ones together. `int-enum-impl/` requires `= int` on every variant. `src/` fills in omitted discriminants: 0 for the first variant, the previous value plus one otherwise.
- **Deserialisation.** `impl/` emits a visit function for every fixed width, and also the unsigned ones for a signed repr. `int-enum-impl/` emits only `visit_i64`/`visit_u64` (or the one 128-bit function).

Where the code and the design disagree, the model follows the code:

- `src/expand.rs:32-33` calls `ast::get_repr` and `ast::get_variants`. Neither exists in `src/ast.rs`. `get_repr` is modelled by `Repr::from_attributes`. The body of `get_variants` is not available, so only the implicit-discriminant rule its tests check is modelled.
- `int-enum-impl/src/lib.rs` calls `convert_impl`/`serde_impl`, but the files define `serde_impls`. The model follows the definitions.
- In `impl/src/serde.rs`, `visit_fn` with an unsigned repr and a signed visit type that is no wider gets the bounds `[0, -1]`, because `MAX` wraps to −1. That function therefore rejects every value. `visit_fns` never generates this combination, so deserialisation is not affected (`ImplSerde.UnsignedReprSignedVisitRejectsAll`, `ImplSerde.UnsignedReprVisitsOnlyUnsigned`).

## Model

| member | source | states |
|---|---|---|
| `ImplAst.SizeOrderIsDeclarationOrder` | impl/src/ast.rs:26-34 | The derived `PartialOrd` on the declared discriminants orders `_8 < _16 < _32 < _64 < _128 < Size`, the declaration order |
| `ImplAst.FromIdent` | impl/src/ast.rs:106-128 | An accepted name is kept as the repr's identifier and is exactly the style fragment followed by the size fragment; every rejection is the single `INVALID_REPR` error at the identifier |
| `ImplAst.FromIdentAcceptsIntTypeNames` | impl/src/ast.rs:106-128 | `from_ident` succeeds if and only if the name is one of the twelve integer type names |
| `ImplAst.FromIdentOfFragments` | impl/src/ast.rs:149-169 | Printing a style fragment followed by a size fragment and parsing it back gives that style and size |
| `ImplAst.FragmentsAreIntTypeName` | impl/src/ast.rs:149-169 | Every style/size pair prints as one of the twelve integer type names |
| `ImplAst.EntryRepr` | impl/src/ast.rs:93-99 | A `repr` entry is accepted only when it is a one-identifier path, and then it names the repr; any other entry is `INVALID_REPR` at that entry |
| `ImplAst.AttrDecision` | impl/src/ast.rs:74-99 | Non-list attributes, non-`repr` lists and an empty `repr()` are skipped; an unparsable attribute returns the parse error; two or more entries give "conflicting reprs"; one entry decides through `from_ident` |
| `ImplAst.FromAttrs` | impl/src/ast.rs:73-104 | The attribute loop, with its `continue`s and early returns, returns what the recursive specification returns |
| `ImplAst.FirstDecidingAttributeDecides` | impl/src/ast.rs:74-99 | The first attribute that decides alone gives the result; every attribute before it is skipped |
| `ImplAst.NoDecidingAttributeIsMissingRepr` | impl/src/ast.rs:103 | With no deciding attribute the result is "missing `repr` attribute" |
| `ImplAst.FromAttrsOkIsSingleEntry` | impl/src/ast.rs:89-99 | An accepted repr comes from a `repr` list with exactly one plain-identifier entry, and the repr keeps that identifier |
| `ImplAst.MissingErrors` | impl/src/ast.rs:53-58 | Each variant without a discriminant contributes exactly one "missing discriminator" error at that variant, in declaration order, and no other variant contributes one |
| `ImplAst.Pairs` | impl/src/ast.rs:48-51 | One `(ident, discriminant)` pair per variant, in declaration order |
| `ImplAst.VariantsSpec` | impl/src/ast.rs:45-62 | The variant accumulator ends `Ok` exactly when every variant has a discriminant |
| `ImplAst.VariantsSpecSnoc` | impl/src/ast.rs:46-61 | One loop step: a discriminant is pushed only while the accumulator is `Ok`; a missing one turns `Ok` into its own error or is combined onto the existing errors |
| `ImplAst.FromSynSpec` | impl/src/ast.rs:37-65 | A non-enum gets "only enums are supported"; a repr error is returned before any variant is checked; success means an enum, a valid repr and every discriminant present; otherwise the error is every "missing discriminator" error combined, one per variant without a discriminant, in order |
| `ImplAst.FromSyn` | impl/src/ast.rs:37-65 | The variant loop, pushing into `Ok` or combining into `Err`, computes `from_syn`'s specification |
| `ImplAst.FromSynVariantsInOrder` | impl/src/ast.rs:43-64 | On success there is one pair per declared variant, in order, each with its own discriminant |
| `ImplAst.ReprErrorComesFirst` | impl/src/ast.rs:43 | A repr error is the whole result for an enum, whatever its variants |
| `SrcAst.ValidReprsAreIntTypeNames` | src/ast.rs:15-16 | `VALID_REPRS` is exactly the twelve integer type names |
| `SrcAst.StripRawPlain` | src/ast.rs:41-42 | A name without the raw prefix is compared unchanged |
| `SrcAst.ValidEntry` | src/ast.rs:37-44 | An entry is accepted if and only if it is a one-identifier path whose name, after removing one `r#`, is valid; the original identifier is returned |
| `SrcAst.FirstValid` | src/ast.rs:37-47 | The inner loop picks the first accepted entry, and every entry before it is rejected; `None` exactly when no entry is accepted |
| `SrcAst.FromAttributes` | src/ast.rs:29-53 | The nested loops, with `continue`, early return and the `isize` fallback, compute the recursive specification |
| `SrcAst.FromAttributesErrIsParseFailure` | src/ast.rs:35 | The only error is a `repr` attribute whose arguments do not parse, and every attribute before it was passed over |
| `SrcAst.FromAttributesFound` | src/ast.rs:41-46 | A found repr is the original identifier (raw prefix kept) of the first accepted entry of the first `repr` attribute holding one; earlier attributes were passed over |
| `SrcAst.FromAttributesDefault` | src/ast.rs:50-52 | The result is `isize` if and only if every attribute is passed over (not `repr`, or `repr` with no valid entry) |
| `SrcAst.NonReprAttributesIgnored` | src/ast.rs:30-33 | Replacing attributes that are not `repr` by other non-`repr` attributes does not change the result |
| `SrcAst.AlignIsSkipped` | src/ast.rs:37-39 | `align(4)` is skipped, not rejected, before or after `u16` |
| `SrcAst.RawIdentifierKept` | src/ast.rs:45 | `repr(r#u8)` is accepted and the returned identifier is `r#u8` |
| `SrcAst.DefaultIsIsize` | src/ast.rs:44-52 | `repr(C)` and no attribute at all both give `isize` |
| `SrcAst.NoConflictError` | src/ast.rs:41-46 | `repr(u8, i16)` gives `u8`; there is no conflict error |
| `Generated.FirstMatch` | impl/src/expand.rs:58-61 | The match picks the first arm, in declaration order, whose discriminant equals `n`, or none exactly when no arm has `n` |
| `Generated.FromInt` | impl/src/expand.rs:53-62 | `from_int(n)` is `Ok` of the first variant whose discriminant is `n`; otherwise it is an `IntEnumError` carrying exactly `n` |
| `Generated.FromIntOfIntValue` | impl/src/expand.rs:29-39 | With distinct discriminants, `from_int(int_value(v)) == Ok(v)` for every variant |
| `Generated.FromIntOfIntValueShared` | impl/src/expand.rs:29-39 | Without distinctness, `from_int(int_value(v))` still succeeds, with a variant no later than `v` that has the same value |
| `Generated.IntValueOfFromInt` | impl/src/expand.rs:35-39 | A value `from_int` accepts converts back to itself through `int_value` |
| `ImplExpand.Derive` | impl/src/expand.rs:8-23 | Building `output` with `append_all` and early returns computes `derive`'s specification |
| `ImplExpand.DeriveOutcome` | impl/src/expand.rs:8-23 | `derive` fails, with no output, exactly when extraction fails or serde refuses the repr; otherwise it emits the base impl, then `From`/`TryFrom`, then the serde impls |
| `ImplExpand.BaseMeaning` | impl/src/expand.rs:25-65 | The generated `int_value` gives each declared variant its own discriminant; `from_int(n)` gives the first variant declared with `n`, or an error carrying `n` |
| `ImplExpand.BaseRoundTrip` | impl/src/expand.rs:29-39 | With distinct discriminants the generated impl round-trips every variant |
| `ImplExpand.ConvertDelegates` | impl/src/expand.rs:67-97 | With `convert`, `From<Enum>` equals `int_value` and `TryFrom<Int>` equals `from_int` for the derived enum and repr |
| `SrcExpand.ResolveDiscriminants` | tests/test.rs:80-112 | One pair per variant in order; a written discriminant is kept; an omitted one is 0 for the first variant and the previous value plus one otherwise |
| `SrcExpand.ImplicitRunCountsUp` | tests/cases.rs:80-130 | A run of omitted discriminants counts up by one from the last written value, whatever its sign |
| `SrcExpand.DeriveEnum` | src/expand.rs:29-80 | The repr is resolved first and its error is the whole result; on success both impls name the enum and repr, carry the enum's generics unchanged, the error type is the repr, and both `From` and `TryFrom` match exactly the resolved discriminants of the variants, in order |
| `SrcExpand.Derive` | src/expand.rs:17-27 | Structs and unions are refused with their own messages at the call site; an enum gives exactly `derive_enum`'s result, and only enums can succeed |
| `SrcExpand.TryFrom` | src/expand.rs:61-74 | `try_from(v)` is the first variant whose guard `v == (d)` holds; with no match it is `Err(v)`, exactly the value given |
| `SrcExpand.TryFromOfFrom` | src/expand.rs:37-72 | With distinct discriminants, `try_from(from(v)) == Ok(v)` for every variant |
| `SrcExpand.FromOfTryFrom` | src/expand.rs:43-47 | A value `try_from` accepts converts back to itself through `from` |
| `SrcExpand.ImplicitDiscriminantsExample` | tests/test.rs:80-112 | The `NoDiscr` enum gets 0, −1, 1, 2, −5, −4, −3; `try_from(-2)` and `try_from(3)` fail with their own values |
| `SrcError.New` | src/error.rs:27-37 | `__new(n).value() == n` |
| `SrcError.EqualIffSameValue` | src/error.rs:19-23 | Two errors for the same enum are equal exactly when their values are equal |
| `SrcError.Display` | src/error.rs:40-49 | The text is "invalid integer value for enum {type}: " followed by digits that read back as the value |
| `SrcError.Debug` | src/error.rs:51-58 | The text is the struct `IntEnumError` with the field `ty` and then the field `value` |
| `IntEnumImplParse.ParseInt` | int-enum-impl/src/parse.rs:12-23 | A successful parse consumes at least one token and stays inside the input |
| `IntEnumImplParse.ParseIntOfTokens` | int-enum-impl/src/parse.rs:12-31 | Parsing what `to_tokens` prints gives the same `Int`, with the `-` exactly when there was one |
| `IntEnumImplParse.TokensOfParseInt` | int-enum-impl/src/parse.rs:12-31 | The tokens a successful parse consumed are exactly what `to_tokens` prints for its result |
| `IntEnumImplParse.IntoPairKeepsValue` | int-enum-impl/src/parse.rs:53-69 | `into_pair` keeps the name and the sign, and rewrites the literal as its base-10 value suffixed with the repr (`0x41` becomes `65u16`) |
| `IntEnumImplParse.ParseVariants` | int-enum-impl/src/parse.rs:101-113 | The variant loop, pushing one pair per parsed variant, computes the recursive specification, including its first parse error |
| `IntEnumImplParse.ParseRenderedVariants` | int-enum-impl/src/parse.rs:41-49 | Comma-separated `Name = int` variants, with or without a trailing comma, and an empty body, parse to one pair per variant in order |
| `IntEnumImplParse.ValidateReprSpec` | int-enum-impl/src/parse.rs:170-189 | Accepted if and only if the path is one identifier naming one of the twelve integer types; otherwise "invalid int type" |
| `IntEnumImplParse.ValidateRepr` | int-enum-impl/src/parse.rs:170-189 | The scan over `VALID_REPRS` computes `validate_repr`'s specification |
| `IntEnumImplParse.ExtraEntryErrors` | int-enum-impl/src/parse.rs:139-156 | One "only one repr expected" error for every entry after the first, at that entry, in order |
| `IntEnumImplParse.ReprListDecision` | int-enum-impl/src/parse.rs:133-163 | An empty list is "repr missing int type"; extra entries give their combined errors; one entry is accepted exactly when it names an integer type, and otherwise gives "invalid int type" |
| `IntEnumImplParse.ReprFromAttrs` | int-enum-impl/src/parse.rs:123-168 | The attribute loop and the `while let` error loop compute `repr_from_attrs`'s specification |
| `IntEnumImplParse.FirstReprListDecides` | int-enum-impl/src/parse.rs:124-167 | When every attribute parses, the first `repr(..)` list alone decides; with none the result is "no #[repr(...)] found" |
| `IntEnumImplParse.ReprFromAttrsOk` | int-enum-impl/src/parse.rs:158-163 | An accepted repr is an integer type name, written alone in a `repr(..)` list |
| `IntEnumImplParse.ParseIntEnum` | int-enum-impl/src/parse.rs:78-120 | `IntEnum::parse`, with the variant loop run as a method, computes its specification |
| `IntEnumImplParse.GenericsRejected` | int-enum-impl/src/parse.rs:91-94 | A `<` after the enum's name gives "generics are not supported for IntEnum" |
| `IntEnumImplParse.ParseIntEnumOk` | int-enum-impl/src/parse.rs:78-120 | On success the repr comes from the outer attributes, the name follows `enum`, and the variants are the body's, in order |
| `IntEnumImplParse.ReprExamples` | int-enum-impl/src/parse.rs:134-167 | `repr(u8)` is accepted; `repr(u8, i16)`, `repr()`, `repr(C)` and no attribute get their own errors |
| `IntEnumImplBase.IntEnumImpl` | int-enum-impl/src/base.rs:7-50 | The impl block, with the parsed pairs as its arms in order, is wrapped in the dummy const for "IntEnum" and the enum's name; a failed crate lookup is the panic message |
| `IntEnumImplBase.ImplOfParsedVariants` | int-enum-impl/src/base.rs:11-45 | One arm per parsed variant, in order, with the repr as the suffix; `int_value` gives the written value; `from_int(n)` gives the first variant written with `n`, or an error carrying `n` |
| `IntEnumImplBase.FromIntOfIntValue` | int-enum-impl/src/base.rs:11-45 | With distinct values, `from_int(int_value(v)) == Ok(v)` |
| `IntEnumImplBase.IntValueOfFromInt` | int-enum-impl/src/base.rs:17-21 | A value `from_int` accepts gives itself back through `int_value` |
| `IntEnumImplBase.HexLiteralExample` | int-enum-impl/src/parse.rs:53-69 | `A = 0x41` under `repr(u16)` becomes the arm `65u16`, with `int_value(A) == 65` and `from_int(65) == Ok(A)` |
| `IntEnumImplDummy.TrimStartMatchesSplits` | int-enum-impl/src/dummy.rs:8-9 | `trim_start_matches` removes a whole number of copies of the prefix, and what is left no longer starts with it |
| `IntEnumImplDummy.TrimStartMatchesOfRepeat` | int-enum-impl/src/dummy.rs:8-9 | Any number of `r#` in front of a name without one are all removed |
| `IntEnumImplDummy.WrapInConst` | int-enum-impl/src/dummy.rs:7-36 | The code is kept unchanged, after the crate alias, inside a const named `_IMPL_{trait}_FOR_{unraw type}`; a failed lookup panics with "missing int-enum in `Cargo.toml`" |
| `IntEnumImplDummy.DummyConstNameOfType` | int-enum-impl/src/dummy.rs:8-14 | A plain name is used unchanged in `_IMPL_{trait}_FOR_{name}`, and any number of `r#` in front of it make no difference |
| `IntEnumImplDummy.DummyConstNameUnraw` | int-enum-impl/src/dummy.rs:8-14 | The part after `_FOR_` never starts with `r#`, and the type name is that part with some number of `r#` in front |
| `IntEnumImplDummy.RawNameExample` | int-enum-impl/src/dummy.rs:8-14 | `r#Foo` and `Foo` both give `_IMPL_IntEnum_FOR_Foo` |
| `ImplSerde.VisitFns` | impl/src/serde.rs:94-112 | The loop over `SIZES` pushes exactly the specification's sequence of visit functions |
| `ImplSerde.VisitFnsShape` | impl/src/serde.rs:92-111 | An unsigned repr gets the five unsigned functions; a signed repr gets ten, the signed one then the unsigned one for each width |
| `ImplSerde.LookupGenerated` | impl/src/serde.rs:94-112 | The visitor has a function for a type exactly when the type is fixed-width and unsigned, or the repr is signed; that function is the table's entry |
| `ImplSerde.VisitFnDecides` | impl/src/serde.rs:114-174 | For every generated style/width pair, a direct body only sees values that fit the repr; a bounded body passes exactly those values, reports the repr's own bounds and forwards to the repr's type |
| `ImplSerde.SignedReprUnsignedVisitDecides` | impl/src/serde.rs:137-147 | A signed repr visited as unsigned checks only `v <= MAX as visit_ty`, which holds exactly when `v` fits the repr |
| `ImplSerde.WiderVisitDecides` | impl/src/serde.rs:149-156 | For a wider visited type, both cast bounds keep their values, so `MIN <= v && v <= MAX` holds exactly when `v` fits the repr |
| `ImplSerde.SignedMaxAsNarrowerUnsigned` | impl/src/serde.rs:144 | `iN::MAX as uM` for a narrower `uM` is `uM::MAX` |
| `ImplSerde.UnsignedMaxAsNotWiderSigned` | impl/src/serde.rs:151-152 | `uN::MAX as iM` for a signed type no wider than it is −1 |
| `ImplSerde.UnsignedReprSignedVisitRejectsAll` | impl/src/serde.rs:150-154 | An unsigned repr visited as a signed type no wider gets the bounds `[0, -1]`, so every value is rejected |
| `ImplSerde.UnsignedReprVisitsOnlyUnsigned` | impl/src/serde.rs:101-109 | `visit_fns` never emits a signed visit function for an unsigned repr |
| `ImplSerde.RunDirect` | impl/src/serde.rs:123-131 | A direct body casts `v` to the repr and passes `from_int`'s result through, mapping its error |
| `ImplSerde.RunBounded` | impl/src/serde.rs:135-173 | A bounded body forwards the cast value to the repr's own visit function when the check holds, and otherwise reports "out of range [MIN, MAX]" |
| `ImplSerde.GeneratedVisitorMeaning` | impl/src/serde.rs:114-185 | For any value of any generated visit type, the visitor gives the variant `from_int` finds if the value fits the repr, `from_int`'s error if it fits but names no variant, and the out-of-range error with the repr's bounds otherwise |
| `ImplSerde.SerdeImpl` | impl/src/serde.rs:7-25 | `isize`/`usize` are refused with "serde is not supported"; otherwise serialize uses `serialize_{repr}`, deserialize uses `deserialize_{repr}`, the expecting text is "{repr} integer", and the visitor has the generated visit functions |
| `ImplSerde.SerializeThenVisit` | impl/src/serde.rs:159-166 | A serialized variant hands its own discriminant to `serialize_{repr}`; any generated visit function whose type holds that value gives the same variant back |
| `IntEnumImplSerde.VisitFn` | int-enum-impl/src/serde.rs:100-161 | 128-bit reprs get one unguarded `visit_i128`/`visit_u128`; other signed reprs get `visit_i64` with the repr's exact `[MIN, MAX]`; other unsigned reprs get `visit_u64` with `v <= MAX` |
| `IntEnumImplSerde.VisitFnMeaning` | int-enum-impl/src/serde.rs:120-160 | The generated method accepts exactly the values that fit the repr and name a variant; out-of-range and unknown values get the same "unknown {Enum} value" error |
| `IntEnumImplSerde.GeneratedVisitor` | int-enum-impl/src/serde.rs:120-172 | A value delivered through a visit type of the repr's signedness, up to 64 bits or exactly 128 bits for a 128-bit repr, is deserialized as expected; any other visit type is refused as a type error |
| `IntEnumImplSerde.SerdeImpls` | int-enum-impl/src/serde.rs:1-37 | Without the `serialize` feature the output is empty; with it, serialize uses `serialize_{int}`, deserialize uses `deserialize_any`, and the expecting text is "{int} integer" |
| `IntEnumImplSerde.RoundTripSameType` | int-enum-impl/src/serde.rs:47-56 | A serialized variant read back through the repr's own type gives the same variant |
| `IntEnumImplSerde.SignedReprRefusesUnsignedDelivery` | int-enum-impl/src/serde.rs:127-134 | An `i8` enum with `A = 1` refuses `1` delivered through `visit_u64`; the corrected visitor accepts it |
| `IntEnumImplSerde.CorrectedVisitor` | int-enum-impl/src/serde.rs:120-160 | The corrected visitor deserializes every value, delivered through any integer visit type, as expected |
| `IntEnumImplSerde.RoundTripAnyType` | int-enum-impl/src/serde.rs:47-56 | With the corrected visitor, the round trip holds whichever visit type the format uses |
| `IntEnumImplSerde.SerializeMethodExists` | int-enum-impl/src/serde.rs:47 | `serialize_{int}` is a method of `Serializer` exactly for the ten fixed-width reprs, not for `isize`/`usize` |
| `IntEnumImplSerde.CorrectedSerializeMethod` | impl/src/serde.rs:11-16 | The corrected choice refuses `isize`/`usize` with "serde is not supported", and otherwise names an existing serializer method |

## Left out

- The proc-macro entry points (`impl/src/lib.rs`, `int-enum-impl/src/lib.rs`, `src/lib.rs`) only convert token streams and diagnostics for the host compiler.
- `impl/src/util.rs` and the `proc_macro_crate::crate_name` call in `dummy.rs` read the Cargo manifest, which is I/O. The crate path is a parameter.
- `src/span.rs`, `src/span_ext.rs` and `build.rs` deal with compiler spans, `catch_unwind` and toolchain probing. Diagnostics here point at an `Origin`, not a span.
- `src/int.rs` is a sealed marker trait with no behaviour.
- `int-enum-impl/src/convert.rs` only delegates `From`/`TryFrom` to `to_int`/`from_int`. The same relation is proved for `impl/src/expand.rs`'s `convert`.
- Token-level output (spans, `#[automatically_derived]`, exact token trees) is not modelled. Generated impls are modelled by what their functions compute.
- rustc evaluates discriminant expressions and checks them for overflow, so discriminants are integers here. Distinctness is a precondition of the round-trip lemmas, because rustc rejects duplicate discriminants.
- `src/expand.rs`: `ast::get_variants` is not part of this model because its body is not available. Only the implicit-discriminant rule that the tests check is modelled. Rejecting variants that carry fields is therefore not modelled for the `src/` generation.
- `type_name::<T>()` and the formatter machinery are reduced to a type-name string parameter and the text they produce.
- Data formats are not modelled. The visit function a format calls is a parameter. For `int-enum-impl/`, serde's own forwarding of narrower visit methods to the 64-bit ones is modelled as serde documents it.
- `ImplSerde.Run` evaluates forwarding between visit functions with a `depth` bound. The generated visitors need only one level, and `ImplSerde.GeneratedVisitorMeaning` requires `depth >= 1`.
- `IntEnumImplParse` works on tokens that have already been lexed. An integer literal token carries its value and suffix, and an outer attribute is a single token. Visibility restrictions are skipped as one parenthesised group. The library parse errors are `ParseFailure` at a token position; their wording is not modelled.
- `IntEnumImplParse.ParseInt`: its own contract only bounds the position. Its meaning is stated by `ParseIntOfTokens` and `TokensOfParseInt`.

## Findings

| source | as written | input that shows it | evidently intended | confidence | as-written member | corrected member |
|---|---|---|---|---|---|---|
| int-enum-impl/src/serde.rs:127-141 | A signed repr's visitor defines only `visit_i64`, so a non-negative value that a format delivers through `visit_u64` reaches serde's default `visit_u64`, which refuses it as the wrong type | `#[repr(i8)] enum E { A = 1 }` deserialized from a format that hands `1` to `visit_u64` (the later generation's comment at impl/src/serde.rs:104-105 says serde_json does this) | A signed repr also accepts non-negative values delivered through unsigned visit types, checked against `MAX`, as the `impl/` generation does | medium, not executed | `IntEnumImplSerde.SignedReprRefusesUnsignedDelivery` | `IntEnumImplSerde.CorrectedVisitor` |
| int-enum-impl/src/serde.rs:47 | The serializer method is `serialize_{int}` for every repr, but `Serializer` has no `serialize_isize` or `serialize_usize`, so the generated impl for an `isize`/`usize` enum names a method that does not exist | `#[repr(usize)] enum E { A = 0 }` with the `serialize` feature | Refuse pointer-sized reprs with "serde is not supported", as impl/src/serde.rs:11-16 does | high, not executed | `IntEnumImplSerde.SerializeMethodExists` | `IntEnumImplSerde.CorrectedSerializeMethod` |
