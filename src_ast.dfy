/**
 * src/ast.rs: how the `src/` generation picks the representation. Only
 * `#[repr(..)]` attributes are looked at, in order; inside each, the first
 * entry that is a bare identifier naming one of the twelve integer types
 * (after dropping one raw-identifier `r#`) wins. Everything else is skipped,
 * and with no such entry anywhere the representation is `isize`.
 */
module SrcAst {
  import opened Outcomes
  import opened Syn
  import RustInt

  /** `VALID_REPRS`, in its declared order. */
  const ValidReprs: seq<string> :=
    ["i8", "u8", "i16", "u16", "i32", "u32", "i64", "u64", "i128", "u128", "isize", "usize"]

  /**
   * `Repr { ident }`. `origin` is where the identifier came from: the entry
   * `EntryAt(attr, entry)` it was read from, or `CallSite` for the default.
   */
  datatype Repr = Repr(ident: string, origin: Origin)

  /** `VALID_REPRS` lists exactly the twelve primitive integer type names. */
  lemma ValidReprsAreIntTypeNames()
    ensures forall s :: s in ValidReprs <==> s in RustInt.IntTypeNames()
  {
  }

  /** `sym.strip_prefix("r#").unwrap_or(sym)`: removes one leading `r#`, if there is one. */
  function StripRaw(sym: string): string {
    if |sym| >= 2 && sym[..2] == "r#" then sym[2..] else sym
  }

  /** A name that does not start with `r` is left as it is. */
  lemma StripRawPlain(sym: string)
    requires sym != [] && sym[0] != 'r'
    ensures StripRaw(sym) == sym
  {
    if |sym| >= 2 {
      assert sym[..2][0] == sym[0];
    }
  }

  /** The identifier of an entry the loop accepts: a one-identifier path whose name, unraw'd, is valid. */
  function ValidEntry(m: Meta): (r: Option<string>)
    ensures r.Some? <==> m.MetaPath? && GetIdent(m.path).Some? && StripRaw(GetIdent(m.path).value) in ValidReprs
    ensures r.Some? ==> r == GetIdent(m.path)
  {
    if !m.MetaPath? then None
    else match GetIdent(m.path)
      case None => None
      case Some(ident) => if StripRaw(ident) in ValidReprs then Some(ident) else None
  }

  /** The position of the first accepted entry. */
  function FirstValid(metas: seq<Meta>): (r: Option<nat>)
    ensures r.Some? ==> r.value < |metas| && ValidEntry(metas[r.value]).Some?
                        && forall k :: 0 <= k < r.value ==> ValidEntry(metas[k]).None?
    ensures r.None? <==> forall k :: 0 <= k < |metas| ==> ValidEntry(metas[k]).None?
    decreases |metas|
  {
    if metas == [] then None
    else if ValidEntry(metas[0]).Some? then Some(0)
    else match FirstValid(metas[1..])
      case Some(k) => Some(k + 1)
      case None => None
  }

  /** `from_attributes`, continuing from the attribute at position `i`. */
  function FromAttributesFrom(attrs: seq<Attribute>, i: nat): Result<Repr, seq<Error>>
    requires i <= |attrs|
    decreases |attrs| - i
  {
    if i == |attrs| then Ok(Repr("isize", CallSite))
    else if !IsIdent(attrs[i].path, "repr") then FromAttributesFrom(attrs, i + 1)
    else match ParseArgsAsMetas(attrs[i], i)
      case Err(e) => Err([e])
      case Ok(metas) =>
        match FirstValid(metas)
        case Some(j) => Ok(Repr(ValidEntry(metas[j]).value, EntryAt(i, j)))
        case None => FromAttributesFrom(attrs, i + 1)
  }

  function FromAttributesSpec(attrs: seq<Attribute>): Result<Repr, seq<Error>> {
    FromAttributesFrom(attrs, 0)
  }

  /**
   * `Repr::from_attributes`: the outer loop skips non-`repr` attributes and
   * propagates a `parse_args` failure; the inner loop skips entries that are not
   * a valid bare identifier and returns the first valid one.
   */
  method FromAttributes(attrs: seq<Attribute>) returns (r: Result<Repr, seq<Error>>)
    ensures r == FromAttributesSpec(attrs)
  {
    for i := 0 to |attrs|
      invariant FromAttributesFrom(attrs, i) == FromAttributesSpec(attrs)
    {
      if !IsIdent(attrs[i].path, "repr") {
        continue;
      }
      var nested := ParseArgsAsMetas(attrs[i], i);
      if nested.Err? {
        return Err([nested.error]);
      }
      var metas := nested.value;
      for j := 0 to |metas|
        invariant forall k :: 0 <= k < j ==> ValidEntry(metas[k]).None?
      {
        if !metas[j].MetaPath? {
          continue;
        }
        var ident := GetIdent(metas[j].path);
        if ident.None? {
          continue;
        }
        var sym := StripRaw(ident.value);
        if sym in ValidReprs {
          return Ok(Repr(ident.value, EntryAt(i, j)));
        }
      }
    }
    return Ok(Repr("isize", CallSite));
  }

  /** A `repr` attribute whose arguments parse and hold no accepted entry. */
  predicate PassesOver(a: Attribute, i: nat) {
    IsIdent(a.path, "repr") ==>
      ParseArgsAsMetas(a, i).Ok? && FirstValid(ParseArgsAsMetas(a, i).value).None?
  }

  /**
   * The only error is a `repr` attribute whose arguments fail to parse, reported
   * at that attribute, and no earlier attribute has decided the result.
   */
  lemma {:induction false} FromAttributesErrIsParseFailure(attrs: seq<Attribute>, i: nat)
    requires i <= |attrs| && FromAttributesFrom(attrs, i).Err?
    ensures exists k :: i <= k < |attrs| && IsIdent(attrs[k].path, "repr") && ParseArgsAsMetas(attrs[k], k).Err?
                        && FromAttributesFrom(attrs, i).error == [ParseFailure(AttrAt(k))]
                        && forall m :: i <= m < k ==> PassesOver(attrs[m], m)
    decreases |attrs| - i
  {
    if IsIdent(attrs[i].path, "repr") && ParseArgsAsMetas(attrs[i], i).Err? {
      assert i <= i < |attrs|;
    } else {
      FromAttributesErrIsParseFailure(attrs, i + 1);
      var k :| i + 1 <= k < |attrs| && IsIdent(attrs[k].path, "repr") && ParseArgsAsMetas(attrs[k], k).Err?
                && FromAttributesFrom(attrs, i + 1).error == [ParseFailure(AttrAt(k))]
                && forall m :: i + 1 <= m < k ==> PassesOver(attrs[m], m);
      assert forall m :: i <= m < k ==> PassesOver(attrs[m], m);
    }
  }

  /**
   * An accepted repr is the original identifier (raw prefix and all) of the
   * first accepted entry of a `repr` attribute, all earlier attributes having
   * been passed over.
   */
  lemma {:induction false} FromAttributesFound(attrs: seq<Attribute>, i: nat)
    requires i <= |attrs| && FromAttributesFrom(attrs, i).Ok?
    requires FromAttributesFrom(attrs, i).value.origin != CallSite
    ensures var r := FromAttributesFrom(attrs, i).value;
            && r.origin.EntryAt?
            && var k := r.origin.attr;
               && i <= k < |attrs| && IsIdent(attrs[k].path, "repr") && ParseArgsAsMetas(attrs[k], k).Ok?
               && var metas := ParseArgsAsMetas(attrs[k], k).value;
                  && FirstValid(metas) == Some(r.origin.entry)
                  && metas[r.origin.entry].MetaPath?
                  && GetIdent(metas[r.origin.entry].path) == Some(r.ident)
                  && StripRaw(r.ident) in ValidReprs
                  && forall m :: i <= m < k ==> PassesOver(attrs[m], m)
    decreases |attrs| - i
  {
    if IsIdent(attrs[i].path, "repr") && ParseArgsAsMetas(attrs[i], i).Ok?
       && FirstValid(ParseArgsAsMetas(attrs[i], i).value).Some? {
    } else {
      FromAttributesFound(attrs, i + 1);
    }
  }

  /**
   * `isize` is chosen exactly when every attribute from `i` on is passed over;
   * that includes having no `repr` attribute at all.
   */
  lemma {:induction false} FromAttributesDefault(attrs: seq<Attribute>, i: nat)
    requires i <= |attrs|
    ensures FromAttributesFrom(attrs, i) == Ok(Repr("isize", CallSite))
            <==> forall m :: i <= m < |attrs| ==> PassesOver(attrs[m], m)
    decreases |attrs| - i
  {
    if i < |attrs| {
      FromAttributesDefault(attrs, i + 1);
      if !PassesOver(attrs[i], i) {
        assert FromAttributesFrom(attrs, i) != Ok(Repr("isize", CallSite));
      }
    }
  }

  /**
   * Only `repr` attributes are examined: replacing attributes that are not
   * `repr` by other attributes that are not `repr` changes nothing.
   */
  lemma {:induction false} NonReprAttributesIgnored(attrs: seq<Attribute>, others: seq<Attribute>, i: nat)
    requires |attrs| == |others| && i <= |attrs|
    requires forall k :: i <= k < |attrs| ==>
               attrs[k] == others[k] || (!IsIdent(attrs[k].path, "repr") && !IsIdent(others[k].path, "repr"))
    ensures FromAttributesFrom(attrs, i) == FromAttributesFrom(others, i)
    decreases |attrs| - i
  {
    if i < |attrs| {
      NonReprAttributesIgnored(attrs, others, i + 1);
    }
  }

  /** A bare identifier entry such as `u16`. */
  function Word(name: string): NestedMeta {
    NestedItem(MetaPath(SimplePath(name)))
  }

  function ReprAttr(entries: seq<NestedMeta>): Attribute {
    Attribute(SimplePath("repr"), ListArgs(entries))
  }

  /**
   * `#[repr(u16, align(4))]` and `#[repr(align(4), u16)]` both give `u16`:
   * `align(4)` is skipped, not rejected.
   */
  lemma AlignIsSkipped()
    ensures FromAttributesSpec([ReprAttr([Word("u16"), NestedItem(MetaList(SimplePath("align"), [NestedLit("4")]))])])
            == Ok(Repr("u16", EntryAt(0, 0)))
    ensures FromAttributesSpec([ReprAttr([NestedItem(MetaList(SimplePath("align"), [NestedLit("4")])), Word("u16")])])
            == Ok(Repr("u16", EntryAt(0, 1)))
  {
    var align := NestedItem(MetaList(SimplePath("align"), [NestedLit("4")]));
    var metas := ParseArgsAsMetas(ReprAttr([align, Word("u16")]), 0).value;
    assert ValidEntry(metas[0]).None?;
    StripRawPlain("u16");
    assert FirstValid(metas[1..]) == Some(0);
  }

  /** `#[repr(r#u8)]` is accepted, and the returned identifier keeps its `r#`. */
  lemma RawIdentifierKept()
    ensures FromAttributesSpec([ReprAttr([Word("r#u8")])]) == Ok(Repr("r#u8", EntryAt(0, 0)))
  {
    assert StripRaw("r#u8") == "u8";
  }

  /** `#[repr(C)]`, or no attribute at all, gives the default `isize`. */
  lemma DefaultIsIsize()
    ensures FromAttributesSpec([ReprAttr([Word("C")])]) == Ok(Repr("isize", CallSite))
    ensures FromAttributesSpec([]) == Ok(Repr("isize", CallSite))
  {
    StripRawPlain("C");
    assert "C" !in ValidReprs;
  }

  /** Two integer entries are no conflict: `#[repr(u8, i16)]` gives `u8`. */
  lemma NoConflictError()
    ensures FromAttributesSpec([ReprAttr([Word("u8"), Word("i16")])]) == Ok(Repr("u8", EntryAt(0, 0)))
  {
    StripRawPlain("u8");
  }
}
