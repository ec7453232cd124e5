/**
 * int-enum-impl/src/dummy.rs: the generated impl is put inside an unnamed
 * scope, `const _IMPL_<Trait>_FOR_<Type>: () = { extern crate <crate> as
 * _int_enum; <code> };`, so that it can name the runtime crate as
 * `_int_enum` whatever the user calls it. The crate name is read from the
 * user's manifest; here it is a parameter, `None` when the lookup fails.
 */
module IntEnumImplDummy {
  import opened Outcomes

  const RawPrefix: string := "r#"
  const MissingCrate: string := "missing int-enum in `Cargo.toml`"

  predicate StartsWith(s: string, prefix: string) {
    |prefix| <= |s| && s[..|prefix|] == prefix
  }

  /** `prefix` repeated `n` times. */
  function Repeat(prefix: string, n: nat): (r: string)
    ensures |r| == n * |prefix|
  {
    if n == 0 then [] else prefix + Repeat(prefix, n - 1)
  }

  /** `str::trim_start_matches(prefix)`: removes `prefix` from the front as long as it is there. */
  function TrimStartMatches(s: string, prefix: string): (r: string)
    requires prefix != []
    decreases |s|
  {
    if StartsWith(s, prefix) then TrimStartMatches(s[|prefix|..], prefix) else s
  }

  /**
   * What is removed is a whole number of copies of the prefix, and what is left
   * no longer starts with it.
   */
  lemma {:induction false} TrimStartMatchesSplits(s: string, prefix: string)
    requires prefix != []
    ensures !StartsWith(TrimStartMatches(s, prefix), prefix)
    ensures exists n: nat :: s == Repeat(prefix, n) + TrimStartMatches(s, prefix)
    decreases |s|
  {
    if StartsWith(s, prefix) {
      var rest := s[|prefix|..];
      TrimStartMatchesSplits(rest, prefix);
      var n: nat :| rest == Repeat(prefix, n) + TrimStartMatches(rest, prefix);
      assert s == prefix + rest;
      assert s == Repeat(prefix, n + 1) + TrimStartMatches(s, prefix);
    } else {
      assert s == Repeat(prefix, 0) + s;
    }
  }

  /** Any number of copies of the prefix in front of a name without it are all removed. */
  lemma {:induction false} TrimStartMatchesOfRepeat(prefix: string, n: nat, name: string)
    requires prefix != [] && !StartsWith(name, prefix)
    ensures TrimStartMatches(Repeat(prefix, n) + name, prefix) == name
  {
    if n > 0 {
      var s := Repeat(prefix, n) + name;
      assert s == prefix + (Repeat(prefix, n - 1) + name);
      assert s[..|prefix|] == prefix;
      assert s[|prefix|..] == Repeat(prefix, n - 1) + name;
      TrimStartMatchesOfRepeat(prefix, n - 1, name);
    } else {
      assert Repeat(prefix, n) + name == name;
    }
  }

  /** The dummy const's name: `_IMPL_<trait>_FOR_<type without its r# prefixes>`. */
  function DummyConstName(traitName: string, ty: string): string {
    "_IMPL_" + traitName + "_FOR_" + TrimStartMatches(ty, RawPrefix)
  }

  /** `const <name>: () = { extern crate <cratePath> as _int_enum; <code> };` */
  datatype DummyConst<T> = DummyConst(name: string, cratePath: string, code: T)

  /** `wrap_in_const`: the crate lookup's failure is a panic with its message. */
  function WrapInConst<T>(traitName: string, ty: string, code: T, crateName: Option<string>)
    : (r: Result<DummyConst<T>, string>)
    ensures r.Err? <==> crateName.None?
    ensures r.Err? ==> r.error == MissingCrate
    ensures r.Ok? ==> r.value.code == code && r.value.cratePath == crateName.value
    ensures r.Ok? ==> r.value.name == DummyConstName(traitName, ty)
  {
    match crateName
    case None => Err(MissingCrate)
    case Some(name) => Ok(DummyConst(DummyConstName(traitName, ty), name, code))
  }

  /**
   * The const is named after the trait and the type: a plain type name is used
   * as it is, and any number of `r#` in front of it makes no difference.
   */
  lemma DummyConstNameOfType(traitName: string, name: string, n: nat)
    requires !StartsWith(name, RawPrefix)
    ensures DummyConstName(traitName, name) == "_IMPL_" + traitName + "_FOR_" + name
    ensures DummyConstName(traitName, Repeat(RawPrefix, n) + name) == DummyConstName(traitName, name)
  {
    TrimStartMatchesOfRepeat(RawPrefix, n, name);
    TrimStartMatchesOfRepeat(RawPrefix, 0, name);
  }

  /** Whatever the type name, the part after `_FOR_` does not start with `r#`. */
  lemma DummyConstNameUnraw(traitName: string, ty: string)
    ensures var unraw := TrimStartMatches(ty, RawPrefix);
            && DummyConstName(traitName, ty) == "_IMPL_" + traitName + "_FOR_" + unraw
            && !StartsWith(unraw, RawPrefix)
            && exists n: nat :: ty == Repeat(RawPrefix, n) + unraw
  {
    TrimStartMatchesSplits(ty, RawPrefix);
  }

  /** `r#Foo` and `Foo` get the same const; `IntEnum` on `Foo` gives `_IMPL_IntEnum_FOR_Foo`. */
  lemma RawNameExample()
    ensures DummyConstName("IntEnum", "r#Foo") == "_IMPL_IntEnum_FOR_Foo"
    ensures DummyConstName("IntEnum", "Foo") == "_IMPL_IntEnum_FOR_Foo"
  {
    assert "Foo"[..2][0] == 'F';
    assert !StartsWith("Foo", RawPrefix);
    DummyConstNameOfType("IntEnum", "Foo", 1);
    assert Repeat(RawPrefix, 1) + "Foo" == "r#Foo";
  }
}
