/**
 * The meaning of the code every generation emits for an enum: a `match`
 * with one arm per variant, in declaration order. Variants are identified
 * by their position in the declaration; each arm pairs a variant's name with
 * its discriminant, already evaluated (rustc evaluates and range-checks the
 * discriminant expressions).
 */
module Generated {
  import opened Outcomes
  import SrcError

  type Arm = (string, int)

  /** No two variants share a discriminant (rustc rejects such enums). */
  predicate Distinct(arms: seq<Arm>) {
    forall i, j :: 0 <= i < j < |arms| ==> arms[i].1 != arms[j].1
  }

  /** `int_value` / `From<Enum>`: the arm for the variant returns its discriminant. */
  function IntValue(arms: seq<Arm>, variant: nat): (n: int)
    requires variant < |arms|
  {
    arms[variant].1
  }

  /**
   * A `match n { d0 => .., d1 => .., _ => .. }` over the discriminants (literal
   * patterns, or `v if v == (d)` guards): the first arm, in declaration order,
   * whose discriminant equals `n`.
   */
  function FirstMatch(arms: seq<Arm>, n: int): (r: Option<nat>)
    ensures r.Some? ==> r.value < |arms| && arms[r.value].1 == n
                        && forall j :: 0 <= j < r.value ==> arms[j].1 != n
    ensures r.None? <==> forall j :: 0 <= j < |arms| ==> arms[j].1 != n
    decreases |arms|
  {
    if arms == [] then None
    else if arms[0].1 == n then Some(0)
    else match FirstMatch(arms[1..], n)
      case Some(k) => Some(k + 1)
      case None => None
  }

  /**
   * `from_int(n)`: `Ok` of the first matching variant, otherwise
   * `Err(IntEnumError::__new(n))`.
   */
  function FromInt<T>(arms: seq<Arm>, n: int): (r: Result<nat, SrcError.IntEnumError<T>>)
    ensures r.Ok? ==> r.value < |arms| && arms[r.value].1 == n
                      && forall j :: 0 <= j < r.value ==> arms[j].1 != n
    ensures r.Err? <==> forall j :: 0 <= j < |arms| ==> arms[j].1 != n
    ensures r.Err? ==> SrcError.Value(r.error) == n
  {
    match FirstMatch(arms, n)
    case Some(k) => Ok(k)
    case None => Err(SrcError.New(n))
  }

  /** Round trip: converting a variant to its integer and back gives the variant. */
  lemma FromIntOfIntValue<T>(arms: seq<Arm>, variant: nat)
    requires variant < |arms| && Distinct(arms)
    ensures FromInt<T>(arms, IntValue(arms, variant)) == Ok(variant)
  {
    assert forall j :: 0 <= j < variant ==> arms[j].1 != arms[variant].1;
  }

  /** Without distinctness, the round trip still lands on a variant with the same discriminant. */
  lemma FromIntOfIntValueShared<T>(arms: seq<Arm>, variant: nat)
    requires variant < |arms|
    ensures var r := FromInt<T>(arms, IntValue(arms, variant));
            r.Ok? && r.value <= variant && IntValue(arms, r.value) == IntValue(arms, variant)
  {
    assert arms[variant].1 == IntValue(arms, variant);
  }

  /** Converting back an integer that `from_int` accepted gives that integer. */
  lemma IntValueOfFromInt<T>(arms: seq<Arm>, n: int)
    requires FromInt<T>(arms, n).Ok?
    ensures IntValue(arms, FromInt<T>(arms, n).value) == n
  {
  }
}
