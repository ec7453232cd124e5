/**
 * src/error.rs: `IntEnumError<T>`, the error `from_int` returns for an
 * integer that names no variant. `T` only marks which enum the error is
 * for (Rust's `PhantomData<T>` holds no data); the error carries the value.
 */
module SrcError {
  import opened Outcomes
  import Decimal

  datatype IntEnumError<T> = IntEnumError(value: int)

  /** `IntEnumError::__new(n)`. */
  function New<T>(n: int): (e: IntEnumError<T>)
    ensures Value(e) == n
  {
    IntEnumError(n)
  }

  /** `IntEnumError::value`. */
  function Value<T>(e: IntEnumError<T>): int {
    e.value
  }

  /** Derived `PartialEq`: the phantom type field always compares equal, so only the values matter. */
  lemma EqualIffSameValue<T>(a: IntEnumError<T>, b: IntEnumError<T>)
    ensures a == b <==> Value(a) == Value(b)
  {
  }

  /**
   * `Display`: "invalid integer value for enum {type name}: {value}". The type
   * name (`core::any::type_name::<T>()`) is passed in.
   */
  function Display<T>(e: IntEnumError<T>, typeName: string): (s: string)
    ensures |s| > |DisplayPrefix(typeName)|
    ensures s[..|DisplayPrefix(typeName)|] == DisplayPrefix(typeName)
    ensures Decimal.ParseDecimal(s[|DisplayPrefix(typeName)|..]) == Some(Value(e))
  {
    Decimal.IntDecimalRoundTrip(e.value);
    DisplayPrefix(typeName) + Decimal.IntToDecimal(e.value)
  }

  function DisplayPrefix(typeName: string): string {
    "invalid integer value for enum " + typeName + ": "
  }

  /**
   * `Debug`: a `debug_struct("IntEnumError")` with the field `ty` (printed as
   * `PhantomData<{type name}>`) and then the field `value`.
   */
  function Debug<T>(e: IntEnumError<T>, typeName: string): (s: string)
    ensures s == "IntEnumError { ty: PhantomData<" + typeName + ">, value: "
                 + Decimal.IntToDecimal(Value(e)) + " }"
  {
    var ty := ("ty", "PhantomData<" + typeName + ">");
    var value := ("value", Decimal.IntToDecimal(e.value));
    assert [ty, value][1..] == [value];
    assert DebugFields([ty, value]) == "ty: PhantomData<" + typeName + ">, value: " + value.1;
    DebugStruct("IntEnumError", [ty, value])
  }

  /** The non-alternate layout of `Formatter::debug_struct`: `Name { a: x, b: y }`. */
  function DebugStruct(name: string, fields: seq<(string, string)>): string {
    if fields == [] then name else name + " { " + DebugFields(fields) + " }"
  }

  function DebugFields(fields: seq<(string, string)>): string
    decreases |fields|
  {
    if fields == [] then ""
    else if |fields| == 1 then fields[0].0 + ": " + fields[0].1
    else fields[0].0 + ": " + fields[0].1 + ", " + DebugFields(fields[1..])
  }
}
