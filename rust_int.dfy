/**
 * Rust's primitive integer types: their ranges and the `as` cast between
 * them, which wraps modulo 2^bits (two's complement) rather than checking.
 */
module RustInt {
  import opened Outcomes

  /** The widths of the fixed-size integer types. */
  datatype Width = W8 | W16 | W32 | W64 | W128

  /** The target's pointer width, which fixes the width of `isize` and `usize`. */
  datatype PointerWidth = P16 | P32 | P64

  function Bits(w: Width): nat {
    match w
    case W8 => 8
    case W16 => 16
    case W32 => 32
    case W64 => 64
    case W128 => 128
  }

  /** 2^Bits(w), the number of values of a type of width `w`. */
  function Modulus(w: Width): (m: nat)
    ensures m >= 256 && m % 2 == 0
  {
    match w
    case W8 => 0x100
    case W16 => 0x1_0000
    case W32 => 0x1_0000_0000
    case W64 => 0x1_0000_0000_0000_0000
    case W128 => 0x1_0000_0000_0000_0000_0000_0000_0000_0000
  }

  function PointerBits(p: PointerWidth): Width {
    match p
    case P16 => W16
    case P32 => W32
    case P64 => W64
  }

  /** `T::MIN` for the type of signedness `signed` and width `w`. */
  function Min(signed: bool, w: Width): int {
    if signed then -(Modulus(w) / 2) else 0
  }

  /** `T::MAX` for the type of signedness `signed` and width `w`. */
  function Max(signed: bool, w: Width): int {
    if signed then Modulus(w) / 2 - 1 else Modulus(w) - 1
  }

  predicate InRange(signed: bool, w: Width, v: int) {
    Min(signed, w) <= v <= Max(signed, w)
  }

  /**
   * `v as T`: the unique value of `T` congruent to `v` modulo 2^bits, whatever
   * integer type `v` had.
   */
  function Cast(v: int, signed: bool, w: Width): (r: int)
    ensures InRange(signed, w, r)
    ensures (v - r) % Modulus(w) == 0
  {
    var m := Modulus(w);
    var u := v % m;
    if signed && u >= m / 2 then u - m else u
  }

  /** A cast to a type that can hold the value leaves it unchanged. */
  lemma CastInRange(v: int, signed: bool, w: Width)
    requires InRange(signed, w, v)
    ensures Cast(v, signed, w) == v
  {
    var m := Modulus(w);
    if v >= 0 {
      assert v % m == v;
    } else {
      assert v % m == v + m;
    }
  }

  /** Every value of a narrower type of the same signedness fits a wider one. */
  lemma WidenSameSign(signed: bool, narrow: Width, wide: Width, v: int)
    requires Bits(narrow) <= Bits(wide)
    requires InRange(signed, narrow, v)
    ensures InRange(signed, wide, v)
  {
  }

  /** Every value of an unsigned type fits a strictly wider signed type. */
  lemma WidenUnsignedToSigned(narrow: Width, wide: Width, v: int)
    requires Bits(narrow) < Bits(wide)
    requires InRange(false, narrow, v)
    ensures InRange(true, wide, v)
  {
  }

  /**
   * The twelve primitive integer type names, with their signedness and width
   * (`isize` and `usize` take the pointer width).
   */
  function NameKind(name: string, p: PointerWidth): (r: Option<(bool, Width)>)
    ensures r.Some? <==> name in IntTypeNames()
  {
    match name
    case "i8" => Some((true, W8))
    case "i16" => Some((true, W16))
    case "i32" => Some((true, W32))
    case "i64" => Some((true, W64))
    case "i128" => Some((true, W128))
    case "isize" => Some((true, PointerBits(p)))
    case "u8" => Some((false, W8))
    case "u16" => Some((false, W16))
    case "u32" => Some((false, W32))
    case "u64" => Some((false, W64))
    case "u128" => Some((false, W128))
    case "usize" => Some((false, PointerBits(p)))
    case _ => None
  }

  function IntTypeNames(): set<string> {
    {"i8", "i16", "i32", "i64", "i128", "isize", "u8", "u16", "u32", "u64", "u128", "usize"}
  }
}
