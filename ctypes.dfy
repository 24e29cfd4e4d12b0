/**
 * Machine-level value types shared by the parser and the output adapters:
 * bytes, the fixed-width C integer types of a 64-bit LP64 target, and the
 * conversions between them that Rust's `as` casts perform.
 */
module CTypes {

  /** One byte of a C string. */
  type byte = b: int | 0 <= b < 256

  const I32Min: int := -0x8000_0000
  const I32Max: int := 0x7FFF_FFFF
  const U64Modulus: int := 0x1_0000_0000_0000_0000

  type i8 = x: int | -0x80 <= x < 0x80
  type i16 = x: int | -0x8000 <= x < 0x8000
  type i32 = x: int | I32Min <= x <= I32Max
  type i64 = x: int | -0x8000_0000_0000_0000 <= x < 0x8000_0000_0000_0000
  type u8 = x: int | 0 <= x < 0x100
  type u16 = x: int | 0 <= x < 0x1_0000
  type u32 = x: int | 0 <= x < 0x1_0000_0000
  type u64 = x: int | 0 <= x < 0x1_0000_0000_0000_0000

  /** The option type used for `Option<c_int>` and similar. */
  datatype Option<T> = None | Some(value: T)

  /** The bit widths of the C integer types on the modelled target. */
  datatype Width = W8 | W16 | W32 | W64

  function Modulus(w: Width): (m: nat)
    ensures m >= 0x100
  {
    match w
    case W8 => 0x100
    case W16 => 0x1_0000
    case W32 => 0x1_0000_0000
    case W64 => 0x1_0000_0000_0000_0000
  }

  /** Half the modulus: the magnitude of the most negative signed value. */
  function Half(w: Width): (h: nat)
    ensures 2 * h == Modulus(w)
  {
    match w
    case W8 => 0x80
    case W16 => 0x8000
    case W32 => 0x8000_0000
    case W64 => 0x8000_0000_0000_0000
  }

  predicate InSigned(x: int, w: Width)
  {
    -(Half(w) as int) <= x < Half(w)
  }

  predicate InUnsigned(x: int, w: Width)
  {
    0 <= x < Modulus(w)
  }

  /** `x as T` for an unsigned T of width `w`: keep the low bits. */
  function WrapUnsigned(x: int, w: Width): (r: nat)
    ensures InUnsigned(r, w)
    ensures (x - r) % Modulus(w) == 0
    ensures InUnsigned(x, w) ==> r == x
  {
    var m := Modulus(w);
    assert x == m * (x / m) + x % m;
    assert x - x % m == m * (x / m);
    x % m
  }

  /** `x as T` for a signed two's-complement T of width `w`. */
  function WrapSigned(x: int, w: Width): (r: int)
    ensures InSigned(r, w)
    ensures (r - x) % Modulus(w) == 0
    ensures InSigned(x, w) ==> r == x
  {
    var m := Modulus(w);
    var y := x + Half(w);
    assert y == m * (y / m) + y % m;
    assert (y % m - y) == m * -(y / m);
    y % m - Half(w)
  }

  /** `c_int as usize` on a 64-bit target: sign extension, so that a negative value becomes huge. */
  function AsUsize(x: i32): (r: nat)
    ensures r < U64Modulus
    ensures (r - x) % U64Modulus == 0
    ensures x >= 0 ==> r == x
    ensures x < 0 ==> r == x + U64Modulus && r >= U64Modulus - 0x8000_0000
  {
    if x >= 0 then x else x + U64Modulus
  }

  /** `usize::wrapping_sub(1)`. */
  function UsizeSubOne(x: nat): (r: nat)
    requires x < U64Modulus
    ensures r < U64Modulus
    ensures x >= 1 ==> r == x - 1
    ensures x == 0 ==> r == U64Modulus - 1
  {
    if x == 0 then U64Modulus - 1 else x - 1
  }

  /** `usize as c_int`: keep the low 32 bits, read as two's complement. */
  function UsizeAsCInt(n: nat): (r: i32)
    ensures (r - n) % 0x1_0000_0000 == 0
    ensures n <= I32Max ==> r == n
  {
    WrapSigned(n, W32)
  }

  /** The bytes of an ASCII string literal (used to write fixtures). */
  function Ascii(s: string): (r: seq<byte>)
    requires forall i | 0 <= i < |s| :: s[i] as int < 256
    ensures |r| == |s|
    ensures forall i | 0 <= i < |s| :: r[i] == s[i] as int
  {
    if s == "" then [] else [s[0] as int] + Ascii(s[1..])
  }

  predicate IsAscii(s: seq<byte>)
  {
    forall i | 0 <= i < |s| :: s[i] < 128
  }
}
