/**
 * The values the format-string scanner hands to an output handler
 * (src/lib.rs, module `argument`): the flag set, the floating-point
 * conversion styles, the signed and unsigned integer payloads of every
 * length modifier, the conversion specifier, and the full argument record.
 */
module Arguments {
  import opened CTypes

  // ---------------------------------------------------------------------
  // Flags: the six flags a directive may carry, as a set. `bitflags!`
  // stores such a set in one byte, one bit per flag.
  // ---------------------------------------------------------------------

  datatype Flag = LeftAlign | PrependPlus | PrependSpace | PrependZero | ThousandsGrouping | AlternateForm

  type Flags = set<Flag>

  const EmptyFlags: Flags := {}

  /** The bit `bitflags!` gives a flag. */
  function Bit(f: Flag): nat
  {
    match f
    case LeftAlign => 0x01
    case PrependPlus => 0x02
    case PrependSpace => 0x04
    case PrependZero => 0x08
    case ThousandsGrouping => 0x10
    case AlternateForm => 0x20
  }

  function BitIf(b: bool, bit: nat): nat
  {
    if b then bit else 0
  }

  /** `flags.bits()`: the byte that stores a flag set. */
  function Bits(fs: Flags): (b: nat)
    ensures b < 0x40
  {
    BitIf(LeftAlign in fs, 0x01) + BitIf(PrependPlus in fs, 0x02) + BitIf(PrependSpace in fs, 0x04) +
    BitIf(PrependZero in fs, 0x08) + BitIf(ThousandsGrouping in fs, 0x10) + BitIf(AlternateForm in fs, 0x20)
  }

  /** A flag is in a set iff its bit is set in the set's byte. */
  lemma BitsEncodeMembership(fs: Flags, f: Flag)
    ensures f in fs <==> (Bits(fs) / Bit(f)) % 2 == 1
  {
  }

  /** The byte determines the set: two sets with the same byte are equal. */
  lemma BitsInjective(fs: Flags, gs: Flags)
    requires Bits(fs) == Bits(gs)
    ensures fs == gs
  {
    forall f: Flag
      ensures f in fs <==> f in gs
    {
      BitsEncodeMembership(fs, f);
      BitsEncodeMembership(gs, f);
    }
  }

  /** `flags.insert(f)` sets the flag's bit, and leaves the byte alone when the bit was set already. */
  lemma BitsOfInsert(fs: Flags, f: Flag)
    ensures Bits(fs + {f}) == Bits(fs) + (if f in fs then 0 else Bit(f))
  {
  }

  // ---------------------------------------------------------------------
  // DoubleFormat: four families, each in a lower- and an upper-case form.
  // ---------------------------------------------------------------------

  datatype DoubleFormat =
    | Normal | UpperNormal
    | Scientific | UpperScientific
    | Auto | UpperAuto
    | Hex | UpperHex
  {
    /** `is_upper`: the upper-case member of its family. */
    predicate IsUpper()
    {
      UpperNormal? || UpperScientific? || UpperAuto? || UpperHex?
    }

    /** `set_upper`: the member of the same family with the requested case. */
    function SetUpper(upper: bool): (r: DoubleFormat)
      ensures r.IsUpper() == upper
      ensures r.Family() == Family()
    {
      match this
      case Normal | UpperNormal => if upper then UpperNormal else Normal
      case Scientific | UpperScientific => if upper then UpperScientific else Scientific
      case Auto | UpperAuto => if upper then UpperAuto else Auto
      case Hex | UpperHex => if upper then DoubleFormat.UpperHex else DoubleFormat.Hex
    }

    /** The family, ignoring case: 0 fixed, 1 scientific, 2 shortest, 3 hexadecimal. */
    function Family(): (k: nat)
      ensures k < 4
    {
      match this
      case Normal | UpperNormal => 0
      case Scientific | UpperScientific => 1
      case Auto | UpperAuto => 2
      case Hex | UpperHex => 3
    }
  }

  /** A format is determined by its family and its case. */
  lemma FamilyAndCaseDetermineFormat(f: DoubleFormat, g: DoubleFormat)
    requires f.Family() == g.Family() && f.IsUpper() == g.IsUpper()
    ensures f == g
  {
  }

  /** Setting the case a format already has gives the format back. */
  lemma SetUpperOwnCase(f: DoubleFormat)
    ensures f.SetUpper(f.IsUpper()) == f
  {
    FamilyAndCaseDetermineFormat(f.SetUpper(f.IsUpper()), f);
  }

  /** Only the last `set_upper` counts. */
  lemma SetUpperTwice(f: DoubleFormat, u: bool, v: bool)
    ensures f.SetUpper(u).SetUpper(v) == f.SetUpper(v)
  {
    FamilyAndCaseDetermineFormat(f.SetUpper(u).SetUpper(v), f.SetUpper(v));
  }

  // ---------------------------------------------------------------------
  // Integer payloads. `c_long` and `isize`/`usize` are 64 bits wide here.
  // ---------------------------------------------------------------------

  datatype SignedInt =
    | Int(i32)
    | Char(i8)
    | Short(i16)
    | Long(i64)
    | LongLong(i64)
    | Isize(i64)
  {
    function Bits(): Width
    {
      match this
      case Int(_) => W32
      case Char(_) => W8
      case Short(_) => W16
      case Long(_) => W64
      case LongLong(_) => W64
      case Isize(_) => W64
    }

    /** `is_sign_negative`: the payload is below zero. */
    predicate IsSignNegative()
    {
      match this
      case Int(x) => x < 0
      case Char(x) => x < 0
      case Short(x) => x < 0
      case Long(x) => x < 0
      case LongLong(x) => x < 0
      case Isize(x) => x < 0
    }
  }

  /** The variant of the same kind as `s` holding `x` truncated to its width. */
  function SignedLike(s: SignedInt, x: int): SignedInt
  {
    match s
    case Int(_) => SignedInt.Int(WrapSigned(x, W32))
    case Char(_) => SignedInt.Char(WrapSigned(x, W8))
    case Short(_) => SignedInt.Short(WrapSigned(x, W16))
    case Long(_) => SignedInt.Long(WrapSigned(x, W64))
    case LongLong(_) => SignedInt.LongLong(WrapSigned(x, W64))
    case Isize(_) => SignedInt.Isize(WrapSigned(x, W64))
  }

  /** `i64::from(SignedInt)`: a widening that keeps the value. */
  function SignedToI64(s: SignedInt): (r: i64)
    ensures InSigned(r, s.Bits())
  {
    match s
    case Int(x) => x
    case Char(x) => x
    case Short(x) => x
    case Long(x) => x
    case LongLong(x) => x
    case Isize(x) => x
  }

  /** Widening loses nothing: the payload can be rebuilt from the widened value. */
  lemma SignedToI64RoundTrip(s: SignedInt)
    ensures SignedLike(s, SignedToI64(s)) == s
  {
  }

  /** `is_sign_negative` agrees with the sign of the widened value. */
  lemma SignNegativeIffWidenedNegative(s: SignedInt)
    ensures s.IsSignNegative() <==> SignedToI64(s) < 0
  {
  }

  datatype UnsignedInt =
    | Int(u32)
    | Char(u8)
    | Short(u16)
    | Long(u64)
    | LongLong(u64)
    | Isize(u64)
  {
    function Bits(): Width
    {
      match this
      case Int(_) => W32
      case Char(_) => W8
      case Short(_) => W16
      case Long(_) => W64
      case LongLong(_) => W64
      case Isize(_) => W64
    }
  }

  /** The variant of the same kind as `u` holding `x` truncated to its width. */
  function UnsignedLike(u: UnsignedInt, x: int): UnsignedInt
  {
    match u
    case Int(_) => UnsignedInt.Int(WrapUnsigned(x, W32))
    case Char(_) => UnsignedInt.Char(WrapUnsigned(x, W8))
    case Short(_) => UnsignedInt.Short(WrapUnsigned(x, W16))
    case Long(_) => UnsignedInt.Long(WrapUnsigned(x, W64))
    case LongLong(_) => UnsignedInt.LongLong(WrapUnsigned(x, W64))
    case Isize(_) => UnsignedInt.Isize(WrapUnsigned(x, W64))
  }

  /** `u64::from(UnsignedInt)`: a widening that keeps the value. */
  function UnsignedToU64(u: UnsignedInt): (r: u64)
    ensures InUnsigned(r, u.Bits())
  {
    match u
    case Int(x) => x
    case Char(x) => x
    case Short(x) => x
    case Long(x) => x
    case LongLong(x) => x
    case Isize(x) => x
  }

  /** Widening loses nothing: the payload can be rebuilt from the widened value. */
  lemma UnsignedToU64RoundTrip(u: UnsignedInt)
    ensures UnsignedLike(u, UnsignedToU64(u)) == u
  {
  }

  // ---------------------------------------------------------------------
  // Specifier and Argument.
  // ---------------------------------------------------------------------

  /**
   * A conversion. `Double` carries the IEEE-754 bit pattern of the value,
   * `String` the bytes of the C string before its terminator, `Pointer`
   * and the target of `WriteBytesWritten` an address.
   */
  datatype Specifier =
    | Percent
    | Int(SignedInt)
    | Uint(UnsignedInt)
    | Octal(UnsignedInt)
    | Double(bits: u64, format: DoubleFormat)
    | Bytes(data: seq<byte>)
    | String(text: seq<byte>)
    | Char(byte)
    | Hex(UnsignedInt)
    | UpperHex(UnsignedInt)
    | Pointer(address: u64)
    | WriteBytesWritten(written: int, target: u64)

  /**
   * An argument as passed to a handler: flags, field width and precision
   * as `c_int` values, and the conversion.
   */
  datatype Argument = Argument(flags: Flags, width: i32, precision: Option<i32>, specifier: Specifier)

  /** `Argument::from(specifier)`: no flags, width 0, no precision. */
  function FromSpecifier(s: Specifier): (a: Argument)
    ensures forall f: Flag :: f !in a.flags
    ensures a.width == 0 && a.precision == None && a.specifier == s
  {
    Argument(EmptyFlags, 0, None, s)
  }
}
