/**
 * The caller's variadic argument list, seen as a sequence of tagged slots.
 * The scanner keeps its own cursor into this sequence and only ever moves
 * it forward by one slot per read.
 *
 * Reading a slot as a given C type is what `VaList::arg::<T>()` does. An
 * integer slot read as a narrower integer type keeps the low bits, as the
 * calling convention does for register-sized slots. Reading past the end
 * of the list, or reading a slot as the wrong kind, is undefined behaviour
 * in C; the model then reads zero, or an empty string.
 */
module VarArgs {
  import opened CTypes

  datatype ArgValue =
    | IntArg(value: int)           // any integer or pointer argument
    | DoubleArg(bits: u64)         // a `double`, as its IEEE-754 bit pattern
    | StrArg(memory: seq<byte>)    // a `char *`: the bytes it points to

  /** The slot at position `k`, or a zero integer past the end. */
  function At(args: seq<ArgValue>, k: nat): (v: ArgValue)
    ensures k < |args| ==> v == args[k]
  {
    if k < |args| then args[k] else IntArg(0)
  }

  /** The integer carried by slot `k` (zero for a non-integer slot). */
  function IntAt(args: seq<ArgValue>, k: nat): int
  {
    match At(args, k)
    case IntArg(v) => v
    case _ => 0
  }

  /** `args.arg::<T>()` for a signed T of width `w`. */
  function ReadSigned(args: seq<ArgValue>, k: nat, w: Width): (r: int)
    ensures InSigned(r, w)
    ensures InSigned(IntAt(args, k), w) ==> r == IntAt(args, k)
  {
    WrapSigned(IntAt(args, k), w)
  }

  /** `args.arg::<T>()` for an unsigned T of width `w`. */
  function ReadUnsigned(args: seq<ArgValue>, k: nat, w: Width): (r: nat)
    ensures InUnsigned(r, w)
    ensures InUnsigned(IntAt(args, k), w) ==> r == IntAt(args, k)
  {
    WrapUnsigned(IntAt(args, k), w)
  }

  /** `args.arg::<c_int>()`. */
  function ReadCInt(args: seq<ArgValue>, k: nat): (r: i32)
    ensures I32Min <= IntAt(args, k) <= I32Max ==> r == IntAt(args, k)
  {
    ReadSigned(args, k, W32)
  }

  /** `args.arg::<f64>()`: the bit pattern of a double slot. */
  function ReadDouble(args: seq<ArgValue>, k: nat): u64
  {
    match At(args, k)
    case DoubleArg(b) => b
    case _ => 0
  }

  /** The bytes before the first NUL. */
  function UntilNul(s: seq<byte>): (r: seq<byte>)
    ensures |r| <= |s| && r == s[..|r|]
    ensures 0 !in r
    ensures |r| < |s| ==> s[|r|] == 0
  {
    if s == [] || s[0] == 0 then [] else [s[0]] + UntilNul(s[1..])
  }

  /** `CStr::from_ptr(args.arg()).to_bytes()`: the string a pointer slot points to. */
  function ReadCStr(args: seq<ArgValue>, k: nat): (r: seq<byte>)
    ensures 0 !in r
  {
    match At(args, k)
    case StrArg(m) => UntilNul(m)
    case _ => []
  }
}
