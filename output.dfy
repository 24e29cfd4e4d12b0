/**
 * The output adapters of src/output.rs: the decision trees that turn an
 * `Argument` into `core::fmt` calls (`define_numeric`, `define_unumeric`,
 * `write_str`, the `Char` and `Pointer` branches of `fmt_write`),
 * `write_bytes` for `io_write`, the byte counters `DummyWriter`,
 * `WriteCounter` and `IoWriteCounter`, and the two handlers `fmt_write`
 * and `io_write` with their return codes.
 *
 * A writer is a `Sink`: it holds the bytes written so far and accepts or
 * refuses each write according to a fixed function of its contents and
 * the bytes offered, so that a failing writer can be described too. A
 * refused write changes nothing. Floating-point digits are produced by a
 * `FloatRenderer` that the caller supplies.
 */
module Output {
  import opened CTypes
  import opened Arguments
  import opened CoreFmt

  const PercentChar: byte := 37
  /** The `#` prefix of `LowerHex`, `UpperHex` and pointers: `0x`. */
  const HexPrefix: seq<byte> := [48, 120]
  /** The `#` prefix of `Octal`: `0o`. */
  const OctalPrefix: seq<byte> := [48, 111]

  /** Which of Rust's float traits a `Double` goes through. */
  datatype FloatStyle = Fixed | LowerExp | UpperExp

  /**
   * The digits Rust prints for the magnitude of a double (its bit pattern)
   * in a style, with a precision: everything `core::fmt` does for a float
   * except the sign and the padding.
   */
  type FloatRenderer = (u64, FloatStyle, nat) -> seq<byte>

  /** Whether the writer takes a write, given what it holds and the bytes offered. */
  type Acceptor = (seq<byte>, seq<byte>) -> bool

  // ---------------------------------------------------------------------
  // define_numeric: signed integers and doubles.
  // ---------------------------------------------------------------------

  /** What a `write!` of `define_numeric` hands to `core::fmt`: a literal before the placeholder, and the placeholder's options. */
  datatype Layout = Layout(lead: seq<byte>, options: Options)

  /** `usize::saturating_sub(1)`. */
  function SaturatingSubOne(x: nat): nat
  {
    if x == 0 then 0 else x - 1
  }

  /**
   * `define_numeric`'s choice of format spec, as the macro makes it, for
   * a value whose sign is `negative` and whose `{:.prec$}` rendering has
   * `len` bytes. The space flag becomes a literal space before the number,
   * or a padding space that `width` is widened to leave room for.
   */
  function NumericLayoutAsWritten(flags: Flags, width: i32, negative: bool, len: nat): Layout
  {
    var w := AsUsize(width);
    if LeftAlign in flags then
      if PrependPlus in flags then Layout([], Options(Left, true, false, false, w))
      else if PrependSpace in flags && !negative then Layout([Space], Options(Left, false, false, false, UsizeSubOne(w)))
      else Layout([], Options(Left, false, false, false, w))
    else if PrependPlus in flags then
      if PrependZero in flags then Layout([], Options(Unset, true, false, true, w))
      else Layout([], Options(Unset, true, false, false, w))
    else if PrependZero in flags then
      if PrependSpace in flags && !negative then
        var width' := if len + 1 > w then WrapSigned(width + 1, W32) else width;
        Layout([Space], Options(Unset, false, false, true, UsizeSubOne(AsUsize(width'))))
      else Layout([], Options(Unset, false, false, true, w))
    else
      var width' := if PrependSpace in flags && !negative && len + 1 > w then WrapSigned(UsizeAsCInt(len) + 1, W32) else width;
      Layout([], Options(Unset, false, false, false, AsUsize(width')))
  }

  /**
   * The same choice with the width after the literal space computed as
   * `saturating_sub(1)`: a left-aligned `% i` with no width no longer asks
   * for a field of `usize::MAX` bytes. Everything else is as written.
   */
  function NumericLayout(flags: Flags, width: i32, negative: bool, len: nat): Layout
  {
    if LeftAlign in flags && PrependPlus !in flags && PrependSpace in flags && !negative then
      Layout([Space], Options(Left, false, false, false, SaturatingSubOne(AsUsize(width))))
    else NumericLayoutAsWritten(flags, width, negative, len)
  }

  /** The write calls of `define_numeric` for a value with sign `negative` and unsigned digits `magnitude`. */
  function NumericChunks(flags: Flags, width: i32, negative: bool, magnitude: seq<byte>): seq<seq<byte>>
  {
    var l := NumericLayout(flags, width, negative, |magnitude|);
    NonEmpty(l.lead) + PadIntegral(l.options, !negative, [], magnitude)
  }

  function NumericChunksAsWritten(flags: Flags, width: i32, negative: bool, magnitude: seq<byte>): seq<seq<byte>>
  {
    var l := NumericLayoutAsWritten(flags, width, negative, |magnitude|);
    NonEmpty(l.lead) + PadIntegral(l.options, !negative, [], magnitude)
  }

  // ---------------------------------------------------------------------
  // define_unumeric: `u`, `o`, `x`, `X`.
  // ---------------------------------------------------------------------

  /** `define_unumeric`'s choice of format spec: `-`, `#` and `0` only; precision, `+` and space play no part. */
  function UnsignedOptions(flags: Flags, width: i32): Options
  {
    var w := AsUsize(width);
    if LeftAlign in flags then
      if AlternateForm in flags then Options(Left, false, true, false, w)
      else Options(Left, false, false, false, w)
    else if AlternateForm in flags then
      if PrependZero in flags then Options(Unset, false, true, true, w)
      else Options(Unset, false, true, false, w)
    else if PrependZero in flags then Options(Unset, false, false, true, w)
    else Options(Unset, false, false, false, w)
  }

  /** The write calls of `define_unumeric` for the digits `ds` with alternate-form prefix `prefix`. */
  function UnsignedChunks(flags: Flags, width: i32, prefix: seq<byte>, ds: seq<byte>): seq<seq<byte>>
  {
    PadIntegral(UnsignedOptions(flags, width), true, prefix, ds)
  }

  // ---------------------------------------------------------------------
  // Strings, characters and pointers.
  // ---------------------------------------------------------------------

  /** `precision.unwrap_or(len as c_int) as usize`: the precision a string conversion uses. */
  function StringPrecision(precision: Option<i32>, len: nat): nat
  {
    AsUsize(if precision.Some? then precision.value else UsizeAsCInt(len))
  }

  /** `write_str`: `None` when the bytes are not UTF-8 (nothing is written), otherwise `pad` with the width and precision. */
  function StrChunks(flags: Flags, width: i32, precision: Option<i32>, b: seq<byte>): Option<seq<seq<byte>>>
  {
    if !ValidUtf8(b) then None
    else
      var align := if LeftAlign in flags then Unset else Right;
      Some(PadStr(align, AsUsize(width), Some(StringPrecision(precision, |b|)), b))
  }

  /** `%c`: the byte as a `char`, padded with spaces to the width, after it with `-`, before it otherwise. */
  function CharChunks(flags: Flags, width: i32, c: byte): seq<seq<byte>>
  {
    var align := if LeftAlign in flags then Unset else Right;
    PadStr(align, AsUsize(width), None, Latin1ToUtf8(c))
  }

  /** `%p`: `{:p}` always prints `0x` and lower-case hex digits; `-` left-aligns, `0` pads with zeros after the `0x`. */
  function PointerChunks(flags: Flags, width: i32, address: u64): seq<seq<byte>>
  {
    var w := AsUsize(width);
    var o := if LeftAlign in flags then Options(Left, false, true, false, w)
      else if PrependZero in flags then Options(Unset, false, true, true, w)
      else Options(Unset, false, true, false, w);
    PadIntegral(o, true, HexPrefix, Digits(address, 16, false))
  }

  function StyleOf(f: DoubleFormat): FloatStyle
  {
    match f
    case Scientific => LowerExp
    case UpperScientific => UpperExp
    case _ => Fixed
  }

  /** `unsigned_abs`: the magnitude `core::fmt` prints the digits of. */
  function Magnitude(x: int): nat
  {
    if x < 0 then -x else x
  }

  /** `f64::is_sign_negative`: the sign bit. */
  predicate SignBit(bits: u64)
  {
    bits >= 0x8000_0000_0000_0000
  }

  /** `precision.unwrap_or(6) as usize`: the precision a double conversion uses. */
  function DoublePrecision(precision: Option<i32>): nat
  {
    AsUsize(if precision.Some? then precision.value else 6)
  }

  // ---------------------------------------------------------------------
  // fmt_write's dispatch.
  // ---------------------------------------------------------------------

  /**
   * The write calls `fmt_write` makes for one argument; `None` when it
   * returns an error before writing anything (`%n`, or a string that is
   * not UTF-8).
   */
  function FmtChunks(a: Argument, render: FloatRenderer): Option<seq<seq<byte>>>
  {
    var flags, width, precision := a.flags, a.width, a.precision;
    match a.specifier
    case Percent => Some([[PercentChar]])
    case Bytes(b) => StrChunks(flags, width, precision, b)
    case String(b) => StrChunks(flags, width, precision, b)
    case Hex(u) => Some(UnsignedChunks(flags, width, HexPrefix, Digits(UnsignedToU64(u), 16, false)))
    case UpperHex(u) => Some(UnsignedChunks(flags, width, HexPrefix, Digits(UnsignedToU64(u), 16, true)))
    case Octal(u) => Some(UnsignedChunks(flags, width, OctalPrefix, Digits(UnsignedToU64(u), 8, false)))
    case Uint(u) => Some(UnsignedChunks(flags, width, [], Digits(UnsignedToU64(u), 10, false)))
    case Int(s) =>
      var x := SignedToI64(s);
      Some(NumericChunks(flags, width, x < 0, Digits(Magnitude(x), 10, false)))
    case Double(bits, format) =>
      Some(NumericChunks(flags, width, SignBit(bits), render(bits, StyleOf(format), DoublePrecision(precision))))
    case Char(c) => Some(CharChunks(flags, width, c))
    case Pointer(p) => Some(PointerChunks(flags, width, p))
    case WriteBytesWritten(_, _) => None
  }

  // ---------------------------------------------------------------------
  // write_bytes, for io_write.
  // ---------------------------------------------------------------------

  /** The bytes `write_bytes` keeps: the first `min(len, precision as usize)`. */
  function KeptBytes(precision: Option<i32>, b: seq<byte>): (r: seq<byte>)
    ensures |r| <= |b| && r == b[..|r|]
  {
    var p := StringPrecision(precision, |b|);
    b[..if |b| < p then |b| else p]
  }

  /** `usize::saturating_sub`. */
  function SaturatingSub(x: nat, y: nat): nat
  {
    if x < y then 0 else x - y
  }

  /** The write calls of `write_bytes`: the kept bytes, and each padding space on its own, after them with `-`, before otherwise. */
  function WriteBytesChunks(flags: Flags, width: i32, precision: Option<i32>, b: seq<byte>): seq<seq<byte>>
  {
    var kept := KeptBytes(precision, b);
    var pad := SaturatingSub(AsUsize(width), |kept|);
    if LeftAlign in flags then [kept] + Fills(Space, pad) else Fills(Space, pad) + [kept]
  }

  // ---------------------------------------------------------------------
  // Writing chunks.
  // ---------------------------------------------------------------------

  /**
   * Offering `cs` to a writer holding `data`, one write at a time, until
   * one is refused: the writer's new contents and whether every write was
   * taken. With `skipEmpty`, empty writes are not offered at all, as
   * `io::Write::write_all` does.
   */
  function Emit(accepts: Acceptor, data: seq<byte>, cs: seq<seq<byte>>, skipEmpty: bool): (r: (seq<byte>, bool))
    decreases |cs|
  {
    if cs == [] then (data, true)
    else if skipEmpty && cs[0] == [] then Emit(accepts, data, cs[1..], skipEmpty)
    else if !accepts(data, cs[0]) then (data, false)
    else Emit(accepts, data + cs[0], cs[1..], skipEmpty)
  }

  /** The bytes of every write Emit offers: those taken, and the refused one if there is one. */
  function Offered(accepts: Acceptor, data: seq<byte>, cs: seq<seq<byte>>, skipEmpty: bool): nat
    decreases |cs|
  {
    if cs == [] then 0
    else if skipEmpty && cs[0] == [] then Offered(accepts, data, cs[1..], skipEmpty)
    else if !accepts(data, cs[0]) then |cs[0]|
    else |cs[0]| + Offered(accepts, data + cs[0], cs[1..], skipEmpty)
  }

  /**
   * `fmt_write(w)` called with one argument, on a writer holding `data` and
   * taking writes as `accepts` says: the count of bytes offered, as `c_int`,
   * or -1 when the conversion is not supported or a write was refused.
   */
  function FmtStep(accepts: Acceptor, render: FloatRenderer, data: seq<byte>, a: Argument): (seq<byte>, int)
  {
    match FmtChunks(a, render)
    case None => (data, -1)
    case Some(cs) =>
      var (data', ok) := Emit(accepts, data, cs, false);
      (data', if ok then UsizeAsCInt(|Flatten(cs)|) else -1)
  }

  /** The writes `io_write` makes for one argument; `None` when `fmt_write` gives up before writing. */
  function IoChunks(a: Argument, render: FloatRenderer): Option<seq<seq<byte>>>
  {
    match a.specifier
    case Percent => Some([[PercentChar]])
    case Bytes(b) => Some(WriteBytesChunks(a.flags, a.width, a.precision, b))
    case String(b) => Some(WriteBytesChunks(a.flags, a.width, a.precision, b))
    case _ => FmtChunks(a, render)
  }

  /**
   * `io_write(w)` called with one argument, as written: `%`, `Bytes` and
   * `String` are written directly; everything else goes through
   * `fmt_write`, whose own result is dropped, so that only a refused write
   * makes it -1. A `%n` therefore gives 0.
   */
  function IoStepAsWritten(accepts: Acceptor, render: FloatRenderer, data: seq<byte>, a: Argument): (seq<byte>, int)
  {
    match IoChunks(a, render)
    case None => (data, 0)
    case Some(cs) =>
      var (data', ok) := Emit(accepts, data, cs, true);
      (data', if ok then UsizeAsCInt(|Flatten(cs)|) else -1)
  }

  /** `io_write` reporting the error of an unsupported conversion, as `fmt_write` does. */
  function IoStep(accepts: Acceptor, render: FloatRenderer, data: seq<byte>, a: Argument): (seq<byte>, int)
  {
    if a.specifier.WriteBytesWritten? then (data, -1) else IoStepAsWritten(accepts, render, data, a)
  }

  /** `fmt_write(w)` as a handler for `format`, its state being the writer's contents. */
  function FmtHandler(accepts: Acceptor, render: FloatRenderer): (seq<byte>, Argument) -> (seq<byte>, int)
  {
    (data: seq<byte>, a: Argument) => FmtStep(accepts, render, data, a)
  }

  /** `io_write(w)` as a handler for `format`. */
  function IoHandler(accepts: Acceptor, render: FloatRenderer): (seq<byte>, Argument) -> (seq<byte>, int)
  {
    (data: seq<byte>, a: Argument) => IoStep(accepts, render, data, a)
  }

  // ---------------------------------------------------------------------
  // Writers and counters.
  // ---------------------------------------------------------------------

  /** The writer at the end of the chain. */
  class Sink {
    var data: seq<byte>
    const accepts: Acceptor

    constructor (accepts: Acceptor, data: seq<byte>)
      ensures this.accepts == accepts && this.data == data
    {
      this.accepts := accepts;
      this.data := data;
    }

    /** One write: taken whole, or refused with nothing changed. */
    method Write(s: seq<byte>) returns (ok: bool)
      modifies this
      ensures ok == accepts(old(data), s)
      ensures data == if ok then old(data) + s else old(data)
    {
      ok := accepts(data, s);
      if ok {
        data := data + s;
      }
    }
  }

  /** `DummyWriter`: counts the bytes of every write and keeps none. */
  class DummyWriter {
    var count: nat

    constructor ()
      ensures count == 0
    {
      count := 0;
    }

    method WriteStr(s: seq<byte>)
      modifies this
      ensures count == old(count) + |s|
    {
      count := count + |s|;
    }

    /** `write!` into the dummy: it never fails, and counts the whole rendering. */
    method WriteChunks(cs: seq<seq<byte>>)
      modifies this
      ensures count == old(count) + |Flatten(cs)|
    {
      var i := 0;
      while i < |cs|
        invariant 0 <= i <= |cs|
        invariant count == old(count) + |Flatten(cs[..i])|
      {
        FlattenSnoc(cs, i);
        WriteStr(cs[i]);
        i := i + 1;
      }
      assert cs[..|cs|] == cs;
    }
  }

  /** `WriteCounter`: counts the bytes of every write, before passing it on, whether or not it is taken. */
  class WriteCounter {
    const inner: Sink
    var count: nat

    constructor (inner: Sink)
      ensures this.inner == inner && count == 0
    {
      this.inner := inner;
      count := 0;
    }

    method WriteStr(s: seq<byte>) returns (ok: bool)
      modifies this, inner
      ensures count == old(count) + |s|
      ensures ok == inner.accepts(old(inner.data), s)
      ensures inner.data == if ok then old(inner.data) + s else old(inner.data)
    {
      count := count + |s|;
      ok := inner.Write(s);
    }

    /** `write!` through the counter: stops at the first refused write, which is counted too. */
    method WriteChunks(cs: seq<seq<byte>>) returns (ok: bool)
      modifies this, inner
      ensures (inner.data, ok) == Emit(inner.accepts, old(inner.data), cs, false)
      ensures count == old(count) + Offered(inner.accepts, old(inner.data), cs, false)
      ensures ok ==> count == old(count) + |Flatten(cs)|
    {
      var i := 0;
      ok := true;
      while i < |cs| && ok
        invariant 0 <= i <= |cs|
        invariant ok ==> Emit(inner.accepts, old(inner.data), cs, false) == Emit(inner.accepts, inner.data, cs[i..], false)
        invariant !ok ==> Emit(inner.accepts, old(inner.data), cs, false) == (inner.data, false)
        invariant ok ==> count == old(count) + |Flatten(cs[..i])|
        invariant ok ==>
          Offered(inner.accepts, old(inner.data), cs, false) == |Flatten(cs[..i])| + Offered(inner.accepts, inner.data, cs[i..], false)
        invariant !ok ==> count == old(count) + Offered(inner.accepts, old(inner.data), cs, false)
      {
        FlattenSnoc(cs, i);
        assert cs[i..][1..] == cs[i + 1..];
        ok := WriteStr(cs[i]);
        i := i + 1;
      }
      assert cs[..|cs|] == cs;
    }
  }

  /** `IoWriteCounter`: passes each write on and counts it once it has been taken. */
  class IoWriteCounter {
    const inner: Sink
    var count: nat

    constructor (inner: Sink)
      ensures this.inner == inner && count == 0
    {
      this.inner := inner;
      count := 0;
    }

    /** `write_all` on the counter: an empty buffer is not passed on at all. */
    method WriteAll(s: seq<byte>) returns (ok: bool)
      modifies this, inner
      ensures ok == (s == [] || inner.accepts(old(inner.data), s))
      ensures inner.data == if ok then old(inner.data) + s else old(inner.data)
      ensures count == if ok then old(count) + |s| else old(count)
    {
      if s == [] {
        ok := true;
      } else {
        ok := inner.Write(s);
        if ok {
          count := count + |s|;
        }
      }
    }

    /** A sequence of `write_all` calls, stopping at the first that fails, which is not counted. */
    method WriteChunks(cs: seq<seq<byte>>) returns (ok: bool)
      modifies this, inner
      ensures (inner.data, ok) == Emit(inner.accepts, old(inner.data), cs, true)
      ensures count == old(count) + |inner.data| - |old(inner.data)|
      ensures ok ==> count == old(count) + |Flatten(cs)|
    {
      var i := 0;
      ok := true;
      while i < |cs| && ok
        invariant 0 <= i <= |cs|
        invariant ok ==> Emit(inner.accepts, old(inner.data), cs, true) == Emit(inner.accepts, inner.data, cs[i..], true)
        invariant !ok ==> Emit(inner.accepts, old(inner.data), cs, true) == (inner.data, false)
        invariant ok ==> count == old(count) + |Flatten(cs[..i])|
        invariant count == old(count) + |inner.data| - |old(inner.data)|
      {
        FlattenSnoc(cs, i);
        assert cs[i..] == [cs[i]] + cs[i + 1..];
        EmitConcat(inner.accepts, inner.data, [cs[i]], cs[i + 1..], true);
        EmitOne(inner.accepts, inner.data, cs[i], true);
        assert inner.data + cs[i] == inner.data <== cs[i] == [];
        ok := WriteAll(cs[i]);
        i := i + 1;
      }
      assert cs[..|cs|] == cs;
    }

    /** The padding loop of `write_bytes`: `n` calls of `write_all(b" ")`. */
    method WriteSpaces(n: nat) returns (ok: bool)
      modifies this, inner
      ensures (inner.data, ok) == Emit(inner.accepts, old(inner.data), Fills(Space, n), true)
      ensures count == old(count) + |inner.data| - |old(inner.data)|
      ensures ok ==> count == old(count) + n
    {
      var i := 0;
      ok := true;
      while i < n && ok
        invariant 0 <= i <= n
        invariant ok ==> Emit(inner.accepts, old(inner.data), Fills(Space, n), true) == Emit(inner.accepts, inner.data, Fills(Space, n - i), true)
        invariant !ok ==> Emit(inner.accepts, old(inner.data), Fills(Space, n), true) == (inner.data, false)
        invariant ok ==> count == old(count) + i
        invariant count == old(count) + |inner.data| - |old(inner.data)|
      {
        assert Fills(Space, n - i)[0] == [Space];
        assert Fills(Space, n - i)[1..] == Fills(Space, n - i - 1);
        ok := WriteAll([Space]);
        i := i + 1;
      }
    }
  }

  lemma FlattenSnoc(cs: seq<seq<byte>>, i: nat)
    requires i < |cs|
    ensures Flatten(cs[..i + 1]) == Flatten(cs[..i]) + cs[i]
  {
    assert cs[..i + 1] == cs[..i] + [cs[i]];
    FlattenConcat(cs[..i], [cs[i]]);
    FlattenOne(cs[i]);
  }

  /** Writing `a + b` is writing `a` and then, if that succeeded, `b`. */
  lemma {:induction false} EmitConcat(accepts: Acceptor, data: seq<byte>, a: seq<seq<byte>>, b: seq<seq<byte>>, skipEmpty: bool)
    ensures Emit(accepts, data, a + b, skipEmpty) ==
      var (d, ok) := Emit(accepts, data, a, skipEmpty); if ok then Emit(accepts, d, b, skipEmpty) else (d, false)
    decreases |a|
  {
    if a == [] {
      assert a + b == b;
    } else {
      assert (a + b)[0] == a[0];
      assert (a + b)[1..] == a[1..] + b;
      if skipEmpty && a[0] == [] {
        EmitConcat(accepts, data, a[1..], b, skipEmpty);
      } else if accepts(data, a[0]) {
        EmitConcat(accepts, data + a[0], a[1..], b, skipEmpty);
      }
    }
  }

  lemma EmitOne(accepts: Acceptor, data: seq<byte>, c: seq<byte>, skipEmpty: bool)
    ensures Emit(accepts, data, [c], skipEmpty) ==
      if skipEmpty && c == [] then (data, true)
      else if accepts(data, c) then (data + c, true) else (data, false)
  {
    assert [c][1..] == [];
  }

  /**
   * What the two counters see of one Emit: the bytes taken (what
   * `IoWriteCounter` counts) and the bytes offered (what `WriteCounter`
   * counts). They are the same when every write is taken; otherwise the
   * bytes offered also hold the write the writer refused.
   */
  lemma {:induction false} OfferedCountsRefused(accepts: Acceptor, data: seq<byte>, cs: seq<seq<byte>>, skipEmpty: bool)
    ensures var (d, ok) := Emit(accepts, data, cs, skipEmpty);
      |d| >= |data| && (ok ==> Offered(accepts, data, cs, skipEmpty) == |d| - |data|)
    ensures var (d, ok) := Emit(accepts, data, cs, skipEmpty);
      !ok ==> exists i | 0 <= i < |cs| :: !accepts(d, cs[i]) && Offered(accepts, data, cs, skipEmpty) == |d| - |data| + |cs[i]|
    decreases |cs|
  {
    if cs == [] {
    } else if skipEmpty && cs[0] == [] {
      OfferedCountsRefused(accepts, data, cs[1..], skipEmpty);
      var (d, ok) := Emit(accepts, data, cs, skipEmpty);
      if !ok {
        var i :| 0 <= i < |cs[1..]| && !accepts(d, cs[1..][i]) && Offered(accepts, data, cs[1..], skipEmpty) == |d| - |data| + |cs[1..][i]|;
        assert cs[1..][i] == cs[i + 1];
      }
    } else if !accepts(data, cs[0]) {
      assert !accepts(data, cs[0]) && Offered(accepts, data, cs, skipEmpty) == |data| - |data| + |cs[0]|;
    } else {
      OfferedCountsRefused(accepts, data + cs[0], cs[1..], skipEmpty);
      var (d, ok) := Emit(accepts, data, cs, skipEmpty);
      if !ok {
        var i :| 0 <= i < |cs[1..]| && !accepts(d, cs[1..][i]) &&
          Offered(accepts, data + cs[0], cs[1..], skipEmpty) == |d| - |data + cs[0]| + |cs[1..][i]|;
        assert cs[1..][i] == cs[i + 1];
      }
    }
  }

  // ---------------------------------------------------------------------
  // The adapters.
  // ---------------------------------------------------------------------

  /**
   * The body of `define_numeric` as written: picks the format spec,
   * measuring the value with a `DummyWriter` and widening `width` when the
   * space flag needs room, and returns the write calls it then makes.
   */
  method DefineNumericAsWritten(flags: Flags, width: i32, negative: bool, magnitude: seq<byte>) returns (cs: seq<seq<byte>>)
    ensures cs == NumericChunksAsWritten(flags, width, negative, magnitude)
  {
    var width := width;
    var l: Layout;
    if LeftAlign in flags {
      if PrependPlus in flags {
        l := Layout([], Options(Left, true, false, false, AsUsize(width)));
      } else if PrependSpace in flags && !negative {
        l := Layout([Space], Options(Left, false, false, false, UsizeSubOne(AsUsize(width))));
      } else {
        l := Layout([], Options(Left, false, false, false, AsUsize(width)));
      }
    } else if PrependPlus in flags {
      l := Layout([], Options(Unset, true, false, PrependZero in flags, AsUsize(width)));
    } else if PrependZero in flags {
      if PrependSpace in flags && !negative {
        var d := new DummyWriter();
        d.WriteChunks(PadIntegral(Options(Unset, false, false, false, 0), true, [], magnitude));
        if d.count + 1 > AsUsize(width) {
          width := WrapSigned(width + 1, W32);
        }
        l := Layout([Space], Options(Unset, false, false, true, UsizeSubOne(AsUsize(width))));
      } else {
        l := Layout([], Options(Unset, false, false, true, AsUsize(width)));
      }
    } else {
      if PrependSpace in flags && !negative {
        var d := new DummyWriter();
        d.WriteChunks(PadIntegral(Options(Unset, false, false, false, 0), true, [], magnitude));
        if d.count + 1 > AsUsize(width) {
          width := WrapSigned(UsizeAsCInt(d.count) + 1, W32);
        }
      }
      l := Layout([], Options(Unset, false, false, false, AsUsize(width)));
    }
    FlattenNonEmpty(magnitude);
    cs := NonEmpty(l.lead) + PadIntegral(l.options, !negative, [], magnitude);
  }

  /** `define_numeric` with the width after the literal space computed as `saturating_sub(1)`; every other branch is as written. */
  method DefineNumeric(flags: Flags, width: i32, negative: bool, magnitude: seq<byte>) returns (cs: seq<seq<byte>>)
    ensures cs == NumericChunks(flags, width, negative, magnitude)
  {
    if LeftAlign in flags && PrependPlus !in flags && PrependSpace in flags && !negative {
      cs := NonEmpty([Space]) + PadIntegral(Options(Left, false, false, false, SaturatingSubOne(AsUsize(width))), true, [], magnitude);
    } else {
      cs := DefineNumericAsWritten(flags, width, negative, magnitude);
    }
  }

  /** `fmt_write`'s `match specifier`: the write calls for one argument, or `None` for an error before writing. */
  method RenderFmt(a: Argument, render: FloatRenderer) returns (cs: Option<seq<seq<byte>>>)
    ensures cs == FmtChunks(a, render)
  {
    match a.specifier {
      case Int(s) =>
        var x := SignedToI64(s);
        var c := DefineNumeric(a.flags, a.width, x < 0, Digits(Magnitude(x), 10, false));
        cs := Some(c);
      case Double(bits, format) =>
        var c := DefineNumeric(a.flags, a.width, SignBit(bits), render(bits, StyleOf(format), DoublePrecision(a.precision)));
        cs := Some(c);
      case _ =>
        cs := FmtChunks(a, render);
    }
  }

  /** `fmt_write(w)(a)`: the count of bytes written, or -1. */
  method FmtWrite(w: Sink, a: Argument, render: FloatRenderer) returns (r: int)
    modifies w
    ensures (w.data, r) == FmtStep(w.accepts, render, old(w.data), a)
  {
    var counter := new WriteCounter(w);
    var cs := RenderFmt(a, render);
    match cs {
      case None =>
        r := -1;
      case Some(c) =>
        var ok := counter.WriteChunks(c);
        r := if ok then UsizeAsCInt(counter.count) else -1;
    }
  }

  /** `write_bytes(w, flags, width, precision, b)`: returns whether every write was taken. */
  method WriteBytes(w: IoWriteCounter, flags: Flags, width: i32, precision: Option<i32>, b: seq<byte>) returns (ok: bool)
    modifies w, w.inner
    ensures (w.inner.data, ok) == Emit(w.inner.accepts, old(w.inner.data), WriteBytesChunks(flags, width, precision, b), true)
    ensures ok ==> w.count == old(w.count) + |Flatten(WriteBytesChunks(flags, width, precision, b))|
  {
    var p := if precision.Some? then precision.value else UsizeAsCInt(|b|);
    var kept := b[..if |b| < AsUsize(p) then |b| else AsUsize(p)];
    var pad := SaturatingSub(AsUsize(width), |kept|);
    assert kept == KeptBytes(precision, b);
    assert WriteBytesChunks(flags, width, precision, b) ==
      if LeftAlign in flags then [kept] + Fills(Space, pad) else Fills(Space, pad) + [kept];
    ghost var data0 := w.inner.data;
    EmitOne(w.inner.accepts, data0, kept, true);
    assert data0 + kept == data0 <== kept == [];
    FlattenOne(kept);
    FlattenFills(Space, pad);
    if LeftAlign in flags {
      ok := w.WriteAll(kept);
      EmitConcat(w.inner.accepts, data0, [kept], Fills(Space, pad), true);
      FlattenConcat([kept], Fills(Space, pad));
      if ok {
        ok := w.WriteSpaces(pad);
      }
    } else {
      ok := w.WriteSpaces(pad);
      EmitConcat(w.inner.accepts, data0, Fills(Space, pad), [kept], true);
      FlattenConcat(Fills(Space, pad), [kept]);
      if ok {
        EmitOne(w.inner.accepts, w.inner.data, kept, true);
        assert w.inner.data + kept == w.inner.data <== kept == [];
        ok := w.WriteAll(kept);
      }
    }
  }

  /** The `match specifier` of `io_write`, writing through the counter. */
  method IoWriteArgument(counter: IoWriteCounter, a: Argument, render: FloatRenderer) returns (ok: bool)
    modifies counter, counter.inner
    ensures IoChunks(a, render).None? ==> ok && counter.inner.data == old(counter.inner.data) && counter.count == old(counter.count)
    ensures IoChunks(a, render).Some? ==> (counter.inner.data, ok) == Emit(counter.inner.accepts, old(counter.inner.data), IoChunks(a, render).value, true)
    ensures IoChunks(a, render).Some? && ok ==> counter.count == old(counter.count) + |Flatten(IoChunks(a, render).value)|
  {
    match a.specifier {
      case Percent =>
        EmitOne(counter.inner.accepts, counter.inner.data, [PercentChar], true);
        FlattenOne([PercentChar]);
        ok := counter.WriteAll([PercentChar]);
      case Bytes(b) =>
        ok := WriteBytes(counter, a.flags, a.width, a.precision, b);
      case String(b) =>
        ok := WriteBytes(counter, a.flags, a.width, a.precision, b);
      case _ =>
        var cs := RenderFmt(a, render);
        if cs.Some? {
          ok := counter.WriteChunks(cs.value);
        } else {
          ok := true;
        }
    }
  }

  /** `io_write(w)(a)`, with `%n` reported as the error `fmt_write` reports. */
  method IoWrite(w: Sink, a: Argument, render: FloatRenderer) returns (r: int)
    modifies w
    ensures (w.data, r) == IoStep(w.accepts, render, old(w.data), a)
  {
    if a.specifier.WriteBytesWritten? {
      return -1;
    }
    r := IoWriteAsWritten(w, a, render);
  }

  /** `io_write` as written: the writer's status decides the result, so `%n` returns 0. */
  method IoWriteAsWritten(w: Sink, a: Argument, render: FloatRenderer) returns (r: int)
    modifies w
    ensures (w.data, r) == IoStepAsWritten(w.accepts, render, old(w.data), a)
  {
    var counter := new IoWriteCounter(w);
    var ok := IoWriteArgument(counter, a, render);
    r := if ok then UsizeAsCInt(counter.count) else -1;
  }
}
