// Concrete conversions from the repository's test suite, each written to
// an empty writer that refuses nothing: the text and the count returned.
// Each fixture is split in two: the text of the rendering, and what
// `fmt_write` does with it.

module Fixtures {
  import opened CTypes
  import opened Arguments
  import opened CoreFmt
  import opened Output
  import opened OutputProperties
  import opened Parser
  import opened VarArgs
  import opened PrintfProperties

  const Value: int := 23125

  /** A writer that takes every write. */
  function Everything(): Acceptor
  {
    (d: seq<byte>, c: seq<byte>) => true
  }

  /** `fmt_write` on an empty writer that refuses nothing: the rendering, and its length as the count. */
  lemma StepOf(a: Argument, render: FloatRenderer, cs: seq<seq<byte>>, text: seq<byte>)
    requires FmtChunks(a, render) == Some(cs) && Flatten(cs) == text
    ensures FmtStep(Everything(), render, [], a) == (text, UsizeAsCInt(|text|))
  {
    assert forall d, c :: Everything()(d, c);
    FmtStepWrites(Everything(), render, [], a);
    assert [] + text == text;
  }

  lemma DecimalDigits()
    ensures Digits(Value, 10, false) == [50, 51, 49, 50, 53]
  {
    assert Digits(2, 10, false) == [50];
    assert Digits(23, 10, false) == [50, 51];
    assert Digits(231, 10, false) == [50, 51, 49];
    assert Digits(2312, 10, false) == [50, 51, 49, 50];
  }

  lemma HexDigits()
    ensures Digits(Value, 16, false) == [53, 97, 53, 53]
  {
    assert Digits(5, 16, false) == [53];
    assert Digits(90, 16, false) == [53, 97];
    assert Digits(1445, 16, false) == [53, 97, 53];
  }

  lemma OctalDigits()
    ensures Digits(Value, 8, false) == [53, 53, 49, 50, 53]
  {
    assert Digits(5, 8, false) == [53];
    assert Digits(45, 8, false) == [53, 53];
    assert Digits(361, 8, false) == [53, 53, 49];
    assert Digits(2890, 8, false) == [53, 53, 49, 50];
  }

  lemma SpaceZeroIntText(flags: Flags, width: i32)
    requires flags == {PrependSpace, PrependZero} && width == 10
    ensures Flatten(NumericChunks(flags, width, false, [50, 51, 49, 50, 53])) == [32, 48, 48, 48, 48, 50, 51, 49, 50, 53]
  {
    SpaceZeroText(flags, width, [50, 51, 49, 50, 53]);
    assert Repeat(Zero, 4) == [48, 48, 48, 48];
  }

  /** `% 010i` of 23125 is ` 000023125`, 10 bytes (tests.rs line 94). */
  lemma SpaceZeroInt(flags: Flags, width: i32, render: FloatRenderer)
    requires flags == {PrependSpace, PrependZero} && width == 10
    ensures FmtStep(Everything(), render, [], Argument(flags, width, None, Specifier.Int(SignedInt.Int(Value))))
      == ([32, 48, 48, 48, 48, 50, 51, 49, 50, 53], 10)
  {
    DecimalDigits();
    SpaceZeroIntText(flags, width);
    StepOf(Argument(flags, width, None, Specifier.Int(SignedInt.Int(Value))), render,
      NumericChunks(flags, width, false, [50, 51, 49, 50, 53]), [32, 48, 48, 48, 48, 50, 51, 49, 50, 53]);
  }

  lemma LeftSpaceIntText(flags: Flags, width: i32)
    requires flags == {LeftAlign, PrependSpace} && width == 4
    ensures Flatten(NumericChunks(flags, width, false, [50, 51, 49, 50, 53])) == [32, 50, 51, 49, 50, 53]
  {
    LeftSpaceText(flags, width, [50, 51, 49, 50, 53]);
    assert Repeat(Space, 0) == [];
  }

  /** `%- 4i` of 23125 is ` 23125`: the space is printed even though it overflows the width (tests.rs line 101). */
  lemma LeftSpaceInt(flags: Flags, width: i32, render: FloatRenderer)
    requires flags == {LeftAlign, PrependSpace} && width == 4
    ensures FmtStep(Everything(), render, [], Argument(flags, width, None, Specifier.Int(SignedInt.Int(Value))))
      == ([32, 50, 51, 49, 50, 53], 6)
  {
    DecimalDigits();
    LeftSpaceIntText(flags, width);
    StepOf(Argument(flags, width, None, Specifier.Int(SignedInt.Int(Value))), render,
      NumericChunks(flags, width, false, [50, 51, 49, 50, 53]), [32, 50, 51, 49, 50, 53]);
  }

  lemma LeftSpaceHexText(flags: Flags, width: i32)
    requires flags == {LeftAlign, PrependSpace} && width == 5
    ensures Flatten(UnsignedChunks(flags, width, HexPrefix, [53, 97, 53, 53])) == [53, 97, 53, 53, 32]
  {
    UnsignedOptionsClosedForm(flags, width);
    UnsignedPadText(UnsignedOptions(flags, width), HexPrefix, [53, 97, 53, 53]);
    assert Repeat(Space, 1) == [Space] && Repeat(Space, 0) == [] && Repeat(Zero, 0) == [];
  }

  /** `%- 5x` of 23125 is `5a55 `: the space flag does nothing for an unsigned conversion (tests.rs line 168). */
  lemma LeftSpaceHex(flags: Flags, width: i32, render: FloatRenderer)
    requires flags == {LeftAlign, PrependSpace} && width == 5
    ensures FmtStep(Everything(), render, [], Argument(flags, width, None, Specifier.Hex(UnsignedInt.Int(Value))))
      == ([53, 97, 53, 53, 32], 5)
  {
    HexDigits();
    LeftSpaceHexText(flags, width);
    StepOf(Argument(flags, width, None, Specifier.Hex(UnsignedInt.Int(Value))), render,
      UnsignedChunks(flags, width, HexPrefix, [53, 97, 53, 53]), [53, 97, 53, 53, 32]);
  }

  lemma SpaceZeroOctalText(flags: Flags, width: i32)
    requires flags == {PrependSpace, PrependZero} && width == 10
    ensures Flatten(UnsignedChunks(flags, width, OctalPrefix, [53, 53, 49, 50, 53])) == [48, 48, 48, 48, 48, 53, 53, 49, 50, 53]
  {
    UnsignedOptionsClosedForm(flags, width);
    UnsignedPadText(UnsignedOptions(flags, width), OctalPrefix, [53, 53, 49, 50, 53]);
    assert Repeat(Space, 0) == [] && Repeat(Zero, 5) == [48, 48, 48, 48, 48];
  }

  /** `% 010o` of 23125 is `0000055125` (tests.rs line 140). */
  lemma SpaceZeroOctal(flags: Flags, width: i32, render: FloatRenderer)
    requires flags == {PrependSpace, PrependZero} && width == 10
    ensures FmtStep(Everything(), render, [], Argument(flags, width, None, Octal(UnsignedInt.Int(Value))))
      == ([48, 48, 48, 48, 48, 53, 53, 49, 50, 53], 10)
  {
    OctalDigits();
    SpaceZeroOctalText(flags, width);
    StepOf(Argument(flags, width, None, Octal(UnsignedInt.Int(Value))), render,
      UnsignedChunks(flags, width, OctalPrefix, [53, 53, 49, 50, 53]), [48, 48, 48, 48, 48, 53, 53, 49, 50, 53]);
  }

  lemma LeftPrecisionStringText(flags: Flags, width: i32, precision: Option<i32>, b: seq<byte>) returns (cs: seq<seq<byte>>)
    requires flags == {LeftAlign} && width == 10 && precision == Some(4) && b == [119, 111, 114, 108, 100]
    ensures StrChunks(flags, width, precision, b) == Some(cs)
    ensures Flatten(cs) == [119, 111, 114, 108, 32, 32, 32, 32, 32, 32]
  {
    AsciiIsUtf8(b, 4);
    AsciiIsUtf8(b[..4], 0);
    StrText(flags, width, precision, b);
    assert Repeat(Space, 6) == [32, 32, 32, 32, 32, 32];
    cs := StrChunks(flags, width, precision, b).value;
  }

  /** `%-10.4s` of `world` is `worl` and six spaces (tests.rs line 84). */
  lemma LeftPrecisionString(flags: Flags, width: i32, precision: Option<i32>, b: seq<byte>, render: FloatRenderer)
    requires flags == {LeftAlign} && width == 10 && precision == Some(4) && b == [119, 111, 114, 108, 100]
    ensures FmtStep(Everything(), render, [], Argument(flags, width, precision, String(b)))
      == ([119, 111, 114, 108, 32, 32, 32, 32, 32, 32], 10)
  {
    var cs := LeftPrecisionStringText(flags, width, precision, b);
    var a := Argument(flags, width, precision, String(b));
    assert FmtChunks(a, render) == StrChunks(flags, width, precision, b);
    StepOf(a, render, cs, [119, 111, 114, 108, 32, 32, 32, 32, 32, 32]);
  }

  lemma WideCharText(flags: Flags, width: i32)
    requires flags == {} && width == 10
    ensures Flatten(CharChunks(flags, width, 97)) == [32, 32, 32, 32, 32, 32, 32, 32, 32, 97]
  {
    CharText(flags, width, 97);
    assert Repeat(Space, 9) == [32, 32, 32, 32, 32, 32, 32, 32, 32];
  }

  /** `%10c` of `a` is nine spaces and `a` (tests.rs line 228). */
  lemma WideChar(flags: Flags, width: i32, render: FloatRenderer)
    requires flags == {} && width == 10
    ensures FmtStep(Everything(), render, [], Argument(flags, width, None, Specifier.Char(97)))
      == ([32, 32, 32, 32, 32, 32, 32, 32, 32, 97], 10)
  {
    WideCharText(flags, width);
    StepOf(Argument(flags, width, None, Specifier.Char(97)), render, CharChunks(flags, width, 97), [32, 32, 32, 32, 32, 32, 32, 32, 32, 97]);
  }

  lemma PlusZeroIntText(flags: Flags, width: i32)
    requires flags == {PrependPlus, PrependSpace, PrependZero} && width == 10
    ensures Flatten(NumericChunks(flags, width, false, [50, 51, 49, 50, 53])) == [43, 48, 48, 48, 48, 50, 51, 49, 50, 53]
  {
    NumericText(flags, width, false, [50, 51, 49, 50, 53]);
    assert Repeat(Space, 0) == [] && Repeat(Zero, 4) == [48, 48, 48, 48];
  }

  /** `%+ 010i` of 23125 is `+000023125`: `+` wins over the space (tests.rs line 102). */
  lemma PlusZeroInt(flags: Flags, width: i32, render: FloatRenderer)
    requires flags == {PrependPlus, PrependSpace, PrependZero} && width == 10
    ensures FmtStep(Everything(), render, [], Argument(flags, width, None, Specifier.Int(SignedInt.Int(Value))))
      == ([43, 48, 48, 48, 48, 50, 51, 49, 50, 53], 10)
  {
    DecimalDigits();
    PlusZeroIntText(flags, width);
    StepOf(Argument(flags, width, None, Specifier.Int(SignedInt.Int(Value))), render,
      NumericChunks(flags, width, false, [50, 51, 49, 50, 53]), [43, 48, 48, 48, 48, 50, 51, 49, 50, 53]);
  }

  lemma LeftZeroIntText(flags: Flags, width: i32)
    requires flags == {LeftAlign, PrependZero} && width == 10
    ensures Flatten(NumericChunks(flags, width, false, [50, 51, 49, 50, 53])) == [50, 51, 49, 50, 53, 32, 32, 32, 32, 32]
  {
    NumericText(flags, width, false, [50, 51, 49, 50, 53]);
    assert Repeat(Space, 0) == [] && Repeat(Zero, 0) == [] && Repeat(Space, 5) == [32, 32, 32, 32, 32];
  }

  /** `%-010i` of 23125 is `23125` and five spaces: `-` wins over `0` (tests.rs line 106). */
  lemma LeftZeroInt(flags: Flags, width: i32, render: FloatRenderer)
    requires flags == {LeftAlign, PrependZero} && width == 10
    ensures FmtStep(Everything(), render, [], Argument(flags, width, None, Specifier.Int(SignedInt.Int(Value))))
      == ([50, 51, 49, 50, 53, 32, 32, 32, 32, 32], 10)
  {
    DecimalDigits();
    LeftZeroIntText(flags, width);
    StepOf(Argument(flags, width, None, Specifier.Int(SignedInt.Int(Value))), render,
      NumericChunks(flags, width, false, [50, 51, 49, 50, 53]), [50, 51, 49, 50, 53, 32, 32, 32, 32, 32]);
  }

  lemma AlternateZeroHexText(flags: Flags, width: i32)
    requires flags == {AlternateForm, PrependSpace, PrependZero} && width == 10
    ensures Flatten(UnsignedChunks(flags, width, HexPrefix, [53, 97, 53, 53])) == [48, 120, 48, 48, 48, 48, 53, 97, 53, 53]
  {
    UnsignedOptionsClosedForm(flags, width);
    UnsignedPadText(UnsignedOptions(flags, width), HexPrefix, [53, 97, 53, 53]);
    assert Repeat(Space, 0) == [] && Repeat(Zero, 4) == [48, 48, 48, 48];
  }

  /** `%# 010x` of 23125 is `0x00005a55`: the prefix goes before the zeros (tests.rs line 179). */
  lemma AlternateZeroHex(flags: Flags, width: i32, render: FloatRenderer)
    requires flags == {AlternateForm, PrependSpace, PrependZero} && width == 10
    ensures FmtStep(Everything(), render, [], Argument(flags, width, None, Specifier.Hex(UnsignedInt.Int(Value))))
      == ([48, 120, 48, 48, 48, 48, 53, 97, 53, 53], 10)
  {
    HexDigits();
    AlternateZeroHexText(flags, width);
    StepOf(Argument(flags, width, None, Specifier.Hex(UnsignedInt.Int(Value))), render,
      UnsignedChunks(flags, width, HexPrefix, [53, 97, 53, 53]), [48, 120, 48, 48, 48, 48, 53, 97, 53, 53]);
  }

  /** The text of tests/tests.rs:71: ASCII, no `%` in either run, and `abc %% def` once the runs are joined by `%%`. */
  lemma DoubleEscapedPercentText(p: seq<byte>, q: seq<byte>)
    requires p == [97, 98, 99, 32] && q == [32, 100, 101, 102]
    ensures ValidUtf8(p) && ValidUtf8(q) && PercentByte !in p && PercentByte !in q && |p| == 4 && |q| == 4
    ensures [] + p + [PercentByte, PercentByte] + q == [97, 98, 99, 32, 37, 37, 32, 100, 101, 102]
  {
    AsciiIsUtf8(p, 0);
    AsciiIsUtf8(q, 0);
  }

  /** `format` with `fmt_write` on `abc %%%% def`: `abc %% def`, 10 bytes, as tests/tests.rs:71. */
  lemma DoubleEscapedPercent(p: seq<byte>, q: seq<byte>, args: seq<ArgValue>, render: FloatRenderer)
    requires p == [97, 98, 99, 32] && q == [32, 100, 101, 102]
    ensures var o := FormatSpec(p + [37, 37, 37, 37] + q, args, FmtHandler(Everything(), render), []);
      o.state == [97, 98, 99, 32, 37, 37, 32, 100, 101, 102] && o.result == 10
  {
    DoubleEscapedPercentText(p, q);
    assert forall d, c :: Everything()(d, c);
    PrintDoubleEscapedPercentFmt(p, q, args, Everything(), render, []);
  }
}
