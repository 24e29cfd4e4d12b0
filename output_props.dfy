/**
 * What the output adapters promise: every integer they print reads back
 * as its value whatever the flags and the width; the field is as wide as
 * asked, and no wider than the value needs; the sign shows exactly when
 * it should; the flags C says are ignored change nothing; strings are cut
 * and padded as the precision and width say; a writer receives a prefix
 * of the rendering and the whole of it when it refuses nothing; and
 * `fmt_write` and `io_write` agree wherever both can print.
 */
module OutputProperties {
  import opened CTypes
  import opened Arguments
  import opened CoreFmt
  import opened Output

  function Max(a: nat, b: nat): nat
  {
    if a < b then b else a
  }

  /** The bytes `pad_integral` writes besides the padding. */
  function IntegralLen(o: Options, nonneg: bool, prefix: seq<byte>, buf: seq<byte>): nat
  {
    |buf| + |SignOf(nonneg, o.plus)| + (if o.alternate then |prefix| else 0)
  }

  /** How many fill characters `pad_integral` adds. */
  function PadCount(o: Options, len: nat): nat
  {
    if o.width <= len then 0 else o.width - len
  }

  /** Spaces `pad_integral` puts before the sign: the padding, unless `0` or `<` sends it elsewhere. */
  function SpacesBefore(o: Options, n: nat): nat
  {
    if o.zero || o.align == Left then 0 else PadCount(o, n)
  }

  /** Zeros `pad_integral` puts between the prefix and the digits: the padding, with `0`. */
  function ZerosIn(o: Options, n: nat): nat
  {
    if o.zero then PadCount(o, n) else 0
  }

  /** Spaces `pad_integral` puts after the digits: the padding, with `<` and without `0`. */
  function SpacesAfter(o: Options, n: nat): nat
  {
    if !o.zero && o.align == Left then PadCount(o, n) else 0
  }

  // ---------------------------------------------------------------------
  // The text of pad_integral.
  // ---------------------------------------------------------------------

  lemma FlattenThree(a: seq<seq<byte>>, b: seq<seq<byte>>, c: seq<seq<byte>>)
    ensures Flatten(a + b + c) == Flatten(a) + Flatten(b) + Flatten(c)
  {
    FlattenConcat(a + b, c);
    FlattenConcat(a, b);
  }

  function PrefixChunks(alternate: bool, prefix: seq<byte>): seq<seq<byte>>
  {
    if alternate then [prefix] else []
  }

  function PrefixText(alternate: bool, prefix: seq<byte>): seq<byte>
  {
    if alternate then prefix else []
  }

  lemma FlattenPrefixChunks(alternate: bool, prefix: seq<byte>)
    ensures Flatten(PrefixChunks(alternate, prefix)) == PrefixText(alternate, prefix)
  {
    if alternate {
      FlattenOne(prefix);
    }
  }

  /** The writes of `pad_integral` when the number fills the field. */
  lemma UnpaddedText(sign: seq<byte>, alternate: bool, prefix: seq<byte>, buf: seq<byte>)
    ensures Flatten(NonEmpty(sign) + PrefixChunks(alternate, prefix) + [buf]) == sign + PrefixText(alternate, prefix) + buf
  {
    FlattenThree(NonEmpty(sign), PrefixChunks(alternate, prefix), [buf]);
    FlattenNonEmpty(sign);
    FlattenPrefixChunks(alternate, prefix);
    FlattenOne(buf);
  }

  /** The writes of `pad_integral` with the `0` option. */
  lemma ZeroPaddedText(sign: seq<byte>, alternate: bool, prefix: seq<byte>, n: nat, buf: seq<byte>)
    ensures Flatten(NonEmpty(sign) + PrefixChunks(alternate, prefix) + Fills(Zero, n) + [buf]) ==
      sign + PrefixText(alternate, prefix) + Repeat(Zero, n) + buf
  {
    var head := NonEmpty(sign) + PrefixChunks(alternate, prefix);
    FlattenConcat(head, Fills(Zero, n));
    FlattenConcat(head + Fills(Zero, n), [buf]);
    FlattenConcat(NonEmpty(sign), PrefixChunks(alternate, prefix));
    FlattenNonEmpty(sign);
    FlattenPrefixChunks(alternate, prefix);
    FlattenFills(Zero, n);
    FlattenOne(buf);
  }

  /** The writes of `pad_integral` padded with spaces. */
  lemma SpacePaddedText(before: nat, sign: seq<byte>, alternate: bool, prefix: seq<byte>, buf: seq<byte>, after: nat)
    ensures Flatten(Fills(Space, before) + NonEmpty(sign) + PrefixChunks(alternate, prefix) + [buf] + Fills(Space, after)) ==
      Repeat(Space, before) + (sign + PrefixText(alternate, prefix) + buf) + Repeat(Space, after)
  {
    var mid := NonEmpty(sign) + PrefixChunks(alternate, prefix) + [buf];
    assert Fills(Space, before) + NonEmpty(sign) + PrefixChunks(alternate, prefix) + [buf] + Fills(Space, after) ==
      Fills(Space, before) + mid + Fills(Space, after);
    FlattenThree(Fills(Space, before), mid, Fills(Space, after));
    UnpaddedText(sign, alternate, prefix, buf);
    FlattenFills(Space, before);
    FlattenFills(Space, after);
  }

  /** `pad_integral` when the number is at least as wide as the field: no padding. */
  lemma PadIntegralUnpadded(o: Options, nonneg: bool, prefix: seq<byte>, buf: seq<byte>)
    requires o.width <= IntegralLen(o, nonneg, prefix, buf)
    ensures Flatten(PadIntegral(o, nonneg, prefix, buf)) == NumberBody(SignOf(nonneg, o.plus), PrefixText(o.alternate, prefix), 0, buf)
  {
    var sign := SignOf(nonneg, o.plus);
    assert PadIntegral(o, nonneg, prefix, buf) == NonEmpty(sign) + PrefixChunks(o.alternate, prefix) + [buf];
    UnpaddedText(sign, o.alternate, prefix, buf);
    assert Repeat(Zero, 0) == [];
  }

  /** `pad_integral` with the `0` option and a wider field: zeros between the prefix and the digits. */
  lemma PadIntegralZeros(o: Options, nonneg: bool, prefix: seq<byte>, buf: seq<byte>)
    requires o.width > IntegralLen(o, nonneg, prefix, buf) && o.zero
    ensures Flatten(PadIntegral(o, nonneg, prefix, buf)) ==
      NumberBody(SignOf(nonneg, o.plus), PrefixText(o.alternate, prefix), o.width - IntegralLen(o, nonneg, prefix, buf), buf)
  {
    var sign := SignOf(nonneg, o.plus);
    var pad := o.width - IntegralLen(o, nonneg, prefix, buf);
    assert PadIntegral(o, nonneg, prefix, buf) == NonEmpty(sign) + PrefixChunks(o.alternate, prefix) + Fills(Zero, pad) + [buf];
    ZeroPaddedText(sign, o.alternate, prefix, pad, buf);
  }

  /** `pad_integral` without `0` and a wider field: spaces after the number with `<`, before it otherwise. */
  lemma PadIntegralSpaces(o: Options, nonneg: bool, prefix: seq<byte>, buf: seq<byte>)
    requires o.width > IntegralLen(o, nonneg, prefix, buf) && !o.zero
    ensures var pad := o.width - IntegralLen(o, nonneg, prefix, buf);
      Flatten(PadIntegral(o, nonneg, prefix, buf)) ==
        Repeat(Space, if o.align == Left then 0 else pad) +
        NumberBody(SignOf(nonneg, o.plus), PrefixText(o.alternate, prefix), 0, buf) +
        Repeat(Space, if o.align == Left then pad else 0)
  {
    var sign := SignOf(nonneg, o.plus);
    var pad := o.width - IntegralLen(o, nonneg, prefix, buf);
    var before := if o.align == Left then 0 else pad;
    var after := if o.align == Left then pad else 0;
    assert PaddingSplit(pad, o.align, Right) == (before, after);
    assert PadIntegral(o, nonneg, prefix, buf) ==
      Fills(Space, before) + NonEmpty(sign) + PrefixChunks(o.alternate, prefix) + [buf] + Fills(Space, after);
    SpacePaddedText(before, sign, o.alternate, prefix, buf, after);
    NumberBodyNoZeros(sign, PrefixText(o.alternate, prefix), buf);
  }

  lemma NumberBodyNoZeros(sign: seq<byte>, prefix: seq<byte>, buf: seq<byte>)
    ensures NumberBody(sign, prefix, 0, buf) == sign + prefix + buf
  {
    assert Repeat(Zero, 0) == [];
  }

  /**
   * The text `pad_integral` writes: spaces, the sign, the prefix when `#`
   * is set, zeros, the digits, spaces. Zeros appear only with `0`; without
   * it the spaces go after the digits with `<` and before them otherwise.
   */
  lemma PadIntegralText(o: Options, nonneg: bool, prefix: seq<byte>, buf: seq<byte>)
    ensures var n := IntegralLen(o, nonneg, prefix, buf);
      Flatten(PadIntegral(o, nonneg, prefix, buf)) ==
        Repeat(Space, SpacesBefore(o, n)) +
        NumberBody(SignOf(nonneg, o.plus), PrefixText(o.alternate, prefix), ZerosIn(o, n), buf) +
        Repeat(Space, SpacesAfter(o, n))
  {
    var len := IntegralLen(o, nonneg, prefix, buf);
    var t := Flatten(PadIntegral(o, nonneg, prefix, buf));
    var e := Repeat(Space, 0);
    assert e == [];
    if o.width <= len {
      PadIntegralUnpadded(o, nonneg, prefix, buf);
      assert t == e + t + e;
    } else if o.zero {
      PadIntegralZeros(o, nonneg, prefix, buf);
      assert t == e + t + e;
    } else {
      PadIntegralSpaces(o, nonneg, prefix, buf);
    }
  }

  /** `pad_integral` fills the field to the width, or writes just the number when it is wider. */
  lemma PadIntegralLength(o: Options, nonneg: bool, prefix: seq<byte>, buf: seq<byte>)
    ensures |Flatten(PadIntegral(o, nonneg, prefix, buf))| == Max(o.width, IntegralLen(o, nonneg, prefix, buf))
  {
    PadIntegralText(o, nonneg, prefix, buf);
  }

  // ---------------------------------------------------------------------
  // define_numeric.
  // ---------------------------------------------------------------------

  /** The sign C prints for a signed conversion: `-` for a negative value, `+` with the `+` flag. */
  function NumericSign(flags: Flags, negative: bool): seq<byte>
  {
    if negative then [Minus] else if PrependPlus in flags then [Plus] else []
  }

  /** The literal of every layout is empty or one space, the space only for a non-negative value, and `#` is never used. */
  lemma NumericLayoutShape(flags: Flags, width: i32, negative: bool, len: nat)
    ensures var l := NumericLayout(flags, width, negative, len);
      (l.lead == [] || (l.lead == [Space] && !negative)) && !l.options.alternate &&
      SignOf(!negative, l.options.plus) == NumericSign(flags, negative)
  {
  }

  /** Spaces before the sign: the layout's literal space and `pad_integral`'s padding when it goes first. */
  function LayoutLead(l: Layout, n: nat): nat
  {
    |l.lead| + SpacesBefore(l.options, n)
  }

  /** The text of a layout whose literal is at most one space and which does not use `#`. */
  lemma LayoutText(l: Layout, negative: bool, m: seq<byte>)
    requires l.lead == [] || l.lead == [Space]
    requires !l.options.alternate
    ensures var sign := SignOf(!negative, l.options.plus);
      var n := |m| + |sign|;
      Flatten(NonEmpty(l.lead) + PadIntegral(l.options, !negative, [], m)) ==
        Repeat(Space, LayoutLead(l, n)) + NumberBody(sign, [], ZerosIn(l.options, n), m) + Repeat(Space, SpacesAfter(l.options, n))
  {
    var o := l.options;
    var n := |m| + |SignOf(!negative, o.plus)|;
    assert IntegralLen(o, !negative, [], m) == n;
    assert PrefixText(o.alternate, []) == [];
    PadIntegralText(o, !negative, [], m);
    LeadSpaces(l.lead, PadIntegral(o, !negative, [], m), SpacesBefore(o, n),
      NumberBody(SignOf(!negative, o.plus), [], ZerosIn(o, n), m), Repeat(Space, SpacesAfter(o, n)));
  }

  /** A literal of at most one space, written before chunks that start with spaces, just lengthens the run. */
  lemma LeadSpaces(lead: seq<byte>, cs: seq<seq<byte>>, k: nat, body: seq<byte>, tail: seq<byte>)
    requires lead == [] || lead == [Space]
    requires Flatten(cs) == Repeat(Space, k) + body + tail
    ensures Flatten(NonEmpty(lead) + cs) == Repeat(Space, |lead| + k) + body + tail
  {
    FlattenConcat(NonEmpty(lead), cs);
    FlattenNonEmpty(lead);
    if lead == [Space] {
      assert Repeat(Space, 1 + k) == [Space] + Repeat(Space, k);
    } else {
      assert NonEmpty(lead) + cs == cs;
    }
  }

  /** `pad_integral`'s length for a layout: the literal, then the field or the number when wider. */
  lemma LayoutLength(l: Layout, negative: bool, m: seq<byte>)
    ensures |Flatten(NonEmpty(l.lead) + PadIntegral(l.options, !negative, [], m))| ==
      |l.lead| + Max(l.options.width, |m| + |SignOf(!negative, l.options.plus)|)
  {
    assert IntegralLen(l.options, !negative, [], m) == |m| + |SignOf(!negative, l.options.plus)|;
    FlattenConcat(NonEmpty(l.lead), PadIntegral(l.options, !negative, [], m));
    FlattenNonEmpty(l.lead);
    PadIntegralLength(l.options, !negative, [], m);
  }

  /**
   * The text of `define_numeric`: spaces, the sign C asks for, zeros, the
   * digits, spaces.
   */
  lemma NumericText(flags: Flags, width: i32, negative: bool, m: seq<byte>)
    ensures var l := NumericLayout(flags, width, negative, |m|);
      var n := |m| + |NumericSign(flags, negative)|;
      Flatten(NumericChunks(flags, width, negative, m)) ==
        Repeat(Space, LayoutLead(l, n)) + NumberBody(NumericSign(flags, negative), [], ZerosIn(l.options, n), m) +
        Repeat(Space, SpacesAfter(l.options, n))
  {
    NumericLayoutShape(flags, width, negative, |m|);
    LayoutText(NumericLayout(flags, width, negative, |m|), negative, m);
  }

  /** The field width and literal length `define_numeric` ends up with, against C's rule. */
  lemma NumericLayoutWidth(flags: Flags, width: i32, negative: bool, d: nat)
    requires d < I32Max
    ensures var l := NumericLayout(flags, width, negative, d);
      |l.lead| + Max(l.options.width, d + |NumericSign(flags, negative)|) ==
      Max(AsUsize(width), d + (if negative || PrependPlus in flags || PrependSpace in flags then 1 else 0))
  {
  }

  /** `define_numeric` writes `width` bytes, or the sign (or space) and the digits when they are wider. */
  lemma NumericLength(flags: Flags, width: i32, negative: bool, m: seq<byte>)
    requires |m| < I32Max
    ensures |Flatten(NumericChunks(flags, width, negative, m))| ==
      Max(AsUsize(width), |m| + (if negative || PrependPlus in flags || PrependSpace in flags then 1 else 0))
  {
    NumericLayoutShape(flags, width, negative, |m|);
    LayoutLength(NumericLayout(flags, width, negative, |m|), negative, m);
    NumericLayoutWidth(flags, width, negative, |m|);
  }

  /** After the leading spaces of a layout's text comes the sign, or the first zero or digit when there is none. */
  lemma LayoutSignShown(l: Layout, negative: bool, m: seq<byte>)
    requires l.lead == [] || l.lead == [Space]
    requires !l.options.alternate
    requires m != [] && m[0] != Space && m[0] != Minus && m[0] != Plus
    ensures var t := DropLeadingSpaces(Flatten(NonEmpty(l.lead) + PadIntegral(l.options, !negative, [], m)));
      t != [] && (t[0] == Minus <==> negative) && (t[0] == Plus <==> !negative && l.options.plus)
  {
    var sign := SignOf(!negative, l.options.plus);
    var n := |m| + |sign|;
    LayoutText(l, negative, m);
    ShapeSign(LayoutLead(l, n), sign, ZerosIn(l.options, n), m, SpacesAfter(l.options, n));
  }

  /** In spaces, a sign, zeros, digits and spaces, the first byte after the spaces is the sign when there is one. */
  lemma ShapeSign(k: nat, sign: seq<byte>, z: nat, m: seq<byte>, trail: nat)
    requires sign == [] || sign == [Minus] || sign == [Plus]
    requires m != [] && m[0] != Space && m[0] != Minus && m[0] != Plus
    ensures var t := DropLeadingSpaces(Repeat(Space, k) + NumberBody(sign, [], z, m) + Repeat(Space, trail));
      t != [] && (t[0] == Minus <==> sign == [Minus]) && (t[0] == Plus <==> sign == [Plus])
  {
    var body := NumberBody(sign, [], z, m);
    var rest := body + Repeat(Space, trail);
    assert body == sign + (Repeat(Zero, z) + m);
    assert (Repeat(Zero, z) + m)[0] == if z > 0 then Zero else m[0];
    assert rest[0] == body[0];
    assert Repeat(Space, k) + body + Repeat(Space, trail) == Repeat(Space, k) + rest;
    DropLeadingSpacesOver(k, rest);
  }

  /**
   * Reading the text back: after the spaces comes `-` exactly for a
   * negative value and `+` exactly for a non-negative one with the `+`
   * flag, whatever the other flags and the width.
   */
  lemma NumericSignShown(flags: Flags, width: i32, negative: bool, m: seq<byte>)
    requires m != [] && m[0] != Space && m[0] != Minus && m[0] != Plus
    ensures var t := DropLeadingSpaces(Flatten(NumericChunks(flags, width, negative, m)));
      t != [] && (t[0] == Minus <==> negative) && (t[0] == Plus <==> !negative && PrependPlus in flags)
  {
    NumericLayoutShape(flags, width, negative, |m|);
    LayoutSignShown(NumericLayout(flags, width, negative, |m|), negative, m);
  }

  /** The integer a layout's text shows reads back as the value. */
  lemma LayoutReadBack(l: Layout, x: int)
    requires l.lead == [] || l.lead == [Space]
    requires !l.options.alternate
    ensures ReadInteger(Flatten(NonEmpty(l.lead) + PadIntegral(l.options, !(x < 0), [], Digits(Magnitude(x), 10, false))), [], 10) == Some(x)
  {
    var m := Digits(Magnitude(x), 10, false);
    var sign := SignOf(!(x < 0), l.options.plus);
    var n := |m| + |sign|;
    LayoutText(l, x < 0, m);
    ReadIntegerOfShape(LayoutLead(l, n), sign, [], ZerosIn(l.options, n), Magnitude(x), 10, false, SpacesAfter(l.options, n));
  }

  /** The integer `define_numeric` prints reads back as itself, for every flag set and width. */
  lemma NumericReadBack(flags: Flags, width: i32, x: int)
    ensures ReadInteger(Flatten(NumericChunks(flags, width, x < 0, Digits(Magnitude(x), 10, false))), [], 10) == Some(x)
  {
    NumericLayoutShape(flags, width, x < 0, |Digits(Magnitude(x), 10, false)|);
    LayoutReadBack(NumericLayout(flags, width, x < 0, |Digits(Magnitude(x), 10, false)|), x);
  }

  /**
   * The space flag without `+`: a non-negative value is preceded by one
   * space, and the field is as wide as the width or one byte wider than
   * the digits.
   */
  lemma SpaceFlagLeadsWithSpace(flags: Flags, width: i32, m: seq<byte>)
    requires PrependSpace in flags && PrependPlus !in flags && |m| < I32Max
    ensures var text := Flatten(NumericChunks(flags, width, false, m));
      text != [] && text[0] == Space && |text| == Max(AsUsize(width), |m| + 1)
  {
    var l := NumericLayout(flags, width, false, |m|);
    NumericText(flags, width, false, m);
    NumericLength(flags, width, false, m);
    assert LayoutLead(l, |m|) > 0;
  }

  /** `% 0Nd` of a non-negative value: one space, then zeros up to the width, then the digits. */
  lemma SpaceZeroText(flags: Flags, width: i32, m: seq<byte>)
    requires PrependSpace in flags && PrependZero in flags && PrependPlus !in flags && LeftAlign !in flags && |m| < I32Max
    ensures Flatten(NumericChunks(flags, width, false, m)) ==
      [Space] + Repeat(Zero, Max(AsUsize(width), |m| + 1) - |m| - 1) + m
  {
    var l := NumericLayout(flags, width, false, |m|);
    NumericText(flags, width, false, m);
    NumericLength(flags, width, false, m);
    assert LayoutLead(l, |m|) == 1 && SpacesAfter(l.options, |m|) == 0;
    assert Repeat(Space, 1) == [Space] && Repeat(Space, 0) == [];
  }

  /** With `+`, the space flag is ignored. */
  lemma PlusOverridesSpace(flags: Flags, width: i32, negative: bool, m: seq<byte>)
    requires PrependPlus in flags
    ensures NumericChunks(flags, width, negative, m) == NumericChunks(flags - {PrependSpace}, width, negative, m)
  {
    var f := flags - {PrependSpace};
    assert (LeftAlign in f <==> LeftAlign in flags) && (PrependPlus in f <==> PrependPlus in flags) &&
      (PrependZero in f <==> PrependZero in flags);
    assert NumericLayout(flags, width, negative, |m|) == NumericLayout(f, width, negative, |m|);
  }

  /** With `-`, the zero flag is ignored. */
  lemma LeftIgnoresZero(flags: Flags, width: i32, negative: bool, m: seq<byte>)
    requires LeftAlign in flags
    ensures NumericChunks(flags, width, negative, m) == NumericChunks(flags - {PrependZero}, width, negative, m)
  {
    var f := flags - {PrependZero};
    assert (LeftAlign in f <==> LeftAlign in flags) && (PrependPlus in f <==> PrependPlus in flags) &&
      (PrependSpace in f <==> PrependSpace in flags);
    assert NumericLayout(flags, width, negative, |m|) == NumericLayout(f, width, negative, |m|);
  }

  /** `'` and `#` play no part in a signed conversion. */
  lemma NumericIgnoresGroupingAndAlternate(flags: Flags, width: i32, negative: bool, m: seq<byte>)
    ensures NumericChunks(flags, width, negative, m) == NumericChunks(flags - {ThousandsGrouping, AlternateForm}, width, negative, m)
  {
    var f := flags - {ThousandsGrouping, AlternateForm};
    assert (LeftAlign in f <==> LeftAlign in flags) && (PrependPlus in f <==> PrependPlus in flags) &&
      (PrependZero in f <==> PrependZero in flags) && (PrependSpace in f <==> PrependSpace in flags);
    assert NumericLayout(flags, width, negative, |m|) == NumericLayout(f, width, negative, |m|);
  }

  // ---------------------------------------------------------------------
  // The left-aligned space flag (see Findings in the README).
  // ---------------------------------------------------------------------

  /** `%- Nd` of a non-negative value: one space, the digits, then spaces up to the width. */
  lemma LeftSpaceText(flags: Flags, width: i32, m: seq<byte>)
    requires LeftAlign in flags && PrependSpace in flags && PrependPlus !in flags
    ensures Flatten(NumericChunks(flags, width, false, m)) ==
      [Space] + m + Repeat(Space, Max(AsUsize(width), |m| + 1) - |m| - 1)
  {
    var l := NumericLayout(flags, width, false, |m|);
    assert l == Layout([Space], Options(Left, false, false, false, SaturatingSubOne(AsUsize(width))));
    NumericText(flags, width, false, m);
    assert Repeat(Space, 1) == [Space] && Repeat(Zero, 0) == [];
  }

  /** As written, `%- d` with no width pads a one-digit value to `usize::MAX + 1` bytes. */
  lemma LeftSpaceWithoutWidthAsWritten(flags: Flags, m: seq<byte>)
    requires LeftAlign in flags && PrependSpace in flags && PrependPlus !in flags && |m| < U64Modulus
    ensures |Flatten(NumericChunksAsWritten(flags, 0, false, m))| == U64Modulus
  {
    var l := NumericLayoutAsWritten(flags, 0, false, |m|);
    assert l == Layout([Space], Options(Left, false, false, false, U64Modulus - 1));
    LayoutLength(l, false, m);
  }

  /** The corrected layout differs from the written one only for that input: width 0. */
  lemma NumericAsWrittenAgrees(flags: Flags, width: i32, negative: bool, m: seq<byte>)
    requires width != 0
    ensures NumericChunksAsWritten(flags, width, negative, m) == NumericChunks(flags, width, negative, m)
  {
  }

  // ---------------------------------------------------------------------
  // define_unumeric and pointers.
  // ---------------------------------------------------------------------

  /** `define_unumeric`'s decision tree as one record: `-` aligns left, `#` adds the prefix, `0` pads with zeros unless `-` is set. */
  lemma UnsignedOptionsClosedForm(flags: Flags, width: i32)
    ensures UnsignedOptions(flags, width) ==
      Options(if LeftAlign in flags then Left else Unset, false, AlternateForm in flags,
        PrependZero in flags && LeftAlign !in flags, AsUsize(width))
  {
  }

  /** `+`, space and `'` play no part in an unsigned conversion. */
  lemma UnsignedIgnoresSignFlags(flags: Flags, width: i32, prefix: seq<byte>, ds: seq<byte>)
    ensures UnsignedChunks(flags, width, prefix, ds) ==
      UnsignedChunks(flags - {PrependPlus, PrependSpace, ThousandsGrouping}, width, prefix, ds)
  {
    assert UnsignedOptions(flags, width) == UnsignedOptions(flags - {PrependPlus, PrependSpace, ThousandsGrouping}, width);
  }

  /** The text of a non-negative `pad_integral` without `+`: spaces, the prefix, zeros, the digits, spaces. */
  lemma UnsignedPadText(o: Options, prefix: seq<byte>, ds: seq<byte>)
    requires !o.plus
    ensures var n := |ds| + (if o.alternate then |prefix| else 0);
      Flatten(PadIntegral(o, true, prefix, ds)) ==
        Repeat(Space, SpacesBefore(o, n)) + NumberBody([], PrefixText(o.alternate, prefix), ZerosIn(o, n), ds) +
        Repeat(Space, SpacesAfter(o, n))
  {
    assert IntegralLen(o, true, prefix, ds) == |ds| + (if o.alternate then |prefix| else 0);
    PadIntegralText(o, true, prefix, ds);
  }

  /** Reading an unsigned rendering back, with the prefix when `#` is set, gives the value. */
  lemma PadUnsignedReadBack(o: Options, prefix: seq<byte>, v: nat, base: nat, upper: bool)
    requires IsBase(base) && !o.plus
    requires prefix == [] || DigitOf(prefix[0]).Some?
    ensures ReadInteger(Flatten(PadIntegral(o, true, prefix, Digits(v, base, upper))), PrefixText(o.alternate, prefix), base) == Some(v as int)
  {
    var ds := Digits(v, base, upper);
    var n := |ds| + (if o.alternate then |prefix| else 0);
    UnsignedPadText(o, prefix, ds);
    ReadIntegerOfShape(SpacesBefore(o, n), [], PrefixText(o.alternate, prefix), ZerosIn(o, n), v, base, upper, SpacesAfter(o, n));
  }

  /** The value `define_unumeric` prints reads back as itself, for every flag set and width. */
  lemma UnsignedReadBack(flags: Flags, width: i32, prefix: seq<byte>, v: nat, base: nat, upper: bool)
    requires IsBase(base)
    requires prefix == [] || DigitOf(prefix[0]).Some?
    ensures ReadInteger(Flatten(UnsignedChunks(flags, width, prefix, Digits(v, base, upper))),
      if AlternateForm in flags then prefix else [], base) == Some(v as int)
  {
    PadUnsignedReadBack(UnsignedOptions(flags, width), prefix, v, base, upper);
  }

  /** `define_unumeric` fills the field to the width, or writes the prefix and digits when they are wider. */
  lemma UnsignedLength(flags: Flags, width: i32, prefix: seq<byte>, ds: seq<byte>)
    ensures |Flatten(UnsignedChunks(flags, width, prefix, ds))| ==
      Max(AsUsize(width), |ds| + (if AlternateForm in flags then |prefix| else 0))
  {
    PadIntegralLength(UnsignedOptions(flags, width), true, prefix, ds);
  }

  /** `%p` always shows `0x` and then the address in hexadecimal. */
  lemma PointerReadBack(flags: Flags, width: i32, address: u64)
    ensures ReadInteger(Flatten(PointerChunks(flags, width, address)), HexPrefix, 16) == Some(address as int)
  {
    var w := AsUsize(width);
    var o := if LeftAlign in flags then Options(Left, false, true, false, w)
      else if PrependZero in flags then Options(Unset, false, true, true, w)
      else Options(Unset, false, true, false, w);
    PadUnsignedReadBack(o, HexPrefix, address, 16, false);
  }

  /** `%p` fills the field to the width, or writes `0x` and the digits when they are wider. */
  lemma PointerLength(flags: Flags, width: i32, address: u64)
    ensures |Flatten(PointerChunks(flags, width, address))| == Max(AsUsize(width), |Digits(address, 16, false)| + 2)
  {
    var w := AsUsize(width);
    var o := if LeftAlign in flags then Options(Left, false, true, false, w)
      else if PrependZero in flags then Options(Unset, false, true, true, w)
      else Options(Unset, false, true, false, w);
    PadIntegralLength(o, true, HexPrefix, Digits(address, 16, false));
  }

  // ---------------------------------------------------------------------
  // The conversions of fmt_write.
  // ---------------------------------------------------------------------

  /** `%d` and its length variants print the payload's value, whatever the flags, width and precision. */
  lemma IntReadBack(flags: Flags, width: i32, precision: Option<i32>, s: SignedInt, render: FloatRenderer)
    ensures var r := FmtChunks(Argument(flags, width, precision, Specifier.Int(s)), render);
      r.Some? && ReadInteger(Flatten(r.value), [], 10) == Some(SignedToI64(s) as int)
  {
    NumericReadBack(flags, width, SignedToI64(s));
  }

  /** The radix of an unsigned conversion. */
  function RadixOf(sp: Specifier): nat
  {
    if sp.Octal? then 8 else if sp.Uint? then 10 else 16
  }

  /** The prefix `#` adds to an unsigned conversion: `0o` for octal, `0x` for both hexadecimal cases. */
  function AlternatePrefixOf(sp: Specifier): seq<byte>
  {
    if sp.Octal? then OctalPrefix else if sp.Uint? then [] else HexPrefix
  }

  /** `%u`, `%o`, `%x` and `%X` print the payload's value in their radix, after the prefix when `#` is set. */
  lemma UnsignedConversionReadBack(flags: Flags, width: i32, precision: Option<i32>, u: UnsignedInt, sp: Specifier, render: FloatRenderer)
    requires sp == Specifier.Uint(u) || sp == Specifier.Octal(u) || sp == Specifier.Hex(u) || sp == Specifier.UpperHex(u)
    ensures var r := FmtChunks(Argument(flags, width, precision, sp), render);
      r.Some? && ReadInteger(Flatten(r.value), if AlternateForm in flags then AlternatePrefixOf(sp) else [], RadixOf(sp)) ==
        Some(UnsignedToU64(u) as int)
  {
    UnsignedReadBack(flags, width, AlternatePrefixOf(sp), UnsignedToU64(u), RadixOf(sp), sp.UpperHex?);
  }

  /** The precision changes nothing for integers, characters and pointers: `core::fmt` ignores it for integers. */
  lemma PrecisionIgnoredForIntegers(a: Argument, p: Option<i32>, render: FloatRenderer)
    requires !a.specifier.Double? && !a.specifier.Bytes? && !a.specifier.String?
    ensures FmtChunks(a.(precision := p), render) == FmtChunks(a, render)
  {
  }

  // ---------------------------------------------------------------------
  // Strings and characters.
  // ---------------------------------------------------------------------

  /** Spaces on one side of a text. */
  lemma PaddedText(before: nat, t: seq<byte>, after: nat)
    ensures Flatten(Fills(Space, before) + [t] + Fills(Space, after)) == Repeat(Space, before) + t + Repeat(Space, after)
  {
    FlattenThree(Fills(Space, before), [t], Fills(Space, after));
    FlattenOne(t);
    FlattenFills(Space, before);
    FlattenFills(Space, after);
  }

  /** The padded text of `n` characters: spaces after it, or before it when aligned right. */
  lemma PadCountedText(align: Align, width: nat, t: seq<byte>, n: nat)
    ensures var pad := SaturatingSub(width, n);
      Flatten(PadCounted(align, width, t, n)) == if align == Right then Repeat(Space, pad) + t else t + Repeat(Space, pad)
  {
    var pad := SaturatingSub(width, n);
    var e := Repeat(Space, 0);
    assert e == [];
    if width <= n {
      FlattenOne(t);
      assert t == e + t == t + e;
    } else {
      var before := if align == Right then pad else 0;
      var after := if align == Right then 0 else pad;
      assert PaddingSplit(pad, align, Left) == (before, after);
      PaddedText(before, t, after);
      assert e + t + Repeat(Space, after) == t + Repeat(Space, after);
      assert Repeat(Space, before) + t + e == Repeat(Space, before) + t;
    }
  }

  /** `Formatter::pad`: the text cut to the precision, then spaces to the width, after it unless aligned right. */
  lemma PadStrText(align: Align, width: nat, precision: Option<nat>, s: seq<byte>)
    requires ValidUtf8(s)
    ensures var t := if precision.Some? then TakeChars(s, precision.value) else s;
      ValidUtf8(t) &&
      var pad := SaturatingSub(width, CharCount(t));
      Flatten(PadStr(align, width, precision, s)) == if align == Right then Repeat(Space, pad) + t else t + Repeat(Space, pad)
  {
    var t := if precision.Some? then TakeChars(s, precision.value) else s;
    TakeCharsCount(s, if precision.Some? then precision.value else 0);
    PadCountedText(align, width, t, CharCount(t));
  }

  /**
   * `write_str`: an error for bytes that are not UTF-8; otherwise at most
   * `precision` characters (all of them without a precision), padded with
   * spaces to `width` characters, after the text with `-`.
   */
  lemma StrText(flags: Flags, width: i32, precision: Option<i32>, b: seq<byte>)
    ensures StrChunks(flags, width, precision, b).Some? <==> ValidUtf8(b)
    ensures ValidUtf8(b) ==>
      var t := TakeChars(b, StringPrecision(precision, |b|));
      ValidUtf8(t) &&
      var pad := SaturatingSub(AsUsize(width), CharCount(t));
      CharCount(t) == (if StringPrecision(precision, |b|) < CharCount(b) then StringPrecision(precision, |b|) else CharCount(b)) &&
      Flatten(StrChunks(flags, width, precision, b).value) ==
        if LeftAlign in flags then t + Repeat(Space, pad) else Repeat(Space, pad) + t
  {
    if ValidUtf8(b) {
      TakeCharsCount(b, StringPrecision(precision, |b|));
      PadStrText(if LeftAlign in flags then Unset else Right, AsUsize(width), Some(StringPrecision(precision, |b|)), b);
    }
  }

  /** Without a precision a string is printed whole (for strings shorter than 2^31 bytes). */
  lemma StrWholeWithoutPrecision(b: seq<byte>)
    requires ValidUtf8(b) && |b| <= I32Max
    ensures TakeChars(b, StringPrecision(None, |b|)) == b
  {
    CharCountAtMostLength(b);
    TakeCharsAll(b, StringPrecision(None, |b|));
  }

  /** `%c`: the character's UTF-8 encoding, padded with spaces to the width, after it with `-`. */
  lemma CharText(flags: Flags, width: i32, c: byte)
    ensures var u := Latin1ToUtf8(c);
      var pad := SaturatingSub(AsUsize(width), 1);
      Flatten(CharChunks(flags, width, c)) == if LeftAlign in flags then u + Repeat(Space, pad) else Repeat(Space, pad) + u
  {
    PadStrText(if LeftAlign in flags then Unset else Right, AsUsize(width), None, Latin1ToUtf8(c));
  }

  /** `write_bytes`: the first `precision` bytes (all without one), then spaces to the width, after them with `-`. */
  lemma WriteBytesText(flags: Flags, width: i32, precision: Option<i32>, b: seq<byte>)
    ensures var p := StringPrecision(precision, |b|);
      var kept := KeptBytes(precision, b);
      var pad := SaturatingSub(AsUsize(width), |kept|);
      kept == b[..if |b| < p then |b| else p] &&
      Flatten(WriteBytesChunks(flags, width, precision, b)) ==
        (if LeftAlign in flags then kept + Repeat(Space, pad) else Repeat(Space, pad) + kept) &&
      |Flatten(WriteBytesChunks(flags, width, precision, b))| == Max(AsUsize(width), |kept|)
  {
    var kept := KeptBytes(precision, b);
    var pad := SaturatingSub(AsUsize(width), |kept|);
    FlattenOne(kept);
    FlattenFills(Space, pad);
    FlattenConcat([kept], Fills(Space, pad));
    FlattenConcat(Fills(Space, pad), [kept]);
  }

  // ---------------------------------------------------------------------
  // Writing, counting and the two handlers.
  // ---------------------------------------------------------------------

  /**
   * A writer ends up holding its old contents followed by a prefix of the
   * rendering made of whole writes, and the whole rendering when no write
   * was refused.
   */
  lemma {:induction false} EmitWritesPrefix(accepts: Acceptor, data: seq<byte>, cs: seq<seq<byte>>, skipEmpty: bool)
    ensures var r := Emit(accepts, data, cs, skipEmpty);
      data <= r.0 && r.0 <= data + Flatten(cs) && (r.1 ==> r.0 == data + Flatten(cs))
    decreases |cs|
  {
    if cs != [] {
      var rest := cs[1..];
      assert Flatten(cs) == cs[0] + Flatten(rest);
      if skipEmpty && cs[0] == [] {
        EmitWritesPrefix(accepts, data, rest, skipEmpty);
        assert data + Flatten(cs) == data + Flatten(rest);
      } else if accepts(data, cs[0]) {
        EmitWritesPrefix(accepts, data + cs[0], rest, skipEmpty);
        var d := Emit(accepts, data + cs[0], rest, skipEmpty).0;
        assert data + cs[0] + Flatten(rest) == data + Flatten(cs);
        assert d[..|data|] == (d[..|data| + |cs[0]|])[..|data|];
      }
    }
  }

  /** A writer that refuses nothing receives the whole rendering. */
  lemma {:induction false} EmitAllAccepted(accepts: Acceptor, data: seq<byte>, cs: seq<seq<byte>>, skipEmpty: bool)
    requires forall d, c :: accepts(d, c)
    ensures Emit(accepts, data, cs, skipEmpty) == (data + Flatten(cs), true)
    decreases |cs|
  {
    if cs != [] {
      assert Flatten(cs) == cs[0] + Flatten(cs[1..]);
      if skipEmpty && cs[0] == [] {
        EmitAllAccepted(accepts, data, cs[1..], skipEmpty);
        assert data + Flatten(cs) == data + Flatten(cs[1..]);
      } else {
        assert accepts(data, cs[0]);
        EmitAllAccepted(accepts, data + cs[0], cs[1..], skipEmpty);
        assert data + cs[0] + Flatten(cs[1..]) == data + Flatten(cs);
      }
    } else {
      assert data + Flatten(cs) == data;
    }
  }

  /** The text `fmt_write` renders for an argument; empty when it writes nothing. */
  function FmtText(a: Argument, render: FloatRenderer): seq<byte>
  {
    var cs := FmtChunks(a, render);
    if cs.Some? then Flatten(cs.value) else []
  }

  /**
   * `fmt_write`'s handler: the writer gets a prefix of the rendering; an
   * unsupported conversion writes nothing and gives -1; any other result
   * means the whole rendering was written and is its length as `c_int`;
   * and a writer that refuses nothing gets all of it.
   */
  lemma FmtStepWrites(accepts: Acceptor, render: FloatRenderer, data: seq<byte>, a: Argument)
    ensures var (d, r) := FmtStep(accepts, render, data, a);
      var text := FmtText(a, render);
      data <= d && d <= data + text &&
      (FmtChunks(a, render).None? ==> d == data && r == -1) &&
      (r != -1 ==> d == data + text && r == UsizeAsCInt(|text|))
    ensures (forall d, c :: accepts(d, c)) && FmtChunks(a, render).Some? ==>
      FmtStep(accepts, render, data, a) == (data + FmtText(a, render), UsizeAsCInt(|FmtText(a, render)|))
  {
    if FmtChunks(a, render).Some? {
      EmitWritesPrefix(accepts, data, FmtChunks(a, render).value, false);
      if forall d, c :: accepts(d, c) {
        EmitAllAccepted(accepts, data, FmtChunks(a, render).value, false);
      }
    }
  }

  /** `%%` writes one `%` and counts 1 in both handlers, whatever the flags, width and precision. */
  lemma PercentStep(accepts: Acceptor, render: FloatRenderer, data: seq<byte>, flags: Flags, width: i32, precision: Option<i32>)
    ensures var a := Argument(flags, width, precision, Percent);
      var expected := if accepts(data, [PercentChar]) then (data + [PercentChar], 1) else (data, -1);
      FmtStep(accepts, render, data, a) == expected && IoStep(accepts, render, data, a) == expected
  {
    FlattenOne([PercentChar]);
    EmitOne(accepts, data, [PercentChar], false);
    EmitOne(accepts, data, [PercentChar], true);
  }

  /** `%n` is not supported: `fmt_write` and the corrected `io_write` write nothing and return -1. */
  lemma WriteBytesWrittenUnsupported(accepts: Acceptor, render: FloatRenderer, data: seq<byte>, flags: Flags, width: i32,
                                     precision: Option<i32>, written: int, target: u64)
    ensures var a := Argument(flags, width, precision, WriteBytesWritten(written, target));
      FmtStep(accepts, render, data, a) == (data, -1) && IoStep(accepts, render, data, a) == (data, -1)
  {
  }

  /** As written, `io_write` reports `%n` as a success that wrote nothing: it returns 0. */
  lemma WriteBytesWrittenAsWritten(accepts: Acceptor, render: FloatRenderer, data: seq<byte>, flags: Flags, width: i32,
                                   precision: Option<i32>, written: int, target: u64)
    ensures var a := Argument(flags, width, precision, WriteBytesWritten(written, target));
      IoStepAsWritten(accepts, render, data, a) == (data, 0) && FmtStep(accepts, render, data, a) == (data, -1)
  {
  }

  /** `fmt_write` refuses bytes that are not UTF-8 before writing anything. */
  lemma FmtRejectsInvalidUtf8(accepts: Acceptor, render: FloatRenderer, data: seq<byte>, flags: Flags, width: i32,
                              precision: Option<i32>, b: seq<byte>)
    requires !ValidUtf8(b)
    ensures FmtStep(accepts, render, data, Argument(flags, width, precision, Bytes(b))) == (data, -1)
    ensures FmtStep(accepts, render, data, Argument(flags, width, precision, String(b))) == (data, -1)
  {
  }

  /** `io_write` prints any bytes, as `write_bytes` lays them out. */
  lemma IoWritesAnyBytes(accepts: Acceptor, render: FloatRenderer, data: seq<byte>, flags: Flags, width: i32,
                         precision: Option<i32>, b: seq<byte>)
    requires forall d, c :: accepts(d, c)
    ensures var text := Flatten(WriteBytesChunks(flags, width, precision, b));
      IoStep(accepts, render, data, Argument(flags, width, precision, Bytes(b))) == (data + text, UsizeAsCInt(|text|)) &&
      IoStep(accepts, render, data, Argument(flags, width, precision, String(b))) == (data + text, UsizeAsCInt(|text|))
  {
    EmitAllAccepted(accepts, data, WriteBytesChunks(flags, width, precision, b), true);
  }

  /** On ASCII, `write_str` and `write_bytes` produce the same text. */
  lemma StrAgreesWithWriteBytes(flags: Flags, width: i32, precision: Option<i32>, b: seq<byte>)
    requires IsAscii(b)
    ensures ValidUtf8(b) && Flatten(StrChunks(flags, width, precision, b).value) == Flatten(WriteBytesChunks(flags, width, precision, b))
  {
    var p := StringPrecision(precision, |b|);
    AsciiIsUtf8(b, p);
    var t := TakeChars(b, p);
    assert IsAscii(t);
    AsciiIsUtf8(t, 0);
    StrText(flags, width, precision, b);
    WriteBytesText(flags, width, precision, b);
  }

  /**
   * With a writer that refuses nothing, `fmt_write` and the corrected
   * `io_write` leave the same contents and return the same count for
   * every argument whose strings are ASCII.
   */
  lemma FmtIoAgree(accepts: Acceptor, render: FloatRenderer, data: seq<byte>, a: Argument)
    requires forall d, c :: accepts(d, c)
    requires a.specifier.Bytes? ==> IsAscii(a.specifier.data)
    requires a.specifier.String? ==> IsAscii(a.specifier.text)
    ensures FmtStep(accepts, render, data, a) == IoStep(accepts, render, data, a)
  {
    match a.specifier {
      case WriteBytesWritten(_, _) =>
      case Bytes(b) =>
        StrAgreesWithWriteBytes(a.flags, a.width, a.precision, b);
        EmitAllAccepted(accepts, data, StrChunks(a.flags, a.width, a.precision, b).value, false);
        EmitAllAccepted(accepts, data, WriteBytesChunks(a.flags, a.width, a.precision, b), true);
      case String(b) =>
        StrAgreesWithWriteBytes(a.flags, a.width, a.precision, b);
        EmitAllAccepted(accepts, data, StrChunks(a.flags, a.width, a.precision, b).value, false);
        EmitAllAccepted(accepts, data, WriteBytesChunks(a.flags, a.width, a.precision, b), true);
      case _ =>
        assert IoChunks(a, render) == FmtChunks(a, render);
        if FmtChunks(a, render).Some? {
          EmitAllAccepted(accepts, data, FmtChunks(a, render).value, false);
          EmitAllAccepted(accepts, data, FmtChunks(a, render).value, true);
        }
    }
  }
}
