/**
 * The format-string scanner and specifier parser (src/parser.rs).
 *
 * The format string is split on `%`. The first piece is literal text; every
 * later piece is a directive (flags, width, precision, length modifier,
 * conversion byte) followed by literal text, except that the piece after a
 * `%%` is literal text as a whole.
 *
 * The caller's handler is a closure that may keep state between calls; it
 * is modelled as a function from (state, argument) to (new state, result).
 */
module Parser {
  import opened CTypes
  import opened Arguments
  import opened VarArgs

  const PercentByte: byte := 37   // '%'
  const MinusByte: byte := 45     // '-'
  const PlusByte: byte := 43      // '+'
  const SpaceByte: byte := 32     // ' '
  const ZeroByte: byte := 48      // '0'
  const QuoteByte: byte := 39     // '\''
  const HashByte: byte := 35      // '#'
  const StarByte: byte := 42      // '*'
  const DotByte: byte := 46       // '.'

  /** `next_char`: drop the first byte, if there is one. */
  function NextChar(sub: seq<byte>): (r: seq<byte>)
    ensures sub == [] ==> r == []
    ensures sub != [] ==> sub == [sub[0]] + r
  {
    if |sub| >= 1 then sub[1..] else []
  }

  // ---------------------------------------------------------------------
  // Splitting on '%' (`str.split(|&c| c == b'%')`).
  // ---------------------------------------------------------------------

  /** The pieces between the `%` bytes of `s`, in order. */
  function Split(s: seq<byte>): (r: seq<seq<byte>>)
    ensures |r| >= 1
  {
    if s == [] then [[]]
    else if s[0] == PercentByte then [[]] + Split(s[1..])
    else
      var t := Split(s[1..]);
      [[s[0]] + t[0]] + t[1..]
  }

  /** The pieces joined back together with a `%` between neighbours. */
  function Join(ps: seq<seq<byte>>): seq<byte>
    requires |ps| >= 1
  {
    if |ps| == 1 then ps[0] else ps[0] + [PercentByte] + Join(ps[1..])
  }

  /** No piece contains a `%`, and there is one piece more than there are `%` bytes. */
  lemma {:induction false} SplitPieces(s: seq<byte>)
    ensures forall k | 0 <= k < |Split(s)| :: PercentByte !in Split(s)[k]
    ensures |Split(s)| == 1 + multiset(s)[PercentByte]
  {
    if s != [] {
      SplitPieces(s[1..]);
      assert s == [s[0]] + s[1..];
      assert multiset(s) == multiset([s[0]]) + multiset(s[1..]);
    }
  }

  /** Joining the pieces gives the string back. */
  lemma {:induction false} JoinSplit(s: seq<byte>)
    ensures Join(Split(s)) == s
  {
    if s == [] {
    } else if s[0] == PercentByte {
      JoinSplit(s[1..]);
    } else {
      var t := Split(s[1..]);
      JoinSplit(s[1..]);
      if |t| == 1 {
      } else {
        calc {
          Join(Split(s));
          ([s[0]] + t[0]) + [PercentByte] + Join(t[1..]);
          [s[0]] + (t[0] + [PercentByte] + Join(t[1..]));
          [s[0]] + Join(t);
        }
      }
    }
  }

  /** Splitting a join of `%`-free pieces gives the pieces back. */
  lemma {:induction false} SplitJoin(ps: seq<seq<byte>>)
    requires |ps| >= 1
    requires forall k | 0 <= k < |ps| :: PercentByte !in ps[k]
    ensures Split(Join(ps)) == ps
  {
    if |ps| == 1 {
      SplitPlain(ps[0]);
    } else {
      SplitJoin(ps[1..]);
      SplitPrefix(ps[0], Join(ps[1..]));
    }
  }

  /** A string without `%` is one piece. */
  lemma {:induction false} SplitPlain(s: seq<byte>)
    requires PercentByte !in s
    ensures Split(s) == [s]
  {
    if s != [] {
      SplitPlain(s[1..]);
      assert [s[0]] + s[1..] == s;
    }
  }

  /** A `%`-free prefix followed by `%` becomes the first piece. */
  lemma {:induction false} SplitPrefix(p: seq<byte>, rest: seq<byte>)
    requires PercentByte !in p
    ensures Split(p + [PercentByte] + rest) == [p] + Split(rest)
  {
    if p == [] {
      assert p + [PercentByte] + rest == [PercentByte] + rest;
    } else {
      SplitPrefix(p[1..], rest);
      assert (p + [PercentByte] + rest)[1..] == p[1..] + [PercentByte] + rest;
      assert [p[0]] + p[1..] == p;
    }
  }

  // ---------------------------------------------------------------------
  // Flags field.
  // ---------------------------------------------------------------------

  /** The flag a byte stands for in the flags field. */
  function FlagOf(b: byte): Option<Flag>
  {
    if b == MinusByte then Some(LeftAlign)
    else if b == PlusByte then Some(PrependPlus)
    else if b == SpaceByte then Some(PrependSpace)
    else if b == ZeroByte then Some(PrependZero)
    else if b == QuoteByte then Some(ThousandsGrouping)
    else if b == HashByte then Some(AlternateForm)
    else None
  }

  predicate IsFlagByte(b: byte)
  {
    FlagOf(b).Some?
  }

  /** Every flag has exactly one byte. */
  lemma FlagOfInjective(b: byte, c: byte)
    requires FlagOf(b).Some? && FlagOf(b) == FlagOf(c)
    ensures b == c
  {
  }

  /** The length of the longest prefix of `s` made of flag bytes. */
  function FlagRunLength(s: seq<byte>): (n: nat)
    ensures n <= |s|
    ensures forall j | 0 <= j < n :: IsFlagByte(s[j])
    ensures n < |s| ==> !IsFlagByte(s[n])
  {
    if s != [] && IsFlagByte(s[0]) then 1 + FlagRunLength(s[1..]) else 0
  }

  /** The maximal run is the only prefix of flag bytes followed by a non-flag byte or the end. */
  lemma {:induction false} FlagRunLengthUnique(s: seq<byte>, n: nat)
    requires n <= |s|
    requires forall j | 0 <= j < n :: IsFlagByte(s[j])
    requires n < |s| ==> !IsFlagByte(s[n])
    ensures n == FlagRunLength(s)
  {
    if n > 0 {
      FlagRunLengthUnique(s[1..], n - 1);
    }
  }

  /** The union of the flags of a run of flag bytes, inserted one after another. */
  function UnionOf(s: seq<byte>): Flags
    requires forall j | 0 <= j < |s| :: IsFlagByte(s[j])
  {
    if s == [] then EmptyFlags
    else
      assert IsFlagByte(s[|s| - 1]);
      UnionOf(s[..|s| - 1]) + {FlagOf(s[|s| - 1]).value}
  }

  /** A flag is in the union iff some byte of the run stands for it. */
  lemma {:induction false} UnionOfContains(s: seq<byte>, g: Flag)
    requires forall j | 0 <= j < |s| :: IsFlagByte(s[j])
    ensures g in UnionOf(s) <==> exists j | 0 <= j < |s| :: FlagOf(s[j]) == Some(g)
  {
    if s != [] {
      var init := s[..|s| - 1];
      UnionOfContains(init, g);
      if exists j | 0 <= j < |s| :: FlagOf(s[j]) == Some(g) {
        var j :| 0 <= j < |s| && FlagOf(s[j]) == Some(g);
        if j < |s| - 1 {
          assert FlagOf(init[j]) == Some(g);
        }
      }
      if exists j | 0 <= j < |init| :: FlagOf(init[j]) == Some(g) {
        var j :| 0 <= j < |init| && FlagOf(init[j]) == Some(g);
        assert FlagOf(s[j]) == Some(g);
      }
    }
  }

  /** Two runs with the same flag bytes, in any order and with any repeats, give the same flags. */
  lemma UnionOfDependsOnlyOnBytes(s: seq<byte>, t: seq<byte>)
    requires forall j | 0 <= j < |s| :: IsFlagByte(s[j])
    requires forall j | 0 <= j < |t| :: IsFlagByte(t[j])
    requires forall b :: b in s <==> b in t
    ensures UnionOf(s) == UnionOf(t)
  {
    forall g: Flag
      ensures g in UnionOf(s) <==> g in UnionOf(t)
    {
      UnionOfContains(s, g);
      UnionOfContains(t, g);
      if exists j | 0 <= j < |s| :: FlagOf(s[j]) == Some(g) {
        var j :| 0 <= j < |s| && FlagOf(s[j]) == Some(g);
        assert s[j] in t;
        var k :| 0 <= k < |t| && t[k] == s[j];
        assert FlagOf(t[k]) == Some(g);
      }
      if exists j | 0 <= j < |t| :: FlagOf(t[j]) == Some(g) {
        var j :| 0 <= j < |t| && FlagOf(t[j]) == Some(g);
        assert t[j] in s;
        var k :| 0 <= k < |s| && s[k] == t[j];
        assert FlagOf(s[k]) == Some(g);
      }
    }
  }

  /** What `parse_flags` returns: the union of the maximal flag run, and the bytes after it. */
  function FlagsField(sub: seq<byte>): (Flags, seq<byte>)
  {
    var n := FlagRunLength(sub);
    (UnionOf(sub[..n]), sub[n..])
  }

  /** `parse_flags`. */
  method ParseFlags(sub: seq<byte>) returns (flags: Flags, rest: seq<byte>)
    ensures (flags, rest) == FlagsField(sub)
    ensures rest == [] || !IsFlagByte(rest[0])
  {
    flags := EmptyFlags;
    rest := sub;
    ghost var i := 0;
    while rest != []
      invariant 0 <= i <= |sub| && rest == sub[i..]
      invariant forall j | 0 <= j < i :: IsFlagByte(sub[j])
      invariant flags == UnionOf(sub[..i])
    {
      var f := FlagOf(rest[0]);
      if f.None? {
        break;
      }
      assert sub[..i + 1][..i] == sub[..i];
      flags := flags + {f.value};
      rest := NextChar(rest);
      i := i + 1;
    }
    FlagRunLengthUnique(sub, i);
  }

  // ---------------------------------------------------------------------
  // Width and precision fields.
  // ---------------------------------------------------------------------

  predicate IsDigit(b: byte)
  {
    48 <= b <= 57
  }

  /** The length of the longest prefix of `s` made of ASCII digits. */
  function DigitRunLength(s: seq<byte>): (n: nat)
    ensures n <= |s|
    ensures forall j | 0 <= j < n :: IsDigit(s[j])
    ensures n < |s| ==> !IsDigit(s[n])
  {
    if s != [] && IsDigit(s[0]) then 1 + DigitRunLength(s[1..]) else 0
  }

  lemma {:induction false} DigitRunLengthUnique(s: seq<byte>, n: nat)
    requires n <= |s|
    requires forall j | 0 <= j < n :: IsDigit(s[j])
    requires n < |s| ==> !IsDigit(s[n])
    ensures n == DigitRunLength(s)
  {
    if n > 0 {
      DigitRunLengthUnique(s[1..], n - 1);
    }
  }

  /** The number a run of decimal digits spells. */
  function DecimalValue(d: seq<byte>): nat
    requires forall j | 0 <= j < |d| :: IsDigit(d[j])
  {
    if d == [] then 0
    else
      assert IsDigit(d[|d| - 1]);
      DecimalValue(d[..|d| - 1]) * 10 + (d[|d| - 1] as int - 48)
  }

  /** Truncating to 32 bits after every step is the same as truncating once at the end. */
  lemma WrapSignedStep(x: int, digit: int)
    ensures WrapSigned(WrapSigned(x, W32) * 10 + digit, W32) == WrapSigned(x * 10 + digit, W32)
  {
    var m := 0x1_0000_0000;
    var q := (x + 0x8000_0000) / m;
    assert WrapSigned(x, W32) == x - q * m;
    WrapSignedShift(x * 10 + digit, -10 * q);
  }

  lemma WrapSignedShift(y: int, k: int)
    ensures WrapSigned(y + k * 0x1_0000_0000, W32) == WrapSigned(y, W32)
  {
  }

  /** A field parsed out of a directive: its value, the bytes after it, and the argument cursor after it. */
  datatype Field<T> = Field(value: T, rest: seq<byte>, cursor: nat)

  /**
   * What `parse_width` returns. A leading `*` reads one `c_int` argument and
   * consumes one byte; otherwise the maximal digit run is read as a decimal
   * number, accumulated in a `c_int` (wrapping, as a release build does).
   */
  function WidthField(sub: seq<byte>, args: seq<ArgValue>, cursor: nat): Field<i32>
  {
    if sub != [] && sub[0] == StarByte then
      Field(ReadCInt(args, cursor), sub[1..], cursor + 1)
    else
      var n := DigitRunLength(sub);
      Field(WrapSigned(DecimalValue(sub[..n]), W32), sub[n..], cursor)
  }

  /** Without `*` and without digits, the width is 0 and nothing is consumed. */
  lemma WidthFieldNoDigits(sub: seq<byte>, args: seq<ArgValue>, cursor: nat)
    requires sub == [] || (sub[0] != StarByte && !IsDigit(sub[0]))
    ensures WidthField(sub, args, cursor) == Field(0, sub, cursor)
  {
  }

  /** Digits that fit a `c_int` are read as their decimal value. */
  lemma WidthFieldDigits(digits: seq<byte>, rest: seq<byte>, args: seq<ArgValue>, cursor: nat)
    requires forall j | 0 <= j < |digits| :: IsDigit(digits[j])
    requires rest == [] || !IsDigit(rest[0])
    requires digits != [] && DecimalValue(digits) <= I32Max
    ensures WidthField(digits + rest, args, cursor) == Field(DecimalValue(digits), rest, cursor)
  {
    var s := digits + rest;
    DigitRunLengthUnique(s, |digits|);
    assert s[..|digits|] == digits;
    assert s[|digits|..] == rest;
  }

  /** `parse_width`. The argument list is the sequence `args` read at `cursor`. */
  method ParseWidth(sub: seq<byte>, args: seq<ArgValue>, cursor: nat) returns (width: i32, rest: seq<byte>, cursor': nat)
    ensures Field(width, rest, cursor') == WidthField(sub, args, cursor)
  {
    width := 0;
    cursor' := cursor;
    if sub != [] && sub[0] == StarByte {
      return ReadCInt(args, cursor), NextChar(sub), cursor + 1;
    }
    rest := sub;
    ghost var i := 0;
    while rest != []
      invariant 0 <= i <= |sub| && rest == sub[i..]
      invariant forall j | 0 <= j < i :: IsDigit(sub[j])
      invariant width == WrapSigned(DecimalValue(sub[..i]), W32)
    {
      var ch := rest[0];
      if !IsDigit(ch) {
        break;
      }
      // `ch & 0x0f` is the digit's value for '0'..'9'.
      assert sub[..i + 1][..i] == sub[..i];
      WrapSignedStep(DecimalValue(sub[..i]), ch % 16);
      width := WrapSigned(width * 10 + ch % 16, W32);
      rest := NextChar(rest);
      i := i + 1;
    }
    DigitRunLengthUnique(sub, i);
  }

  /** What `parse_precision` returns: `None` unless the first byte is `.`; then a width field. */
  function PrecisionField(sub: seq<byte>, args: seq<ArgValue>, cursor: nat): Field<Option<i32>>
  {
    if sub != [] && sub[0] == DotByte then
      var w := WidthField(sub[1..], args, cursor);
      Field(Some(w.value), w.rest, w.cursor)
    else
      Field(None, sub, cursor)
  }

  /** A `.` followed by neither `*` nor a digit is precision 0. */
  lemma PrecisionFieldBareDot(rest: seq<byte>, args: seq<ArgValue>, cursor: nat)
    requires rest == [] || (rest[0] != StarByte && !IsDigit(rest[0]))
    ensures PrecisionField([DotByte] + rest, args, cursor) == Field(Some(0), rest, cursor)
  {
    assert ([DotByte] + rest)[1..] == rest;
  }

  /** `parse_precision`. */
  method ParsePrecision(sub: seq<byte>, args: seq<ArgValue>, cursor: nat) returns (precision: Option<i32>, rest: seq<byte>, cursor': nat)
    ensures Field(precision, rest, cursor') == PrecisionField(sub, args, cursor)
  {
    if sub != [] && sub[0] == DotByte {
      var prec;
      prec, rest, cursor' := ParseWidth(NextChar(sub), args, cursor);
      precision := Some(prec);
    } else {
      precision, rest, cursor' := None, sub, cursor;
    }
  }

  // ---------------------------------------------------------------------
  // Length modifier.
  // ---------------------------------------------------------------------

  datatype Length = Int | Char | Short | Long | LongLong | Usize | Isize

  const LowerH: byte := 104   // 'h'
  const LowerL: byte := 108   // 'l'
  const LowerZ: byte := 122   // 'z'
  const LowerT: byte := 116   // 't'

  /** How a length modifier is spelled in a format string. */
  function LengthText(l: Length): seq<byte>
  {
    match l
    case Int => []
    case Char => [LowerH, LowerH]
    case Short => [LowerH]
    case Long => [LowerL]
    case LongLong => [LowerL, LowerL]
    case Usize => [LowerZ]
    case Isize => [LowerT]
  }

  /**
   * `parse_length`: the longest modifier spelling at the front of `sub`.
   * The modifier's spelling is exactly what is consumed, and no longer
   * spelling would have matched.
   */
  function ParseLength(sub: seq<byte>): (r: (Length, seq<byte>))
    ensures sub == LengthText(r.0) + r.1
    ensures r.0 == Length.Int ==> sub == [] || sub[0] !in {LowerH, LowerL, LowerZ, LowerT}
    ensures r.0 == Length.Short ==> r.1 == [] || r.1[0] != LowerH
    ensures r.0 == Length.Long ==> r.1 == [] || r.1[0] != LowerL
  {
    if |sub| >= 1 && sub[0] == LowerH then
      if |sub| >= 2 && sub[1] == LowerH then (Length.Char, sub[2..]) else (Length.Short, NextChar(sub))
    else if |sub| >= 1 && sub[0] == LowerL then
      if |sub| >= 2 && sub[1] == LowerL then (Length.LongLong, sub[2..]) else (Length.Long, NextChar(sub))
    else if |sub| >= 1 && sub[0] == LowerZ then (Length.Usize, NextChar(sub))
    else if |sub| >= 1 && sub[0] == LowerT then (Length.Isize, NextChar(sub))
    else (Length.Int, sub)
  }

  /** Parsing a spelled modifier gives it back, unless the next byte would lengthen the match. */
  lemma ParseLengthOfText(l: Length, rest: seq<byte>)
    requires l == Length.Int ==> rest == [] || rest[0] !in {LowerH, LowerL, LowerZ, LowerT}
    requires l == Length.Short ==> rest == [] || rest[0] != LowerH
    requires l == Length.Long ==> rest == [] || rest[0] != LowerL
    ensures ParseLength(LengthText(l) + rest) == (l, rest)
  {
    var r := ParseLength(LengthText(l) + rest);
    LengthTextDistinct(l, r.0, rest, r.1);
  }

  /** Two spellings that split the same string under the maximal-munch conditions are the same split. */
  lemma LengthTextDistinct(l: Length, m: Length, rest: seq<byte>, rest': seq<byte>)
    requires LengthText(l) + rest == LengthText(m) + rest'
    requires l == Length.Int ==> rest == [] || rest[0] !in {LowerH, LowerL, LowerZ, LowerT}
    requires l == Length.Short ==> rest == [] || rest[0] != LowerH
    requires l == Length.Long ==> rest == [] || rest[0] != LowerL
    requires m == Length.Int ==> rest' == [] || rest'[0] !in {LowerH, LowerL, LowerZ, LowerT}
    requires m == Length.Short ==> rest' == [] || rest'[0] != LowerH
    requires m == Length.Long ==> rest' == [] || rest'[0] != LowerL
    ensures l == m && rest == rest'
  {
    var s := LengthText(l) + rest;
    assert s == LengthText(m) + rest';
    assert forall j | 0 <= j < |LengthText(l)| :: s[j] == LengthText(l)[j];
    assert forall j | 0 <= j < |LengthText(m)| :: s[j] == LengthText(m)[j];
    assert |LengthText(l)| < |s| ==> s[|LengthText(l)|] == rest[0];
    assert |LengthText(m)| < |s| ==> s[|LengthText(m)|] == rest'[0];
    assert |LengthText(l)| == |LengthText(m)|;
    assert LengthText(l) == s[..|LengthText(l)|] == LengthText(m);
    assert rest == s[|LengthText(l)|..] == rest';
  }

  /** The integer width a length modifier reads. `long` and `size_t` are 64 bits here. */
  function LengthWidth(l: Length): Width
  {
    match l
    case Int => W32
    case Char => W8
    case Short => W16
    case Long => W64
    case LongLong => W64
    case Usize => W64
    case Isize => W64
  }

  /** `Length::parse_signed`: the slot read as the modifier's signed type (`z` and `t` both give `Isize`). */
  function ParseSigned(l: Length, args: seq<ArgValue>, k: nat): SignedInt
  {
    match l
    case Int => SignedInt.Int(ReadSigned(args, k, W32))
    case Char => SignedInt.Char(ReadSigned(args, k, W8))
    case Short => SignedInt.Short(ReadSigned(args, k, W16))
    case Long => SignedInt.Long(ReadSigned(args, k, W64))
    case LongLong => SignedInt.LongLong(ReadSigned(args, k, W64))
    case Usize | Isize => SignedInt.Isize(ReadSigned(args, k, W64))
  }

  /** `Length::parse_unsigned`. */
  function ParseUnsigned(l: Length, args: seq<ArgValue>, k: nat): UnsignedInt
  {
    match l
    case Int => UnsignedInt.Int(ReadUnsigned(args, k, W32))
    case Char => UnsignedInt.Char(ReadUnsigned(args, k, W8))
    case Short => UnsignedInt.Short(ReadUnsigned(args, k, W16))
    case Long => UnsignedInt.Long(ReadUnsigned(args, k, W64))
    case LongLong => UnsignedInt.LongLong(ReadUnsigned(args, k, W64))
    case Usize | Isize => UnsignedInt.Isize(ReadUnsigned(args, k, W64))
  }

  /**
   * The payload has the modifier's width and holds the slot read at that
   * width; `z` and `t` both give the pointer-sized variant, `l` and `ll`
   * stay apart.
   */
  lemma ParseSignedReads(l: Length, args: seq<ArgValue>, k: nat)
    ensures var s := ParseSigned(l, args, k);
      s.Bits() == LengthWidth(l) && SignedToI64(s) == ReadSigned(args, k, LengthWidth(l)) &&
      (l == Length.Usize || l == Length.Isize ==> s.Isize?) &&
      (l == Length.Long ==> s.Long?) && (l == Length.LongLong ==> s.LongLong?)
  {
  }

  lemma ParseUnsignedReads(l: Length, args: seq<ArgValue>, k: nat)
    ensures var u := ParseUnsigned(l, args, k);
      u.Bits() == LengthWidth(l) && UnsignedToU64(u) == ReadUnsigned(args, k, LengthWidth(l)) &&
      (l == Length.Usize || l == Length.Isize ==> u.Isize?) &&
      (l == Length.Long ==> u.Long?) && (l == Length.LongLong ==> u.LongLong?)
  {
  }

  /** A value that fits the modifier's type reaches the handler unchanged. */
  lemma ParseSignedKeepsFittingValue(l: Length, args: seq<ArgValue>, k: nat)
    requires k < |args| && args[k].IntArg? && InSigned(args[k].value, LengthWidth(l))
    ensures SignedToI64(ParseSigned(l, args, k)) == args[k].value
  {
    ParseSignedReads(l, args, k);
  }

  // ---------------------------------------------------------------------
  // Conversion byte.
  // ---------------------------------------------------------------------

  /** The conversion bytes `format` accepts ('%' only arises from an empty piece before another '%'). */
  const ConversionBytes: set<byte> := {
    37, 100, 105, 120, 88, 117, 111, 102, 70, 101, 69, 103, 71, 97, 65, 115, 99, 112, 110
  }

  predicate IsAsciiUpper(b: byte)
  {
    65 <= b <= 90
  }

  /** What a conversion byte asks for. */
  datatype Conversion =
    | PercentSign | SignedDecimal | UnsignedDecimal | OctalDigits | LowerHexDigits | UpperHexDigits
    | Float(style: DoubleFormat) | CString | CChar | PointerValue | Count

  /** The table of conversion bytes; a floating-point byte's case selects the upper-case style. */
  function ConversionOf(ch: byte): Option<Conversion>
  {
    if ch == 37 then Some(PercentSign)                                           // %
    else if ch == 100 || ch == 105 then Some(SignedDecimal)                      // d i
    else if ch == 120 then Some(LowerHexDigits)                                  // x
    else if ch == 88 then Some(UpperHexDigits)                                   // X
    else if ch == 117 then Some(UnsignedDecimal)                                 // u
    else if ch == 111 then Some(OctalDigits)                                     // o
    else if ch == 102 || ch == 70 then Some(Float(Normal.SetUpper(IsAsciiUpper(ch))))       // f F
    else if ch == 101 || ch == 69 then Some(Float(Scientific.SetUpper(IsAsciiUpper(ch))))   // e E
    else if ch == 103 || ch == 71 then Some(Float(Auto.SetUpper(IsAsciiUpper(ch))))         // g G
    else if ch == 97 || ch == 65 then Some(Float(DoubleFormat.Hex.SetUpper(IsAsciiUpper(ch))))  // a A
    else if ch == 115 then Some(CString)                                         // s
    else if ch == 99 then Some(CChar)                                            // c
    else if ch == 112 then Some(PointerValue)                                    // p
    else if ch == 110 then Some(Count)                                           // n
    else None
  }

  /** The specifier for a conversion, reading its value from slot `k`; the second component is the cursor after it. */
  function Specify(c: Conversion, l: Length, args: seq<ArgValue>, k: nat, written: int): (Specifier, nat)
  {
    match c
    case PercentSign => (Percent, k)
    case SignedDecimal => (Specifier.Int(ParseSigned(l, args, k)), k + 1)
    case UnsignedDecimal => (Uint(ParseUnsigned(l, args, k)), k + 1)
    case OctalDigits => (Octal(ParseUnsigned(l, args, k)), k + 1)
    case LowerHexDigits => (Specifier.Hex(ParseUnsigned(l, args, k)), k + 1)
    case UpperHexDigits => (Specifier.UpperHex(ParseUnsigned(l, args, k)), k + 1)
    case Float(style) => (Double(ReadDouble(args, k), style), k + 1)
    case CString => (String(ReadCStr(args, k)), k + 1)
    case CChar => (Specifier.Char(ReadUnsigned(args, k, W8)), k + 1)
    case PointerValue => (Pointer(ReadUnsigned(args, k, W64)), k + 1)
    case Count => (WriteBytesWritten(written, ReadUnsigned(args, k, W64)), k + 1)
  }

  /**
   * The match on the conversion byte: the specifier and the cursor after
   * reading its value argument, or `None` for an unrecognised byte.
   * `written` is the running total that `%n` passes on.
   */
  function Convert(ch: byte, l: Length, args: seq<ArgValue>, k: nat, written: int): Option<(Specifier, nat)>
  {
    match ConversionOf(ch)
    case None => None
    case Some(c) => Some(Specify(c, l, args, k, written))
  }

  /**
   * A byte is accepted iff it is a conversion byte; `%` reads no argument
   * and every other conversion exactly one; a floating-point style is
   * upper-case iff its byte is; `%n` carries the running total.
   */
  lemma ConvertProperties(ch: byte, l: Length, args: seq<ArgValue>, k: nat, written: int)
    ensures var r := Convert(ch, l, args, k, written);
      (r.Some? <==> ch in ConversionBytes) &&
      (r.Some? ==> r.value.1 == if ch == PercentByte then k else k + 1) &&
      (r.Some? ==> (r.value.0.Percent? <==> ch == PercentByte)) &&
      (r.Some? && r.value.0.Double? ==> r.value.0.format.IsUpper() == IsAsciiUpper(ch)) &&
      (r.Some? && r.value.0.WriteBytesWritten? ==> r.value.0.written == written)
  {
  }

  // ---------------------------------------------------------------------
  // One directive piece.
  // ---------------------------------------------------------------------

  /** A parsed directive: the argument for the handler, the literal text after it, the cursor, and whether it was `%%`. */
  datatype Directive = Directive(arg: Argument, tail: seq<byte>, cursor: nat, percent: bool)

  /**
   * The directive at the front of piece `sub`. When the directive runs to
   * the end of the piece, the conversion byte is the `%` that ended the
   * piece if another piece follows, and otherwise there is none (NUL).
   */
  function ParseDirective(sub: seq<byte>, hasNext: bool, args: seq<ArgValue>, cursor: nat, written: int): Option<Directive>
  {
    var (flags, s1) := FlagsField(sub);
    var w := WidthField(s1, args, cursor);
    var p := PrecisionField(w.rest, args, w.cursor);
    var (length, s4) := ParseLength(p.rest);
    var ch: byte := if s4 != [] then s4[0] else if hasNext then PercentByte else 0;
    match Convert(ch, length, args, p.cursor, written)
    case None => None
    case Some((spec, k)) => Some(Directive(Argument(flags, w.value, p.value, spec), NextChar(s4), k, spec.Percent?))
  }

  /** The parsing half of `format`'s loop body: the field parsers in order, then the conversion. */
  method ReadDirective(sub: seq<byte>, hasNext: bool, args: seq<ArgValue>, cursor: nat, written: int) returns (d: Option<Directive>)
    ensures d == ParseDirective(sub, hasNext, args, cursor, written)
  {
    var flags, s1 := ParseFlags(sub);
    var width, s2, c1 := ParseWidth(s1, args, cursor);
    var precision, s3, c2 := ParsePrecision(s2, args, c1);
    var (length, s4) := ParseLength(s3);
    var ch: byte := if s4 != [] then s4[0] else if hasNext then PercentByte else 0;
    var conv := Convert(ch, length, args, c2, written);
    if conv.None? {
      return None;
    }
    var (spec, c3) := conv.value;
    return Some(Directive(Argument(flags, width, precision, spec), NextChar(s4), c3, spec.Percent?));
  }

  // ---------------------------------------------------------------------
  // The reference scan.
  // ---------------------------------------------------------------------

  /**
   * What `format` did: handler calls and their results, final handler state,
   * return value, cursor, and whether it stopped at a directive it could not
   * parse (an unknown conversion, or `%` at the very end).
   */
  datatype Outcome<S> = Outcome(calls: seq<Argument>, results: seq<int>, state: S, result: int, cursor: nat, rejected: bool)

  /** The scanner's state between pieces. */
  datatype ScanState<S> = ScanState(calls: seq<Argument>, results: seq<int>, state: S, written: int, cursor: nat, lastWasPercent: bool)

  /** One handler call, recorded. */
  function Call<S>(h: (S, Argument) -> (S, int), st: ScanState<S>, a: Argument): (r: (ScanState<S>, int))
    ensures r.0.calls == st.calls + [a] && r.0.results == st.results + [r.1]
    ensures r.0.cursor == st.cursor && r.0.lastWasPercent == st.lastWasPercent
    ensures r.0.written == st.written + r.1
  {
    var (s', res) := h(st.state, a);
    (st.(calls := st.calls + [a], results := st.results + [res], state := s', written := st.written + res), res)
  }

  function Stop<S>(st: ScanState<S>, result: int, rejected: bool): Outcome<S>
  {
    Outcome(st.calls, st.results, st.state, result, st.cursor, rejected)
  }

  /** The effect of one piece: a handler call failed, the directive was rejected, or the scan goes on. */
  datatype Step<S> = Failed(at: ScanState<S>) | Rejected(at: ScanState<S>) | Next(st: ScanState<S>)

  /** One piece `sub` of the format string; `hasNext` says whether a further piece follows it. */
  function PieceStep<S>(sub: seq<byte>, hasNext: bool, st: ScanState<S>, args: seq<ArgValue>, h: (S, Argument) -> (S, int)): Step<S>
  {
    if st.lastWasPercent then
      var (st1, res) := Call(h, st, FromSpecifier(Bytes(sub)));
      if res < 0 then Failed(st1) else Next(st1.(lastWasPercent := false))
    else
      match ParseDirective(sub, hasNext, args, st.cursor, st.written)
      case None => Rejected(st)
      case Some(d) =>
        var (st1, res1) := Call(h, st.(cursor := d.cursor), d.arg);
        if res1 < 0 then Failed(st1)
        else
          var (st2, res2) := Call(h, st1.(lastWasPercent := d.percent), FromSpecifier(Bytes(d.tail)));
          if res2 < 0 then Failed(st2) else Next(st2)
  }

  /** The pieces from index `i` on, scanned from state `st`. */
  function Scan<S>(pieces: seq<seq<byte>>, i: nat, st: ScanState<S>, args: seq<ArgValue>, h: (S, Argument) -> (S, int)): Outcome<S>
    requires i <= |pieces|
    decreases |pieces| - i
  {
    if i == |pieces| then Stop(st, st.written, false)
    else
      match PieceStep(pieces[i], i + 1 < |pieces|, st, args, h)
      case Failed(st') => Stop(st', -1, false)
      case Rejected(st') => Stop(st', -1, true)
      case Next(st') => Scan(pieces, i + 1, st', args, h)
  }

  /** The reference meaning of `format(fmt, args, handler)` with the handler starting in state `s0`. */
  function FormatSpec<S>(fmt: seq<byte>, args: seq<ArgValue>, h: (S, Argument) -> (S, int), s0: S): Outcome<S>
  {
    var pieces := Split(fmt);
    var (st, res) := Call(h, ScanState([], [], s0, 0, 0, false), FromSpecifier(Bytes(pieces[0])));
    if res < 0 then Stop(st, -1, false) else Scan(pieces, 1, st, args, h)
  }

  /**
   * The body of `format`'s loop for one piece. The running total, the
   * argument cursor, the `%%` marker and the handler's state are threaded
   * through; `failed` means that a handler call returned a negative result
   * and `rejected` that the directive could not be parsed: in either case
   * `format` returns -1 now.
   */
  method FormatPiece<S>(sub: seq<byte>, hasNext: bool, args: seq<ArgValue>, handler: (S, Argument) -> (S, int),
                        st: ScanState<S>) returns (failed: bool, rejected: bool, st': ScanState<S>)
    ensures !(failed && rejected)
    ensures PieceStep(sub, hasNext, st, args, handler) ==
      if rejected then Rejected(st') else if failed then Failed(st') else Next(st')
  {
    var call;
    if st.lastWasPercent {
      call := Call(handler, st, FromSpecifier(Bytes(sub)));
      st' := call.0;
      if call.1 < 0 {
        return true, false, st';
      }
      return false, false, st'.(lastWasPercent := false);
    }
    var directive := ReadDirective(sub, hasNext, args, st.cursor, st.written);
    if directive.None? {
      return false, true, st;
    }
    var d := directive.value;
    call := Call(handler, st.(cursor := d.cursor), d.arg);
    if call.1 < 0 {
      return true, false, call.0;
    }
    call := Call(handler, call.0.(lastWasPercent := d.percent), FromSpecifier(Bytes(d.tail)));
    return call.1 < 0, false, call.0;
  }

  /**
   * `format`. `fmt` is the C string's bytes before its terminator, `args`
   * the variadic arguments, and `handler` the caller's closure, starting in
   * state `s0`; the final state of the closure is returned in `s`.
   */
  method Format<S>(fmt: seq<byte>, args: seq<ArgValue>, handler: (S, Argument) -> (S, int), s0: S)
    returns (r: int, s: S, ghost calls: seq<Argument>)
    ensures r == FormatSpec(fmt, args, handler, s0).result
    ensures s == FormatSpec(fmt, args, handler, s0).state
    ensures calls == FormatSpec(fmt, args, handler, s0).calls
  {
    var pieces := Split(fmt);
    var a := FromSpecifier(Bytes(pieces[0]));
    var (st, res) := Call(handler, ScanState([], [], s0, 0, 0, false), a);
    if res < 0 {
      return -1, st.state, st.calls;
    }
    ghost var goal := FormatSpec(fmt, args, handler, s0);
    var i := 1;
    while i < |pieces|
      invariant 1 <= i <= |pieces|
      invariant goal == Scan(pieces, i, st, args, handler)
    {
      var failed, rejected;
      failed, rejected, st := FormatPiece(pieces[i], i + 1 < |pieces|, args, handler, st);
      if failed || rejected {
        return -1, st.state, st.calls;
      }
      i := i + 1;
    }
    return st.written, st.state, st.calls;
  }
}
