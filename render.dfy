/**
 * The parts of Rust's `core::fmt` that the output adapters rely on, as
 * explicit specification functions: the digit strings of `Display`,
 * `Octal`, `LowerHex` and `UpperHex`, the UTF-8 check of `str::from_utf8`,
 * and the padding rules of `Formatter::pad_integral` and `Formatter::pad`.
 *
 * A `write!` call reaches the underlying writer as a sequence of
 * `write_str` calls. A rendering is therefore a sequence of chunks, one per
 * such call, in the order `core::fmt` makes them (every fill character is a
 * chunk of its own); `Flatten` gives the text that results.
 */
module CoreFmt {
  import opened CTypes

  const Space: byte := 32
  const Plus: byte := 43
  const Minus: byte := 45
  const Zero: byte := 48

  /** `n` copies of `b`. */
  function Repeat(b: byte, n: nat): (r: seq<byte>)
    ensures |r| == n
    ensures forall i | 0 <= i < n :: r[i] == b
  {
    seq(n, _ => b)
  }

  lemma RepeatSplit(b: byte, m: nat, n: nat)
    ensures Repeat(b, m + n) == Repeat(b, m) + Repeat(b, n)
  {
  }

  // ---------------------------------------------------------------------
  // Chunks.
  // ---------------------------------------------------------------------

  /** The text written by a sequence of `write_str` calls. */
  function Flatten(cs: seq<seq<byte>>): seq<byte>
  {
    if cs == [] then [] else cs[0] + Flatten(cs[1..])
  }

  lemma {:induction false} FlattenConcat(a: seq<seq<byte>>, b: seq<seq<byte>>)
    ensures Flatten(a + b) == Flatten(a) + Flatten(b)
  {
    if a == [] {
      assert a + b == b;
    } else {
      assert (a + b)[0] == a[0];
      assert (a + b)[1..] == a[1..] + b;
      FlattenConcat(a[1..], b);
    }
  }

  lemma FlattenOne(c: seq<byte>)
    ensures Flatten([c]) == c
  {
    assert [c][1..] == [];
  }

  /** `n` fill characters, each written by its own `write_char`. */
  function Fills(f: byte, n: nat): (r: seq<seq<byte>>)
    ensures |r| == n
  {
    seq(n, _ => [f])
  }

  lemma {:induction false} FlattenFills(f: byte, n: nat)
    ensures Flatten(Fills(f, n)) == Repeat(f, n)
  {
    if n > 0 {
      assert Fills(f, n)[1..] == Fills(f, n - 1);
      FlattenFills(f, n - 1);
      assert Repeat(f, n) == [f] + Repeat(f, n - 1);
    }
  }

  /** A chunk that is written only when it is not empty (`if let Some(c) = sign`). */
  function NonEmpty(c: seq<byte>): seq<seq<byte>>
  {
    if c == [] then [] else [c]
  }

  lemma FlattenNonEmpty(c: seq<byte>)
    ensures Flatten(NonEmpty(c)) == c
  {
    if c != [] {
      FlattenOne(c);
    }
  }

  // ---------------------------------------------------------------------
  // Digit strings.
  // ---------------------------------------------------------------------

  predicate IsBase(base: nat)
  {
    2 <= base <= 16
  }

  /** The ASCII digit for `d`: `0`-`9`, then `a`-`f` or `A`-`F`. */
  function DigitByte(d: nat, upper: bool): (b: byte)
    requires d < 16
  {
    if d < 10 then Zero + d else (if upper then 55 else 87) + d
  }

  /** The value of a digit byte, in either case; `None` for any other byte. */
  function DigitOf(b: byte): (r: Option<nat>)
    ensures r.Some? ==> r.value < 16
  {
    if 48 <= b <= 57 then Some(b - 48)
    else if 97 <= b <= 102 then Some(b - 87)
    else if 65 <= b <= 70 then Some(b - 55)
    else None
  }

  lemma DigitOfDigitByte(d: nat, upper: bool)
    requires d < 16
    ensures DigitOf(DigitByte(d, upper)) == Some(d)
  {
  }

  /** The digits of `n` in `base`, most significant first, as `fmt_u64` and `GenericRadix::fmt_int` produce them. */
  function Digits(n: nat, base: nat, upper: bool): (ds: seq<byte>)
    requires IsBase(base)
    ensures |ds| >= 1
    decreases n
  {
    if n < base then [DigitByte(n, upper)]
    else Digits(n / base, base, upper) + [DigitByte(n % base, upper)]
  }

  /** The number a digit string denotes in `base` (leading zeros allowed); `None` if a byte is not a digit of `base`. */
  function ValueOf(ds: seq<byte>, base: nat): Option<nat>
    requires IsBase(base)
  {
    if ds == [] then Some(0)
    else
      match (ValueOf(ds[..|ds| - 1], base), DigitOf(ds[|ds| - 1]))
      case (Some(v), Some(d)) => if d < base then Some(v * base + d) else None
      case _ => None
  }

  /** Reading the digits back gives the number. */
  lemma {:induction false} DigitsRoundTrip(n: nat, base: nat, upper: bool)
    requires IsBase(base)
    ensures ValueOf(Digits(n, base, upper), base) == Some(n)
    decreases n
  {
    if n < base {
      ValueOfAppend([], 0, n, base, upper);
      assert [] + [DigitByte(n, upper)] == Digits(n, base, upper);
    } else {
      DivLess(n, base);
      DigitsRoundTrip(n / base, base, upper);
      DigitsStep(n, base, upper);
    }
  }

  lemma DivLess(n: nat, base: nat)
    requires IsBase(base) && n >= base
    ensures n / base < n
  {
  }

  lemma DivMod(n: nat, base: nat)
    requires IsBase(base)
    ensures (n / base) * base + n % base == n
  {
  }

  /** One step of the round trip: the last digit is `n % base`, the others are the digits of `n / base`. */
  lemma DigitsStep(n: nat, base: nat, upper: bool)
    requires IsBase(base) && n >= base
    requires ValueOf(Digits(n / base, base, upper), base) == Some(n / base)
    ensures ValueOf(Digits(n, base, upper), base) == Some(n)
  {
    var q, d := n / base, n % base;
    var dq := Digits(q, base, upper);
    ValueOfAppend(dq, q, d, base, upper);
    assert Digits(n, base, upper) == dq + [DigitByte(d, upper)];
    DivMod(n, base);
  }

  /** Appending a digit multiplies by the base and adds the digit. */
  lemma ValueOfAppend(ds: seq<byte>, v: nat, d: nat, base: nat, upper: bool)
    requires IsBase(base) && d < base && ValueOf(ds, base) == Some(v)
    ensures ValueOf(ds + [DigitByte(d, upper)], base) == Some(v * base + d)
  {
    var s := ds + [DigitByte(d, upper)];
    assert s[..|s| - 1] == ds;
    DigitOfDigitByte(d, upper);
  }

  /** The digit strings are canonical: no leading zero except for the number zero itself. */
  lemma {:induction false} DigitsCanonical(n: nat, base: nat, upper: bool)
    requires IsBase(base)
    ensures (Digits(n, base, upper)[0] == Zero) <==> n == 0
    decreases n
  {
    if n >= base {
      DivLess(n, base);
      DigitsCanonical(n / base, base, upper);
    }
  }

  /** No digit string contains a space, a sign or a lower-case `x` or `o`. */
  lemma {:induction false} DigitsAreDigits(n: nat, base: nat, upper: bool)
    requires IsBase(base)
    ensures forall i | 0 <= i < |Digits(n, base, upper)| :: DigitOf(Digits(n, base, upper)[i]).Some?
    decreases n
  {
    if n >= base {
      DivLess(n, base);
      DigitsAreDigits(n / base, base, upper);
    }
  }

  /** Leading zeros do not change the value of a digit string. */
  lemma {:induction false} ValueOfLeadingZeros(z: nat, ds: seq<byte>, base: nat)
    requires IsBase(base)
    ensures ValueOf(Repeat(Zero, z) + ds, base) == ValueOf(ds, base)
    decreases |ds|
  {
    var s := Repeat(Zero, z) + ds;
    if ds == [] {
      assert s == Repeat(Zero, z);
      ZerosValue(z, base);
    } else {
      assert s[..|s| - 1] == Repeat(Zero, z) + ds[..|ds| - 1];
      assert s[|s| - 1] == ds[|ds| - 1];
      ValueOfLeadingZeros(z, ds[..|ds| - 1], base);
    }
  }

  lemma {:induction false} ZerosValue(z: nat, base: nat)
    requires IsBase(base)
    ensures ValueOf(Repeat(Zero, z), base) == Some(0)
  {
    if z > 0 {
      assert Repeat(Zero, z)[..z - 1] == Repeat(Zero, z - 1);
      ZerosValue(z - 1, base);
    }
  }

  // ---------------------------------------------------------------------
  // UTF-8, as `str::from_utf8` checks it (the Unicode Standard, table 3-7).
  // ---------------------------------------------------------------------

  predicate IsContinuation(b: byte)
  {
    0x80 <= b <= 0xBF
  }

  /** The length of the well-formed UTF-8 sequence that starts `s`, or 0 when `s` does not start with one. */
  function Utf8Len(s: seq<byte>): (k: nat)
    ensures k <= |s| && k <= 4
    ensures s != [] && s[0] < 0x80 ==> k == 1
  {
    if s == [] then 0
    else if s[0] < 0x80 then 1
    else if 0xC2 <= s[0] <= 0xDF then
      (if |s| >= 2 && IsContinuation(s[1]) then 2 else 0)
    else if 0xE0 <= s[0] <= 0xEF then
      var lo := if s[0] == 0xE0 then 0xA0 else 0x80;
      var hi := if s[0] == 0xED then 0x9F else 0xBF;
      (if |s| >= 3 && lo <= s[1] <= hi && IsContinuation(s[2]) then 3 else 0)
    else if 0xF0 <= s[0] <= 0xF4 then
      var lo := if s[0] == 0xF0 then 0x90 else 0x80;
      var hi := if s[0] == 0xF4 then 0x8F else 0xBF;
      (if |s| >= 4 && lo <= s[1] <= hi && IsContinuation(s[2]) && IsContinuation(s[3]) then 4 else 0)
    else 0
  }

  /** `str::from_utf8(s).is_ok()`. */
  predicate ValidUtf8(s: seq<byte>)
    decreases |s|
  {
    s == [] || (Utf8Len(s) > 0 && ValidUtf8(s[Utf8Len(s)..]))
  }

  /** `s.chars().count()`. */
  function CharCount(s: seq<byte>): nat
    requires ValidUtf8(s)
    decreases |s|
  {
    if s == [] then 0 else 1 + CharCount(s[Utf8Len(s)..])
  }

  /** The first `n` characters of `s` (all of it when it has fewer). */
  function TakeChars(s: seq<byte>, n: nat): (r: seq<byte>)
    requires ValidUtf8(s)
    ensures |r| <= |s| && r == s[..|r|]
    decreases |s|
  {
    if s == [] || n == 0 then [] else s[..Utf8Len(s)] + TakeChars(s[Utf8Len(s)..], n - 1)
  }

  /** Truncating keeps whole characters: the result is valid and has `min(n, CharCount(s))` of them. */
  lemma {:induction false} TakeCharsCount(s: seq<byte>, n: nat)
    requires ValidUtf8(s)
    ensures ValidUtf8(TakeChars(s, n))
    ensures CharCount(TakeChars(s, n)) == if n < CharCount(s) then n else CharCount(s)
    decreases |s|
  {
    if s != [] && n > 0 {
      var k := Utf8Len(s);
      var r := TakeChars(s, n);
      TakeCharsCount(s[k..], n - 1);
      var t := TakeChars(s[k..], n - 1);
      assert r == s[..k] + t;
      assert r[..k] == s[..k];
      Utf8LenPrefix(s, r, k);
      assert r[k..] == t;
    }
  }

  /** The length of the first sequence depends only on its own bytes. */
  lemma Utf8LenPrefix(s: seq<byte>, r: seq<byte>, k: nat)
    requires k == Utf8Len(s) && k > 0 && k <= |r| && r[..k] == s[..k]
    ensures Utf8Len(r) == k
  {
    assert r[0] == s[0];
    if k >= 2 { assert r[1] == s[1]; }
    if k >= 3 { assert r[2] == s[2]; }
    if k >= 4 { assert r[3] == s[3]; }
  }

  /** Every character takes at least one byte. */
  lemma {:induction false} CharCountAtMostLength(s: seq<byte>)
    requires ValidUtf8(s)
    ensures CharCount(s) <= |s|
    decreases |s|
  {
    if s != [] {
      CharCountAtMostLength(s[Utf8Len(s)..]);
    }
  }

  /** Asking for at least as many characters as there are keeps the whole text. */
  lemma {:induction false} TakeCharsAll(s: seq<byte>, n: nat)
    requires ValidUtf8(s) && CharCount(s) <= n
    ensures TakeChars(s, n) == s
    decreases |s|
  {
    if s != [] {
      TakeCharsAll(s[Utf8Len(s)..], n - 1);
      assert s[..Utf8Len(s)] + s[Utf8Len(s)..] == s;
    }
  }

  /** On ASCII text, characters are bytes. */
  lemma {:induction false} AsciiIsUtf8(s: seq<byte>, n: nat)
    requires IsAscii(s)
    ensures ValidUtf8(s) && CharCount(s) == |s|
    ensures TakeChars(s, n) == s[..if n < |s| then n else |s|]
    decreases |s|
  {
    if s != [] {
      assert IsAscii(s[1..]);
      AsciiIsUtf8(s[1..], if n == 0 then 0 else n - 1);
    }
  }

  /** `u8 as char` encoded: a byte below 0x80 stands for itself, a higher one becomes two bytes. */
  function Latin1ToUtf8(c: byte): (r: seq<byte>)
    ensures ValidUtf8(r) && CharCount(r) == 1
  {
    var r := if c < 0x80 then [c] else [0xC0 + c / 64, 0x80 + c % 64];
    assert r[Utf8Len(r)..] == [];
    r
  }

  // ---------------------------------------------------------------------
  // Formatter options and padding.
  // ---------------------------------------------------------------------

  /** `<`, `>` or no alignment in a format spec. */
  datatype Align = Unset | Left | Right

  /**
   * The options of a format spec that the adapters use: alignment, `+`,
   * `#`, `0` and the width. A `c_int` width is turned into `usize` by
   * the caller.
   */
  datatype Options = Options(align: Align, plus: bool, alternate: bool, zero: bool, width: nat)

  /** `Formatter::padding`: how many fill characters go before and after, for a default alignment. */
  function PaddingSplit(count: nat, align: Align, default: Align): (r: (nat, nat))
    ensures r.0 + r.1 == count
    ensures r.0 == 0 || r.1 == 0
  {
    match (if align == Unset then default else align)
    case Left => (0, count)
    case _ => (count, 0)
  }

  /** The sign `pad_integral` writes: `-` for a negative value, `+` when asked for, otherwise none. */
  function SignOf(nonneg: bool, plus: bool): (s: seq<byte>)
  {
    if !nonneg then [Minus] else if plus then [Plus] else []
  }

  /**
   * `Formatter::pad_integral(is_nonnegative, prefix, buf)`: the sign, the
   * prefix when `#` is set, the digits, and padding up to the width. The
   * `0` option puts zeros between the prefix and the digits; otherwise
   * spaces go before (the default, right alignment) or after (`<`).
   */
  function PadIntegral(o: Options, nonneg: bool, prefix: seq<byte>, buf: seq<byte>): seq<seq<byte>>
  {
    var sign := SignOf(nonneg, o.plus);
    var pre: seq<seq<byte>> := if o.alternate then [prefix] else [];
    var len := |buf| + |sign| + (if o.alternate then |prefix| else 0);
    if o.width <= len then NonEmpty(sign) + pre + [buf]
    else if o.zero then NonEmpty(sign) + pre + Fills(Zero, o.width - len) + [buf]
    else
      var (before, after) := PaddingSplit(o.width - len, o.align, Right);
      Fills(Space, before) + NonEmpty(sign) + pre + [buf] + Fills(Space, after)
  }

  /**
   * `Formatter::pad(s)` with a width: at most `precision` characters of
   * `s`, then spaces up to the width, after the text by default (on the
   * left with `>`). Width and precision count characters, not bytes.
   */
  function PadStr(align: Align, width: nat, precision: Option<nat>, s: seq<byte>): seq<seq<byte>>
    requires ValidUtf8(s)
  {
    var t := if precision.Some? then TakeChars(s, precision.value) else s;
    TakeCharsCount(s, if precision.Some? then precision.value else 0);
    PadCounted(align, width, t, CharCount(t))
  }

  /** The writes of `Formatter::pad` for a text `t` of `n` characters. */
  function PadCounted(align: Align, width: nat, t: seq<byte>, n: nat): seq<seq<byte>>
  {
    if width <= n then [t]
    else
      var (before, after) := PaddingSplit(width - n, align, Left);
      Fills(Space, before) + [t] + Fills(Space, after)
  }

  // ---------------------------------------------------------------------
  // Reading a padded number back.
  // ---------------------------------------------------------------------

  function DropLeadingSpaces(s: seq<byte>): (r: seq<byte>)
    ensures r != [] ==> r[0] != Space
  {
    if s != [] && s[0] == Space then DropLeadingSpaces(s[1..]) else s
  }

  function DropTrailingSpaces(s: seq<byte>): seq<byte>
  {
    if s != [] && s[|s| - 1] == Space then DropTrailingSpaces(s[..|s| - 1]) else s
  }

  /** The text without the spaces around it. */
  function Trim(text: seq<byte>): seq<byte>
  {
    DropTrailingSpaces(DropLeadingSpaces(text))
  }

  /** `prefix` (when it is not empty it must be there), then at least one digit of `base`. */
  function ReadPrefixed(s: seq<byte>, prefix: seq<byte>, base: nat): Option<nat>
    requires IsBase(base)
  {
    if |s| < |prefix| || s[..|prefix|] != prefix || |s| == |prefix| then None
    else ValueOf(s[|prefix|..], base)
  }

  function Signed(negative: bool, v: Option<nat>): Option<int>
  {
    match v
    case None => None
    case Some(x) => Some(if negative then -(x as int) else x as int)
  }

  /** An optional sign, then what `ReadPrefixed` accepts. */
  function ReadSignedDigits(s: seq<byte>, prefix: seq<byte>, base: nat): Option<int>
    requires IsBase(base)
  {
    if s != [] && (s[0] == Minus || s[0] == Plus) then Signed(s[0] == Minus, ReadPrefixed(s[1..], prefix, base))
    else Signed(false, ReadPrefixed(s, prefix, base))
  }

  /** The integer a padded text shows: the spaces around it are ignored. */
  function ReadInteger(text: seq<byte>, prefix: seq<byte>, base: nat): Option<int>
    requires IsBase(base)
  {
    ReadSignedDigits(Trim(text), prefix, base)
  }

  lemma {:induction false} DropLeadingSpacesOver(n: nat, t: seq<byte>)
    requires t != [] && t[0] != Space
    ensures DropLeadingSpaces(Repeat(Space, n) + t) == t
  {
    if n > 0 {
      assert (Repeat(Space, n) + t)[1..] == Repeat(Space, n - 1) + t;
      DropLeadingSpacesOver(n - 1, t);
    }
  }

  lemma {:induction false} DropTrailingSpacesOver(t: seq<byte>, n: nat)
    requires t != [] && t[|t| - 1] != Space
    ensures DropTrailingSpaces(t + Repeat(Space, n)) == t
  {
    if n > 0 {
      assert (t + Repeat(Space, n))[..|t| + n - 1] == t + Repeat(Space, n - 1);
      DropTrailingSpacesOver(t, n - 1);
    } else {
      assert t + Repeat(Space, 0) == t;
    }
  }

  /** The text between the spaces: sign, prefix, zeros, digits. */
  function NumberBody(sign: seq<byte>, prefix: seq<byte>, zeros: nat, ds: seq<byte>): seq<byte>
  {
    sign + prefix + Repeat(Zero, zeros) + ds
  }

  /** The prefix comes off, and zeros and digits read as the digits' value. */
  lemma ReadPrefixedDigits(prefix: seq<byte>, zeros: nat, v: nat, base: nat, upper: bool)
    requires IsBase(base)
    ensures ReadPrefixed(prefix + (Repeat(Zero, zeros) + Digits(v, base, upper)), prefix, base) == Some(v)
  {
    var rest := Repeat(Zero, zeros) + Digits(v, base, upper);
    var s := prefix + rest;
    assert s[..|prefix|] == prefix;
    assert s[|prefix|..] == rest;
    ValueOfLeadingZeros(zeros, Digits(v, base, upper), base);
    DigitsRoundTrip(v, base, upper);
  }

  /** Sign, prefix, zeros and digits read back as the digits' value, negated for `-`. */
  lemma ReadNumberBody(sign: seq<byte>, prefix: seq<byte>, zeros: nat, v: nat, base: nat, upper: bool)
    requires IsBase(base)
    requires sign == [] || sign == [Minus] || sign == [Plus]
    requires prefix == [] || DigitOf(prefix[0]).Some?
    ensures ReadSignedDigits(NumberBody(sign, prefix, zeros, Digits(v, base, upper)), prefix, base)
      == Some(if sign == [Minus] then -(v as int) else v as int)
  {
    if sign == [] {
      ReadNumberBodyNoSign(prefix, zeros, v, base, upper);
      assert NumberBody(sign, prefix, zeros, Digits(v, base, upper)) == prefix + (Repeat(Zero, zeros) + Digits(v, base, upper));
    } else {
      ReadNumberBodySign(sign[0], prefix, zeros, v, base, upper);
      assert sign == [sign[0]];
    }
  }

  lemma ReadNumberBodyNoSign(prefix: seq<byte>, zeros: nat, v: nat, base: nat, upper: bool)
    requires IsBase(base)
    requires prefix == [] || DigitOf(prefix[0]).Some?
    ensures ReadSignedDigits(prefix + (Repeat(Zero, zeros) + Digits(v, base, upper)), prefix, base) == Some(v as int)
  {
    var s1 := prefix + (Repeat(Zero, zeros) + Digits(v, base, upper));
    ReadPrefixedDigits(prefix, zeros, v, base, upper);
    FirstIsDigit(prefix, zeros, v, base, upper);
    ReadUnsignedBody(s1, prefix, base, v);
  }

  lemma ReadNumberBodySign(c: byte, prefix: seq<byte>, zeros: nat, v: nat, base: nat, upper: bool)
    requires IsBase(base)
    requires c == Minus || c == Plus
    ensures ReadSignedDigits(NumberBody([c], prefix, zeros, Digits(v, base, upper)), prefix, base)
      == Some(if c == Minus then -(v as int) else v as int)
  {
    var s1 := prefix + (Repeat(Zero, zeros) + Digits(v, base, upper));
    ReadPrefixedDigits(prefix, zeros, v, base, upper);
    assert NumberBody([c], prefix, zeros, Digits(v, base, upper)) == [c] + s1;
    ReadSignBody(c, s1, prefix, base, v);
  }

  lemma ReadUnsignedBody(s: seq<byte>, prefix: seq<byte>, base: nat, v: nat)
    requires IsBase(base)
    requires s != [] && DigitOf(s[0]).Some?
    requires ReadPrefixed(s, prefix, base) == Some(v)
    ensures ReadSignedDigits(s, prefix, base) == Some(v as int)
  {
  }

  lemma ReadSignBody(c: byte, s: seq<byte>, prefix: seq<byte>, base: nat, v: nat)
    requires IsBase(base)
    requires c == Minus || c == Plus
    requires ReadPrefixed(s, prefix, base) == Some(v)
    ensures ReadSignedDigits([c] + s, prefix, base) == Some(if c == Minus then -(v as int) else v as int)
  {
    assert ([c] + s)[1..] == s;
  }

  /** Without a sign, the body starts with a digit. */
  lemma FirstIsDigit(prefix: seq<byte>, zeros: nat, v: nat, base: nat, upper: bool)
    requires IsBase(base)
    requires prefix == [] || DigitOf(prefix[0]).Some?
    ensures var s := prefix + (Repeat(Zero, zeros) + Digits(v, base, upper));
      s != [] && DigitOf(s[0]).Some?
  {
    var ds := Digits(v, base, upper);
    var s := prefix + (Repeat(Zero, zeros) + ds);
    DigitsAreDigits(v, base, upper);
    if prefix == [] && zeros == 0 {
      assert s[0] == ds[0];
    } else if prefix == [] {
      assert s[0] == Zero;
    } else {
      assert s[0] == prefix[0];
    }
  }

  /** The body neither starts nor ends with a space. */
  lemma NumberBodyEnds(sign: seq<byte>, prefix: seq<byte>, zeros: nat, v: nat, base: nat, upper: bool)
    requires IsBase(base)
    requires sign == [] || sign == [Minus] || sign == [Plus]
    requires prefix == [] || DigitOf(prefix[0]).Some?
    ensures var s := NumberBody(sign, prefix, zeros, Digits(v, base, upper));
      s != [] && s[0] != Space && s[|s| - 1] != Space
  {
    var ds := Digits(v, base, upper);
    var s := NumberBody(sign, prefix, zeros, ds);
    DigitsAreDigits(v, base, upper);
    assert s[|s| - 1] == ds[|ds| - 1];
    if sign == [] && prefix == [] && zeros == 0 {
      assert s[0] == ds[0];
    } else if sign == [] && prefix == [] {
      assert s[0] == Zero;
    } else if sign == [] {
      assert s[0] == prefix[0];
    } else {
      assert s[0] == sign[0];
    }
  }

  /** Spaces around a text that neither starts nor ends with a space come off again. */
  lemma TrimSpaces(lead: nat, body: seq<byte>, trail: nat)
    requires body != [] && body[0] != Space && body[|body| - 1] != Space
    ensures Trim(Repeat(Space, lead) + body + Repeat(Space, trail)) == body
  {
    assert Repeat(Space, lead) + body + Repeat(Space, trail) == Repeat(Space, lead) + (body + Repeat(Space, trail));
    assert (body + Repeat(Space, trail))[0] == body[0];
    DropLeadingSpacesOver(lead, body + Repeat(Space, trail));
    DropTrailingSpacesOver(body, trail);
  }

  /**
   * Every padded number has this shape: spaces, a sign, a prefix, zeros,
   * the digits of `v`, spaces. It reads back as `v`, negated when the sign
   * is `-`.
   */
  lemma ReadIntegerOfShape(lead: nat, sign: seq<byte>, prefix: seq<byte>, zeros: nat, v: nat, base: nat, upper: bool, trail: nat)
    requires IsBase(base)
    requires sign == [] || sign == [Minus] || sign == [Plus]
    requires prefix == [] || DigitOf(prefix[0]).Some?
    ensures ReadInteger(Repeat(Space, lead) + NumberBody(sign, prefix, zeros, Digits(v, base, upper)) + Repeat(Space, trail), prefix, base)
      == Some(if sign == [Minus] then -(v as int) else v as int)
  {
    NumberBodyEnds(sign, prefix, zeros, v, base, upper);
    TrimSpaces(lead, NumberBody(sign, prefix, zeros, Digits(v, base, upper)), trail);
    ReadNumberBody(sign, prefix, zeros, v, base, upper);
  }
}
