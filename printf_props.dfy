// End-to-end properties of `format` driven by the two output handlers:
// a format string without `%` comes out unchanged, through `fmt_write`
// when it is UTF-8 and through `io_write` whatever its bytes, and `%%`
// between two such runs comes out as a single `%`.

module PrintfProperties {
  import opened CTypes
  import opened Arguments
  import opened VarArgs
  import opened CoreFmt
  import opened Parser
  import opened FormatProperties
  import opened Output
  import opened OutputProperties

  /** `fmt_write` on a literal run: the run is appended and its length counted, when it is UTF-8. */
  lemma FmtLiteral(accepts: Acceptor, render: FloatRenderer, data: seq<byte>, x: seq<byte>)
    requires ValidUtf8(x) && |x| <= I32Max
    requires forall d, c :: accepts(d, c)
    ensures FmtStep(accepts, render, data, FromSpecifier(Bytes(x))) == (data + x, |x|)
  {
    var a := FromSpecifier(Bytes(x));
    StrText(a.flags, a.width, a.precision, x);
    StrWholeWithoutPrecision(x);
    assert Repeat(Space, 0) + x == x;
    FmtStepWrites(accepts, render, data, a);
  }

  /** `fmt_write` on the empty run after `%%` writes nothing and counts nothing. */
  lemma FmtEmptyLiteral(accepts: Acceptor, render: FloatRenderer, data: seq<byte>)
    requires forall d, c :: accepts(d, c)
    ensures FmtStep(accepts, render, data, FromSpecifier(Bytes([]))) == (data, 0)
  {
    FmtLiteral(accepts, render, data, []);
    assert data + [] == data;
  }

  /** `io_write` on a literal run: the run is appended and its length counted, whatever its bytes. */
  lemma IoLiteral(accepts: Acceptor, render: FloatRenderer, data: seq<byte>, x: seq<byte>)
    requires |x| <= I32Max
    requires forall d, c :: accepts(d, c)
    ensures IoStep(accepts, render, data, FromSpecifier(Bytes(x))) == (data + x, |x|)
  {
    var a := FromSpecifier(Bytes(x));
    WriteBytesText(a.flags, a.width, a.precision, x);
    assert x[..|x|] == x;
    assert Repeat(Space, 0) + x == x;
    IoWritesAnyBytes(accepts, render, data, a.flags, a.width, a.precision, x);
  }

  /** `format` with `fmt_write` on a UTF-8 format string without `%`: the writer gets the string and the count is its length. */
  lemma PrintPlainTextFmt(fmt: seq<byte>, args: seq<ArgValue>, accepts: Acceptor, render: FloatRenderer, data0: seq<byte>)
    requires PercentByte !in fmt && ValidUtf8(fmt) && |fmt| <= I32Max
    requires forall d, c :: accepts(d, c)
    ensures var o := FormatSpec(fmt, args, FmtHandler(accepts, render), data0);
      o.state == data0 + fmt && o.result == |fmt| && o.calls == [FromSpecifier(Bytes(fmt))]
  {
    FormatPlainText(fmt, args, FmtHandler(accepts, render), data0);
    FmtLiteral(accepts, render, data0, fmt);
  }

  /** `format` with `fmt_write` on a format string without `%` that is not UTF-8: nothing is written and the result is -1. */
  lemma PrintInvalidTextFmt(fmt: seq<byte>, args: seq<ArgValue>, accepts: Acceptor, render: FloatRenderer, data0: seq<byte>)
    requires PercentByte !in fmt && !ValidUtf8(fmt)
    ensures var o := FormatSpec(fmt, args, FmtHandler(accepts, render), data0);
      o.state == data0 && o.result == -1
  {
    var a := FromSpecifier(Bytes(fmt));
    FormatPlainText(fmt, args, FmtHandler(accepts, render), data0);
    FmtRejectsInvalidUtf8(accepts, render, data0, a.flags, a.width, a.precision, fmt);
  }

  /** `format` with `io_write` on any format string without `%`: the writer gets the bytes and the count is their number. */
  lemma PrintPlainTextIo(fmt: seq<byte>, args: seq<ArgValue>, accepts: Acceptor, render: FloatRenderer, data0: seq<byte>)
    requires PercentByte !in fmt && |fmt| <= I32Max
    requires forall d, c :: accepts(d, c)
    ensures var o := FormatSpec(fmt, args, IoHandler(accepts, render), data0);
      o.state == data0 + fmt && o.result == |fmt| && o.calls == [FromSpecifier(Bytes(fmt))]
  {
    FormatPlainText(fmt, args, IoHandler(accepts, render), data0);
    IoLiteral(accepts, render, data0, fmt);
  }

  /** A format string of three pieces none of which stops `format`: the outcome is the state after the third. */
  lemma ThreePieces<S>(fmt: seq<byte>, a: seq<byte>, b: seq<byte>, c: seq<byte>, args: seq<ArgValue>, h: (S, Argument) -> (S, int), s0: S,
                       st1: ScanState<S>, st2: ScanState<S>, st3: ScanState<S>)
    requires Split(fmt) == [a, b, c]
    requires Call(h, ScanState([], [], s0, 0, 0, false), FromSpecifier(Bytes(a))) == (st1, st1.written)
    requires st1.written >= 0
    requires PieceStep(b, true, st1, args, h) == Next(st2)
    requires PieceStep(c, false, st2, args, h) == Next(st3)
    ensures FormatSpec(fmt, args, h, s0) == Stop(st3, st3.written, false)
  {
    var pieces := [a, b, c];
    assert Scan(pieces, 1, st1, args, h) == Scan(pieces, 2, st2, args, h);
    assert Scan(pieces, 2, st2, args, h) == Scan(pieces, 3, st3, args, h);
  }

  /** Two pieces in a row that let the scan go on. */
  lemma ScanTwo<S>(pieces: seq<seq<byte>>, i: nat, args: seq<ArgValue>, h: (S, Argument) -> (S, int),
                   st: ScanState<S>, st': ScanState<S>, st'': ScanState<S>)
    requires i + 1 < |pieces|
    requires PieceStep(pieces[i], true, st, args, h) == Next(st')
    requires PieceStep(pieces[i + 1], i + 2 < |pieces|, st', args, h) == Next(st'')
    ensures Scan(pieces, i, st, args, h) == Scan(pieces, i + 2, st'', args, h)
  {
    ScanNext(pieces, i, args, h, st, st');
    ScanNext(pieces, i + 1, args, h, st', st'');
  }

  /** A piece that lets the scan go on: the scan from it is the scan from the next piece. */
  lemma ScanNext<S>(pieces: seq<seq<byte>>, i: nat, args: seq<ArgValue>, h: (S, Argument) -> (S, int), st: ScanState<S>, st': ScanState<S>)
    requires i < |pieces|
    requires PieceStep(pieces[i], i + 1 < |pieces|, st, args, h) == Next(st')
    ensures Scan(pieces, i, st, args, h) == Scan(pieces, i + 1, st', args, h)
  {
  }

  /** A first literal written without error: `format` is the scan of the remaining pieces. */
  lemma FormatFromFirst<S>(fmt: seq<byte>, args: seq<ArgValue>, h: (S, Argument) -> (S, int), s0: S, st1: ScanState<S>)
    requires Call(h, ScanState([], [], s0, 0, 0, false), FromSpecifier(Bytes(Split(fmt)[0]))) == (st1, st1.written)
    requires st1.written >= 0
    ensures FormatSpec(fmt, args, h, s0) == Scan(Split(fmt), 1, st1, args, h)
  {
  }

  /** After the last piece, the scan returns the running total. */
  lemma ScanEnd<S>(pieces: seq<seq<byte>>, args: seq<ArgValue>, h: (S, Argument) -> (S, int), st: ScanState<S>)
    ensures Scan(pieces, |pieces|, st, args, h) == Stop(st, st.written, false)
  {
  }

  /** A first piece the handler writes without error: the scan starts from the handler's new state. */
  lemma FirstPiece<S>(h: (S, Argument) -> (S, int), s0: S, p: seq<byte>, s1: S) returns (st1: ScanState<S>)
    requires h(s0, FromSpecifier(Bytes(p))) == (s1, |p|)
    ensures Call(h, ScanState([], [], s0, 0, 0, false), FromSpecifier(Bytes(p))) == (st1, st1.written)
    ensures st1.state == s1 && st1.written == |p| && !st1.lastWasPercent && st1.cursor == 0
  {
    var (st, r) := Call(h, ScanState([], [], s0, 0, 0, false), FromSpecifier(Bytes(p)));
    st1 := st;
  }

  /** The `%%` piece: the handler gets `Percent`, counted 1, then the empty text, and the next piece is taken as text. */
  lemma PercentPiece<S>(st: ScanState<S>, args: seq<ArgValue>, h: (S, Argument) -> (S, int), s1: S) returns (st': ScanState<S>)
    requires !st.lastWasPercent
    requires h(st.state, FromSpecifier(Percent)) == (s1, 1)
    requires h(s1, FromSpecifier(Bytes([]))) == (s1, 0)
    ensures PieceStep([], true, st, args, h) == Next(st')
    ensures st'.state == s1 && st'.written == st.written + 1
    ensures st'.lastWasPercent && st'.cursor == st.cursor
  {
    EmptyPieceIsPercent(args, st.cursor, st.written);
    var (st1, r1) := Call(h, st, FromSpecifier(Percent));
    var (st2, r2) := Call(h, st1.(lastWasPercent := true), FromSpecifier(Bytes([])));
    st' := st2;
  }

  /** The piece after `%%`, written without error: the scan goes on from the handler's new state. */
  lemma TextPiece<S>(st: ScanState<S>, hasNext: bool, args: seq<ArgValue>, h: (S, Argument) -> (S, int), q: seq<byte>, s2: S)
    returns (st': ScanState<S>)
    requires st.lastWasPercent
    requires h(st.state, FromSpecifier(Bytes(q))) == (s2, |q|)
    ensures PieceStep(q, hasNext, st, args, h) == Next(st')
    ensures st'.state == s2 && st'.written == st.written + |q|
    ensures !st'.lastWasPercent && st'.cursor == st.cursor
  {
    var (st1, r1) := Call(h, st, FromSpecifier(Bytes(q)));
    st' := st1.(lastWasPercent := false);
  }

  /**
   * `format` with `fmt_write` on `p%%q`, `p` and `q` UTF-8 text without
   * `%`: the writer gets `p`, one `%` and `q`, and the count is their
   * total length.
   */
  lemma PrintEscapedPercentFmt(p: seq<byte>, q: seq<byte>, args: seq<ArgValue>, accepts: Acceptor, render: FloatRenderer, data0: seq<byte>)
    requires PercentByte !in p && PercentByte !in q && ValidUtf8(p) && ValidUtf8(q) && |p| <= I32Max && |q| <= I32Max
    requires forall d, c :: accepts(d, c)
    ensures var o := FormatSpec(p + [PercentByte, PercentByte] + q, args, FmtHandler(accepts, render), data0);
      o.state == data0 + p + [PercentByte] + q && o.result == |p| + 1 + |q|
  {
    var h := FmtHandler(accepts, render);
    SplitEscaped(p, q);
    FmtLiteral(accepts, render, data0, p);
    var st1 := FirstPiece(h, data0, p, data0 + p);
    PercentStep(accepts, render, data0 + p, EmptyFlags, 0, None);
    assert FromSpecifier(Percent) == Argument(EmptyFlags, 0, None, Percent);
    FmtEmptyLiteral(accepts, render, data0 + p + [PercentByte]);
    var st2 := PercentPiece(st1, args, h, data0 + p + [PercentByte]);
    FmtLiteral(accepts, render, data0 + p + [PercentByte], q);
    var st3 := TextPiece(st2, false, args, h, q, data0 + p + [PercentByte] + q);
    ThreePieces(p + [PercentByte, PercentByte] + q, p, [], q, args, h, data0, st1, st2, st3);
  }

  /**
   * `format` with `io_write` on `p%%q`, `p` and `q` without `%`: the
   * writer gets `p`, one `%` and `q`, and the count is their total length.
   */
  lemma PrintEscapedPercentIo(p: seq<byte>, q: seq<byte>, args: seq<ArgValue>, accepts: Acceptor, render: FloatRenderer, data0: seq<byte>)
    requires PercentByte !in p && PercentByte !in q && |p| <= I32Max && |q| <= I32Max
    requires forall d, c :: accepts(d, c)
    ensures var o := FormatSpec(p + [PercentByte, PercentByte] + q, args, IoHandler(accepts, render), data0);
      o.state == data0 + p + [PercentByte] + q && o.result == |p| + 1 + |q|
  {
    var h := IoHandler(accepts, render);
    SplitEscaped(p, q);
    IoLiteral(accepts, render, data0, p);
    var st1 := FirstPiece(h, data0, p, data0 + p);
    PercentStep(accepts, render, data0 + p, EmptyFlags, 0, None);
    assert FromSpecifier(Percent) == Argument(EmptyFlags, 0, None, Percent);
    IoLiteral(accepts, render, data0 + p + [PercentByte], []);
    assert data0 + p + [PercentByte] + [] == data0 + p + [PercentByte];
    var st2 := PercentPiece(st1, args, h, data0 + p + [PercentByte]);
    IoLiteral(accepts, render, data0 + p + [PercentByte], q);
    var st3 := TextPiece(st2, false, args, h, q, data0 + p + [PercentByte] + q);
    ThreePieces(p + [PercentByte, PercentByte] + q, p, [], q, args, h, data0, st1, st2, st3);
  }

  /**
   * `%%` followed by the text piece `t`: `Percent`, counted 1, the empty
   * text, then `t` written whole; the scan goes on two pieces further.
   */
  lemma EscapedPair<S>(pieces: seq<seq<byte>>, i: nat, t: seq<byte>, st: ScanState<S>, args: seq<ArgValue>, h: (S, Argument) -> (S, int),
                       s1: S, s2: S) returns (st': ScanState<S>)
    requires i + 1 < |pieces| && pieces[i] == [] && pieces[i + 1] == t
    requires !st.lastWasPercent
    requires h(st.state, FromSpecifier(Percent)) == (s1, 1) && h(s1, FromSpecifier(Bytes([]))) == (s1, 0)
    requires h(s1, FromSpecifier(Bytes(t))) == (s2, |t|)
    ensures Scan(pieces, i, st, args, h) == Scan(pieces, i + 2, st', args, h)
    ensures st'.state == s2 && st'.written == st.written + 1 + |t|
    ensures !st'.lastWasPercent && st'.cursor == st.cursor
  {
    var stA := PercentPiece(st, args, h, s1);
    st' := TextPiece(stA, i + 2 < |pieces|, args, h, t, s2);
    ScanTwo(pieces, i, args, h, st, stA, st');
  }

  /**
   * `p%%%%q` with a handler that writes `p`, each `Percent`, each empty text
   * and `q` without error, counting `%` as 1: the state after `q`, and the
   * total count.
   */
  lemma DoubleEscapedScan<S>(p: seq<byte>, q: seq<byte>, args: seq<ArgValue>, h: (S, Argument) -> (S, int),
                             s0: S, s1: S, s2: S, s3: S, s4: S)
    requires PercentByte !in p && PercentByte !in q
    requires h(s0, FromSpecifier(Bytes(p))) == (s1, |p|)
    requires h(s1, FromSpecifier(Percent)) == (s2, 1) && h(s2, FromSpecifier(Bytes([]))) == (s2, 0)
    requires h(s2, FromSpecifier(Percent)) == (s3, 1) && h(s3, FromSpecifier(Bytes([]))) == (s3, 0)
    requires h(s3, FromSpecifier(Bytes(q))) == (s4, |q|)
    ensures var o := FormatSpec(p + [PercentByte, PercentByte, PercentByte, PercentByte] + q, args, h, s0);
      o.state == s4 && o.result == |p| + 2 + |q|
  {
    var fmt := p + [PercentByte, PercentByte, PercentByte, PercentByte] + q;
    SplitDoubleEscaped(p, q);
    var st1 := FirstPiece(h, s0, p, s1);
    var st5 := TwoEscapedPairs(Split(fmt), q, st1, args, h, s2, s3, s4);
    FormatOfScan(fmt, args, h, s0, st1, st5);
  }

  /** A first literal written without error, then a scan of the rest that ends without a failure. */
  lemma FormatOfScan<S>(fmt: seq<byte>, args: seq<ArgValue>, h: (S, Argument) -> (S, int), s0: S, st1: ScanState<S>, st: ScanState<S>)
    requires Call(h, ScanState([], [], s0, 0, 0, false), FromSpecifier(Bytes(Split(fmt)[0]))) == (st1, st1.written)
    requires st1.written >= 0
    requires Scan(Split(fmt), 1, st1, args, h) == Stop(st, st.written, false)
    ensures FormatSpec(fmt, args, h, s0) == Stop(st, st.written, false)
  {
    FormatFromFirst(fmt, args, h, s0, st1);
  }

  /** The pieces `[]`, `[]`, `[]`, `q` after the first: two `%%` pairs, the second followed by `q`. */
  lemma TwoEscapedPairs<S>(pieces: seq<seq<byte>>, q: seq<byte>, st1: ScanState<S>, args: seq<ArgValue>, h: (S, Argument) -> (S, int),
                           s2: S, s3: S, s4: S) returns (st5: ScanState<S>)
    requires |pieces| == 5 && pieces[1] == [] && pieces[2] == [] && pieces[3] == [] && pieces[4] == q
    requires !st1.lastWasPercent
    requires h(st1.state, FromSpecifier(Percent)) == (s2, 1) && h(s2, FromSpecifier(Bytes([]))) == (s2, 0)
    requires h(s2, FromSpecifier(Percent)) == (s3, 1) && h(s3, FromSpecifier(Bytes([]))) == (s3, 0)
    requires h(s3, FromSpecifier(Bytes(q))) == (s4, |q|)
    ensures Scan(pieces, 1, st1, args, h) == Stop(st5, st5.written, false)
    ensures st5.state == s4 && st5.written == st1.written + 2 + |q|
  {
    var st3 := EscapedPair(pieces, 1, [], st1, args, h, s2, s2);
    st5 := EscapedPair(pieces, 3, q, st3, args, h, s3, s4);
    ScanEnd(pieces, args, h, st5);
  }

  /**
   * `format` with `fmt_write` on `p%%%%q`, `p` and `q` UTF-8 text without
   * `%`: each `%%` becomes one `%`, so the writer gets `p`, `%%` and `q`.
   */
  lemma PrintDoubleEscapedPercentFmt(p: seq<byte>, q: seq<byte>, args: seq<ArgValue>, accepts: Acceptor, render: FloatRenderer, data0: seq<byte>)
    requires PercentByte !in p && PercentByte !in q && ValidUtf8(p) && ValidUtf8(q) && |p| <= I32Max && |q| <= I32Max
    requires forall d, c :: accepts(d, c)
    ensures var o := FormatSpec(p + [PercentByte, PercentByte, PercentByte, PercentByte] + q, args, FmtHandler(accepts, render), data0);
      o.state == data0 + p + [PercentByte, PercentByte] + q && o.result == |p| + 2 + |q|
  {
    var d1 := data0 + p;
    var d2 := d1 + [PercentByte];
    var d3 := d2 + [PercentByte];
    assert FromSpecifier(Percent) == Argument(EmptyFlags, 0, None, Percent);
    FmtLiteral(accepts, render, data0, p);
    PercentStep(accepts, render, d1, EmptyFlags, 0, None);
    FmtEmptyLiteral(accepts, render, d2);
    PercentStep(accepts, render, d2, EmptyFlags, 0, None);
    FmtEmptyLiteral(accepts, render, d3);
    FmtLiteral(accepts, render, d3, q);
    DoubleEscapedScan(p, q, args, FmtHandler(accepts, render), data0, d1, d2, d3, d3 + q);
    AppendTwoPercents(data0 + p);
  }

  lemma AppendTwoPercents(d: seq<byte>)
    ensures d + [PercentByte] + [PercentByte] == d + [PercentByte, PercentByte]
  {
  }
}
