/**
 * Properties of `format` (src/parser.rs): what it returns in terms of the
 * handler's results, what it hands to the handler for some characteristic
 * format strings, and in which order it reads the variadic arguments.
 */
module FormatProperties {
  import opened CTypes
  import opened Arguments
  import opened VarArgs
  import opened Parser

  // ---------------------------------------------------------------------
  // The handler, replayed on its own.
  // ---------------------------------------------------------------------

  /** Feeding `calls` to the handler one after another from state `s0`: final state and every result. */
  function Replay<S>(h: (S, Argument) -> (S, int), s0: S, calls: seq<Argument>): (r: (S, seq<int>))
    ensures |r.1| == |calls|
  {
    if calls == [] then (s0, [])
    else
      var (s, rs) := Replay(h, s0, calls[..|calls| - 1]);
      var (s', res) := h(s, calls[|calls| - 1]);
      (s', rs + [res])
  }

  function Sum(rs: seq<int>): int
  {
    if rs == [] then 0 else Sum(rs[..|rs| - 1]) + rs[|rs| - 1]
  }

  lemma {:induction false} SumNonNegative(rs: seq<int>)
    requires forall i | 0 <= i < |rs| :: rs[i] >= 0
    ensures Sum(rs) >= 0
  {
    if rs != [] {
      SumNonNegative(rs[..|rs| - 1]);
    }
  }

  /** Every `%n` argument carries the sum of the results of the calls before it. */
  predicate CountsPassedOn(calls: seq<Argument>, results: seq<int>)
  {
    |calls| == |results| &&
    forall i | 0 <= i < |calls| ::
      calls[i].specifier.WriteBytesWritten? ==> calls[i].specifier.written == Sum(results[..i])
  }

  /** Every result except possibly the last is non-negative. */
  predicate OnlyLastNegative(results: seq<int>)
  {
    forall i | 0 <= i < |results| - 1 :: results[i] >= 0
  }

  ghost predicate Traced<S>(h: (S, Argument) -> (S, int), s0: S, st: ScanState<S>)
  {
    Replay(h, s0, st.calls) == (st.state, st.results)
  }

  predicate Counted<S>(st: ScanState<S>)
  {
    (forall i | 0 <= i < |st.results| :: st.results[i] >= 0) &&
    st.written == Sum(st.results) &&
    CountsPassedOn(st.calls, st.results)
  }

  /** The last handler call returned a negative result. */
  predicate LastNegative(results: seq<int>)
  {
    results != [] && results[|results| - 1] < 0
  }

  /**
   * What every outcome of `format` satisfies: it stopped at a rejected
   * directive (no handler call failed), or right after the first negative
   * result, both with -1; or neither, and then it returns the sum.
   */
  ghost predicate OutcomeOk<S>(h: (S, Argument) -> (S, int), s0: S, o: Outcome<S>)
  {
    Replay(h, s0, o.calls) == (o.state, o.results) &&
    CountsPassedOn(o.calls, o.results) &&
    OnlyLastNegative(o.results) &&
    (o.rejected ==> o.result == -1 && !LastNegative(o.results)) &&
    (LastNegative(o.results) ==> o.result == -1) &&
    (!o.rejected && !LastNegative(o.results) ==> o.result == Sum(o.results))
  }

  lemma CallOk<S>(h: (S, Argument) -> (S, int), s0: S, st: ScanState<S>, a: Argument)
    requires Traced(h, s0, st) && Counted(st)
    requires a.specifier.WriteBytesWritten? ==> a.specifier.written == st.written
    ensures var (st1, res) := Call(h, st, a);
      Traced(h, s0, st1) && CountsPassedOn(st1.calls, st1.results) && OnlyLastNegative(st1.results) &&
      (res < 0 ==> LastNegative(st1.results)) && (res >= 0 ==> Counted(st1))
  {
    var (st1, res) := Call(h, st, a);
    assert st1.calls[..|st1.calls| - 1] == st.calls;
    assert st1.results[..|st1.results| - 1] == st.results;
    forall i | 0 <= i < |st1.calls|
      ensures st1.calls[i].specifier.WriteBytesWritten? ==> st1.calls[i].specifier.written == Sum(st1.results[..i])
    {
      if i < |st.calls| {
        assert st1.results[..i] == st.results[..i];
      } else {
        assert st1.results[..i] == st.results;
      }
    }
  }

  /** A `%n` directive passes on the running total it was given. */
  lemma ParseDirectiveCount(sub: seq<byte>, hasNext: bool, args: seq<ArgValue>, cursor: nat, written: int)
    requires ParseDirective(sub, hasNext, args, cursor, written).Some?
    ensures var d := ParseDirective(sub, hasNext, args, cursor, written).value;
      d.arg.specifier.WriteBytesWritten? ==> d.arg.specifier.written == written
  {
    var (flags, s1) := FlagsField(sub);
    var w := WidthField(s1, args, cursor);
    var p := PrecisionField(w.rest, args, w.cursor);
    var (length, s4) := ParseLength(p.rest);
    var ch: byte := if s4 != [] then s4[0] else if hasNext then PercentByte else 0;
    ConvertProperties(ch, length, args, p.cursor, written);
  }

  lemma PieceStepOk<S>(sub: seq<byte>, hasNext: bool, st: ScanState<S>, args: seq<ArgValue>, h: (S, Argument) -> (S, int), s0: S)
    requires Traced(h, s0, st) && Counted(st)
    ensures match PieceStep(sub, hasNext, st, args, h)
      case Failed(st') =>
        Traced(h, s0, st') && CountsPassedOn(st'.calls, st'.results) && OnlyLastNegative(st'.results) &&
        LastNegative(st'.results)
      case Rejected(st') => Traced(h, s0, st') && Counted(st')
      case Next(st') => Traced(h, s0, st') && Counted(st')
  {
    if st.lastWasPercent {
      CallOk(h, s0, st, FromSpecifier(Bytes(sub)));
    } else {
      match ParseDirective(sub, hasNext, args, st.cursor, st.written)
      case None =>
      case Some(d) =>
        ParseDirectiveCount(sub, hasNext, args, st.cursor, st.written);
        CallOk(h, s0, st.(cursor := d.cursor), d.arg);
        var (st1, res1) := Call(h, st.(cursor := d.cursor), d.arg);
        if res1 >= 0 {
          CallOk(h, s0, st1.(lastWasPercent := d.percent), FromSpecifier(Bytes(d.tail)));
        }
    }
  }

  lemma {:induction false} ScanOk<S>(pieces: seq<seq<byte>>, i: nat, st: ScanState<S>, args: seq<ArgValue>, h: (S, Argument) -> (S, int), s0: S)
    requires i <= |pieces|
    requires Traced(h, s0, st) && Counted(st)
    ensures OutcomeOk(h, s0, Scan(pieces, i, st, args, h))
    decreases |pieces| - i
  {
    if i < |pieces| {
      PieceStepOk(pieces[i], i + 1 < |pieces|, st, args, h, s0);
      match PieceStep(pieces[i], i + 1 < |pieces|, st, args, h)
      case Failed(st') =>
      case Rejected(st') =>
      case Next(st') => ScanOk(pieces, i + 1, st', args, h, s0);
    }
  }

  /** Only a directive that `ParseDirective` refuses is rejected, and then the scanner's state is unchanged. */
  lemma RejectedStep<S>(sub: seq<byte>, hasNext: bool, st: ScanState<S>, args: seq<ArgValue>, h: (S, Argument) -> (S, int))
    ensures PieceStep(sub, hasNext, st, args, h).Rejected? <==>
      !st.lastWasPercent && ParseDirective(sub, hasNext, args, st.cursor, st.written).None?
    ensures PieceStep(sub, hasNext, st, args, h).Rejected? ==> PieceStep(sub, hasNext, st, args, h).at == st
  {
  }

  /** A scan that stops at a rejected directive stops at a piece that `ParseDirective` refuses, at the cursor and count it ends with. */
  lemma {:induction false} ScanRejectedAt<S>(pieces: seq<seq<byte>>, i: nat, st: ScanState<S>, args: seq<ArgValue>, h: (S, Argument) -> (S, int), s0: S)
    requires i <= |pieces|
    requires Traced(h, s0, st) && Counted(st)
    ensures var o := Scan(pieces, i, st, args, h);
      o.rejected ==> exists j | i <= j < |pieces| :: ParseDirective(pieces[j], j + 1 < |pieces|, args, o.cursor, Sum(o.results)).None?
    decreases |pieces| - i
  {
    if i < |pieces| {
      var step := PieceStep(pieces[i], i + 1 < |pieces|, st, args, h);
      PieceStepOk(pieces[i], i + 1 < |pieces|, st, args, h, s0);
      if step.Rejected? {
        RejectedStep(pieces[i], i + 1 < |pieces|, st, args, h);
      } else if step.Next? {
        ScanRejectedAt(pieces, i + 1, step.st, args, h, s0);
      }
    }
  }

  /**
   * `format` calls the handler with `calls` in order, threading its state;
   * every `%n` carries the sum so far. It returns -1 exactly when a
   * directive was rejected or the last call returned a negative result
   * (it stops right after the first one), and otherwise the sum of the
   * results, which is then non-negative.
   */
  lemma FormatReturnsSumOrError<S>(fmt: seq<byte>, args: seq<ArgValue>, h: (S, Argument) -> (S, int), s0: S)
    ensures OutcomeOk(h, s0, FormatSpec(fmt, args, h, s0))
    ensures var o := FormatSpec(fmt, args, h, s0);
      o.result == -1 <==> o.rejected || LastNegative(o.results)
    ensures var o := FormatSpec(fmt, args, h, s0);
      o.result != -1 ==> o.result == Sum(o.results) && o.result >= 0
  {
    var st0 := ScanState([], [], s0, 0, 0, false);
    CallOk(h, s0, st0, FromSpecifier(Bytes(Split(fmt)[0])));
    var (st, res) := Call(h, st0, FromSpecifier(Bytes(Split(fmt)[0])));
    if res >= 0 {
      ScanOk(Split(fmt), 1, st, args, h, s0);
    }
    var o := FormatSpec(fmt, args, h, s0);
    if !o.rejected && !LastNegative(o.results) {
      SumNonNegative(o.results);
    }
  }

  /** When `format` rejects a directive, some piece after the first is one that `ParseDirective` refuses. */
  lemma FormatRejectedAt<S>(fmt: seq<byte>, args: seq<ArgValue>, h: (S, Argument) -> (S, int), s0: S)
    ensures var o := FormatSpec(fmt, args, h, s0); var pieces := Split(fmt);
      o.rejected ==> exists j | 1 <= j < |pieces| :: ParseDirective(pieces[j], j + 1 < |pieces|, args, o.cursor, Sum(o.results)).None?
  {
    var st0 := ScanState([], [], s0, 0, 0, false);
    CallOk(h, s0, st0, FromSpecifier(Bytes(Split(fmt)[0])));
    var (st, res) := Call(h, st0, FromSpecifier(Bytes(Split(fmt)[0])));
    if res >= 0 {
      assert FormatSpec(fmt, args, h, s0) == Scan(Split(fmt), 1, st, args, h);
      ScanRejectedAt(Split(fmt), 1, st, args, h, s0);
    }
  }

  /** If the handler never fails, `format` returns -1 exactly when it rejects a directive, and otherwise the sum of the results. */
  lemma FormatNonFailingHandler<S>(fmt: seq<byte>, args: seq<ArgValue>, h: (S, Argument) -> (S, int), s0: S)
    requires forall s, a :: h(s, a).1 >= 0
    ensures var o := FormatSpec(fmt, args, h, s0);
      (o.result == -1 <==> o.rejected) && (!o.rejected ==> o.result == Sum(o.results) && o.result >= 0)
  {
    var o := FormatSpec(fmt, args, h, s0);
    FormatReturnsSumOrError(fmt, args, h, s0);
    if o.calls != [] {
      var (s, rs) := Replay(h, s0, o.calls[..|o.calls| - 1]);
      assert o.results[|o.results| - 1] == h(s, o.calls[|o.calls| - 1]).1;
    }
  }

  // ---------------------------------------------------------------------
  // Characteristic format strings.
  // ---------------------------------------------------------------------

  lemma SplitTwo(p: seq<byte>, q: seq<byte>)
    requires PercentByte !in p && PercentByte !in q
    ensures Split(p + [PercentByte] + q) == [p, q]
  {
    SplitJoin([p, q]);
    assert Join([p, q]) == p + [PercentByte] + q;
  }

  lemma SplitThree(p: seq<byte>, q: seq<byte>, r: seq<byte>)
    requires PercentByte !in p && PercentByte !in q && PercentByte !in r
    ensures Split(p + [PercentByte] + q + [PercentByte] + r) == [p, q, r]
  {
    SplitJoin([p, q, r]);
    calc {
      Join([p, q, r]);
      p + [PercentByte] + Join([q, r]);
      { assert [q, r][1..] == [r]; }
      p + [PercentByte] + (q + [PercentByte] + r);
      p + [PercentByte] + q + [PercentByte] + r;
    }
  }

  /** Without `%`, the whole string goes to the handler as one literal, and its result is returned. */
  lemma FormatPlainText<S>(fmt: seq<byte>, args: seq<ArgValue>, h: (S, Argument) -> (S, int), s0: S)
    requires PercentByte !in fmt
    ensures var o := FormatSpec(fmt, args, h, s0);
      var res := h(s0, FromSpecifier(Bytes(fmt))).1;
      o.calls == [FromSpecifier(Bytes(fmt))] && o.cursor == 0 &&
      o.state == h(s0, FromSpecifier(Bytes(fmt))).0 &&
      o.result == (if res < 0 then -1 else res)
  {
    SplitPlain(fmt);
  }

  /** An empty piece followed by another piece is the directive `%`: no flags, width 0, no precision. */
  lemma EmptyPieceIsPercent(args: seq<ArgValue>, cursor: nat, written: int)
    ensures ParseDirective([], true, args, cursor, written) == Some(Directive(FromSpecifier(Percent), [], cursor, true))
  {
    assert FlagsField([]) == (EmptyFlags, []);
    assert WidthField([], args, cursor) == Field(0, [], cursor);
    assert PrecisionField([], args, cursor) == Field(None, [], cursor);
    assert ParseLength([]) == (Length.Int, []);
    assert Convert(PercentByte, Length.Int, args, cursor, written) == Some((Percent, cursor));
  }

  lemma SplitEscaped(p: seq<byte>, q: seq<byte>)
    requires PercentByte !in p && PercentByte !in q
    ensures Split(p + [PercentByte, PercentByte] + q) == [p, [], q]
  {
    SplitThree(p, [], q);
    assert p + [PercentByte] + [] + [PercentByte] + q == p + [PercentByte, PercentByte] + q;
  }

  /** `p%%%%q` splits into p, three empty pieces and q: every `%` ends a piece. */
  lemma SplitDoubleEscaped(p: seq<byte>, q: seq<byte>)
    requires PercentByte !in p && PercentByte !in q
    ensures Split(p + [PercentByte, PercentByte, PercentByte, PercentByte] + q) == [p, [], [], [], q]
  {
    SplitPrefix(p, [PercentByte, PercentByte, PercentByte] + q);
    assert p + [PercentByte] + ([PercentByte, PercentByte, PercentByte] + q) == p + [PercentByte, PercentByte, PercentByte, PercentByte] + q;
    SplitEscaped([], q);
    assert [] + [PercentByte, PercentByte] + q == [PercentByte, PercentByte] + q;
    SplitPrefix([], [PercentByte, PercentByte] + q);
    assert [] + [PercentByte] + ([PercentByte, PercentByte] + q) == [PercentByte, PercentByte, PercentByte] + q;
    assert [p] + ([[]] + [[], [], q]) == [p, [], [], [], q];
  }

  /** Once the pieces of a format string are known, the scan goes on from the first call's state. */
  lemma ScanFromPieces<S>(fmt: seq<byte>, pieces: seq<seq<byte>>, args: seq<ArgValue>, h: (S, Argument) -> (S, int), s0: S)
    requires Split(fmt) == pieces
    requires forall s, a :: h(s, a).1 >= 0
    ensures FormatSpec(fmt, args, h, s0) ==
      Scan(pieces, 1, Call(h, ScanState([], [], s0, 0, 0, false), FromSpecifier(Bytes(pieces[0]))).0, args, h)
  {
  }

  /** The scan over the pieces of `p%%q` after the first literal. */
  lemma ScanEscaped<S>(p: seq<byte>, q: seq<byte>, st1: ScanState<S>, args: seq<ArgValue>, h: (S, Argument) -> (S, int))
    returns (st4: ScanState<S>)
    requires !st1.lastWasPercent
    requires forall s, a :: h(s, a).1 >= 0
    ensures Scan([p, [], q], 1, st1, args, h) == Stop(st4, st4.written, false)
    ensures st4.cursor == st1.cursor && st4.written >= st1.written
    ensures st4.calls == st1.calls + [FromSpecifier(Percent), FromSpecifier(Bytes([])), FromSpecifier(Bytes(q))]
  {
    var st3 := PercentPieceStep(st1, args, h);
    assert Scan([p, [], q], 1, st1, args, h) == Scan([p, [], q], 2, st3, args, h);
    st4 := LiteralPieceStep(q, st3, args, h);
    assert Scan([p, [], q], 2, st3, args, h) == Stop(st4, st4.written, false);
  }

  /** `%%` between two literals: the first literal, then `Percent`, then an empty literal, then the second literal. */
  lemma FormatEscapedPercent<S>(p: seq<byte>, q: seq<byte>, args: seq<ArgValue>, h: (S, Argument) -> (S, int), s0: S)
    requires PercentByte !in p && PercentByte !in q
    requires forall s, a :: h(s, a).1 >= 0
    ensures var o := FormatSpec(p + [PercentByte, PercentByte] + q, args, h, s0);
      o.calls == [FromSpecifier(Bytes(p)), FromSpecifier(Percent), FromSpecifier(Bytes([])), FromSpecifier(Bytes(q))] &&
      o.cursor == 0 && o.result == Sum(o.results)
  {
    var fmt := p + [PercentByte, PercentByte] + q;
    SplitEscaped(p, q);
    ScanFromPieces(fmt, [p, [], q], args, h, s0);
    var st1 := Call(h, ScanState([], [], s0, 0, 0, false), FromSpecifier(Bytes(p))).0;
    var st4 := ScanEscaped(p, q, st1, args, h);
    FormatReturnsSumOrError(fmt, args, h, s0);
  }

  /** The step for the piece after `%%`: all of it is literal text. */
  lemma LiteralPieceStep<S>(q: seq<byte>, st: ScanState<S>, args: seq<ArgValue>, h: (S, Argument) -> (S, int)) returns (st': ScanState<S>)
    requires st.lastWasPercent
    requires forall s, a :: h(s, a).1 >= 0
    ensures PieceStep(q, false, st, args, h) == Next(st')
    ensures !st'.lastWasPercent && st'.cursor == st.cursor
    ensures st'.calls == st.calls + [FromSpecifier(Bytes(q))]
  {
    var (st1, r1) := Call(h, st, FromSpecifier(Bytes(q)));
    st' := st1.(lastWasPercent := false);
  }

  /** The step for an empty piece that another piece follows, when the handler does not fail. */
  lemma PercentPieceStep<S>(st: ScanState<S>, args: seq<ArgValue>, h: (S, Argument) -> (S, int)) returns (st': ScanState<S>)
    requires !st.lastWasPercent
    requires forall s, a :: h(s, a).1 >= 0
    ensures PieceStep([], true, st, args, h) == Next(st')
    ensures st'.lastWasPercent && st'.cursor == st.cursor
    ensures st'.calls == st.calls + [FromSpecifier(Percent), FromSpecifier(Bytes([]))]
  {
    EmptyPieceIsPercent(args, st.cursor, st.written);
    var (st2, r2) := Call(h, st, FromSpecifier(Percent));
    var (st3, r3) := Call(h, st2.(lastWasPercent := true), FromSpecifier(Bytes([])));
    st' := st3;
  }

  /** An empty last piece has no conversion byte. */
  lemma EmptyLastPieceFails(args: seq<ArgValue>, cursor: nat, written: int)
    ensures ParseDirective([], false, args, cursor, written) == None
  {
    assert FlagsField([]) == (EmptyFlags, []);
    assert WidthField([], args, cursor) == Field(0, [], cursor);
    assert PrecisionField([], args, cursor) == Field(None, [], cursor);
    assert ParseLength([]) == (Length.Int, []);
    assert Convert(0, Length.Int, args, cursor, written) == None;
  }

  lemma SplitTrailing(p: seq<byte>)
    requires PercentByte !in p
    ensures Split(p + [PercentByte]) == [p, []]
  {
    SplitTwo(p, []);
    assert p + [PercentByte] + [] == p + [PercentByte];
  }

  /** A `%` at the very end has no conversion byte: `format` returns -1 after the literal before it. */
  lemma FormatTrailingPercent<S>(p: seq<byte>, args: seq<ArgValue>, h: (S, Argument) -> (S, int), s0: S)
    requires PercentByte !in p
    ensures var o := FormatSpec(p + [PercentByte], args, h, s0);
      o.result == -1 && o.calls == [FromSpecifier(Bytes(p))] &&
      (h(s0, FromSpecifier(Bytes(p))).1 >= 0 ==> o.rejected)
  {
    SplitTrailing(p);
    var (st1, r1) := Call(h, ScanState([], [], s0, 0, 0, false), FromSpecifier(Bytes(p)));
    EmptyLastPieceFails(args, 0, st1.written);
  }

  /** A piece starting with a byte that is no flag, width, precision, length or conversion byte is rejected. */
  lemma UnknownConversionFails(c: byte, q: seq<byte>, hasNext: bool, args: seq<ArgValue>, cursor: nat, written: int)
    requires !IsFlagByte(c) && !IsDigit(c) && c != StarByte && c != DotByte
    requires c !in {LowerH, LowerL, LowerZ, LowerT} && c !in ConversionBytes
    ensures ParseDirective([c] + q, hasNext, args, cursor, written) == None
  {
    var sub := [c] + q;
    FlagRunLengthUnique(sub, 0);
    DigitRunLengthUnique(sub, 0);
    assert sub[..0] == [] && sub[0..] == sub;
  }

  /** A byte that is no flag, width, precision, length or conversion byte makes `format` return -1. */
  lemma FormatUnknownConversion<S>(p: seq<byte>, c: byte, q: seq<byte>, args: seq<ArgValue>, h: (S, Argument) -> (S, int), s0: S)
    requires PercentByte !in p && PercentByte !in q
    requires !IsFlagByte(c) && !IsDigit(c) && c != StarByte && c != DotByte
    requires c !in {LowerH, LowerL, LowerZ, LowerT} && c !in ConversionBytes
    ensures var o := FormatSpec(p + [PercentByte, c] + q, args, h, s0);
      o.result == -1 && o.calls == [FromSpecifier(Bytes(p))] && o.cursor == 0 &&
      (h(s0, FromSpecifier(Bytes(p))).1 >= 0 ==> o.rejected)
  {
    SplitTwo(p, [c] + q);
    assert p + [PercentByte] + ([c] + q) == p + [PercentByte, c] + q;
    var (st1, r1) := Call(h, ScanState([], [], s0, 0, 0, false), FromSpecifier(Bytes(p)));
    UnknownConversionFails(c, q, false, args, 0, st1.written);
  }

  /** The directive `*.*d`, then literal text `q`: width from slot k, precision from slot k + 1, the value from slot k + 2. */
  lemma StarDirective(q: seq<byte>, args: seq<ArgValue>, k: nat, written: int)
    ensures ParseDirective([StarByte, DotByte, StarByte, 100] + q, false, args, k, written) ==
      Some(Directive(Argument(EmptyFlags, ReadCInt(args, k), Some(ReadCInt(args, k + 1)),
                              Specifier.Int(SignedInt.Int(ReadSigned(args, k + 2, W32)))), q, k + 3, false))
  {
    var sub := [StarByte, DotByte, StarByte, 100] + q;
    FlagRunLengthUnique(sub, 0);
    assert sub[..0] == [] && sub[0..] == sub;
    assert FlagsField(sub) == (EmptyFlags, sub);
    assert sub[1..] == [DotByte, StarByte, 100] + q;
    assert WidthField(sub, args, k) == Field(ReadCInt(args, k), [DotByte, StarByte, 100] + q, k + 1);
    assert ([DotByte, StarByte, 100] + q)[1..] == [StarByte, 100] + q;
    assert ([StarByte, 100] + q)[1..] == [100] + q;
    assert PrecisionField([DotByte, StarByte, 100] + q, args, k + 1) == Field(Some(ReadCInt(args, k + 1)), [100] + q, k + 2);
    assert ParseLength([100] + q) == (Length.Int, [100] + q);
    assert NextChar([100] + q) == q;
  }

  lemma SplitStar(p: seq<byte>, q: seq<byte>)
    requires PercentByte !in p && PercentByte !in q
    ensures Split(p + [PercentByte, StarByte, DotByte, StarByte, 100] + q) == [p, [StarByte, DotByte, StarByte, 100] + q]
  {
    var sub := [StarByte, DotByte, StarByte, 100] + q;
    assert PercentByte !in sub;
    SplitTwo(p, sub);
    assert p + [PercentByte] + sub == p + [PercentByte, StarByte, DotByte, StarByte, 100] + q;
  }

  /**
   * `p%*.*dq` reads the width, then the precision, then the value, one slot
   * each, and passes them on together, followed by the literal `q`.
   */
  lemma FormatStarOrder<S>(p: seq<byte>, q: seq<byte>, args: seq<ArgValue>, h: (S, Argument) -> (S, int), s0: S)
    requires PercentByte !in p && PercentByte !in q
    requires forall s, a :: h(s, a).1 >= 0
    ensures var o := FormatSpec(p + [PercentByte, StarByte, DotByte, StarByte, 100] + q, args, h, s0);
      o.cursor == 3 &&
      o.calls == [FromSpecifier(Bytes(p)),
                  Argument(EmptyFlags, ReadCInt(args, 0), Some(ReadCInt(args, 1)),
                           Specifier.Int(SignedInt.Int(ReadSigned(args, 2, W32)))),
                  FromSpecifier(Bytes(q))]
  {
    var fmt := p + [PercentByte, StarByte, DotByte, StarByte, 100] + q;
    SplitStar(p, q);
    ScanFromPieces(fmt, [p, [StarByte, DotByte, StarByte, 100] + q], args, h, s0);
    var st1 := Call(h, ScanState([], [], s0, 0, 0, false), FromSpecifier(Bytes(p))).0;
    var st3 := ScanStar(p, q, st1, args, h);
  }

  /** The scan over the pieces of `p%*.*dq` after the first literal. */
  lemma ScanStar<S>(p: seq<byte>, q: seq<byte>, st1: ScanState<S>, args: seq<ArgValue>, h: (S, Argument) -> (S, int))
    returns (st3: ScanState<S>)
    requires !st1.lastWasPercent && st1.cursor == 0
    requires forall s, a :: h(s, a).1 >= 0
    ensures Scan([p, [StarByte, DotByte, StarByte, 100] + q], 1, st1, args, h) == Stop(st3, st3.written, false)
    ensures st3.cursor == 3 && st3.calls == st1.calls + [
      Argument(EmptyFlags, ReadCInt(args, 0), Some(ReadCInt(args, 1)), Specifier.Int(SignedInt.Int(ReadSigned(args, 2, W32)))),
      FromSpecifier(Bytes(q))]
  {
    StarDirective(q, args, 0, st1.written);
    st3 := DirectiveStep([StarByte, DotByte, StarByte, 100] + q, false, st1, args, h);
  }

  /** The step for a piece holding a valid directive, when the handler does not fail: the argument, then the literal after it. */
  lemma DirectiveStep<S>(sub: seq<byte>, hasNext: bool, st: ScanState<S>, args: seq<ArgValue>, h: (S, Argument) -> (S, int))
    returns (st': ScanState<S>)
    requires !st.lastWasPercent && ParseDirective(sub, hasNext, args, st.cursor, st.written).Some?
    requires forall s, a :: h(s, a).1 >= 0
    ensures var d := ParseDirective(sub, hasNext, args, st.cursor, st.written).value;
      PieceStep(sub, hasNext, st, args, h) == Next(st') &&
      st'.cursor == d.cursor && st'.lastWasPercent == d.percent &&
      st'.calls == st.calls + [d.arg, FromSpecifier(Bytes(d.tail))]
  {
    var d := ParseDirective(sub, hasNext, args, st.cursor, st.written).value;
    var (st2, r2) := Call(h, st.(cursor := d.cursor), d.arg);
    var (st3, r3) := Call(h, st2.(lastWasPercent := d.percent), FromSpecifier(Bytes(d.tail)));
    st' := st3;
  }

  /** The pieces of `"a%%%%b"`: every `%` ends a piece, so `%%%%` leaves three empty pieces. */
  lemma SplitFixture()
    ensures Split(Ascii("a%%%%b")) == [Ascii("a"), [], [], [], Ascii("b")]
  {
    assert Ascii("a%%%%b") == Ascii("a") + [PercentByte, PercentByte, PercentByte, PercentByte] + Ascii("b");
    SplitDoubleEscaped(Ascii("a"), Ascii("b"));
  }
}
