/** What the writer accepts, the reader gives back. */
module RoundTrip {
  import opened Integers
  import opened Sequences
  import opened DocState
  import opened Elements
  import opened WriterRules
  import opened ReaderRules

  /** The reader's configuration after one more element, unless it would report the end or pop an empty stack. */
  function Follow(o: Option<DocConfig>, e: Element): Option<DocConfig> {
    match o
    case None => None
    case Some(c) => if c.cur.state == Closed || Underflows(c, e) then None else Some(Consume(c, e))
  }

  /** The reader's configuration after a sequence of elements, if it gets to the end of it. */
  function ConsumeAll(es: seq<Element>): Option<DocConfig> {
    RunAll(Follow, Some(INITIAL), es)
  }

  function ConsumeUpTo(es: seq<Element>, k: nat): Option<DocConfig>
    requires k <= |es|
  {
    RunUpTo(Follow, Some(INITIAL), es, k)
  }

  /** The reader, having read what has been accepted, is where the writer is. */
  predicate InStep(d: Doc) {
    ConsumeAll(d.log) == Some(Erased(d.cfg))
  }

  lemma LockStepOne(d: Doc, call: Call)
    requires InStep(d)
    ensures InStep(Step(d, call))
  {
    if Accepts(d, call) {
      LockStep(d.cfg, call);
      RunSnoc(Follow, Some(INITIAL), d.log, ElementOf(call));
    }
  }

  /** Whatever the calls, accepted or rejected, the reader follows the writer: once it has read the
      accepted elements its frames are the writer's, apart from the counters. */
  lemma LockStepRun(calls: seq<Call>)
    ensures ConsumeAll(Run(calls).log) == Some(Erased(Run(calls).cfg))
  {
    assert InStep(EMPTY) by {
      assert Erase(INITIAL) == INITIAL;
    }
    forall d: Doc, call: Call | InStep(d) ensures InStep(Step(d, call)) {
      LockStepOne(d, call);
    }
    InvariantKept(Step, InStep, EMPTY, calls, 0, |calls|);
  }

  /** The reader gets through every beginning of a sequence that it gets through. */
  lemma {:induction false} ConsumePrefix(es: seq<Element>, k: nat, n: nat)
    requires k <= n <= |es| && ConsumeUpTo(es, n).Some?
    ensures ConsumeUpTo(es, k).Some?
  {
    if k < n {
      ConsumePrefix(es, k, n - 1);
    }
  }

  /** Where the reader stands after k elements of a document. */
  function PositionOf(es: seq<Element>, k: nat): nat
    requires k <= |es|
  {
    OffsetOf(HEADER, es, k)
  }

  // ----- reading a buffer element by element -----

  type Reading = (nat, DocConfig) -> Outcome

  function ReaderOf(bs: seq<Byte>): Reading {
    (pos: nat, c: DocConfig) => ReadNext(bs, pos, c)
  }

  /** A number of reads, one after the other; None if one of them finds no element. */
  function ReadMany(read: Reading, pos: nat, c: DocConfig, n: nat): Option<(seq<Element>, nat, DocConfig)> {
    if n == 0 then Some(([], pos, c)) else
      match ReadMany(read, pos, c, n - 1)
      case None => None
      case Some((es, next, d)) =>
        match read(next, d)
        case Read(e, next', d') => Some((es + [e], next', d'))
        case _ => None
  }

  /** Between its k-th and next stop the reader gets the k-th element. */
  ghost predicate ReadsAt(read: Reading, es: seq<Element>, stops: seq<(nat, DocConfig)>, k: nat)
    requires |stops| == |es| + 1 && k < |es|
  {
    read(stops[k].0, stops[k].1) == Read(es[k], stops[k + 1].0, stops[k + 1].1)
  }

  /** The reader gets the elements one by one, stopping at these positions in these configurations. */
  ghost predicate Yields(read: Reading, es: seq<Element>, stops: seq<(nat, DocConfig)>) {
    |stops| == |es| + 1 && forall k :: 0 <= k < |es| ==> ReadsAt(read, es, stops, k)
  }

  lemma {:induction false} ReadManyOf(read: Reading, es: seq<Element>, stops: seq<(nat, DocConfig)>, k: nat)
    requires Yields(read, es, stops) && k <= |es|
    ensures ReadMany(read, stops[0].0, stops[0].1, k) == Some((es[..k], stops[k].0, stops[k].1))
  {
    if k > 0 {
      ReadManyOf(read, es, stops, k - 1);
      assert ReadsAt(read, es, stops, k - 1);
      assert es[..k - 1] + [es[k - 1]] == es[..k];
    }
  }

  ghost function StopsOf(es: seq<Element>): (stops: seq<(nat, DocConfig)>)
    requires ConsumeAll(es).Some?
    ensures |stops| == |es| + 1
    ensures forall k :: 0 <= k <= |es| ==> ConsumeUpTo(es, k) == Some(stops[k].1) && stops[k].0 == PositionOf(es, k)
  {
    forall k | 0 <= k <= |es| ensures ConsumeUpTo(es, k).Some? {
      ConsumePrefix(es, k, |es|);
    }
    seq(|es| + 1, k requires 0 <= k <= |es| && ConsumeUpTo(es, k).Some? => (PositionOf(es, k), ConsumeUpTo(es, k).value))
  }

  lemma DocumentReadsAt(es: seq<Element>, k: nat, c: DocConfig, d: DocConfig)
    requires k < |es| && ConsumeUpTo(es, k) == Some(c) && ConsumeUpTo(es, k + 1) == Some(d)
    ensures ReadNext(HEADER + EncodeAll(es), PositionOf(es, k), c) == Read(es[k], PositionOf(es, k + 1), d)
  {
    DecodeAt(HEADER, es, k);
    assert Follow(Some(c), es[k]) == Some(d);
  }

  /** The bytes of any sequence that the reader gets through yield that sequence. */
  lemma DocumentYields(es: seq<Element>)
    requires ConsumeAll(es).Some?
    ensures Yields(ReaderOf(HEADER + EncodeAll(es)), es, StopsOf(es))
  {
    var stops := StopsOf(es);
    forall k | 0 <= k < |es| ensures ReadsAt(ReaderOf(HEADER + EncodeAll(es)), es, stops, k) {
      DocumentReadsAt(es, k, stops[k].1, stops[k + 1].1);
    }
  }

  lemma HeaderRead(rest: seq<Byte>)
    ensures ReadHeader(HEADER + rest, 0) == HeaderOk(|HEADER|)
  {
    var bs := HEADER + rest;
    assert bs[0..4] == HEADER[..4];
    assert bs[4..6] == [0x01, 0x00];
    assert [0x01, 0x00][1..] == [0x00];
  }

  /** The first k reads of the document that any calls have left behind. */
  function ReadBack(calls: seq<Call>, k: nat): Option<(seq<Element>, nat, DocConfig)> {
    ReadMany(ReaderOf(Bytes(Run(calls))), |HEADER|, INITIAL, k)
  }

  lemma ReadBackOf(calls: seq<Call>, k: nat)
    requires k <= |Run(calls).log|
    ensures var es := Run(calls).log;
            && ConsumeUpTo(es, k).Some?
            && ReadBack(calls, k) == Some((es[..k], PositionOf(es, k), ConsumeUpTo(es, k).value))
  {
    var es := Run(calls).log;
    LockStepRun(calls);
    DocumentYields(es);
    ReadManyOf(ReaderOf(Bytes(Run(calls))), es, StopsOf(es), k);
  }

  lemma NothingLeft(bs: seq<Byte>, c: DocConfig)
    ensures ReadNext(bs, |bs|, c) == if c.cur.state == Closed then EndOfData else Fault
  {
  }

  /** The round trip of a whole run: reading what any calls have left in the buffer gives exactly the
      accepted elements, in order; the reader is then at the end of the buffer, and finds the end of
      the data there if and only if the writer has closed the document. Until then it has not left
      the buffer, popped an empty stack, or reported the end. */
  lemma WrittenIsRead(calls: seq<Call>)
    ensures var d := Run(calls);
            var bs := Bytes(d);
            && ReadHeader(bs, 0) == HeaderOk(|HEADER|)
            && ReadBack(calls, |d.log|) == Some((d.log, |bs|, Erased(d.cfg)))
            && ReadNext(bs, |bs|, Erased(d.cfg)) == if d.cfg.cur.state == Closed then EndOfData else Fault
  {
    var d := Run(calls);
    HeaderRead(EncodeAll(d.log));
    LockStepRun(calls);
    ReadBackOf(calls, |d.log|);
    assert d.log[..|d.log|] == d.log;
    NothingLeft(Bytes(d), Erased(d.cfg));
  }

  /** Before the last of its elements the reader is not at the end of a document, nor finds the end. */
  lemma NoEndBefore(es: seq<Element>, k: nat)
    requires k < |es| && ConsumeAll(es).Some?
    ensures ConsumeUpTo(es, k).Some? && ConsumeUpTo(es, k).value.cur.state != Closed
    ensures PositionOf(es, k) < |HEADER + EncodeAll(es)|
  {
    ConsumePrefix(es, k + 1, |es|);
    assert Follow(ConsumeUpTo(es, k), es[k]).Some?;
    ConcatUpToPrefix(Encode, es, k + 1, |es|);
  }

  lemma EndIsClosed(bs: seq<Byte>, pos: nat, c: DocConfig)
    ensures ReadNext(bs, pos, c) == EndOfData <==> c.cur.state == Closed
  {
  }

  /** Within a closed document the end of the data is found at the end of the buffer and nowhere else. */
  lemma EndOnlyAtEnd(calls: seq<Call>, k: nat)
    requires k <= |Run(calls).log| && Run(calls).cfg.cur.state == Closed
    ensures var bs := Bytes(Run(calls));
            && ReadBack(calls, k).Some?
            && var (_, pos, c) := ReadBack(calls, k).value;
               pos <= |bs| && (ReadNext(bs, pos, c) == EndOfData <==> pos == |bs|)
  {
    var es, bs := Run(calls).log, Bytes(Run(calls));
    ReadBackOf(calls, k);
    LockStepRun(calls);
    EndIsClosed(bs, PositionOf(es, k), ConsumeUpTo(es, k).value);
    if k < |es| {
      NoEndBefore(es, k);
    }
  }

  lemma LogGrows(calls: seq<Call>, j: nat)
    requires j <= |calls|
    ensures RunUpTo(Step, EMPTY, calls, j).log <= Run(calls).log
  {
    var before := RunUpTo(Step, EMPTY, calls, j).log;
    InvariantKept(Step, (d: Doc) => before <= d.log, EMPTY, calls, j, |calls|);
  }

  /** The reader's configuration after its k-th element is the writer's after its k-th accepted call. */
  lemma KthElement(calls: seq<Call>, j: nat)
    requires j <= |calls|
    ensures var now, end := Run(calls[..j]), Run(calls);
            && now.log <= end.log
            && ReadBack(calls, |now.log|) == Some((now.log, |Bytes(now)|, Erased(now.cfg)))
  {
    var now, end := Run(calls[..j]), Run(calls);
    RunPrefix(Step, EMPTY, calls, j);
    LogGrows(calls, j);
    ReadBackOf(calls, |now.log|);
    LockStepRun(calls[..j]);
    BeginningOf(end.log, now.log);
  }

  /** On a beginning of a document the reader stands as at the end of that beginning. */
  lemma BeginningOf(es: seq<Element>, fs: seq<Element>)
    requires fs <= es
    ensures es[..|fs|] == fs
    ensures ConsumeUpTo(es, |fs|) == ConsumeAll(fs)
    ensures PositionOf(es, |fs|) == |HEADER + EncodeAll(fs)|
  {
    RunUpToAgrees(Follow, Some(INITIAL), es, fs, |fs|);
    ConcatUpToAgrees(Encode, es, fs, |fs|);
  }

  /** Two runs that leave the same bytes have had the same elements accepted. */
  lemma SameBytesSameLog(a: seq<Call>, b: seq<Call>)
    requires Bytes(Run(a)) == Bytes(Run(b))
    ensures Run(a).log == Run(b).log
  {
    var x, y := EncodeAll(Run(a).log), EncodeAll(Run(b).log);
    assert x == (HEADER + x)[|HEADER|..] && y == (HEADER + y)[|HEADER|..];
    EncodeAllInjective(Run(a).log, Run(b).log);
  }

  // ----- strings whose length does not fit the length field -----

  lemma {:induction false} ReadManyMore(bs: seq<Byte>, rest: seq<Byte>, pos: nat, c: DocConfig, n: nat)
    requires ReadMany(ReaderOf(bs), pos, c, n).Some?
    ensures ReadMany(ReaderOf(bs + rest), pos, c, n) == ReadMany(ReaderOf(bs), pos, c, n)
  {
    if n > 0 {
      ReadManyMore(bs, rest, pos, c, n - 1);
      var (es, next, d) := ReadMany(ReaderOf(bs), pos, c, n - 1).value;
      DecodeMore(bs, rest, next);
    }
  }

  lemma LeftBehind(calls: seq<Call>, enc: Encoding, us: seq<nat>)
    requires enc != CString && forall u :: u in us ==> u < Capacity(enc.UnitWidth())
    requires AllowString(Run(calls).cfg.cur.state)
    ensures var d, rest := Run(calls + [CountedCall(enc, us)]), Uncounted(enc, us);
            && Bytes(Run(calls)) + TextBytes(enc, us) == Bytes(d) + rest
            && |rest| == enc.Size(|us| - |Counted(us)|)
            && d.log == Run(calls).log + [Text(enc, Counted(us))]
  {
    var rest := us[|Counted(us)|..];
    RunMore(calls, CountedCall(enc, us));
    TextBytesCut(enc, us);
    EncodeUnitsLength(rest, enc.UnitWidth());
    enc.SizeIsProduct(|rest|);
    ConcatAssociative(Bytes(Run(calls)), TextBytes(enc, Counted(us)), EncodeUnits(rest, enc.UnitWidth()));
  }

  /** A string that the writer accepts, of any length, is read back after the elements before it, cut
      to the length modulo 2^32. It is the string itself, with nothing of it left in the buffer, if
      and only if it has fewer than 2^32 units. */
  lemma TextReadBack(calls: seq<Call>, enc: Encoding, us: seq<nat>)
    requires enc != CString && forall u :: u in us ==> u < Capacity(enc.UnitWidth())
    requires AllowString(Run(calls).cfg.cur.state)
    ensures var log, bs := Run(calls).log, Bytes(Run(calls)) + TextBytes(enc, us);
            var back := ReadMany(ReaderOf(bs), |HEADER|, INITIAL, |log| + 1);
            && back.Some? && back.value.0 == log + [Text(enc, Counted(us))]
            && back.value.1 == |bs| - enc.Size(|us| - |Counted(us)|)
            && (back.value.0 == log + [Text(enc, us)] <==> |us| < TWO_TO_THE_32)
            && (back.value.1 == |bs| <==> |us| < TWO_TO_THE_32)
  {
    var log, all := Run(calls).log, calls + [CountedCall(enc, us)];
    var rest := Uncounted(enc, us);
    LeftBehind(calls, enc, us);
    WrittenIsRead(all);
    ReadManyMore(Bytes(Run(all)), rest, |HEADER|, INITIAL, |log| + 1);
    assert (log + [Text(enc, Counted(us))])[|log|] == Text(enc, Counted(us));
  }

  /** In a list, a string of 2^32 letters is read back as the empty string. */
  lemma LongTextIsLost()
    ensures var bs := Bytes(Run([OpenList])) + TextBytes(Utf8, seq(TWO_TO_THE_32, _ => 0x61));
            var back := ReadMany(ReaderOf(bs), |HEADER|, INITIAL, 2);
            back.Some? && back.value.0 == [ListOpen, Text(Utf8, [])]
  {
    var us: seq<nat> := seq(TWO_TO_THE_32, _ => 0x61);
    RunMore([], OpenList);
    assert Run([OpenList]) == Step(EMPTY, OpenList);
    Capacities();
    TextReadBack([OpenList], Utf8, us);
    assert Counted(us) == [];
  }

  // ----- parsing with a handler -----

  /** The handler has been given the elements in order up to and including the first that it fails
      on, and its error is the status; if it fails on none, it has been given all of them. */
  ghost predicate UpToFirstFailure(es: seq<Element>, on: Handler, delivered: seq<Element>, status: Status) {
    && delivered <= es
    && (status == SUCCESS ==> delivered == es && Passes(es, on, |es|))
    && (status != SUCCESS ==>
          var n := |delivered| - 1;
          0 <= n && Passes(es, on, n) && on(es[..n], es[n]) == status)
  }

  /** The handler takes the first n elements. */
  ghost predicate Passes(es: seq<Element>, on: Handler, n: nat)
    requires n <= |es|
  {
    forall j :: 0 <= j < n ==> on(es[..j], es[j]) == SUCCESS
  }

  /** The outcome of a parse that has delivered what the handler takes of es. */
  ghost predicate Delivers(p: Parsed, es: seq<Element>, on: Handler, end: nat) {
    && p.Finished?
    && UpToFirstFailure(es, on, p.delivered, p.status)
    && (p.status == SUCCESS ==> p.next == end)
  }

  lemma {:induction false} ParseFromKth(bs: seq<Byte>, es: seq<Element>, stops: seq<(nat, DocConfig)>, on: Handler, k: nat)
    requires Yields(ReaderOf(bs), es, stops) && k <= |es| && Passes(es, on, k)
    requires stops[|es|].1.cur.state == Closed
    ensures Delivers(ParseFrom(bs, stops[k].0, stops[k].1, on, es[..k]), es, on, stops[|es|].0)
    decreases |es| - k
  {
    if k == |es| {
      assert es[..k] == es;
    } else {
      assert ReadsAt(ReaderOf(bs), es, stops, k);
      assert es[..k] + [es[k]] == es[..k + 1];
      if on(es[..k], es[k]) == SUCCESS {
        ParseFromKth(bs, es, stops, on, k + 1);
      }
    }
  }

  /** Parsing a closed document never crashes. The handler sees the accepted elements in order, up to
      and including the first that it fails on; if it fails on none, the whole buffer has been read. */
  lemma ParseClosed(calls: seq<Call>, on: Handler)
    requires Run(calls).cfg.cur.state == Closed
    ensures var bs := Bytes(Run(calls));
            var p := ParseFrom(bs, |HEADER|, INITIAL, on, []);
            && p.Finished?
            && UpToFirstFailure(Run(calls).log, on, p.delivered, p.status)
            && (p.status == SUCCESS ==> p.next == |bs|)
  {
    var es := Run(calls).log;
    LockStepRun(calls);
    DocumentYields(es);
    ParseFromKth(Bytes(Run(calls)), es, StopsOf(es), on, 0);
    assert es[..0] == [];
  }
}
