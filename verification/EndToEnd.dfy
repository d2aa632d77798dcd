/** Writer and reader together, as a program uses them. */
module EndToEnd {
  import opened Integers
  import opened DocState
  import opened Elements
  import opened HalfFloat
  import opened WriterRules
  import opened ReaderRules
  import opened RoundTrip
  import opened Writers
  import opened Readers

  /** The reader is on the document bs and has come to its k-th stop. */
  ghost predicate HasReached(r: Reader, bs: seq<Byte>, stops: seq<(nat, DocConfig)>, k: nat)
    requires k < |stops|
    reads r, r.heap, r.stack, r.stack.Repr, r.buffer
  {
    r.Valid() && r.buffer[..] == bs && r.parsed == stops[k].0 && r.Cfg() == stops[k].1
  }

  /** The reader has given these elements, the first of the document, and stands behind them. */
  ghost predicate HasRead(r: Reader, bs: seq<Byte>, es: seq<Element>, stops: seq<(nat, DocConfig)>, elements: seq<RawElement>)
    reads r, r.heap, r.stack, r.stack.Repr, r.buffer
  {
    && Yields(ReaderOf(bs), es, stops)
    && IsBeginning(elements, es)
    && HasReached(r, bs, stops, |elements|)
  }

  predicate IsBeginning(elements: seq<RawElement>, es: seq<Element>) {
    |elements| <= |es| && elements == es[..|elements|]
  }

  lemma LongerBeginning(elements: seq<RawElement>, es: seq<Element>)
    requires IsBeginning(elements, es) && |elements| < |es|
    ensures IsBeginning(elements + [es[|elements|]], es)
  {
  }

  /** The reader is at the beginning of a document that yields these elements. */
  ghost predicate HasStarted(r: Reader, bs: seq<Byte>, es: seq<Element>, stops: seq<(nat, DocConfig)>)
    reads r, r.heap, r.stack, r.stack.Repr, r.buffer
  {
    && Yields(ReaderOf(bs), es, stops)
    && r.Valid() && r.buffer[..] == bs && r.parsed == 0
    && ReadHeader(bs, 0) == HeaderOk(stops[0].0) && r.Cfg() == stops[0].1
  }

  method ReadFirstElement(r: Reader, ghost bs: seq<Byte>, ghost es: seq<Element>, ghost stops: seq<(nat, DocConfig)>)
    returns (elements: seq<RawElement>)
    requires es != [] && HasStarted(r, bs, es, stops)
    modifies r`state, r`parsed, r.heap, r.stack.Repr
    ensures HasRead(r, bs, es, stops, elements) && fresh(r.stack.Repr - old(r.stack.Repr))
    ensures |elements| == 1
  {
    assert ReadsAt(ReaderOf(bs), es, stops, 0);
    var v, eod, status := r.GetFirst();
    elements := [v.value];
  }

  /** One read: the next element, or the end of the data if there is none and the document is closed. */
  method ReadNextElement(r: Reader, ghost bs: seq<Byte>, ghost es: seq<Element>, ghost stops: seq<(nat, DocConfig)>,
                         elements: seq<RawElement>)
    returns (more: seq<RawElement>, eod: bool)
    requires HasRead(r, bs, es, stops, elements)
    requires |elements| < |es| || stops[|es|].1.cur.state == Closed
    modifies r`state, r`parsed, r.heap, r.stack.Repr
    ensures HasRead(r, bs, es, stops, more) && fresh(r.stack.Repr - old(r.stack.Repr))
    ensures eod <==> |elements| == |es|
    ensures |more| == |elements| + if eod then 0 else 1
  {
    ghost var k := |elements|;
    var v, status;
    if k < |es| {
      assert ReadsAt(ReaderOf(bs), es, stops, k);
      LongerBeginning(elements, es);
    }
    v, eod, status := r.GetNext();
    more := if eod then elements else elements + [v.value];
  }

  /** The first n elements of a document, one read after the other. */
  method ReadElements(r: Reader, ghost bs: seq<Byte>, ghost es: seq<Element>, ghost stops: seq<(nat, DocConfig)>, n: nat)
    returns (elements: seq<RawElement>)
    requires 0 < n <= |es| && HasStarted(r, bs, es, stops)
    modifies r`state, r`parsed, r.heap, r.stack.Repr
    ensures HasRead(r, bs, es, stops, elements) && fresh(r.stack.Repr - old(r.stack.Repr))
    ensures |elements| == n
  {
    elements := ReadFirstElement(r, bs, es, stops);
    while |elements| < n
      invariant fresh(r.stack.Repr - old(r.stack.Repr))
      invariant |elements| <= n && HasRead(r, bs, es, stops, elements)
    {
      var eod;
      elements, eod := ReadNextElement(r, bs, es, stops, elements);
    }
  }

  /** Reads until the end of the data. */
  method ReadToEnd(r: Reader, ghost bs: seq<Byte>, ghost es: seq<Element>, ghost stops: seq<(nat, DocConfig)>)
    returns (elements: seq<RawElement>)
    requires es != [] && HasStarted(r, bs, es, stops) && stops[|es|].1.cur.state == Closed
    modifies r`state, r`parsed, r.heap, r.stack.Repr
    ensures HasRead(r, bs, es, stops, elements) && fresh(r.stack.Repr - old(r.stack.Repr))
    ensures |elements| == |es|
  {
    elements := ReadFirstElement(r, bs, es, stops);
    var eod := false;
    while !eod
      invariant fresh(r.stack.Repr - old(r.stack.Repr))
      invariant HasRead(r, bs, es, stops, elements)
      invariant eod ==> |elements| == |es|
      decreases |es| - |elements|, !eod
    {
      elements, eod := ReadNextElement(r, bs, es, stops, elements);
    }
  }

  /** Hands a writer's buffer to a reader, which has read whatever it has read before. */
  method HandOver(w: Writer, r: Reader)
    requires w.Valid() && r.Valid() && r.Repr() !! w.Repr()
    modifies r, r.heap, r.stack
    ensures r.stack.Repr == old(r.stack.Repr) && fresh(r.buffer)
    ensures ConsumeAll(Run(w.calls).log).Some?
    ensures HasStarted(r, Bytes(Run(w.calls)), Run(w.calls).log, StopsOf(Run(w.calls).log))
  {
    ghost var es := Run(w.calls).log;
    LockStepRun(w.calls);
    DocumentYields(es);
    HeaderRead(EncodeAll(es));
    r.SetBuffer(w.buffer[..w.bytes]);
  }

  /** Reads the first n elements of a writer's buffer: they are the first n that the writer has
      accepted, and the reader's frames are then those of the accepted calls, without their counters. */
  method ReadBackFrom(w: Writer, r: Reader, n: nat) returns (elements: seq<RawElement>)
    requires w.Valid() && r.Valid() && r.Repr() !! w.Repr()
    requires 0 < n <= |Run(w.calls).log|
    modifies r, r.heap, r.stack, r.stack.Repr
    ensures r.Valid() && r.buffer[..] == Bytes(Run(w.calls))
    ensures elements == Run(w.calls).log[..n]
    ensures r.parsed == PositionOf(Run(w.calls).log, n)
    ensures ConsumeUpTo(Run(w.calls).log, n) == Some(r.Cfg())
  {
    ghost var es, bs := Run(w.calls).log, Bytes(Run(w.calls));
    HandOver(w, r);
    elements := ReadElements(r, bs, es, StopsOf(es), n);
  }

  lemma ClosedIsNotEmpty(calls: seq<Call>)
    requires Run(calls).cfg.cur.state == Closed
    ensures Run(calls).log != []
  {
    LockStepRun(calls);
  }

  /** Reads the buffer of a closed document until the end of the data is reported: that is after all
      accepted elements, and at the end of the buffer. */
  method ReadAllFrom(w: Writer, r: Reader) returns (elements: seq<RawElement>)
    requires w.Valid() && Run(w.calls).cfg.cur.state == Closed
    requires r.Valid() && r.Repr() !! w.Repr()
    modifies r, r.heap, r.stack, r.stack.Repr
    ensures r.Valid() && r.buffer[..] == Bytes(Run(w.calls))
    ensures elements == Run(w.calls).log
    ensures r.parsed == r.buffersize && r.Next() == EndOfData
  {
    ghost var es, bs := Run(w.calls).log, Bytes(Run(w.calls));
    ClosedIsNotEmpty(w.calls);
    LockStepRun(w.calls);
    HandOver(w, r);
    elements := ReadToEnd(r, bs, es, StopsOf(es));
  }

  /** Parsing the buffer of a closed document: the handler is given the accepted elements, in order,
      up to and including the first that it fails on. */
  method ParseBackFrom(w: Writer, r: Reader, on: Handler) returns (status: Status, delivered: seq<Element>)
    requires w.Valid() && Run(w.calls).cfg.cur.state == Closed
    requires r.Valid() && r.Repr() !! w.Repr()
    modifies r, r.heap, r.stack, r.stack.Repr
    ensures r.Valid()
    ensures UpToFirstFailure(Run(w.calls).log, on, delivered, status)
    ensures status == SUCCESS ==> r.parsed == r.buffersize
  {
    ParseClosed(w.calls, on);
    HeaderRead(EncodeAll(Run(w.calls).log));
    r.SetBuffer(w.buffer[..w.bytes]);
    status, delivered := r.Parse(on);
  }

  /** The value of a half that has been read, as the single that the program is given. */
  function GetFloat16(e: Element): U32
    requires e.Scalar? && e.kind == Float16
  {
    Capacities();
    HalfToFloat(e.number)
  }

  /** A half is accepted where atomic values are allowed and if and only if the number is below 2^16. */
  lemma Float16Accepted(d: Doc, x: U32)
    ensures Accepts(d, AddFloat16(x)) <==> AllowAtomic(d.cfg.cur.state) && InHalfRange(x)
    ensures !Accepts(d, AddFloat16(x)) ==> Step(d, AddFloat16(x)) == d
    ensures AllowAtomic(d.cfg.cur.state) && !InHalfRange(x) ==> Verdict(d.cfg, AddFloat16(x)) == INVALID_DATA
  {
    RejectedExactly(x);
  }

  /** What a half that is made of x is worth, compared with x and with any other half g. */
  ghost predicate IsTruncationOf(y: U32, x: U32, g: U16)
    requires Finite16(g)
  {
    && InHalfRange(x) && Finite32(y)
    && (y >= SIGN32 <==> x >= SIGN32)
    && Magnitude32(y) <= Magnitude32(x)
    && (Magnitude16(g) <= Magnitude32(x) ==> Magnitude16(g) <= Magnitude32(y))
  }

  lemma ConvertedTwice(x: U32, g: U16)
    requires InHalfRange(x) && Finite16(g)
    ensures IsTruncationOf(HalfToFloat(FloatToHalf(x)), x, g)
  {
    WrittenAndReadBack(x);
    TruncationError(x);
    Truncates(x, g);
    var h := FloatToHalf(x);
    MagnitudeSign(h);
    var s, e, m := SplitHalf(h);
    HalfToFloatFields(h, s, e, m);
    FloatUnitsBracket(Exponent32(HalfToFloat(h)), HalfToFloat(h) % F);
  }

  /** After any run, an accepted half is read back as a number that has the sign of the number written,
      does not exceed it in magnitude, and to which no other half comes nearer from below. */
  lemma Float16ReadBack(calls: seq<Call>, x: U32, g: U16)
    requires Accepts(Run(calls), AddFloat16(x)) && Finite16(g)
    ensures var log := Run(calls).log;
            var back := ReadBack(calls + [AddFloat16(x)], |log| + 1);
            && back.Some? && |back.value.0| == |log| + 1 && back.value.0[..|log|] == log
            && var e := back.value.0[|log|];
               e.Scalar? && e.kind == Float16 && IsTruncationOf(GetFloat16(e), x, g)
  {
    Float16Accepted(Run(calls), x);
    ConvertedTwice(x, g);
    RunMore(calls, AddFloat16(x));
    WrittenIsRead(calls + [AddFloat16(x)]);
  }

  /** A C string with a NUL among its first n + 1 bytes is read back up to and including the first
      NUL, with that length, and with no other NUL. */
  lemma CStringReadBack(calls: seq<Call>, s: seq<Byte>, n: nat)
    requires InMemory(s, n) && Accepts(Run(calls), AddCString(s, n))
    requires exists i :: 0 <= i <= n && i < |s| && i + 1 < TWO_TO_THE_32 && s[i] == 0
    ensures Canonical(CStringBytes(s, n)) && CStringBytes(s, n) <= s
    ensures var all, read := calls + [AddCString(s, n)], Run(calls).log + [CStringElement(s, n)];
            && ReadBack(all, |read|).Some? && ReadBack(all, |read|).value.0 == read
            && |CStringElement(s, n).units| == |CStringBytes(s, n)|
  {
    CStringCanonical(s, n);
    RunMore(calls, AddCString(s, n));
    WrittenIsRead(calls + [AddCString(s, n)]);
  }

  function CStringElement(s: seq<Byte>, n: nat): Element
    requires InMemory(s, n)
    ensures CStringElement(s, n) == Text(CString, CStringBytes(s, n))
  {
    ElementOf(AddCString(s, n))
  }
}
