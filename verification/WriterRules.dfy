/** What each call of the writer is allowed to do, and what it does to a document. */
module WriterRules {
  import opened Integers
  import opened DocState
  import opened Elements
  import opened HalfFloat
  import opened Sequences

  /** An error code. The library returns these four; a program's own functions may return any. */
  type Status = U32
  const SUCCESS: Status := 0
  const INVALID_DATA: Status := 5503
  const TYPE_MISPLACED: Status := 5504
  const INVALID_OBJECT: Status := 5505

  /** The number of bytes before the first NUL, looking at no more than n. */
  function StrNLen(s: seq<Byte>, n: nat): (k: nat)
    ensures k <= n && k <= |s|
  {
    if n == 0 || s == [] || s[0] == 0 then 0 else 1 + StrNLen(s[1..], n - 1)
  }

  /** The caller has to have n + 1 bytes in memory, or a NUL. For n from 2^32 - 1 on the number of
      bytes to copy wraps around, and n bytes are enough. */
  predicate InMemory(s: seq<Byte>, n: nat) {
    n < |s| || 0 in s || (n == |s| && TWO_TO_THE_32 <= n + 1)
  }

  type Call = c: RawCall | c.Valid() witness OpenList

  datatype RawCall =
    | OpenList
    | CloseList
    | OpenMap
    | CloseMap
    | OpenTable
    | EndColumns
    | CloseTable
    | AddAtom(atom: Element)
    | AddFloat16(single: U32)
    | AddText(text: Element)
    | AddCString(memory: seq<Byte>, n: nat)
  {
    /** The element fits its fields, and a C string is in memory. */
    predicate Valid() {
      match this
      case AddAtom(e) => !e.IsMarker() && !e.Text? && !(e.Scalar? && e.kind == Float16)
      case AddText(e) => e.Text? && e.encoding != CString
      case AddCString(s, n) => InMemory(s, n)
      case _ => true
    }

    predicate IsClose() {
      CloseList? || CloseMap? || EndColumns? || CloseTable?
    }
  }

  lemma HalfInRange(h: U16)
    ensures Scalar(Float16, h).Valid()
  {
    Capacities();
  }

  /** The number of bytes written for a C string: one more than its length, in 32 bits. */
  function CStringSize(s: seq<Byte>, n: nat): nat {
    (StrNLen(s, n) + 1) % TWO_TO_THE_32
  }

  /** The bytes written for a C string, whatever the last of them is. */
  function CStringBytes(s: seq<Byte>, n: nat): (bs: seq<Byte>)
    requires InMemory(s, n)
    ensures |bs| == CStringSize(s, n)
  {
    CStringInMemory(s, n);
    s[..CStringSize(s, n)]
  }

  lemma BytesAreUnits(bs: seq<Byte>)
    ensures forall u: int :: u in bs ==> 0 <= u < Capacity(1)
  {
    Capacities();
  }

  /** The element that an accepted call adds to the document. */
  function ElementOf(call: Call): Element {
    match call
    case OpenList => ListOpen
    case OpenMap => MapOpen
    case OpenTable => TableOpen
    case CloseList | CloseMap | EndColumns | CloseTable => Terminator
    case AddAtom(e) => e
    case AddFloat16(x) => HalfInRange(FloatToHalf(x)); Scalar(Float16, FloatToHalf(x))
    case AddText(e) => e
    case AddCString(s, n) => BytesAreUnits(CStringBytes(s, n)); Text(CString, CStringBytes(s, n))
  }

  /** Whether a call is accepted, and with which error it is rejected otherwise. */
  function Verdict(c: DocConfig, call: Call): Status {
    match call
    case OpenList | OpenMap | OpenTable => if AllowContainer(c.cur.state) then SUCCESS else TYPE_MISPLACED
    case CloseList => if c.cur.state == List then SUCCESS else INVALID_OBJECT
    case CloseMap => if c.cur.state == DictKey then SUCCESS else INVALID_OBJECT
    case EndColumns => if c.cur.state == TableColumns && c.cur.columns > 0 then SUCCESS else INVALID_OBJECT
    case CloseTable => if c.cur.state == TableValues && c.cur.column == 0 then SUCCESS else INVALID_OBJECT
    case AddAtom(_) => if AllowAtomic(c.cur.state) then SUCCESS else TYPE_MISPLACED
    case AddFloat16(x) =>
      if !AllowAtomic(c.cur.state) then TYPE_MISPLACED
      else if IsNanHalf(FloatToHalf(x)) || IsInfHalf(FloatToHalf(x)) then INVALID_DATA
      else SUCCESS
    case AddText(_) | AddCString(_, _) => if AllowString(c.cur.state) then SUCCESS else TYPE_MISPLACED
  }

  /** The codes of rejected calls. Closing what is not open, or not complete, is a matter of the object;
      a number that is no half, of the data; everything else, of the place. */
  lemma RejectedWith(c: DocConfig, call: Call)
    requires Verdict(c, call) != 0
    ensures match call
            case CloseList | CloseMap | EndColumns | CloseTable => Verdict(c, call) == 5505
            case AddFloat16(x) => Verdict(c, call) == if c.cur.state in {List, DictKey, DictValue, TableValues} then 5503 else 5504
            case _ => Verdict(c, call) == 5504
  {
  }

  function CloseContainer(c: DocConfig): DocConfig
    requires c.stack != []
  {
    ShapedPrev(c);
    ShapedSwitch(ContainerClosed, Prev(c));
    Switch(ContainerClosed, Prev(c))
  }

  function SwitchDoc(e: Event, c: DocConfig): DocConfig {
    ShapedSwitch(e, c);
    Switch(e, c)
  }

  function NextDoc(s: State, c: DocConfig): DocConfig
    requires c.cur.state != Closed
    requires s != Root && s != Closed && s != DictValue
  {
    ShapedNext(s, c);
    Next(s, c)
  }

  function ColumnsEnded(c: DocConfig): DocConfig
    requires c.cur.state == TableColumns
  {
    ShapedCur(c, c.cur.(state := TableValues));
    c.(cur := c.cur.(state := TableValues))
  }

  /** The configuration after an accepted call. */
  function Advance(c: DocConfig, call: Call): DocConfig
    requires Verdict(c, call) == SUCCESS
  {
    match call
    case OpenList => NextDoc(List, c)
    case OpenMap => NextDoc(DictKey, c)
    case OpenTable => NextDoc(TableColumns, c)
    case CloseList | CloseMap | CloseTable => CloseContainer(c)
    case EndColumns => ColumnsEnded(c)
    case AddAtom(_) | AddFloat16(_) => SwitchDoc(AtomicFound, c)
    case AddText(_) | AddCString(_, _) => SwitchDoc(StringFound, c)
  }

  /** A document under construction: the automaton, and the elements accepted so far. */
  datatype Doc = Doc(cfg: DocConfig, log: seq<Element>)

  const EMPTY := Doc(INITIAL, [])

  predicate Accepts(d: Doc, call: Call) {
    Verdict(d.cfg, call) == SUCCESS
  }

  /** A rejected call leaves the document as it is. */
  function Step(d: Doc, call: Call): Doc {
    if Accepts(d, call) then Doc(Advance(d.cfg, call), d.log + [ElementOf(call)]) else d
  }

  /** The document after any calls, accepted or rejected. */
  function After(d: Doc, calls: seq<Call>): Doc {
    RunAll(Step, d, calls)
  }

  /** What a new writer holds after any calls. */
  function Run(calls: seq<Call>): Doc {
    After(EMPTY, calls)
  }

  /** No call of a run from d is rejected. */
  ghost predicate AllAccepted(d: Doc, calls: seq<Call>) {
    HoldsThroughout(Accepts, Step, d, calls)
  }

  /** The bytes of a document: magic, format version and compression, and then the elements. */
  const HEADER: seq<Byte> := [0x5F, 0x55, 0x4A, 0x4F, 0x01, 0x00, 0x00]

  function Bytes(d: Doc): seq<Byte> {
    HEADER + EncodeAll(d.log)
  }

  /** A call more is a step more; if it is accepted, it adds the bytes of its element. */
  lemma RunMore(calls: seq<Call>, call: Call)
    ensures Run(calls + [call]) == Step(Run(calls), call)
    ensures Accepts(Run(calls), call) ==>
              Bytes(Run(calls + [call])) == Bytes(Run(calls)) + Encode(ElementOf(call))
  {
    RunSnoc(Step, EMPTY, calls, call);
    if Accepts(Run(calls), call) {
      ConcatMapSnoc(Encode, Run(calls).log, ElementOf(call));
    }
  }

  // ----- strings -----

  /** The call that would have written no more than what is counted of a string. */
  function CountedCall(enc: Encoding, us: seq<nat>): Call
    requires enc != CString && forall u :: u in us ==> u < Capacity(enc.UnitWidth())
  {
    assert forall u :: u in Counted(us) ==> u in us;
    AddText(Text(enc, Counted(us)))
  }


  /** The length is that of the bytes before the first NUL, the end of the n bytes, or the end of memory. */
  lemma {:induction false} StrNLenStops(s: seq<Byte>, n: nat)
    ensures var k := StrNLen(s, n);
            && (forall i :: 0 <= i < k ==> s[i] != 0)
            && (k < n && k < |s| ==> s[k] == 0)
  {
    if n > 0 && s != [] && s[0] != 0 {
      StrNLenStops(s[1..], n - 1);
      var k := StrNLen(s, n);
      forall i | 0 <= i < k ensures s[i] != 0 {
        if i > 0 {
          assert s[i] == s[1..][i - 1];
        }
      }
    }
  }

  /** What the documentation promises of a C string: its last byte, and no other, is NUL. */
  predicate Canonical(bs: seq<Byte>) {
    bs != [] && bs[|bs| - 1] == 0 && forall i :: 0 <= i < |bs| - 1 ==> bs[i] != 0
  }

  /** The first k bytes up to and including the first NUL. */
  ghost predicate UpToFirstNul(bs: seq<Byte>, s: seq<Byte>) {
    bs <= s && Canonical(bs)
  }

  /** Counting and copying stay in memory exactly if the caller has provided for it. Counting does
      so if there are n bytes or a NUL ends it before. */
  lemma CStringInMemory(s: seq<Byte>, n: nat)
    ensures InMemory(s, n) <==> (n <= |s| || 0 in s) && CStringSize(s, n) <= |s|
    ensures n + 1 < TWO_TO_THE_32 ==> (InMemory(s, n) <==> n < |s| || 0 in s)
    ensures n + 1 < TWO_TO_THE_32 ==> (InMemory(s, n) <==> StrNLen(s, n) < |s|)
  {
    StrNLenStops(s, n);
    var k := StrNLen(s, n);
    if 0 in s {
      var i :| 0 <= i < |s| && s[i] == 0;
      assert k <= i;
    }
  }

  /** The promise is kept exactly when there is a NUL within the first n + 1 bytes, early enough for
      its position to be counted in 32 bits. The bytes written are then the string up to and
      including its first NUL. */
  lemma CStringCanonical(s: seq<Byte>, n: nat)
    requires InMemory(s, n)
    ensures Canonical(CStringBytes(s, n)) <==> exists i :: 0 <= i <= n && i < |s| && i + 1 < TWO_TO_THE_32 && s[i] == 0
    ensures Canonical(CStringBytes(s, n)) ==> UpToFirstNul(CStringBytes(s, n), s)
    ensures forall i :: 0 <= i < |CStringBytes(s, n)| - 1 ==> CStringBytes(s, n)[i] != 0
  {
    StrNLenStops(s, n);
    CStringInMemory(s, n);
    var k, size := StrNLen(s, n), CStringSize(s, n);
    if k + 1 < TWO_TO_THE_32 {
      assert size == k + 1;
      if s[k] != 0 {
        assert k == n;
      }
    } else {
      assert size <= k;
    }
  }

  /** "abc" followed by more text, added with n = 2, is written without a terminator. */
  lemma CStringNotTerminated()
    ensures !Canonical(CStringBytes([0x61, 0x62, 0x63, 0x64, 0x00], 2))
  {
    var s: seq<Byte> := [0x61, 0x62, 0x63, 0x64, 0x00];
    assert s[1..][1..] == [0x63, 0x64, 0x00];
    assert StrNLen(s, 2) == 2 by {
      assert StrNLen(s[1..], 1) == 1 + StrNLen(s[1..][1..], 0);
    }
    assert CStringBytes(s, 2)[2] == 0x63;
  }

  /** A string of 2^32 - 1 bytes before its NUL is written as no bytes at all. */
  lemma LongCStringIsLost()
    ensures var n := TWO_TO_THE_32 - 1;
            var s: seq<Byte> := seq(n, _ => 0x61) + [0];
            InMemory(s, n) && s[n] == 0 && CStringBytes(s, n) == []
  {
    var n := TWO_TO_THE_32 - 1;
    var s: seq<Byte> := seq(n, _ => 0x61) + [0];
    StrNLenStops(s, n);
    assert StrNLen(s, n) == n;
  }
}
