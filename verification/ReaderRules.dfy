/** What the reader does with the bytes of a document. */
module ReaderRules {
  import opened Integers
  import opened DocState
  import opened Elements
  import opened WriterRules

  /** The only element that would make the reader pop an empty stack is a terminator at ROOT. */
  predicate Underflows(c: Config, e: Element) {
    e.Terminator? && c.cur.state == Root
  }

  /** The configuration after an element has been read. The reader does not check whether the
      element is allowed there, and reports a string as an atomic value. */
  function Consume(c: DocConfig, e: Element): DocConfig
    requires c.cur.state != Closed && !Underflows(c, e)
  {
    match e
    case ListOpen => NextDoc(List, c)
    case MapOpen => NextDoc(DictKey, c)
    case TableOpen => NextDoc(TableColumns, c)
    case Terminator => if c.cur.state == TableColumns then ColumnsEnded(c) else CloseContainer(c)
    case _ => SwitchDoc(AtomicFound, c)
  }

  /** What is below the current frame comes back; ROOT comes back as CLOSED. */
  predicate Uncovers(c: DocConfig, d: Config)
    requires c.stack != []
  {
    var n := |c.stack| - 1;
    d == Config(if c.stack[n].state == Root then Frame(Closed, 0, 0) else c.stack[n], c.stack[..n])
  }

  /** The frames after any element, allowed in its place or not, where the counters are zero: a container
      goes on top, and whatever stands at a map key has the value next and ends its pair at the value. */
  lemma ConsumeAnywhere(c: DocConfig, e: Element)
    requires c.cur.state != Closed && !Underflows(c, e) && Erase(c) == c
    ensures var d := Consume(c, e);
            match e
            case ListOpen => d == Config(Frame(List, 0, 0), c.stack + [c.cur])
            case MapOpen => d == Config(Frame(DictKey, 0, 0), c.stack + [c.cur])
            case TableOpen => d == Config(Frame(TableColumns, 0, 0), c.stack + [c.cur])
            case Terminator =>
              if c.cur.state == TableColumns then d == Config(Frame(TableValues, 0, 0), c.stack)
              else
                var n := |c.stack| - 1;
                if c.stack[n].state == DictValue then d == Config(c.stack[n - 1], c.stack[..n - 1])
                else Uncovers(c, d)
            case _ =>
              if c.cur.state == DictKey then d == Config(Frame(DictValue, 0, 0), c.stack + [c.cur])
              else if c.cur.state == DictValue then Uncovers(c, d)
              else d == c
  {
    if e.Terminator? && c.cur.state != TableColumns {
      assert OnKey(Frames(c), |c.stack| - 1);
    }
  }

  datatype Outcome =
    | EndOfData
    | Fault                     // would read outside the buffer or pop an empty stack
    | Invalid(next: nat)        // unknown type
    | Read(element: Element, next: nat, cfg: DocConfig)

  /** One call of the reader at a position of the buffer. */
  function ReadNext(bs: seq<Byte>, pos: nat, c: DocConfig): (r: Outcome)
    ensures r.Read? ==> pos < r.next <= |bs| && bs[pos..r.next] == Encode(r.element)
  {
    if c.cur.state == Closed then EndOfData
    else match Decode(bs, pos)
      case Overrun => Fault
      case Bad(next) => Invalid(next)
      case Got(e, next) =>
        EncodeDecode(bs, pos);
        if Underflows(c, e) then Fault else Read(e, next, Consume(c, e))
  }

  datatype HeaderOutcome = HeaderFault | HeaderInvalid(next: nat) | HeaderOk(next: nat)

  /** The header check: four bytes of magic, then two of version, then one that is not looked at. */
  function ReadHeader(bs: seq<Byte>, pos: nat): HeaderOutcome {
    if pos + 4 > |bs| then HeaderFault
    else if bs[pos..pos + 4] != HEADER[..4] then HeaderInvalid(pos + 4)
    else if pos + 6 > |bs| then HeaderFault
    else if Unsigned(bs[pos + 4..pos + 6]) != 1 then HeaderInvalid(pos + 6)
    else if pos + 7 > |bs| then HeaderFault
    else HeaderOk(pos + 7)
  }

  /** How a whole parse ends: what has been passed to the handler, and with which status. */
  datatype Parsed =
    | Crash
    | Finished(delivered: seq<Element>, status: Status, next: nat, cfg: DocConfig)

  /** The handler sees each element after those it has already seen; the parse stops at its first error. */
  type Handler = (seq<Element>, Element) -> Status

  function ParseFrom(bs: seq<Byte>, pos: nat, c: DocConfig, on: Handler, seen: seq<Element>): Parsed
    decreases |bs| - pos
  {
    match ReadNext(bs, pos, c)
    case EndOfData => Finished(seen, SUCCESS, pos, c)
    case Fault => Crash
    case Invalid(next) => Finished(seen, INVALID_DATA, next, c)
    case Read(e, next, d) =>
      if on(seen, e) != SUCCESS then Finished(seen + [e], on(seen, e), next, d)
      else ParseFrom(bs, next, d, on, seen + [e])
  }

  /** The first read of a document, after its header. */
  function ReadFirst(bs: seq<Byte>, pos: nat, c: DocConfig): Outcome {
    match ReadHeader(bs, pos)
    case HeaderFault => Fault
    case HeaderInvalid(next) => Invalid(next)
    case HeaderOk(next) => ReadNext(bs, next, c)
  }

  /** A whole parse, header included. */
  function ParseDocument(bs: seq<Byte>, pos: nat, c: DocConfig, on: Handler): Parsed {
    match ReadHeader(bs, pos)
    case HeaderFault => Crash
    case HeaderInvalid(next) => Finished([], INVALID_DATA, next, c)
    case HeaderOk(next) => ParseFrom(bs, next, c, on, [])
  }

  // ----- lock step with the writer -----

  lemma EraseNext(s: State, c: Config)
    ensures Erase(Next(s, c)) == Next(s, Erase(c))
  {
  }

  lemma ErasePrev(c: Config)
    requires c.stack != []
    ensures Erase(Prev(c)) == Prev(Erase(c))
  {
  }

  lemma EraseSwitch(e: Event, c: Config)
    requires c.cur.state == DictValue ==> c.stack != []
    ensures Erase(Switch(e, c)) == Switch(if e == StringFound then AtomicFound else e, Erase(c))
  {
    match c.cur.state
    case DictValue => ErasePrev(c);
    case DictKey => EraseNext(DictValue, c);
    case _ =>
  }

  lemma EraseShaped(c: DocConfig)
    ensures Shaped(Erase(c))
  {
    var fs, fs' := Frames(c), Frames(Erase(c));
    forall i | 0 <= i < |fs'| ensures OnKey(fs', i) {
      assert OnKey(fs, i);
      assert forall j :: 0 <= j < |fs| ==> fs'[j] == EraseFrame(fs[j]);
    }
  }

  function Erased(c: DocConfig): DocConfig {
    EraseShaped(c);
    Erase(c)
  }

  lemma EraseClose(c: DocConfig)
    requires c.stack != []
    ensures CloseContainer(Erased(c)) == Erased(CloseContainer(c))
  {
    ErasePrev(c);
    ShapedPrev(c);
    EraseSwitch(ContainerClosed, Prev(c));
  }

  /** After an accepted call and the matching read, the reader is again where the writer is,
      apart from the table counters, which the reader does not keep. */
  lemma LockStep(c: DocConfig, call: Call)
    requires Verdict(c, call) == SUCCESS
    ensures c.cur.state != Closed && !Underflows(Erased(c), ElementOf(call))
    ensures Consume(Erased(c), ElementOf(call)) == Erased(Advance(c, call))
  {
    match call
    case OpenList => EraseNext(List, c);
    case OpenMap => EraseNext(DictKey, c);
    case OpenTable => EraseNext(TableColumns, c);
    case CloseList | CloseMap | CloseTable => EraseClose(c);
    case EndColumns =>
    case AddAtom(_) | AddFloat16(_) => EraseSwitch(AtomicFound, c);
    case AddText(_) | AddCString(_, _) => EraseSwitch(StringFound, c);
  }

  /** The reader's table counters are zero and stay zero, on any bytes. */
  lemma CountersStayZero(c: DocConfig, e: Element)
    requires c.cur.state != Closed && !Underflows(c, e)
    requires Erase(c) == c
    ensures Erase(Consume(c, e)) == Consume(c, e)
  {
    match e
    case ListOpen => EraseNext(List, c);
    case MapOpen => EraseNext(DictKey, c);
    case TableOpen => EraseNext(TableColumns, c);
    case Terminator =>
      if c.cur.state != TableColumns {
        EraseClose(c);
      }
    case _ => EraseSwitch(AtomicFound, c);
  }
}
