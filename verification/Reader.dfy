/** The memory reader. */
module Readers {
  import opened Integers
  import opened DocState
  import opened StateMemory
  import opened Elements
  import opened WriterRules
  import opened ReaderRules
  import opened WireFormat

  class Reader {
    const heap: StateHeap
    const stack: PointerStack
    var state: Pointer
    var buffer: array<Byte>
    var buffersize: nat
    var parsed: nat

    ghost function Repr(): set<object>
      reads this, stack
    {
      {this, heap, stack} + stack.Repr
    }

    ghost predicate Sound()
      reads this, heap, stack, stack.Repr, buffer
    {
      && Holds(state, stack, heap)
      && this !in stack.Repr && buffer !in stack.Repr
      && buffer.Length == buffersize
    }

    ghost function Cfg(): Config
      requires Sound()
      reads this, heap, stack, stack.Repr, buffer
    {
      Held(state, stack, heap)
    }

    /** The frames are in a configuration that can arise, and all table counters are zero. */
    ghost predicate Valid()
      reads this, heap, stack, stack.Repr, buffer
    {
      Sound() && Shaped(Cfg()) && Erase(Cfg()) == Cfg()
    }

    /** What the next read will find. */
    ghost function Next(): Outcome
      requires Valid()
      reads this, heap, stack, stack.Repr, buffer
    {
      ReadNext(buffer[..], parsed, Cfg())
    }

    constructor ()
      ensures Valid() && fresh(Repr()) && fresh(buffer)
      ensures Cfg() == INITIAL && buffersize == 0 && parsed == 0
    {
      var root, s, h := NewFrames();
      heap, stack, state := h, s, root;
      buffer := new Byte[0];
      buffersize, parsed := 0, 0;
      new;
    }

    /** Takes a copy of the document and starts over: whatever has been read before, the
        reader is then as a new one with that document. */
    method SetBuffer(data: seq<Byte>)
      requires Valid()
      modifies this, heap, stack
      ensures Valid() && stack.Repr == old(stack.Repr) && fresh(buffer)
      ensures buffer[..] == data && parsed == 0
      ensures Cfg() == INITIAL
    {
      var copy := new Byte[|data|](i requires 0 <= i < |data| => data[i]);
      assert copy[..] == data;
      buffer, buffersize, parsed := copy, |data|, 0;
      ClearFrames();
      OwnedStore(heap.cells, state, [], heap.cells[state].(state := Root));
      heap.Store(state, heap.cells[state].(state := Root));
    }

    /** Frees the stacked frames; the current one stays. */
    method ClearFrames()
      requires Sound()
      modifies heap, stack
      ensures Sound() && stack.Repr == old(stack.Repr) && stack.Contents() == []
      ensures state in heap.cells
      ensures Cfg() == Config(old(Cfg()).cur, [])
    {
      ghost var cells, ptrs := heap.cells, stack.Contents();
      OwnedParts(cells, state, ptrs);
      stack.Clear(heap);
      OwnedAlone(cells, state, ptrs);
    }

    // ----- bytes -----

    /** Copies the next n bytes; the source does not check that there are as many. */
    method GetData(n: nat) returns (data: seq<Byte>)
      requires buffer.Length == buffersize && parsed + n <= buffersize
      modifies this`parsed
      ensures parsed == old(parsed) + n
      ensures data == buffer[..][old(parsed)..parsed]
    {
      data := buffer[parsed..parsed + n];
      parsed := parsed + n;
    }

    method GetByte() returns (b: Byte)
      requires buffer.Length == buffersize && parsed < buffersize
      modifies this`parsed
      ensures parsed == old(parsed) + 1
      ensures b == buffer[..][old(parsed)]
    {
      var data := GetData(1);
      b := data[0];
    }

    method ReadScalar(kind: Kind) returns (number: int)
      requires buffer.Length == buffersize && parsed + kind.Width() <= buffersize
      modifies this`parsed
      ensures parsed == old(parsed) + kind.Width()
      ensures kind.InRange(number)
      ensures number == ScalarOf(kind, buffer[..][old(parsed)..parsed])
      ensures buffer[..][old(parsed)..parsed] == Image(number, kind.Width())
    {
      var data := GetData(kind.Width());
      ScalarImage(kind, data);
      ScalarBytesImage(kind, ScalarOf(kind, data));
      number := ScalarOf(kind, data);
    }

    method ReadDay() returns (year: I16, month: Byte, day: Byte)
      requires buffer.Length == buffersize && parsed + 4 <= buffersize
      modifies this`parsed
      ensures parsed == old(parsed) + 4
      ensures year == YearOf(buffer[..][old(parsed)..old(parsed) + 2])
      ensures month == buffer[..][old(parsed) + 2] && day == buffer[..][old(parsed) + 3]
    {
      var data := GetData(2);
      year := YearOf(data);
      month := GetByte();
      day := GetByte();
    }

    method ReadClock() returns (hour: Byte, minute: Byte, second: Byte)
      requires buffer.Length == buffersize && parsed + 3 <= buffersize
      modifies this`parsed
      ensures parsed == old(parsed) + 3
      ensures hour == buffer[..][old(parsed)] && minute == buffer[..][old(parsed) + 1] && second == buffer[..][old(parsed) + 2]
    {
      hour := GetByte();
      minute := GetByte();
      second := GetByte();
    }

    method ReadMilli() returns (millisecond: U16)
      requires buffer.Length == buffersize && parsed + 2 <= buffersize
      modifies this`parsed
      ensures parsed == old(parsed) + 2
      ensures millisecond == MilliOf(buffer[..][old(parsed)..parsed])
    {
      var data := GetData(2);
      millisecond := MilliOf(data);
    }

    /** A string: its subtype, its number of units, and then the units. None if the subtype is unknown. */
    method ReadText() returns (v: Option<RawElement>)
      requires buffer.Length == buffersize && !DecodeText(buffer[..], parsed).Overrun?
      modifies this`parsed
      ensures match DecodeText(buffer[..], old(parsed))
              case Overrun => false
              case Bad(next) => v == None && parsed == next
              case Got(e, next) => v == Some(e) && parsed == next
      ensures v == None <==> buffer[..][old(parsed)] > 0x03
      ensures v.Some? ==> v.value.Text?
                          && SpelledText([0x04] + buffer[..][old(parsed)..parsed], v.value.encoding, v.value.units)
    {
      TextInBuffer(buffer[..], parsed);
      var sub := GetByte();
      var head := GetData(4);
      var n := Unsigned(head);
      match EncodingOf(sub)
      case None =>
        v := None;
      case Some(enc) =>
        var data := GetData(enc.Size(n));
        v := Some(Text(enc, DecodeUnits(data, enc.UnitWidth())));
    }

    method ReadBinary() returns (v: RawElement)
      requires buffer.Length == buffersize && !DecodeBinary(buffer[..], parsed).Overrun?
      modifies this`parsed
      ensures DecodeBinary(buffer[..], old(parsed)) == Got(v, parsed)
    {
      var subtype := GetByte();
      var head := GetData(4);
      var data := GetData(Unsigned(head));
      v := Binary(subtype, data);
    }

    /** The value that follows a type id; None for an unknown type. */
    method ReadValue(tag: Byte) returns (v: Option<RawElement>)
      requires buffer.Length == buffersize && 0 < parsed <= buffersize && buffer[parsed - 1] == tag
      requires tag !in {LIST, MAP, TABLE, TERMINATOR}
      requires !Decode(buffer[..], parsed - 1).Overrun?
      modifies this`parsed
      ensures match Decode(buffer[..], old(parsed) - 1)
              case Overrun => false
              case Bad(next) => v == None && parsed == next
              case Got(e, next) => v == Some(e) && parsed == next
      ensures FoundAt(buffer[..], old(parsed) - 1, v, parsed)
    {
      FoundInBuffer(buffer[..], parsed - 1);
      if tag == NONE {
        v := Some(NoneValue);
      } else if tag == STRING {
        v := ReadText();
      } else if tag == BINARY {
        var e := ReadBinary();
        v := Some(e);
      } else if tag == DATE {
        var year, month, day := ReadDay();
        v := Some(Date(year, month, day));
      } else if tag == TIME {
        var hour, minute, second := ReadClock();
        v := Some(Time(hour, minute, second));
      } else if tag == TIMESTAMP {
        v := ReadTimestamp();
      } else {
        match KindOf(tag)
        case None =>
          v := None;
        case Some(kind) =>
          var number := ReadScalar(kind);
          v := Some(Scalar(kind, number));
      }
    }

    method ReadTimestamp() returns (v: Option<RawElement>)
      requires buffer.Length == buffersize && 0 < parsed && parsed + 9 <= buffersize
      modifies this`parsed
      ensures parsed == old(parsed) + 9
      ensures var bs, at := buffer[..], old(parsed);
              v == Some(Timestamp(YearOf(bs[at..at + 2]), bs[at + 2], bs[at + 3], bs[at + 4], bs[at + 5], bs[at + 6],
                                  MilliOf(bs[at + 7..at + 9])))
    {
      var year, month, day := ReadDay();
      var hour, minute, second := ReadClock();
      var millisecond := ReadMilli();
      v := Some(Timestamp(year, month, day, hour, minute, second, millisecond));
    }

    // ----- elements -----

    function Current(): (f: Frame)
      requires Sound()
      reads this, heap, stack, stack.Repr, buffer
      ensures f == Cfg().cur
    {
      CurrentIsLive(heap.cells, state, stack.Contents());
      heap.cells[state]
    }

    /** What the frames do on an element that has been read. */
    method Follow(e: Element)
      requires Valid() && Cfg().cur.state != Closed && !Underflows(Cfg(), e)
      modifies this`state, heap, stack.Repr
      ensures Valid() && fresh(stack.Repr - old(stack.Repr))
      ensures Cfg() == Consume(old(Cfg()), e)
    {
      ghost var c: DocConfig := Cfg();
      CountersStayZero(c, e);
      match e
      case ListOpen => OpenContainer(List, c);
      case MapOpen => OpenContainer(DictKey, c);
      case TableOpen => OpenContainer(TableColumns, c);
      case Terminator => FollowTerminator(c);
      case _ => FollowAtomic(c);
    }

    method OpenContainer(s: State, ghost c: DocConfig)
      requires Sound() && Cfg() == c
      modifies this`state, heap, stack.Repr
      ensures Sound() && fresh(stack.Repr - old(stack.Repr))
      ensures Cfg() == DocState.Next(s, c)
    {
      state := StateNext(s, state, stack, heap);
    }

    method FollowAtomic(ghost c: DocConfig)
      requires Sound() && Cfg() == c
      modifies this`state, heap, stack.Repr
      ensures Sound() && fresh(stack.Repr - old(stack.Repr))
      ensures Cfg() == SwitchDoc(AtomicFound, c)
    {
      ShapedSwitch(AtomicFound, c);
      state := StateSwitch(AtomicFound, state, stack, heap);
    }

    /** The first terminator of a table ends its columns; every other one closes its container. */
    method FollowTerminator(ghost c: DocConfig)
      requires Sound() && Cfg() == c && c.stack != []
      modifies this`state, heap, stack.Repr
      ensures Sound() && fresh(stack.Repr - old(stack.Repr))
      ensures Cfg() == if c.cur.state == TableColumns then ColumnsEnded(c) else WriterRules.CloseContainer(c)
    {
      if Current().state == TableColumns {
        EndColumns();
      } else {
        CloseContainer(c);
      }
    }

    method EndColumns()
      requires Sound()
      modifies heap
      ensures Sound()
      ensures Cfg() == old(Cfg()).(cur := old(Cfg()).cur.(state := TableValues))
    {
      OwnedStore(heap.cells, state, stack.Contents(), Current().(state := TableValues));
      heap.Store(state, Current().(state := TableValues));
    }

    method CloseContainer(ghost c: DocConfig)
      requires Sound() && Cfg() == c && c.stack != []
      modifies this`state, heap, stack.Repr
      ensures Sound() && fresh(stack.Repr - old(stack.Repr))
      ensures Cfg() == WriterRules.CloseContainer(c)
    {
      ShapedPrev(c);
      ghost var d: DocConfig := Prev(c);
      ShapedSwitch(ContainerClosed, d);
      state := StatePrev(state, stack, heap);
      assert Cfg() == d;
      state := StateSwitch(ContainerClosed, state, stack, heap);
    }

    /** The next element of the bytes; None if there is none that begins so. */
    method ReadElement() returns (v: Option<RawElement>)
      requires buffer.Length == buffersize && !Decode(buffer[..], parsed).Overrun?
      modifies this`parsed
      ensures match Decode(buffer[..], old(parsed))
              case Overrun => false
              case Bad(next) => v == None && parsed == next
              case Got(e, next) => v == Some(e) && parsed == next
      ensures FoundAt(buffer[..], old(parsed), v, parsed)
    {
      FoundInBuffer(buffer[..], parsed);
      var tag := GetByte();
      if tag == LIST {
        v := Some(ListOpen);
      } else if tag == MAP {
        v := Some(MapOpen);
      } else if tag == TABLE {
        v := Some(TableOpen);
      } else if tag == TERMINATOR {
        v := Some(Terminator);
      } else {
        v := ReadValue(tag);
      }
    }

    /** The next element, or the end of the data, or an error. */
    method GetNext() returns (v: Option<RawElement>, eod: bool, status: Status)
      requires Valid() && !Next().Fault?
      modifies this`state, this`parsed, heap, stack.Repr
      ensures Valid() && fresh(stack.Repr - old(stack.Repr))
      ensures Agrees(old(Next()), v, eod, status, parsed, Cfg())
      ensures eod ==> parsed == old(parsed) && Cfg() == old(Cfg())
      ensures status != SUCCESS ==> Cfg() == old(Cfg())
      ensures eod <==> old(Cfg()).cur.state == Closed
      ensures !eod ==> FoundAt(buffer[..], old(parsed), v, parsed)
      ensures status == if eod || v.Some? then 0 else 5503
    {
      if Current().state == Closed {
        return None, true, SUCCESS;
      }
      ghost var bs, c := buffer[..], Cfg();
      eod := false;
      v := ReadElement();
      if v == None {
        return v, eod, INVALID_DATA;
      }
      EncodeDecode(bs, old(parsed));
      Follow(v.value);
      status := SUCCESS;
    }

    /** The magic, the version, and a byte that is not looked at. */
    method ParseHeader() returns (status: Status)
      requires buffer.Length == buffersize && !ReadHeader(buffer[..], parsed).HeaderFault?
      modifies this`parsed
      ensures match ReadHeader(buffer[..], old(parsed))
              case HeaderFault => false
              case HeaderInvalid(next) => status == INVALID_DATA && parsed == next
              case HeaderOk(next) => status == SUCCESS && parsed == next
      ensures status == if IsDocument(buffer[..], old(parsed)) then 0 else 5503
      ensures parsed == old(parsed) + if status == 0 then 7 else if HasMagic(buffer[..], old(parsed)) then 6 else 4
    {
      HeaderFormat(buffer[..], parsed);
      var magic := GetData(4);
      if magic != [0x5F, 0x55, 0x4A, 0x4F] {
        assert HEADER[..4] == [0x5F, 0x55, 0x4A, 0x4F];
        return INVALID_DATA;
      }
      assert HEADER[..4] == [0x5F, 0x55, 0x4A, 0x4F];
      var version := GetData(2);
      if Unsigned(version) != 1 {
        return INVALID_DATA;
      }
      var compression := GetByte();
      return SUCCESS;
    }

    /** What the first read of a document finds. */
    ghost function First(): Outcome
      requires Valid()
      reads this, heap, stack, stack.Repr, buffer
    {
      ReadFirst(buffer[..], parsed, Cfg())
    }

    method GetFirst() returns (v: Option<RawElement>, eod: bool, status: Status)
      requires Valid() && !First().Fault?
      modifies this`state, this`parsed, heap, stack.Repr
      ensures Valid() && fresh(stack.Repr - old(stack.Repr))
      ensures Agrees(old(First()), v, eod, status, parsed, Cfg())
      ensures status != SUCCESS || eod ==> Cfg() == old(Cfg())
      ensures eod ==> ReadHeader(buffer[..], old(parsed)) == HeaderOk(parsed)
      ensures !IsDocument(buffer[..], old(parsed)) ==>
                && v == None && !eod && status == 5503
                && parsed == old(parsed) + if HasMagic(buffer[..], old(parsed)) then 6 else 4
      ensures IsDocument(buffer[..], old(parsed)) && !eod ==> FoundAt(buffer[..], old(parsed) + 7, v, parsed)
    {
      v, eod := None, false;
      status := ParseHeader();
      if status != SUCCESS {
        return;
      }
      v, eod, status := GetNext();
    }

    /** What a parse of the document comes to. */
    ghost function Whole(on: Handler): Parsed
      requires Valid()
      reads this, heap, stack, stack.Repr, buffer
    {
      ParseDocument(buffer[..], parsed, Cfg(), on)
    }

    /** Passes the elements to a handler, one by one, until it fails or the data ends. */
    method Parse(on: Handler) returns (status: Status, delivered: seq<Element>)
      requires Valid() && Whole(on).Finished?
      modifies this`state, this`parsed, heap, stack.Repr
      ensures Valid() && fresh(stack.Repr - old(stack.Repr))
      ensures old(Whole(on)) == Finished(delivered, status, parsed, Cfg())
      ensures !IsDocument(buffer[..], old(parsed)) ==> delivered == [] && status == 5503
    {
      delivered := [];
      ghost var bs, c: DocConfig, pos := buffer[..], Cfg(), parsed;
      ghost var whole := Whole(on);
      var v, eod, err := GetFirst();
      if err != SUCCESS {
        WholeFailed(bs, pos, c, on, err, parsed);
        return err, delivered;
      }
      WholeStarted(bs, pos, c, on, v, eod, parsed, Cfg());
      while !eod
        invariant Valid() && fresh(stack.Repr - old(stack.Repr))
        invariant buffer[..] == bs && parsed <= |bs|
        invariant Found(v, eod)
        invariant RestOf(bs, v, eod, on, delivered, parsed, Cfg()) == whole && whole.Finished?
        decreases !eod, buffersize - parsed
      {
        err := on(delivered, v.value);
        delivered := delivered + [v.value];
        if err != SUCCESS {
          return err, delivered;
        }
        c, pos := Cfg(), parsed;
        v, eod, err := GetNext();
        AfterRead(bs, pos, c, on, delivered, v, eod, err, parsed, Cfg());
        if err != SUCCESS {
          return err, delivered;
        }
      }
      return SUCCESS, delivered;
    }

    /** Disposes of the reader: every frame record is freed once, and none is left. */
    method Dispose()
      requires Valid()
      modifies heap, stack
      ensures heap.cells == map[]
    {
      FreeAll(state, stack, heap);
    }
  }

  /** A read has found what the bytes spell, or what no element begins with. */
  ghost predicate FoundAt(bs: seq<Byte>, pos: nat, v: Option<RawElement>, next: nat) {
    match v
    case Some(e) => pos <= next <= |bs| && Spelled(bs[pos..next], e)
    case None => BadAt(bs, pos, next)
  }

  lemma TextInBuffer(bs: seq<Byte>, at: nat)
    requires !DecodeText(bs, at).Overrun?
    ensures DecodeText(bs, at).Bad? <==> bs[at] > 0x03
    ensures match DecodeText(bs, at)
            case Got(e, next) => e.Text? && at <= next <= |bs| && SpelledText([0x04] + bs[at..next], e.encoding, e.units)
            case _ => true
  {
    if DecodeText(bs, at).Got? {
      EncodeDecodeText(bs, at);
      var Got(e, next) := DecodeText(bs, at);
      TextFormat([0x04] + bs[at..next], e.encoding, e.units);
    }
  }

  /** The results of a read and the reader after it are those of an outcome. */
  predicate Agrees(r: Outcome, v: Option<RawElement>, eod: bool, status: Status, parsed: nat, c: Config) {
    match r
    case EndOfData => v == None && eod && status == SUCCESS
    case Fault => false
    case Invalid(next) => v == None && !eod && status == INVALID_DATA && parsed == next
    case Read(e, next, d) => v == Some(e) && !eod && status == SUCCESS && parsed == next && c == d
  }

  /** A successful read has found an element or the end. */
  predicate Found(v: Option<RawElement>, eod: bool) {
    !eod ==> v.Some? && v.value.Valid()
  }

  /** What a parse comes to that has just found v, or the end of the data. */
  ghost function RestOf(bs: seq<Byte>, v: Option<RawElement>, eod: bool, on: Handler, seen: seq<Element>,
                        pos: nat, c: DocConfig): Parsed
    requires Found(v, eod)
  {
    if eod then Finished(seen, SUCCESS, pos, c)
    else if on(seen, v.value) != SUCCESS then Finished(seen + [v.value], on(seen, v.value), pos, c)
    else ParseFrom(bs, pos, c, on, seen + [v.value])
  }

  lemma AfterRead(bs: seq<Byte>, pos: nat, c: DocConfig, on: Handler, seen: seq<Element>,
                  v: Option<RawElement>, eod: bool, status: Status, next: nat, d: DocConfig)
    requires Agrees(ReadNext(bs, pos, c), v, eod, status, next, d)
    requires eod ==> next == pos && d == c
    requires status != SUCCESS ==> d == c
    ensures status != SUCCESS ==> ParseFrom(bs, pos, c, on, seen) == Finished(seen, status, next, d)
    ensures status == SUCCESS ==> Found(v, eod) && ParseFrom(bs, pos, c, on, seen) == RestOf(bs, v, eod, on, seen, next, d)
    ensures status == SUCCESS && !eod ==> pos < next <= |bs|
  {
  }

  lemma WholeFailed(bs: seq<Byte>, pos: nat, c: DocConfig, on: Handler, status: Status, next: nat)
    requires Agrees(ReadFirst(bs, pos, c), None, false, status, next, c) && status != SUCCESS
    ensures ParseDocument(bs, pos, c, on) == Finished([], status, next, c)
  {
    match ReadHeader(bs, pos)
    case HeaderOk(at) => AfterRead(bs, at, c, on, [], None, false, status, next, c);
    case _ =>
  }

  lemma WholeStarted(bs: seq<Byte>, pos: nat, c: DocConfig, on: Handler,
                     v: Option<RawElement>, eod: bool, next: nat, d: DocConfig)
    requires Agrees(ReadFirst(bs, pos, c), v, eod, SUCCESS, next, d)
    requires eod ==> ReadHeader(bs, pos) == HeaderOk(next) && d == c
    ensures Found(v, eod) && next <= |bs|
    ensures ParseDocument(bs, pos, c, on) == RestOf(bs, v, eod, on, [], next, d)
  {
    var at := ReadHeader(bs, pos).next;
    AfterRead(bs, at, c, on, [], v, eod, SUCCESS, next, d);
  }

  lemma OwnedAlone(cells: map<Pointer, Frame>, cur: Pointer, ptrs: seq<Pointer>)
    requires Owned(cells, cur, ptrs)
    ensures var rest := cells - (set p | p in ptrs);
            cur in rest && Owned(rest, cur, []) && ConfigOf(rest, cur, []) == Config(cells[cur], [])
  {
    OwnedParts(cells, cur, ptrs);
    CurrentIsLive(cells, cur, ptrs);
    var rest := cells - (set p | p in ptrs);
    assert rest.Keys == {cur};
    assert [] + [cur] == [cur];
  }
}
