/** The memory writer. */
module Writers {
  import opened Integers
  import opened DocState
  import opened StateMemory
  import opened Elements
  import opened HalfFloat
  import opened Sequences
  import opened WriterRules
  import opened WireFormat

  const DEFAULT_BUFSIZE := 4096

  /** The buffer size after bytes more have been put: the step ignores what is still free. */
  function GrownSize(size: nat, used: nat, more: nat): nat {
    if used + more > size then size + (more / DEFAULT_BUFSIZE + 1) * DEFAULT_BUFSIZE else size
  }

  /** A whole number of pages, enough for what is used, and never more than twice that and a page. */
  predicate GoodSize(size: nat, used: nat) {
    size > 0 && size % DEFAULT_BUFSIZE == 0 && used <= size <= 2 * used + DEFAULT_BUFSIZE
  }

  lemma GrownSizeIsGood(size: nat, used: nat, more: nat)
    requires GoodSize(size, used)
    ensures GoodSize(GrownSize(size, used, more), used + more)
  {
  }

  lemma EndAdvances(c: DocConfig)
    requires Verdict(c, EndColumns) == SUCCESS
    ensures Advance(c, EndColumns) == c.(cur := c.cur.(state := TableValues))
    ensures Encode(ElementOf(EndColumns)) == [TERMINATOR]
  {
  }

  lemma AtomAdvances(c: DocConfig, call: Call)
    requires (call.AddAtom? || call.AddFloat16?) && Verdict(c, call) == SUCCESS
    ensures c.cur.state == DictValue ==> c.stack != []
    ensures Advance(c, call) == Switch(AtomicFound, c)
  {
    ShapedSwitch(AtomicFound, c);
  }

  lemma StringAdvances(c: DocConfig, call: Call)
    requires (call.AddText? || call.AddCString?) && Verdict(c, call) == SUCCESS
    ensures c.cur.state == DictValue ==> c.stack != []
    ensures Advance(c, call) == Switch(StringFound, c)
  {
    ShapedSwitch(StringFound, c);
  }

  lemma CloseAdvances(c: DocConfig, call: Call)
    requires call == CloseList || call == CloseMap || call == CloseTable
    requires Verdict(c, call) == SUCCESS
    ensures c.stack != [] && Advance(c, call) == CloseContainer(c)
    ensures Encode(ElementOf(call)) == [TERMINATOR]
  {
  }

  class Writer {
    const heap: StateHeap
    const stack: PointerStack
    var state: Pointer
    var buffer: array<Byte>
    var buffersize: nat
    var bytes: nat
    /** Every call so far, accepted or rejected. */
    ghost var calls: seq<Call>

    ghost function Repr(): set<object>
      reads this, stack
    {
      {this, heap, stack, buffer} + stack.Repr
    }

    /** The buffer is in order, whatever it holds. */
    ghost predicate Room()
      reads this, buffer
    {
      buffer.Length == buffersize && GoodSize(buffersize, bytes)
    }

    ghost function Data(): seq<Byte>
      requires Room()
      reads this, buffer
    {
      buffer[..bytes]
    }

    /** The frames are in order, whatever the buffer holds. */
    ghost predicate Framed()
      reads this`state, heap, stack, stack.Repr
    {
      Holds(state, stack, heap) && this !in stack.Repr
    }

    ghost function Cfg(): Config
      requires Framed()
      reads this`state, heap, stack, stack.Repr
    {
      Held(state, stack, heap)
    }

    /** The frames and the buffer are in order, and apart from each other. */
    ghost predicate Sound()
      reads this, heap, stack, stack.Repr, buffer
    {
      Framed() && Room() && buffer !in stack.Repr
    }

    /** The memory holds the document that the calls so far have made. */
    ghost predicate Valid()
      reads this, heap, stack, stack.Repr, buffer
    {
      && Sound()
      && Cfg() == Run(calls).cfg
      && Data() == Bytes(Run(calls))
    }

    /** The memory holds the document that the calls so far have made, and some bytes after it. */
    ghost predicate HoldsBefore(tail: seq<Byte>)
      reads this, heap, stack, stack.Repr, buffer
    {
      && Sound()
      && Cfg() == Run(calls).cfg
      && Data() == Bytes(Run(calls)) + tail
    }

    /** A call has left the frames, the stack and the buffer alone. */
    twostate predicate Untouched()
      reads this, heap, stack, stack.Repr, buffer
    {
      && state == old(state) && heap.cells == old(heap.cells)
      && unchanged(stack) && unchanged(stack.Repr)
      && buffer == old(buffer) && buffersize == old(buffersize) && bytes == old(bytes)
      && unchanged(buffer)
    }

    /** The call has appended bytes that spell a string, of whatever length. */
    twostate predicate AppendedText(enc: Encoding, us: seq<nat>)
      requires old(Room()) && Room()
      reads this, buffer
    {
      old(Data()) <= Data() && SpelledText(Data()[|old(Data())|..], enc, us)
    }

    /** The call has appended bytes that spell e. */
    twostate predicate Appended(e: RawElement)
      requires old(Room()) && Room()
      reads this, buffer
    {
      old(Data()) <= Data() && Spelled(Data()[|old(Data())|..], e)
    }

    /** The stack and the buffer are the old ones, or new. */
    twostate predicate FootprintGrows()
      reads this, stack
    {
      fresh(stack.Repr - old(stack.Repr)) && (buffer == old(buffer) || fresh(buffer))
    }

    constructor ()
      ensures Valid() && fresh(Repr())
      ensures calls == [] && Cfg() == INITIAL
      ensures Data() == [0x5F, 0x55, 0x4A, 0x4F, 0x01, 0x00, 0x00] && buffersize == 4096
    {
      var root, s, h := NewFrames();
      heap, stack, state := h, s, root;
      buffer := new Byte[DEFAULT_BUFSIZE](_ => 0);
      buffersize, bytes, calls := DEFAULT_BUFSIZE, 0, [];
      new;
      PutHeader();
    }

    /** The magic, the format version and the compression type of a new document. */
    method PutHeader()
      requires Sound() && Data() == [] && Cfg() == INITIAL && calls == []
      modifies this`buffer, this`buffersize, this`bytes, buffer
      ensures Valid()
      ensures buffer == old(buffer) || fresh(buffer)
      ensures Data() == [0x5F, 0x55, 0x4A, 0x4F, 0x01, 0x00, 0x00]
      ensures old(buffersize) >= old(bytes) + 7 ==> buffersize == old(buffersize)
    {
      Put([0x5F, 0x55, 0x4A, 0x4F]);
      Put([0x01, 0x00]);
      PutByte(0x00);
      assert Data() == HEADER;
    }

    // ----- the buffer -----

    method Put(data: seq<Byte>)
      requires Room()
      modifies this`buffer, this`buffersize, this`bytes, buffer
      ensures Room()
      ensures buffer == old(buffer) || fresh(buffer)
      ensures Data() == old(Data()) + data
      ensures buffersize == old(buffersize) + if old(bytes) + |data| > old(buffersize) then (|data| / 4096 + 1) * 4096 else 0
    {
      if bytes + |data| > buffersize {
        Grow(|data|);
      }
      GrownSizeIsGood(old(buffersize), bytes, |data|);
      CopyIn(data);
      bytes := bytes + |data|;
      assert buffer[..bytes] == old(Data()) + data;
    }

    /** Copies behind what is used; there is room for it. */
    method CopyIn(data: seq<Byte>)
      requires bytes + |data| <= buffer.Length
      modifies buffer
      ensures buffer[..bytes] == old(buffer[..bytes])
      ensures buffer[bytes..bytes + |data|] == data
    {
      forall i | 0 <= i < |data| {
        buffer[bytes + i] := data[i];
      }
    }

    /** Makes room for more bytes and keeps what is there. */
    method Grow(more: nat)
      requires buffer.Length == buffersize && bytes <= buffersize
      modifies this`buffer, this`buffersize
      ensures fresh(buffer) && buffer.Length == buffersize
      ensures buffersize == old(buffersize) + (more / 4096 + 1) * 4096
      ensures buffer[..bytes] == old(buffer[..bytes])
    {
      var newsize := buffersize + (more / DEFAULT_BUFSIZE + 1) * DEFAULT_BUFSIZE;
      var grown := new Byte[newsize](_ => 0);
      forall i | 0 <= i < buffersize {
        grown[i] := buffer[i];
      }
      buffer, buffersize := grown, newsize;
    }

    method PutByte(b: Byte)
      requires Room()
      modifies this`buffer, this`buffersize, this`bytes, buffer
      ensures Room()
      ensures buffersize == old(buffersize) + if old(bytes) + 1 > old(buffersize) then 4096 else 0
      ensures buffer == old(buffer) || fresh(buffer)
      ensures Data() == old(Data()) + [b]
    {
      Put([b]);
    }

    method PutTagged(tag: Byte, data: seq<Byte>)
      requires Room()
      modifies this`buffer, this`buffersize, this`bytes, buffer
      ensures Room()
      ensures buffer == old(buffer) || fresh(buffer)
      ensures Data() == old(Data()) + ([tag] + data)
    {
      PutByte(tag);
      Put(data);
      ConcatAssociative(old(Data()), [tag], data);
    }

    // ----- the frames -----

    function Current(): (f: Frame)
      requires Sound()
      reads this, heap, stack, stack.Repr, buffer
      ensures f == Cfg().cur
    {
      CurrentIsLive(heap.cells, state, stack.Contents());
      heap.cells[state]
    }

    method Enter(s: State)
      requires Sound()
      modifies this`state, heap, stack.Repr
      ensures Sound() && fresh(stack.Repr - old(stack.Repr))
      ensures Cfg() == Next(s, old(Cfg())) && Data() == old(Data())
    {
      state := StateNext(s, state, stack, heap);
    }

    method Leave()
      requires Sound() && Cfg().stack != []
      modifies this`state, heap, stack.Repr
      ensures Sound() && stack.Repr == old(stack.Repr)
      ensures Cfg() == Prev(old(Cfg())) && Data() == old(Data())
    {
      state := StatePrev(state, stack, heap);
    }

    method Tell(e: Event)
      requires Sound() && (Cfg().cur.state == DictValue ==> Cfg().stack != [])
      modifies this`state, heap, stack.Repr
      ensures Sound() && fresh(stack.Repr - old(stack.Repr))
      ensures Cfg() == Switch(e, old(Cfg())) && Data() == old(Data())
    {
      state := StateSwitch(e, state, stack, heap);
    }

    /** Ends an accepted call: the frames and the bytes are where they should be. */
    ghost method Conclude(call: Call)
      requires Sound() && Accepts(Run(calls), call)
      requires Cfg() == Advance(Run(calls).cfg, call)
      requires Data() == Bytes(Run(calls)) + Encode(ElementOf(call))
      modifies this`calls
      ensures Valid() && calls == old(calls) + [call]
    {
      RunMore(calls, call);
      calls := calls + [call];
    }

    ghost method ConcludeBefore(call: Call, tail: seq<Byte>)
      requires Sound() && Accepts(Run(calls), call)
      requires Cfg() == Advance(Run(calls).cfg, call)
      requires Data() == Bytes(Run(calls)) + (Encode(ElementOf(call)) + tail)
      modifies this`calls
      ensures HoldsBefore(tail) && (tail == [] ==> Valid())
      ensures calls == old(calls) + [call]
    {
      RunMore(calls, call);
      ConcatAssociative(Bytes(Run(calls)), Encode(ElementOf(call)), tail);
      calls := calls + [call];
    }

    /** Ends a rejected call, which leaves everything as it was. */
    ghost method Dismiss(call: Call)
      requires Valid() && !Accepts(Run(calls), call)
      modifies this`calls
      ensures Valid() && calls == old(calls) + [call]
    {
      RunMore(calls, call);
      calls := calls + [call];
    }

    // ----- containers -----

    /** What the three opening operations have in common once they have been allowed. */
    method OpenNow(s: State, tag: Byte, ghost call: Call)
      requires Valid() && Accepts(Run(calls), call)
      requires Encode(ElementOf(call)) == [tag] && Advance(Run(calls).cfg, call) == Next(s, Run(calls).cfg)
      modifies Repr()
      ensures Valid() && FootprintGrows()
      ensures calls == old(calls) + [call]
      ensures Data() == old(Data()) + [tag]
    {
      EnterMarked(s, tag);
      Conclude(call);
    }

    method EnterMarked(s: State, tag: Byte)
      requires Sound()
      modifies Repr()
      ensures Sound() && FootprintGrows() && calls == old(calls)
      ensures Cfg() == Next(s, old(Cfg())) && Data() == old(Data()) + [tag]
    {
      Enter(s);
      PutByte(tag);
    }

    method ListOpen() returns (status: Status)
      requires Valid()
      modifies Repr()
      ensures Valid() && fresh(Repr() - old(Repr()))
      ensures calls == old(calls) + [OpenList]
      ensures status == Verdict(old(Cfg()), OpenList)
      ensures status == if AllowContainer(old(Cfg()).cur.state) then 0 else 5504
      ensures status == 0 ==> Data() == old(Data()) + [0x30]
      ensures status != SUCCESS ==> Untouched()
    {
      if !AllowContainer(Current().state) {
        Dismiss(OpenList);
        return TYPE_MISPLACED;
      }
      OpenNow(List, LIST, OpenList);
      return SUCCESS;
    }

    method ListClose() returns (status: Status)
      requires Valid()
      modifies Repr()
      ensures Valid() && fresh(Repr() - old(Repr()))
      ensures calls == old(calls) + [CloseList]
      ensures status == Verdict(old(Cfg()), CloseList)
      ensures status == if old(Cfg()).cur.state == List then 0 else 5505
      ensures status == 0 ==> Data() == old(Data()) + [0x00]
      ensures status != SUCCESS ==> Untouched()
    {
      if Current().state != List {
        Dismiss(CloseList);
        return INVALID_OBJECT;
      }
      CloseNow(CloseList);
      return SUCCESS;
    }

    method MapOpen() returns (status: Status)
      requires Valid()
      modifies Repr()
      ensures Valid() && fresh(Repr() - old(Repr()))
      ensures calls == old(calls) + [OpenMap]
      ensures status == Verdict(old(Cfg()), OpenMap)
      ensures status == if AllowContainer(old(Cfg()).cur.state) then 0 else 5504
      ensures status == 0 ==> Data() == old(Data()) + [0x31]
      ensures status != SUCCESS ==> Untouched()
    {
      if !AllowContainer(Current().state) {
        Dismiss(OpenMap);
        return TYPE_MISPLACED;
      }
      OpenNow(DictKey, MAP, OpenMap);
      return SUCCESS;
    }

    method MapClose() returns (status: Status)
      requires Valid()
      modifies Repr()
      ensures Valid() && fresh(Repr() - old(Repr()))
      ensures calls == old(calls) + [CloseMap]
      ensures status == Verdict(old(Cfg()), CloseMap)
      ensures status == if old(Cfg()).cur.state == DictKey then 0 else 5505
      ensures status == 0 ==> Data() == old(Data()) + [0x00]
      ensures status != SUCCESS ==> Untouched()
    {
      if Current().state != DictKey {
        Dismiss(CloseMap);
        return INVALID_OBJECT;
      }
      CloseNow(CloseMap);
      return SUCCESS;
    }

    method TableOpen() returns (status: Status)
      requires Valid()
      modifies Repr()
      ensures Valid() && fresh(Repr() - old(Repr()))
      ensures calls == old(calls) + [OpenTable]
      ensures status == Verdict(old(Cfg()), OpenTable)
      ensures status == if AllowContainer(old(Cfg()).cur.state) then 0 else 5504
      ensures status == 0 ==> Data() == old(Data()) + [0x32]
      ensures status != SUCCESS ==> Untouched()
    {
      if !AllowContainer(Current().state) {
        Dismiss(OpenTable);
        return TYPE_MISPLACED;
      }
      OpenNow(TableColumns, TABLE, OpenTable);
      return SUCCESS;
    }

    method TableEndColumns() returns (status: Status)
      requires Valid()
      modifies Repr()
      ensures Valid() && fresh(Repr() - old(Repr()))
      ensures calls == old(calls) + [EndColumns]
      ensures status == Verdict(old(Cfg()), EndColumns)
      ensures status == if old(Cfg()).cur.state == TableColumns && old(Cfg()).cur.columns > 0 then 0 else 5505
      ensures status == 0 ==> Data() == old(Data()) + [0x00]
      ensures status != SUCCESS ==> Untouched()
    {
      if Current().state != TableColumns || Current().columns == 0 {
        Dismiss(EndColumns);
        return INVALID_OBJECT;
      }
      EndColumnsNow();
      return SUCCESS;
    }

    method TableClose() returns (status: Status)
      requires Valid()
      modifies Repr()
      ensures Valid() && fresh(Repr() - old(Repr()))
      ensures calls == old(calls) + [CloseTable]
      ensures status == Verdict(old(Cfg()), CloseTable)
      ensures status == if old(Cfg()).cur.state == TableValues && old(Cfg()).cur.column == 0 then 0 else 5505
      ensures status == 0 ==> Data() == old(Data()) + [0x00]
      ensures status != SUCCESS ==> Untouched()
    {
      if Current().state != TableValues || Current().column != 0 {
        Dismiss(CloseTable);
        return INVALID_OBJECT;
      }
      CloseNow(CloseTable);
      return SUCCESS;
    }

    /** The current frame is changed in place. */
    method SetState(s: State)
      requires Sound()
      modifies heap
      ensures Sound() && Data() == old(Data())
      ensures Cfg() == old(Cfg()).(cur := old(Cfg()).cur.(state := s))
    {
      OwnedStore(heap.cells, state, stack.Contents(), heap.cells[state].(state := s));
      heap.Store(state, heap.cells[state].(state := s));
    }

    /** What the three closing operations have in common once they have been allowed. */
    method CloseNow(ghost call: Call)
      requires Valid() && Accepts(Run(calls), call)
      requires call == CloseList || call == CloseMap || call == CloseTable
      modifies Repr()
      ensures Valid() && FootprintGrows()
      ensures calls == old(calls) + [call]
      ensures Data() == old(Data()) + [TERMINATOR]
    {
      CloseAdvances(Run(calls).cfg, call);
      CloseFrames(Run(calls).cfg);
      Conclude(call);
    }

    method CloseFrames(ghost c: DocConfig)
      requires Sound() && Cfg() == c && c.stack != []
      modifies Repr()
      ensures Sound() && FootprintGrows() && calls == old(calls)
      ensures Cfg() == CloseContainer(c)
      ensures Data() == old(Data()) + [TERMINATOR]
    {
      ShapedPrev(c);
      LeaveMarked();
      TellClosed(c);
    }

    method LeaveMarked()
      requires Sound() && Cfg().stack != []
      modifies Repr()
      ensures Sound() && FootprintGrows() && calls == old(calls)
      ensures Cfg() == Prev(old(Cfg())) && Data() == old(Data()) + [TERMINATOR]
    {
      Leave();
      PutByte(TERMINATOR);
    }

    method TellClosed(ghost c: DocConfig)
      requires c.stack != [] && Shaped(Prev(c))
      requires Sound() && Cfg() == Prev(c)
      modifies this`state, heap, stack.Repr
      ensures Sound() && fresh(stack.Repr - old(stack.Repr))
      ensures Cfg() == CloseContainer(c) && Data() == old(Data())
    {
      ShapedSwitch(ContainerClosed, Prev(c));
      Tell(ContainerClosed);
    }

    method EndColumnsNow()
      requires Valid() && Accepts(Run(calls), EndColumns)
      modifies Repr()
      ensures Valid() && FootprintGrows()
      ensures calls == old(calls) + [EndColumns]
      ensures Data() == old(Data()) + [TERMINATOR]
    {
      EndAdvances(Run(calls).cfg);
      PutByte(TERMINATOR);
      SetState(TableValues);
      Conclude(EndColumns);
    }

    // ----- atomic values -----

    /** The operations for one number: 64, 32, 16 and 8 bit integers, 32 and 64 bit floats as bit
        patterns, booleans and unix times. */
    method AddScalar(kind: Kind, number: int) returns (status: Status)
      requires kind.InRange(number) && kind != Float16
      requires Valid()
      modifies Repr()
      ensures Valid() && fresh(Repr() - old(Repr()))
      ensures calls == old(calls) + [AddAtom(Scalar(kind, number))]
      ensures status == Verdict(old(Cfg()), AddAtom(Scalar(kind, number)))
      ensures status == if AllowAtomic(old(Cfg()).cur.state) then 0 else 5504
      ensures status == 0 ==> Appended(Scalar(kind, number))
      ensures status != SUCCESS ==> Untouched()
    {
      ghost var e: Element := Scalar(kind, number);
      if !AllowAtomic(Current().state) {
        Dismiss(AddAtom(e));
        return TYPE_MISPLACED;
      }
      PutAtom(kind.TypeId(), ScalarBytes(kind, number), AddAtom(e));
      CallIsSpelled(old(calls), AddAtom(e));
      return SUCCESS;
    }

    method AddNone() returns (status: Status)
      requires Valid()
      modifies Repr()
      ensures Valid() && fresh(Repr() - old(Repr()))
      ensures calls == old(calls) + [AddAtom(NoneValue)]
      ensures status == Verdict(old(Cfg()), AddAtom(NoneValue))
      ensures status == if AllowAtomic(old(Cfg()).cur.state) then 0 else 5504
      ensures status == 0 ==> Appended(NoneValue)
      ensures status != SUCCESS ==> Untouched()
    {
      if !AllowAtomic(Current().state) {
        Dismiss(AddAtom(NoneValue));
        return TYPE_MISPLACED;
      }
      PutAtom(NONE, [], AddAtom(NoneValue));
      CallIsSpelled(old(calls), AddAtom(NoneValue));
      return SUCCESS;
    }

    method AddFloat16(single: U32) returns (status: Status)
      requires Valid()
      modifies Repr()
      ensures Valid() && fresh(Repr() - old(Repr()))
      ensures calls == old(calls) + [RawCall.AddFloat16(single)]
      ensures status == Verdict(old(Cfg()), RawCall.AddFloat16(single))
      ensures status == if !AllowAtomic(old(Cfg()).cur.state) then 5504 else if InHalfRange(single) then 0 else 5503
      ensures status == 0 ==> Appended(Scalar(Float16, FloatToHalf(single)))
      ensures status != SUCCESS ==> Untouched()
    {
      ghost var call: Call := RawCall.AddFloat16(single);
      var half := FloatToHalf(single);
      RejectedExactly(single);
      if !AllowAtomic(Current().state) {
        Dismiss(call);
        return TYPE_MISPLACED;
      }
      if IsNanHalf(half) {
        Dismiss(call);
        return INVALID_DATA;
      } else if IsInfHalf(half) {
        Dismiss(call);
        return INVALID_DATA;
      }
      HalfInRange(half);
      PutAtom(Float16.TypeId(), ScalarBytes(Float16, half), call);
      CallIsSpelled(old(calls), call);
      return SUCCESS;
    }

    /** What follows once an atomic value has been allowed. */
    method PutAtom(tag: Byte, data: seq<Byte>, ghost call: Call)
      requires Valid() && Accepts(Run(calls), call) && (call.AddAtom? || call.AddFloat16?)
      requires Encode(ElementOf(call)) == [tag] + data
      modifies Repr()
      ensures Valid() && FootprintGrows()
      ensures calls == old(calls) + [call]
    {
      PutTagged(tag, data);
      TellAtomic(call);
    }

    /** Ends an atomic value whose bytes have been put. */
    method TellAtomic(ghost call: Call)
      requires HoldsBefore(Encode(ElementOf(call)))
      requires Accepts(Run(calls), call) && (call.AddAtom? || call.AddFloat16?)
      modifies this`state, heap, stack.Repr, this`calls
      ensures Valid() && fresh(stack.Repr - old(stack.Repr))
      ensures calls == old(calls) + [call]
    {
      AtomAdvances(Run(calls).cfg, call);
      Tell(AtomicFound);
      Conclude(call);
    }

    method AddDate(year: I16, month: Byte, day: Byte) returns (status: Status)
      requires Valid()
      modifies Repr()
      ensures Valid() && fresh(Repr() - old(Repr()))
      ensures calls == old(calls) + [AddAtom(Date(year, month, day))]
      ensures status == Verdict(old(Cfg()), AddAtom(Date(year, month, day)))
      ensures status == if AllowAtomic(old(Cfg()).cur.state) then 0 else 5504
      ensures status == 0 ==> Appended(Date(year, month, day))
      ensures status != SUCCESS ==> Untouched()
    {
      ghost var call: Call := AddAtom(Date(year, month, day));
      if !AllowAtomic(Current().state) {
        Dismiss(call);
        return TYPE_MISPLACED;
      }
      PutDateNow(year, month, day, call);
      CallIsSpelled(old(calls), call);
      return SUCCESS;
    }

    method AddTime(hour: Byte, minute: Byte, second: Byte) returns (status: Status)
      requires Valid()
      modifies Repr()
      ensures Valid() && fresh(Repr() - old(Repr()))
      ensures calls == old(calls) + [AddAtom(Time(hour, minute, second))]
      ensures status == Verdict(old(Cfg()), AddAtom(Time(hour, minute, second)))
      ensures status == if AllowAtomic(old(Cfg()).cur.state) then 0 else 5504
      ensures status == 0 ==> Appended(Time(hour, minute, second))
      ensures status != SUCCESS ==> Untouched()
    {
      ghost var call: Call := AddAtom(Time(hour, minute, second));
      if !AllowAtomic(Current().state) {
        Dismiss(call);
        return TYPE_MISPLACED;
      }
      PutTimeNow(hour, minute, second, call);
      CallIsSpelled(old(calls), call);
      return SUCCESS;
    }

    method AddTimestamp(year: I16, month: Byte, day: Byte, hour: Byte, minute: Byte, second: Byte, millisecond: U16)
      returns (status: Status)
      requires Valid()
      modifies Repr()
      ensures Valid() && fresh(Repr() - old(Repr()))
      ensures calls == old(calls) + [AddAtom(Timestamp(year, month, day, hour, minute, second, millisecond))]
      ensures status == Verdict(old(Cfg()), AddAtom(Timestamp(year, month, day, hour, minute, second, millisecond)))
      ensures status == if AllowAtomic(old(Cfg()).cur.state) then 0 else 5504
      ensures status == 0 ==> Appended(Timestamp(year, month, day, hour, minute, second, millisecond))
      ensures status != SUCCESS ==> Untouched()
    {
      ghost var call: Call := AddAtom(Timestamp(year, month, day, hour, minute, second, millisecond));
      if !AllowAtomic(Current().state) {
        Dismiss(call);
        return TYPE_MISPLACED;
      }
      PutTimestampNow(year, month, day, hour, minute, second, millisecond, call);
      CallIsSpelled(old(calls), call);
      return SUCCESS;
    }

    method PutDay(year: I16, month: Byte, day: Byte)
      requires Room()
      modifies this`buffer, this`buffersize, this`bytes, buffer
      ensures Room()
      ensures buffer == old(buffer) || fresh(buffer)
      ensures Data() == old(Data()) + (YearBytes(year) + [month, day])
    {
      Put(YearBytes(year));
      PutByte(month);
      PutByte(day);
      assert Data() == old(Data()) + (YearBytes(year) + [month, day]);
    }

    method PutClock(hour: Byte, minute: Byte, second: Byte)
      requires Room()
      modifies this`buffer, this`buffersize, this`bytes, buffer
      ensures Room()
      ensures buffer == old(buffer) || fresh(buffer)
      ensures Data() == old(Data()) + [hour, minute, second]
    {
      PutByte(hour);
      PutByte(minute);
      PutByte(second);
      assert Data() == old(Data()) + [hour, minute, second];
    }

    method PutDateNow(year: I16, month: Byte, day: Byte, ghost call: Call)
      requires Valid() && Accepts(Run(calls), call) && call == AddAtom(Date(year, month, day))
      modifies Repr()
      ensures Valid() && FootprintGrows()
      ensures calls == old(calls) + [call]
    {
      PutDated(year, month, day);
      TellAtomic(call);
    }

    method PutTimeNow(hour: Byte, minute: Byte, second: Byte, ghost call: Call)
      requires Valid() && Accepts(Run(calls), call) && call == AddAtom(Time(hour, minute, second))
      modifies Repr()
      ensures Valid() && FootprintGrows()
      ensures calls == old(calls) + [call]
    {
      PutTimed(hour, minute, second);
      TellAtomic(call);
    }

    method PutTimestampNow(year: I16, month: Byte, day: Byte, hour: Byte, minute: Byte, second: Byte, millisecond: U16, ghost call: Call)
      requires Valid() && Accepts(Run(calls), call) && call == AddAtom(Timestamp(year, month, day, hour, minute, second, millisecond))
      modifies Repr()
      ensures Valid() && FootprintGrows()
      ensures calls == old(calls) + [call]
    {
      PutMoment(year, month, day, hour, minute, second, millisecond);
      TimestampImage(year, month, day, hour, minute, second, millisecond);
      TellAtomic(call);
    }

    method PutDated(year: I16, month: Byte, day: Byte)
      requires Room()
      modifies this`buffer, this`buffersize, this`bytes, buffer
      ensures Room()
      ensures buffer == old(buffer) || fresh(buffer)
      ensures Data() == old(Data()) + Encode(Date(year, month, day))
    {
      PutByte(DATE);
      PutDay(year, month, day);
      DateImage(old(Data()), year, month, day);
    }

    method PutTimed(hour: Byte, minute: Byte, second: Byte)
      requires Room()
      modifies this`buffer, this`buffersize, this`bytes, buffer
      ensures Room()
      ensures buffer == old(buffer) || fresh(buffer)
      ensures Data() == old(Data()) + Encode(Time(hour, minute, second))
    {
      PutByte(TIME);
      PutClock(hour, minute, second);
      TimeImage(old(Data()), hour, minute, second);
    }

    method PutMoment(year: I16, month: Byte, day: Byte, hour: Byte, minute: Byte, second: Byte, millisecond: U16)
      requires Room()
      modifies this`buffer, this`buffersize, this`bytes, buffer
      ensures Room()
      ensures buffer == old(buffer) || fresh(buffer)
      ensures Data() == old(Data()) + ([TIMESTAMP] + (YearBytes(year) + [month, day]) + [hour, minute, second]
                                       + LittleEndian(millisecond, 2))
    {
      PutByte(TIMESTAMP);
      PutDay(year, month, day);
      PutClock(hour, minute, second);
      Put(LittleEndian(millisecond, 2));
      FourParts(old(Data()), [TIMESTAMP], YearBytes(year) + [month, day], [hour, minute, second], LittleEndian(millisecond, 2));
    }

    method AddBinary(subtype: Byte, data: seq<Byte>) returns (status: Status)
      requires |data| < TWO_TO_THE_32
      requires Valid()
      modifies Repr()
      ensures Valid() && fresh(Repr() - old(Repr()))
      ensures calls == old(calls) + [AddAtom(Binary(subtype, data))]
      ensures status == Verdict(old(Cfg()), AddAtom(Binary(subtype, data)))
      ensures status == if AllowAtomic(old(Cfg()).cur.state) then 0 else 5504
      ensures status == 0 ==> Appended(Binary(subtype, data))
      ensures status != SUCCESS ==> Untouched()
    {
      ghost var call: Call := AddAtom(Binary(subtype, data));
      if !AllowAtomic(Current().state) {
        Dismiss(call);
        return TYPE_MISPLACED;
      }
      PutBinaryNow(subtype, data, call);
      CallIsSpelled(old(calls), call);
      return SUCCESS;
    }

    method PutBinaryNow(subtype: Byte, data: seq<Byte>, ghost call: Call)
      requires |data| < TWO_TO_THE_32
      requires Valid() && Accepts(Run(calls), call) && call == AddAtom(Binary(subtype, data))
      modifies Repr()
      ensures Valid() && FootprintGrows()
      ensures calls == old(calls) + [call]
    {
      PutCounted(BINARY, subtype, |data|, data);
      TellAtomic(call);
    }

    /** A type and a subtype, then the number of units, cut to 32 bits, then the units. */
    method PutCounted(tag: Byte, subtype: Byte, n: nat, units: seq<Byte>)
      requires Room()
      modifies this`buffer, this`buffersize, this`bytes, buffer
      ensures Room()
      ensures buffer == old(buffer) || fresh(buffer)
      ensures Data() == old(Data()) + ([tag, subtype] + LittleEndian(n, 4) + units)
    {
      PutByte(tag);
      PutByte(subtype);
      Put(LittleEndian(n, 4));
      Put(units);
      CountedParts(old(Data()), tag, subtype, LittleEndian(n, 4), units);
    }

    // ----- strings -----

    /** The operations for UTF-8, UTF-16 and UTF-32 strings. All units are written, and as many are
        counted as fit 32 bits: the rest of a longer string is left behind what has been counted. */
    method AddUnicode(encoding: Encoding, units: seq<nat>) returns (status: Status)
      requires encoding != CString
      requires forall u :: u in units ==> u < Capacity(encoding.UnitWidth())
      requires Valid()
      modifies Repr()
      ensures Sound() && fresh(Repr() - old(Repr()))
      ensures calls == old(calls) + [CountedCall(encoding, units)]
      ensures status == Verdict(old(Cfg()), CountedCall(encoding, units))
      ensures status == if AllowString(old(Cfg()).cur.state) then 0 else 5504
      ensures status == 0 ==> AppendedText(encoding, units)
      ensures status == SUCCESS ==> HoldsBefore(Uncounted(encoding, units))
      ensures status == SUCCESS && |units| < TWO_TO_THE_32 ==> Valid()
      ensures status != SUCCESS ==> Valid() && Untouched()
    {
      ghost var call := CountedCall(encoding, units);
      if !AllowString(Current().state) {
        Dismiss(call);
        return TYPE_MISPLACED;
      }
      PutUnicodeNow(encoding, units, call);
      return SUCCESS;
    }

    method PutUnicodeNow(encoding: Encoding, units: seq<nat>, ghost call: Call)
      requires encoding != CString
      requires forall u :: u in units ==> u < Capacity(encoding.UnitWidth())
      requires Valid() && Accepts(Run(calls), call) && call == CountedCall(encoding, units)
      modifies Repr()
      ensures HoldsBefore(Uncounted(encoding, units)) && FootprintGrows()
      ensures |units| < TWO_TO_THE_32 ==> Valid()
      ensures calls == old(calls) + [call] && AppendedText(encoding, units)
    {
      TextBytesCut(encoding, units);
      PutStringNow(encoding.SubType(), |units|, EncodeUnits(units, encoding.UnitWidth()), call, Uncounted(encoding, units));
      TextAppended(old(Data()), TextBytes(encoding, units), encoding, units);
    }

    method AddStringC(memory: seq<Byte>, n: nat) returns (status: Status)
      requires InMemory(memory, n)
      requires Valid()
      modifies Repr()
      ensures Valid() && fresh(Repr() - old(Repr()))
      ensures calls == old(calls) + [AddCString(memory, n)]
      ensures status == Verdict(old(Cfg()), AddCString(memory, n))
      ensures status == if AllowString(old(Cfg()).cur.state) then 0 else 5504
      ensures status == 0 ==> AppendedText(CString, CStringBytes(memory, n))
      ensures status != SUCCESS ==> Untouched()
    {
      ghost var call: Call := AddCString(memory, n);
      var units := (StrNLen(memory, n) + 1) % TWO_TO_THE_32;
      if !AllowString(Current().state) {
        Dismiss(call);
        return TYPE_MISPLACED;
      }
      CStringInMemory(memory, n);
      PutStringCNow(memory, n, units, call);
      return SUCCESS;
    }

    method PutStringCNow(memory: seq<Byte>, n: nat, units: nat, ghost call: Call)
      requires InMemory(memory, n) && units == CStringSize(memory, n) <= |memory|
      requires Valid() && Accepts(Run(calls), call) && call == AddCString(memory, n)
      modifies Repr()
      ensures Valid() && FootprintGrows()
      ensures calls == old(calls) + [call] && AppendedText(CString, CStringBytes(memory, n))
    {
      CStringImage(memory, n);
      PutStringNow(CString.SubType(), units, memory[..units], call, []);
      TextAppended(old(Data()), TextBytes(CString, CStringBytes(memory, n)), CString, CStringBytes(memory, n));
    }

    method PutStringNow(subtype: Byte, n: nat, units: seq<Byte>, ghost call: Call, ghost tail: seq<Byte>)
      requires Valid() && Accepts(Run(calls), call) && (call.AddText? || call.AddCString?)
      requires [STRING, subtype] + LittleEndian(n, 4) + units == Encode(ElementOf(call)) + tail
      modifies Repr()
      ensures HoldsBefore(tail) && FootprintGrows()
      ensures tail == [] ==> Valid()
      ensures calls == old(calls) + [call]
      ensures Data() == old(Data()) + ([STRING, subtype] + LittleEndian(n, 4) + units)
    {
      PutCounted(STRING, subtype, n, units);
      TellString(call, tail);
    }

    /** Ends a string whose bytes have been put. */
    method TellString(ghost call: Call, ghost tail: seq<Byte>)
      requires HoldsBefore(Encode(ElementOf(call)) + tail)
      requires Accepts(Run(calls), call) && (call.AddText? || call.AddCString?)
      modifies this`state, heap, stack.Repr, this`calls
      ensures HoldsBefore(tail) && fresh(stack.Repr - old(stack.Repr))
      ensures tail == [] ==> Valid()
      ensures calls == old(calls) + [call]
      ensures Data() == old(Data())
    {
      StringAdvances(Run(calls).cfg, call);
      Tell(StringFound);
      ConcludeBefore(call, tail);
    }

    /** Disposes of the writer: every frame record is freed once, and none is left. */
    method Dispose()
      requires Valid()
      modifies heap, stack
      ensures heap.cells == map[]
    {
      FreeAll(state, stack, heap);
    }
  }

  lemma DateImage(before: seq<Byte>, year: I16, month: Byte, day: Byte)
    ensures before + [DATE] + (YearBytes(year) + [month, day]) == before + Encode(Date(year, month, day))
  {
  }

  lemma TimeImage(before: seq<Byte>, hour: Byte, minute: Byte, second: Byte)
    ensures before + [TIME] + [hour, minute, second] == before + Encode(Time(hour, minute, second))
  {
  }

  lemma TimestampImage(year: I16, month: Byte, day: Byte, hour: Byte, minute: Byte, second: Byte, ms: U16)
    ensures [TIMESTAMP] + (YearBytes(year) + [month, day]) + [hour, minute, second] + LittleEndian(ms, 2)
         == Encode(Timestamp(year, month, day, hour, minute, second, ms))
  {
    assert [month, day] + [hour, minute, second] == [month, day, hour, minute, second];
  }

  lemma FourParts(before: seq<Byte>, a: seq<Byte>, b: seq<Byte>, c: seq<Byte>, d: seq<Byte>)
    ensures before + a + b + c + d == before + (a + b + c + d)
  {
  }

  lemma CountedParts(before: seq<Byte>, tag: Byte, subtype: Byte, n: seq<Byte>, units: seq<Byte>)
    ensures before + [tag] + [subtype] + n + units == before + ([tag, subtype] + n + units)
  {
  }

  /** One-byte units are encoded as they are. */
  lemma {:induction false} BytesEncoded(bs: seq<Byte>)
    ensures EncodeUnits(bs, 1) == bs
  {
    if bs != [] {
      BytesEncoded(bs[1..]);
      assert LittleEndian(bs[0], 1) == [bs[0]];
    }
  }

  lemma CStringImage(memory: seq<Byte>, n: nat)
    requires InMemory(memory, n)
    ensures [STRING, CString.SubType()] + LittleEndian(CStringSize(memory, n), 4) + CStringBytes(memory, n)
         == TextBytes(CString, CStringBytes(memory, n)) == Encode(ElementOf(AddCString(memory, n))) + []
  {
    BytesEncoded(CStringBytes(memory, n));
  }
}
