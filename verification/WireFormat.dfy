/** The format byte by byte, stated without the functions that write and read it. */
module WireFormat {
  import opened Integers
  import opened Sequences
  import opened DocState
  import opened Elements
  import opened WriterRules
  import opened ReaderRules

  // ----- numbers -----

  /** Byte i of a number, the lowest first. Division rounds down, so that a negative number is in
      two's complement. */
  function ByteOf(v: int, i: nat): Byte
    requires i < 8
  {
    var high :=
      if i == 0 then v
      else if i == 1 then v / 0x100
      else if i == 2 then v / 0x1_0000
      else if i == 3 then v / 0x100_0000
      else if i == 4 then v / 0x1_0000_0000
      else if i == 5 then v / 0x100_0000_0000
      else if i == 6 then v / 0x1_0000_0000_0000
      else v / 0x100_0000_0000_0000;
    high % 0x100
  }

  /** The low w bytes of a number. */
  function Image(v: int, w: nat): (bs: seq<Byte>)
    requires w <= 8
    ensures |bs| == w
  {
    seq(w, i requires 0 <= i < w => ByteOf(v, i))
  }

  lemma NextByte(v: int, i: nat)
    requires 0 < i < 8
    ensures ByteOf(v, i) == ByteOf(v / 0x100, i - 1)
  {
  }

  /** Whatever agrees with v in its low w bytes has their image. */
  lemma {:induction false} ByteOfImage(u: nat, v: int, k: int, w: nat, i: nat)
    requires u == v + k * Capacity(w) && i < w <= 8
    ensures LittleEndian(u, w)[i] == ByteOf(v, i)
    decreases w
  {
    var rest := k * Capacity(w - 1);
    assert k * Capacity(w) == 0x100 * rest;
    assert u % 0x100 == v % 0x100 && u / 0x100 == v / 0x100 + rest;
    if i > 0 {
      ByteOfImage(u / 0x100, v / 0x100, k, w - 1, i - 1);
      NextByte(v, i);
    }
  }

  lemma LittleEndianImage(u: nat, v: int, k: int, w: nat)
    requires u == v + k * Capacity(w) && w <= 8
    ensures LittleEndian(u, w) == Image(v, w)
  {
    forall i | 0 <= i < w ensures LittleEndian(u, w)[i] == Image(v, w)[i] {
      ByteOfImage(u, v, k, w, i);
    }
  }

  lemma ScalarBytesImage(k: Kind, v: int)
    requires k.InRange(v)
    ensures ScalarBytes(k, v) == Image(v, k.Width())
  {
    LittleEndianImage(ToBits(v, k.Width()), v, if v < 0 then 1 else 0, k.Width());
  }

  /** Type id, range and width of each kind of number. */
  ghost predicate SpelledNumber(bs: seq<Byte>, k: Kind, v: int) {
    match k
    case Float64 => 0 <= v < 0x1_0000_0000_0000_0000 && bs == [0x01] + Image(v, 8)
    case Float32 => 0 <= v < 0x1_0000_0000 && bs == [0x02] + Image(v, 4)
    case Float16 => 0 <= v < 0x1_0000 && bs == [0x03] + Image(v, 2)
    case Int64 => -0x8000_0000_0000_0000 <= v < 0x8000_0000_0000_0000 && bs == [0x05] + Image(v, 8)
    case Int32 => -0x8000_0000 <= v < 0x8000_0000 && bs == [0x06] + Image(v, 4)
    case Int16 => -0x8000 <= v < 0x8000 && bs == [0x07] + Image(v, 2)
    case Int8 => -0x80 <= v < 0x80 && bs == [0x08] + Image(v, 1)
    case UInt64 => 0 <= v < 0x1_0000_0000_0000_0000 && bs == [0x09] + Image(v, 8)
    case UInt32 => 0 <= v < 0x1_0000_0000 && bs == [0x0A] + Image(v, 4)
    case UInt16 => 0 <= v < 0x1_0000 && bs == [0x0B] + Image(v, 2)
    case UInt8 => 0 <= v < 0x100 && bs == [0x0C] + Image(v, 1)
    case Bool => 0 <= v < 0x100 && bs == [0x0D] + Image(v, 1)
    case UxTime => -0x8000_0000_0000_0000 <= v < 0x8000_0000_0000_0000 && bs == [0x10] + Image(v, 8)
  }

  lemma NumberFormat(bs: seq<Byte>, k: Kind, v: int)
    ensures SpelledNumber(bs, k, v) <==> k.InRange(v) && bs == [k.TypeId()] + ScalarBytes(k, v)
  {
    Capacities();
    if k.InRange(v) {
      ScalarBytesImage(k, v);
    }
  }

  // ----- strings -----

  ghost predicate UnitAt(bs: seq<Byte>, at: nat, u: nat, w: nat)
    requires w <= 8
  {
    at + w <= |bs| && bs[at..at + w] == Image(u, w)
  }

  /** Type id, subtype, number of units in 32 bits, and then all units. */
  ghost predicate SpelledText(bs: seq<Byte>, enc: Encoding, us: seq<nat>) {
    && |bs| >= 6 && bs[0] == 0x04 && bs[2..6] == Image(|us|, 4)
    && match enc
       case CString => bs[1] == 0x00 && |bs| == 6 + |us| && forall j :: 0 <= j < |us| ==> UnitAt(bs, 6 + j, us[j], 1)
       case Utf8 => bs[1] == 0x01 && |bs| == 6 + |us| && forall j :: 0 <= j < |us| ==> UnitAt(bs, 6 + j, us[j], 1)
       case Utf16 => bs[1] == 0x02 && |bs| == 6 + 2 * |us| && forall j :: 0 <= j < |us| ==> UnitAt(bs, 6 + 2 * j, us[j], 2)
       case Utf32 => bs[1] == 0x03 && |bs| == 6 + 4 * |us| && forall j :: 0 <= j < |us| ==> UnitAt(bs, 6 + 4 * j, us[j], 4)
  }

  lemma UnitsLength(us: seq<nat>, enc: Encoding)
    ensures |EncodeUnits(us, enc.UnitWidth())| == enc.Size(|us|)
  {
    EncodeUnitsLength(us, enc.UnitWidth());
    enc.SizeIsProduct(|us|);
  }

  lemma FirstUnit(us: seq<nat>, w: nat)
    requires us != [] && w <= 8
    ensures UnitAt(EncodeUnits(us, w), 0, us[0], w)
  {
    LittleEndianImage(us[0], us[0], 0, w);
    assert EncodeUnits(us, w)[..w] == LittleEndian(us[0], w);
  }

  lemma {:induction false} EncodedUnit(us: seq<nat>, enc: Encoding, j: nat)
    requires j < |us|
    ensures UnitAt(EncodeUnits(us, enc.UnitWidth()), enc.Size(j), us[j], enc.UnitWidth())
    decreases j
  {
    var w := enc.UnitWidth();
    if j == 0 {
      FirstUnit(us, w);
    } else {
      EncodedUnit(us[1..], enc, j - 1);
      UnitBehind(LittleEndian(us[0], w), EncodeUnits(us[1..], w), enc.Size(j - 1), us[j], w);
    }
  }

  lemma TextIsSpelled(enc: Encoding, us: seq<nat>)
    ensures SpelledText(TextBytes(enc, us), enc, us)
  {
    var bs, units := TextBytes(enc, us), EncodeUnits(us, enc.UnitWidth());
    LengthImageOf(|us|);
    UnitsLength(us, enc);
    var head := [STRING, enc.SubType()] + LittleEndian(|us|, 4);
    forall j | 0 <= j < |us| ensures UnitAt(bs, 6 + enc.Size(j), us[j], enc.UnitWidth()) {
      EncodedUnit(us, enc, j);
      UnitBehind(head, units, enc.Size(j), us[j], enc.UnitWidth());
    }
  }

  lemma UnitBehind(head: seq<Byte>, units: seq<Byte>, at: nat, u: nat, w: nat)
    requires w <= 8 && UnitAt(units, at, u, w)
    ensures UnitAt(head + units, |head| + at, u, w)
  {
    assert (head + units)[|head| + at..|head| + at + w] == units[at..at + w];
  }

  lemma LengthImageOf(n: nat)
    ensures LittleEndian(n, 4) == Image(n, 4)
  {
    LittleEndianImage(n, n, 0, 4);
  }

  lemma SameByte(a: seq<Byte>, b: seq<Byte>, at: nat, u: nat, w: nat, p: nat)
    requires w <= 8 && UnitAt(a, at, u, w) && UnitAt(b, at, u, w) && at <= p < at + w
    ensures a[p] == b[p]
  {
    assert a[p] == a[at..at + w][p - at] && b[p] == b[at..at + w][p - at];
  }

  lemma SameByteOfText(a: seq<Byte>, b: seq<Byte>, enc: Encoding, us: seq<nat>, p: nat)
    requires SpelledText(a, enc, us) && SpelledText(b, enc, us) && 6 <= p < |a|
    ensures a[p] == b[p]
  {
    match enc
    case CString | Utf8 => SameByte(a, b, 6 + (p - 6), us[p - 6], 1, p);
    case Utf16 =>
      var j := (p - 6) / 2;
      SameByte(a, b, 6 + 2 * j, us[j], 2, p);
    case Utf32 =>
      var j := (p - 6) / 4;
      SameByte(a, b, 6 + 4 * j, us[j], 4, p);
  }

  /** The units determine the bytes. */
  lemma SameText(a: seq<Byte>, b: seq<Byte>, enc: Encoding, us: seq<nat>)
    requires SpelledText(a, enc, us) && SpelledText(b, enc, us)
    ensures a == b
  {
    assert |a| == |b| && a[1] == b[1];
    forall p | 0 <= p < |a| ensures a[p] == b[p] {
      if 2 <= p < 6 {
        assert a[p] == a[2..6][p - 2] && b[p] == b[2..6][p - 2];
      } else if 6 <= p {
        SameByteOfText(a, b, enc, us, p);
      }
    }
  }

  lemma TextFormat(bs: seq<Byte>, enc: Encoding, us: seq<nat>)
    ensures SpelledText(bs, enc, us) <==> bs == TextBytes(enc, us)
  {
    TextIsSpelled(enc, us);
    if SpelledText(bs, enc, us) {
      SameText(bs, TextBytes(enc, us), enc, us);
    }
  }

  lemma TextAppended(before: seq<Byte>, image: seq<Byte>, enc: Encoding, us: seq<nat>)
    requires image == TextBytes(enc, us)
    ensures before <= before + image && SpelledText((before + image)[|before|..], enc, us)
  {
    TextFormat(image, enc, us);
    assert (before + image)[|before|..] == image;
  }

  // ----- elements -----

  predicate UnitsFit(enc: Encoding, us: seq<nat>) {
    match enc
    case CString | Utf8 => forall u :: u in us ==> u < 0x100
    case Utf16 => forall u :: u in us ==> u < 0x1_0000
    case Utf32 => forall u :: u in us ==> u < 0x1_0000_0000
  }

  /** The bytes spell the element. */
  ghost predicate Spelled(bs: seq<Byte>, e: RawElement) {
    match e
    case ListOpen => bs == [0x30]
    case MapOpen => bs == [0x31]
    case TableOpen => bs == [0x32]
    case Terminator => bs == [0x00]
    case NoneValue => bs == [0x0F]
    case Scalar(k, v) => SpelledNumber(bs, k, v)
    case Date(y, mo, d) => bs == [0x11, y % 0x100, y / 0x100 % 0x100, mo, d]
    case Time(h, mi, s) => bs == [0x12, h, mi, s]
    case Timestamp(y, mo, d, h, mi, s, ms) =>
      bs == [0x13, y % 0x100, y / 0x100 % 0x100, mo, d, h, mi, s, ms % 0x100, ms / 0x100]
    case Text(enc, us) => |us| < 0x1_0000_0000 && UnitsFit(enc, us) && SpelledText(bs, enc, us)
    case Binary(t, d) => |d| < 0x1_0000_0000 && bs == [0x0E, t] + Image(|d|, 4) + d
  }

  lemma TwoBytes(v: int)
    ensures Image(v, 2) == [v % 0x100, v / 0x100 % 0x100]
  {
  }

  lemma YearFormat(y: I16)
    ensures YearBytes(y) == [y % 0x100, y / 0x100 % 0x100]
  {
    Capacities();
    ScalarBytesImage(Int16, y);
    TwoBytes(y);
  }

  lemma MilliFormat(ms: U16)
    ensures LittleEndian(ms, 2) == [ms % 0x100, ms / 0x100]
  {
    LittleEndianImage(ms, ms, 0, 2);
    TwoBytes(ms);
  }

  /** The wire format: bytes spell an element if and only if it is a valid one and they are what is
      written for it. */
  lemma SpelledIffEncoded(bs: seq<Byte>, e: RawElement)
    ensures Spelled(bs, e) <==> e.Valid() && bs == Encode(e)
  {
    match e
    case Scalar(k, v) => NumberFormat(bs, k, v);
    case Date(y, _, _) => YearFormat(y);
    case Timestamp(y, _, _, _, _, _, ms) => YearFormat(y); MilliFormat(ms);
    case Text(enc, us) => Capacities(); TextFormat(bs, enc, us);
    case Binary(_, d) => LengthImageOf(|d|);
    case _ =>
  }

  /** The reader finds an element if and only if the bytes at its position spell it. */
  lemma DecodesWhatIsSpelled(bs: seq<Byte>, pos: nat, e: RawElement, next: nat)
    ensures Decode(bs, pos) == Got(e, next) <==> pos <= next <= |bs| && Spelled(bs[pos..next], e)
  {
    if Decode(bs, pos) == Got(e, next) {
      EncodeDecode(bs, pos);
    }
    if pos <= next <= |bs| {
      SpelledIffEncoded(bs[pos..next], e);
      if Spelled(bs[pos..next], e) {
        DecodeEncode(e, bs, pos);
      }
    }
  }

  /** An unknown type id, or a string with an unknown subtype, whose length is passed over. */
  predicate BadAt(bs: seq<Byte>, pos: nat, next: nat) {
    || (pos < |bs| && (0x13 < bs[pos] < 0x30 || 0x32 < bs[pos]) && next == pos + 1)
    || (pos + 6 <= |bs| && bs[pos] == 0x04 && 0x03 < bs[pos + 1] && next == pos + 6)
  }

  lemma DecodeRejects(bs: seq<Byte>, pos: nat, next: nat)
    ensures Decode(bs, pos) == Bad(next) <==> BadAt(bs, pos, next)
  {
  }

  /** What a read finds, in either case. */
  lemma FoundInBuffer(bs: seq<Byte>, pos: nat)
    ensures match Decode(bs, pos)
            case Overrun => true
            case Bad(next) => BadAt(bs, pos, next)
            case Got(e, next) => pos <= next <= |bs| && Spelled(bs[pos..next], e)
  {
    match Decode(bs, pos)
    case Overrun =>
    case Bad(next) => DecodeRejects(bs, pos, next);
    case Got(e, next) => DecodesWhatIsSpelled(bs, pos, e, next);
  }

  /** One read, on any buffer, at any position, in any configuration: the end of the data in a closed
      document; else the element that is spelled there, unless it is a terminator that has nothing to
      pop; else the rejection of what begins no element. Every other read leaves the buffer or pops an
      empty stack. */
  lemma ReadsWhatIsSpelled(bs: seq<Byte>, pos: nat, c: DocConfig, e: RawElement, next: nat)
    ensures ReadNext(bs, pos, c) == EndOfData <==> c.cur.state == Closed
    ensures var r := ReadNext(bs, pos, c);
            r.Read? && r.element == e && r.next == next <==>
              && c.cur.state != Closed && pos <= next <= |bs| && Spelled(bs[pos..next], e)
              && !(e.Terminator? && c.stack == [])
    ensures ReadNext(bs, pos, c) == Invalid(next) <==> c.cur.state != Closed && BadAt(bs, pos, next)
  {
    DecodesWhatIsSpelled(bs, pos, e, next);
    DecodeRejects(bs, pos, next);
    if Decode(bs, pos).Got? {
      EncodeDecode(bs, pos);
    }
  }

  // ----- documents -----

  /** Magic and version 1. The byte that follows is not looked at. */
  predicate IsDocument(bs: seq<Byte>, at: nat) {
    at + 6 <= |bs| && bs[at..at + 6] == [0x5F, 0x55, 0x4A, 0x4F, 0x01, 0x00]
  }

  predicate HasMagic(bs: seq<Byte>, at: nat) {
    at + 4 <= |bs| && bs[at..at + 4] == [0x5F, 0x55, 0x4A, 0x4F]
  }

  lemma VersionFormat(bs: seq<Byte>)
    requires |bs| == 2
    ensures Unsigned(bs) == 1 <==> bs == [0x01, 0x00]
  {
    LittleEndianOfUnsigned(bs);
    assert LittleEndian(1, 2) == [0x01] + LittleEndian(0, 1);
    assert LittleEndian(0, 1) == [0x00];
    Capacities();
    UnsignedOfLittleEndian(1, 2);
  }

  /** What the header check accepts and what it rejects, and where it stops. */
  lemma HeaderFormat(bs: seq<Byte>, at: nat)
    ensures ReadHeader(bs, at).HeaderOk? <==> at + 7 <= |bs| && IsDocument(bs, at)
    ensures ReadHeader(bs, at).HeaderInvalid? <==>
              at + 4 <= |bs| && !IsDocument(bs, at) && (HasMagic(bs, at) ==> at + 6 <= |bs|)
    ensures ReadHeader(bs, at).HeaderOk? ==> ReadHeader(bs, at).next == at + 7
    ensures ReadHeader(bs, at).HeaderInvalid? ==> ReadHeader(bs, at).next == at + if HasMagic(bs, at) then 6 else 4
  {
    if at + 6 <= |bs| {
      VersionFormat(bs[at + 4..at + 6]);
      assert bs[at..at + 6] == bs[at..at + 4] + bs[at + 4..at + 6];
      assert [0x5F, 0x55, 0x4A, 0x4F, 0x01, 0x00] == [0x5F, 0x55, 0x4A, 0x4F] + [0x01, 0x00];
      assert bs[at..at + 6][..4] == bs[at..at + 4] && bs[at..at + 6][4..] == bs[at + 4..at + 6];
    }
  }

  /** An accepted call appends bytes that spell its element. */
  lemma CallIsSpelled(calls: seq<Call>, call: Call)
    requires Accepts(Run(calls), call)
    ensures var before, after := Bytes(Run(calls)), Bytes(Run(calls + [call]));
            before <= after && Spelled(after[|before|..], ElementOf(call))
  {
    RunMore(calls, call);
    SpelledIffEncoded(Encode(ElementOf(call)), ElementOf(call));
    var before, after := Bytes(Run(calls)), Bytes(Run(calls + [call]));
    assert after[|before|..] == Encode(ElementOf(call));
  }

  /** The smallest document, an empty list. */
  lemma EmptyListDocument()
    ensures Run([OpenList, CloseList]).cfg.cur.state == Closed
    ensures Bytes(Run([OpenList, CloseList])) == [0x5F, 0x55, 0x4A, 0x4F, 0x01, 0x00, 0x00, 0x30, 0x00]
  {
    assert [OpenList, CloseList] == [] + [OpenList] + [CloseList];
    RunMore([], OpenList);
    RunMore([] + [OpenList], CloseList);
  }
}
