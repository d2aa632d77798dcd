/** The typed elements of a UJO document and their byte encoding. */
module Elements {
  import opened Integers
  import opened Sequences

  /** The atomic types that are one number of a fixed width.
      Floating-point numbers are their bit patterns. */
  datatype Kind =
    | Float64 | Float32 | Float16
    | Int64 | Int32 | Int16 | Int8
    | UInt64 | UInt32 | UInt16 | UInt8
    | Bool | UxTime
  {
    function TypeId(): Byte {
      match this
      case Float64 => 0x01
      case Float32 => 0x02
      case Float16 => 0x03
      case Int64 => 0x05
      case Int32 => 0x06
      case Int16 => 0x07
      case Int8 => 0x08
      case UInt64 => 0x09
      case UInt32 => 0x0A
      case UInt16 => 0x0B
      case UInt8 => 0x0C
      case Bool => 0x0D
      case UxTime => 0x10
    }

    function Width(): nat {
      match this
      case Float64 | Int64 | UInt64 | UxTime => 8
      case Float32 | Int32 | UInt32 => 4
      case Float16 | Int16 | UInt16 => 2
      case Int8 | UInt8 | Bool => 1
    }

    predicate Signed() {
      Int64? || Int32? || Int16? || Int8? || UxTime?
    }

    predicate InRange(v: int) {
      if Signed() then -Capacity(Width()) <= 2 * v < Capacity(Width()) else 0 <= v < Capacity(Width())
    }
  }

  datatype Option<+T> = None | Some(value: T)

  function KindOf(tag: Byte): (k: Option<Kind>)
    ensures k.Some? ==> k.value.TypeId() == tag
    ensures k.None? ==> forall j: Kind :: j.TypeId() != tag
  {
    if tag == 0x01 then Some(Float64)
    else if tag == 0x02 then Some(Float32)
    else if tag == 0x03 then Some(Float16)
    else if tag == 0x05 then Some(Int64)
    else if tag == 0x06 then Some(Int32)
    else if tag == 0x07 then Some(Int16)
    else if tag == 0x08 then Some(Int8)
    else if tag == 0x09 then Some(UInt64)
    else if tag == 0x0A then Some(UInt32)
    else if tag == 0x0B then Some(UInt16)
    else if tag == 0x0C then Some(UInt8)
    else if tag == 0x0D then Some(Bool)
    else if tag == 0x10 then Some(UxTime)
    else None
  }

  datatype Encoding = CString | Utf8 | Utf16 | Utf32 {
    function SubType(): Byte {
      match this
      case CString => 0
      case Utf8 => 1
      case Utf16 => 2
      case Utf32 => 3
    }

    function UnitWidth(): nat {
      match this
      case CString | Utf8 => 1
      case Utf16 => 2
      case Utf32 => 4
    }

    /** The number of bytes taken by n units. */
    function Size(n: nat): nat {
      match this
      case CString | Utf8 => n
      case Utf16 => 2 * n
      case Utf32 => 4 * n
    }

    lemma SizeIsProduct(n: nat)
      ensures Size(n) == n * UnitWidth()
    {
    }
  }

  const LIST: Byte := 0x30
  const MAP: Byte := 0x31
  const TABLE: Byte := 0x32
  const TERMINATOR: Byte := 0x00
  const STRING: Byte := 0x04
  const BINARY: Byte := 0x0E
  const NONE: Byte := 0x0F
  const DATE: Byte := 0x11
  const TIME: Byte := 0x12
  const TIMESTAMP: Byte := 0x13

  type Element = e: RawElement | e.Valid() witness ListOpen

  datatype RawElement =
    | ListOpen
    | MapOpen
    | TableOpen
    | Terminator
    | Scalar(kind: Kind, number: int)
    | NoneValue
    | Date(year: I16, month: Byte, day: Byte)
    | Time(hour: Byte, minute: Byte, second: Byte)
    | Timestamp(year: I16, month: Byte, day: Byte, hour: Byte, minute: Byte, second: Byte, millisecond: U16)
    | Text(encoding: Encoding, units: seq<nat>)
    | Binary(subtype: Byte, data: seq<Byte>)
  {
    /** Every component fits its field, and lengths fit the 32-bit length field. */
    predicate Valid() {
      match this
      case Scalar(k, v) => k.InRange(v)
      case Text(enc, us) => |us| < TWO_TO_THE_32 && forall u :: u in us ==> u < Capacity(enc.UnitWidth())
      case Binary(_, d) => |d| < TWO_TO_THE_32
      case _ => true
    }

    predicate IsMarker() {
      ListOpen? || MapOpen? || TableOpen? || Terminator?
    }
  }

  /** The bytes of a number after its type id. */
  function ScalarBytes(k: Kind, v: int): (bs: seq<Byte>)
    requires k.InRange(v)
    ensures |bs| == k.Width()
  {
    LittleEndian(ToBits(v, k.Width()), k.Width())
  }

  function ScalarOf(k: Kind, bs: seq<Byte>): int
    requires |bs| == k.Width()
  {
    if k.Signed() then FromBits(Unsigned(bs), k.Width()) else Unsigned(bs)
  }

  function YearBytes(y: I16): (bs: seq<Byte>)
    ensures |bs| == 2
  {
    ScalarBytes(Int16, y)
  }

  /** What is written for a string, whose length is cut to the 32 bits of the length field. */
  function TextBytes(enc: Encoding, us: seq<nat>): seq<Byte> {
    [STRING, enc.SubType()] + LittleEndian(|us|, 4) + EncodeUnits(us, enc.UnitWidth())
  }

  function Encode(e: Element): (bs: seq<Byte>)
    ensures |bs| > 0
  {
    match e
    case ListOpen => [LIST]
    case MapOpen => [MAP]
    case TableOpen => [TABLE]
    case Terminator => [TERMINATOR]
    case Scalar(k, v) => [k.TypeId()] + ScalarBytes(k, v)
    case NoneValue => [NONE]
    case Date(y, mo, d) => [DATE] + YearBytes(y) + [mo, d]
    case Time(h, mi, s) => [TIME, h, mi, s]
    case Timestamp(y, mo, d, h, mi, s, ms) => [TIMESTAMP] + YearBytes(y) + [mo, d, h, mi, s] + LittleEndian(ms, 2)
    case Text(enc, us) => TextBytes(enc, us)
    case Binary(t, d) => [BINARY, t] + LittleEndian(|d|, 4) + d
  }

  /** What one read at a position finds. The reader does not check how many bytes
      remain, so a read that would leave the buffer is a case of its own. */
  datatype Decoded =
    | Overrun
    | Bad(next: nat)
    | Got(element: RawElement, next: nat)

  function EncodingOf(sub: Byte): Option<Encoding> {
    if sub == 0 then Some(CString)
    else if sub == 1 then Some(Utf8)
    else if sub == 2 then Some(Utf16)
    else if sub == 3 then Some(Utf32)
    else None
  }

  function DecodeText(bs: seq<Byte>, at: nat): Decoded {
    if at + 5 > |bs| then Overrun else
      var n := Unsigned(bs[at + 1..at + 5]);
      match EncodingOf(bs[at])
      case None => Bad(at + 5)
      case Some(enc) =>
        var end := at + 5 + enc.Size(n);
        if end > |bs| then Overrun else
          Got(Text(enc, DecodeUnits(bs[at + 5..end], enc.UnitWidth())), end)
  }

  function DecodeBinary(bs: seq<Byte>, at: nat): Decoded {
    if at + 5 > |bs| then Overrun else
      var end := at + 5 + Unsigned(bs[at + 1..at + 5]);
      if end > |bs| then Overrun else Got(Binary(bs[at], bs[at + 5..end]), end)
  }

  function YearOf(bs: seq<Byte>): (y: I16)
    requires |bs| == 2
  {
    Capacities();
    LittleEndianOfUnsigned(bs);
    ScalarOf(Int16, bs)
  }

  function MilliOf(bs: seq<Byte>): (y: U16)
    requires |bs| == 2
  {
    Capacities();
    LittleEndianOfUnsigned(bs);
    Unsigned(bs)
  }

  function Decode(bs: seq<Byte>, pos: nat): Decoded {
    if pos >= |bs| then Overrun else
      var tag, at := bs[pos], pos + 1;
      if tag == LIST then Got(ListOpen, at)
      else if tag == MAP then Got(MapOpen, at)
      else if tag == TABLE then Got(TableOpen, at)
      else if tag == TERMINATOR then Got(Terminator, at)
      else if tag == NONE then Got(NoneValue, at)
      else if tag == DATE then
        if at + 4 > |bs| then Overrun else
          Got(Date(YearOf(bs[at..at + 2]), bs[at + 2], bs[at + 3]), at + 4)
      else if tag == TIME then
        if at + 3 > |bs| then Overrun else
          Got(Time(bs[at], bs[at + 1], bs[at + 2]), at + 3)
      else if tag == TIMESTAMP then
        if at + 9 > |bs| then Overrun else
          Got(Timestamp(YearOf(bs[at..at + 2]), bs[at + 2], bs[at + 3], bs[at + 4], bs[at + 5], bs[at + 6],
                        MilliOf(bs[at + 7..at + 9])), at + 9)
      else if tag == STRING then DecodeText(bs, at)
      else if tag == BINARY then DecodeBinary(bs, at)
      else match KindOf(tag)
        case None => Bad(at)
        case Some(k) =>
          if at + k.Width() > |bs| then Overrun else
            Got(Scalar(k, ScalarOf(k, bs[at..at + k.Width()])), at + k.Width())
  }

  lemma ScalarRoundTrip(k: Kind, v: int)
    requires k.InRange(v)
    ensures ScalarOf(k, ScalarBytes(k, v)) == v
  {
    UnsignedOfLittleEndian(ToBits(v, k.Width()), k.Width());
  }

  lemma ScalarImage(k: Kind, bs: seq<Byte>)
    requires |bs| == k.Width()
    ensures k.InRange(ScalarOf(k, bs)) && ScalarBytes(k, ScalarOf(k, bs)) == bs
  {
    LittleEndianOfUnsigned(bs);
  }

  /** Part of an image that lies in a buffer. */
  lemma Inside(bs: seq<Byte>, pos: nat, image: seq<Byte>, i: nat, part: seq<Byte>)
    requires pos + |image| <= |bs| && bs[pos..pos + |image|] == image
    requires i + |part| <= |image| && image[i..i + |part|] == part
    ensures bs[pos + i..pos + i + |part|] == part
    ensures |part| > 0 ==> bs[pos + i] == part[0]
  {
    forall j | 0 <= j < |part| ensures bs[pos + i + j] == part[j] {
      assert bs[pos..pos + |image|][i + j] == bs[pos + i + j];
      assert image[i..i + |part|][j] == image[i + j];
    }
  }

  lemma LengthRoundTrip(n: nat)
    requires n < TWO_TO_THE_32
    ensures Unsigned(LittleEndian(n, 4)) == n
  {
    Capacities();
    UnsignedOfLittleEndian(n, 4);
  }

  lemma LengthImage(bs: seq<Byte>)
    requires |bs| == 4
    ensures Unsigned(bs) < TWO_TO_THE_32 && LittleEndian(Unsigned(bs), 4) == bs
  {
    Capacities();
    LittleEndianOfUnsigned(bs);
  }

  lemma DecodeEncodeScalar(k: Kind, v: int, bs: seq<Byte>, pos: nat)
    requires k.InRange(v)
    requires pos + 1 + k.Width() <= |bs|
    requires bs[pos] == k.TypeId() && bs[pos + 1..pos + 1 + k.Width()] == ScalarBytes(k, v)
    ensures Decode(bs, pos) == Got(Scalar(k, v), pos + 1 + k.Width())
  {
    ScalarRoundTrip(k, v);
    assert KindOf(k.TypeId()) == Some(k);
  }

  lemma DecodeEncodeText(enc: Encoding, us: seq<nat>, bs: seq<Byte>, at: nat)
    requires |us| < TWO_TO_THE_32 && forall u :: u in us ==> u < Capacity(enc.UnitWidth())
    requires var end := at + 5 + |EncodeUnits(us, enc.UnitWidth())|;
             end <= |bs| && bs[at + 5..end] == EncodeUnits(us, enc.UnitWidth())
    requires bs[at] == enc.SubType() && Unsigned(bs[at + 1..at + 5]) == |us|
    ensures DecodeText(bs, at) == Got(Text(enc, us), at + 5 + |EncodeUnits(us, enc.UnitWidth())|)
  {
    var w := enc.UnitWidth();
    EncodeUnitsLength(us, w);
    enc.SizeIsProduct(|us|);
    DecodeEncodeUnits(us, w);
    assert EncodingOf(bs[at]) == Some(enc);
  }

  lemma YearRoundTrip(y: I16)
    ensures YearOf(YearBytes(y)) == y
  {
    Capacities();
    ScalarRoundTrip(Int16, y);
  }

  lemma MilliRoundTrip(ms: U16)
    ensures MilliOf(LittleEndian(ms, 2)) == ms
  {
    Capacities();
    UnsignedOfLittleEndian(ms, 2);
  }

  lemma DecodeEncodeScalarElement(e: Element, bs: seq<Byte>, pos: nat)
    requires e.Scalar?
    requires pos + |Encode(e)| <= |bs|
    requires bs[pos..pos + |Encode(e)|] == Encode(e)
    ensures Decode(bs, pos) == Got(e, pos + |Encode(e)|)
  {
    var image := Encode(e);
    Inside(bs, pos, image, 0, [e.kind.TypeId()]);
    Inside(bs, pos, image, 1, ScalarBytes(e.kind, e.number));
    DecodeEncodeScalar(e.kind, e.number, bs, pos);
  }

  lemma DecodeEncodeDateElement(e: Element, bs: seq<Byte>, pos: nat)
    requires e.Date?
    requires pos + |Encode(e)| <= |bs|
    requires bs[pos..pos + |Encode(e)|] == Encode(e)
    ensures Decode(bs, pos) == Got(e, pos + |Encode(e)|)
  {
    var image := Encode(e);
    YearRoundTrip(e.year);
    Inside(bs, pos, image, 0, [DATE]);
    Inside(bs, pos, image, 1, YearBytes(e.year));
    Inside(bs, pos, image, 3, [e.month]);
    Inside(bs, pos, image, 4, [e.day]);
  }

  lemma DecodeEncodeTimeElement(e: Element, bs: seq<Byte>, pos: nat)
    requires e.Time?
    requires pos + |Encode(e)| <= |bs|
    requires bs[pos..pos + |Encode(e)|] == Encode(e)
    ensures Decode(bs, pos) == Got(e, pos + |Encode(e)|)
  {
    var image := Encode(e);
    Inside(bs, pos, image, 0, [TIME]);
    Inside(bs, pos, image, 1, [e.hour]);
    Inside(bs, pos, image, 2, [e.minute]);
    Inside(bs, pos, image, 3, [e.second]);
  }

  lemma DecodeEncodeTimestampElement(e: Element, bs: seq<Byte>, pos: nat)
    requires e.Timestamp?
    requires pos + |Encode(e)| <= |bs|
    requires bs[pos..pos + |Encode(e)|] == Encode(e)
    ensures Decode(bs, pos) == Got(e, pos + |Encode(e)|)
  {
    var image := Encode(e);
    var middle := [e.month, e.day, e.hour, e.minute, e.second];
    assert image[3..8] == middle;
    assert image[8..10] == LittleEndian(e.millisecond, 2);
    YearRoundTrip(e.year);
    MilliRoundTrip(e.millisecond);
    Inside(bs, pos, image, 0, [TIMESTAMP]);
    Inside(bs, pos, image, 1, YearBytes(e.year));
    Inside(bs, pos, image, 3, middle);
    assert bs[pos + 3..pos + 8] == middle;
    forall i | 0 <= i < 5 ensures bs[pos + 3 + i] == middle[i] {
      assert bs[pos + 3..pos + 8][i] == middle[i];
    }
    Inside(bs, pos, image, 8, LittleEndian(e.millisecond, 2));
  }

  lemma DecodeEncodeTextElement(e: Element, bs: seq<Byte>, pos: nat)
    requires e.Text?
    requires pos + |Encode(e)| <= |bs|
    requires bs[pos..pos + |Encode(e)|] == Encode(e)
    ensures Decode(bs, pos) == Got(e, pos + |Encode(e)|)
  {
    var image := Encode(e);
    Inside(bs, pos, image, 0, [STRING]);
    Inside(bs, pos, image, 1, [e.encoding.SubType()]);
    Inside(bs, pos, image, 2, LittleEndian(|e.units|, 4));
    Inside(bs, pos, image, 6, EncodeUnits(e.units, e.encoding.UnitWidth()));
    LengthRoundTrip(|e.units|);
    DecodeEncodeText(e.encoding, e.units, bs, pos + 1);
  }

  lemma DecodeEncodeBinaryElement(e: Element, bs: seq<Byte>, pos: nat)
    requires e.Binary?
    requires pos + |Encode(e)| <= |bs|
    requires bs[pos..pos + |Encode(e)|] == Encode(e)
    ensures Decode(bs, pos) == Got(e, pos + |Encode(e)|)
  {
    var image := Encode(e);
    Inside(bs, pos, image, 0, [BINARY]);
    Inside(bs, pos, image, 1, [e.subtype]);
    Inside(bs, pos, image, 2, LittleEndian(|e.data|, 4));
    Inside(bs, pos, image, 6, e.data);
    LengthRoundTrip(|e.data|);
    assert DecodeBinary(bs, pos + 1) == Got(e, pos + |image|);
  }

  /** An element found in a buffer is read back, whatever surrounds it. */
  lemma DecodeEncode(e: Element, bs: seq<Byte>, pos: nat)
    requires pos + |Encode(e)| <= |bs|
    requires bs[pos..pos + |Encode(e)|] == Encode(e)
    ensures Decode(bs, pos) == Got(e, pos + |Encode(e)|)
  {
    match e
    case Scalar(_, _) => DecodeEncodeScalarElement(e, bs, pos);
    case Date(_, _, _) => DecodeEncodeDateElement(e, bs, pos);
    case Time(_, _, _) => DecodeEncodeTimeElement(e, bs, pos);
    case Timestamp(_, _, _, _, _, _, _) => DecodeEncodeTimestampElement(e, bs, pos);
    case Text(_, _) => DecodeEncodeTextElement(e, bs, pos);
    case Binary(_, _) => DecodeEncodeBinaryElement(e, bs, pos);
    case _ => Inside(bs, pos, Encode(e), 0, Encode(e));
  }

  /** The first units of a string, as many as its length field says. */
  function Counted(us: seq<nat>): (cut: seq<nat>)
    ensures cut <= us && |cut| < TWO_TO_THE_32
    ensures cut == us <==> |us| < TWO_TO_THE_32
  {
    us[..|us| % TWO_TO_THE_32]
  }

  function Uncounted(enc: Encoding, us: seq<nat>): seq<Byte> {
    EncodeUnits(us[|Counted(us)|..], enc.UnitWidth())
  }

  /** What is written for any string is the encoding of what has been counted, and then the other units. */
  lemma TextBytesCut(enc: Encoding, us: seq<nat>)
    ensures TextBytes(enc, us)
         == TextBytes(enc, Counted(us)) + Uncounted(enc, us)
  {
    var n := |us| % TWO_TO_THE_32;
    LengthCut(|us|);
    EncodeUnitsSplit(us, n, enc.UnitWidth());
    ConcatAssociative([STRING, enc.SubType()] + LittleEndian(|us|, 4),
                      EncodeUnits(us[..n], enc.UnitWidth()), EncodeUnits(us[n..], enc.UnitWidth()));
  }

  lemma LengthCut(n: nat)
    ensures LittleEndian(n, 4) == LittleEndian(n % TWO_TO_THE_32, 4)
  {
    Capacities();
    LittleEndianCut(n % TWO_TO_THE_32, n / TWO_TO_THE_32, 4);
  }

  /** What can be read does not depend on what follows it. */
  lemma DecodeMore(bs: seq<Byte>, rest: seq<Byte>, pos: nat)
    requires Decode(bs, pos).Got?
    ensures Decode(bs + rest, pos) == Decode(bs, pos)
  {
    EncodeDecode(bs, pos);
    var Got(e, next) := Decode(bs, pos);
    assert (bs + rest)[pos..next] == bs[pos..next];
    DecodeEncode(e, bs + rest, pos);
  }

  lemma EncodeDecodeScalar(k: Kind, bs: seq<Byte>, pos: nat)
    requires pos + 1 + k.Width() <= |bs| && bs[pos] == k.TypeId()
    ensures var v := ScalarOf(k, bs[pos + 1..pos + 1 + k.Width()]);
            k.InRange(v) && bs[pos..pos + 1 + k.Width()] == Encode(Scalar(k, v))
  {
    ScalarImage(k, bs[pos + 1..pos + 1 + k.Width()]);
    assert bs[pos..pos + 1 + k.Width()] == [bs[pos]] + bs[pos + 1..pos + 1 + k.Width()];
  }

  lemma TextImage(enc: Encoding, head: seq<Byte>, units: seq<Byte>)
    requires |head| == 4 && |units| == enc.Size(Unsigned(head))
    ensures var e := Text(enc, DecodeUnits(units, enc.UnitWidth()));
            e.Valid() && Encode(e) == [STRING, enc.SubType()] + head + units
  {
    LengthImage(head);
    enc.SizeIsProduct(Unsigned(head));
    EncodeDecodeUnits(units, Unsigned(head), enc.UnitWidth());
  }

  lemma EncodeDecodeText(bs: seq<Byte>, at: nat)
    requires DecodeText(bs, at).Got?
    ensures var Got(e, next) := DecodeText(bs, at);
            e.Text? && e.Valid() && at + 5 <= next <= |bs| && [STRING] + bs[at..next] == Encode(e)
  {
    var Got(e, next) := DecodeText(bs, at);
    var head, units := bs[at + 1..at + 5], bs[at + 5..next];
    TextImage(e.encoding, head, units);
    assert [STRING] + bs[at..next] == [STRING, bs[at]] + head + units;
  }

  lemma EncodeDecodeBinary(bs: seq<Byte>, at: nat)
    requires DecodeBinary(bs, at).Got?
    ensures var Got(e, next) := DecodeBinary(bs, at);
            e.Binary? && e.Valid() && at + 5 <= next <= |bs| && [BINARY] + bs[at..next] == Encode(e)
  {
    var Got(e, next) := DecodeBinary(bs, at);
    LengthImage(bs[at + 1..at + 5]);
    assert bs[at..next] == [bs[at]] + bs[at + 1..at + 5] + bs[at + 5..next];
  }

  lemma YearImage(bs: seq<Byte>)
    requires |bs| == 2
    ensures YearBytes(YearOf(bs)) == bs
  {
    ScalarImage(Int16, bs);
  }

  lemma EncodeDecodeCalendar(bs: seq<Byte>, pos: nat)
    requires pos < |bs| && bs[pos] in {DATE, TIME, TIMESTAMP}
    requires Decode(bs, pos).Got?
    ensures var Got(e, next) := Decode(bs, pos);
            e.Valid() && pos < next <= |bs| && bs[pos..next] == Encode(e)
  {
    var Got(e, next) := Decode(bs, pos);
    var at := pos + 1;
    if e.Date? {
      YearImage(bs[at..at + 2]);
      assert bs[pos..next] == [bs[pos]] + bs[at..at + 2] + [e.month, e.day];
    } else if e.Timestamp? {
      YearImage(bs[at..at + 2]);
      LittleEndianOfUnsigned(bs[at + 7..next]);
      assert bs[pos..next]
          == [bs[pos]] + bs[at..at + 2] + [e.month, e.day, e.hour, e.minute, e.second] + bs[at + 7..next];
    }
  }

  /** Whatever is read is a valid element, and the bytes passed over are its encoding. */
  lemma EncodeDecode(bs: seq<Byte>, pos: nat)
    requires Decode(bs, pos).Got?
    ensures var Got(e, next) := Decode(bs, pos);
            e.Valid() && pos < next <= |bs| && bs[pos..next] == Encode(e)
  {
    var tag := bs[pos];
    if tag == STRING {
      EncodeDecodeText(bs, pos + 1);
      assert bs[pos..Decode(bs, pos).next] == [tag] + bs[pos + 1..Decode(bs, pos).next];
    } else if tag == BINARY {
      EncodeDecodeBinary(bs, pos + 1);
      assert bs[pos..Decode(bs, pos).next] == [tag] + bs[pos + 1..Decode(bs, pos).next];
    } else if tag in {DATE, TIME, TIMESTAMP} {
      EncodeDecodeCalendar(bs, pos);
    } else if KindOf(tag).Some? {
      EncodeDecodeScalar(KindOf(tag).value, bs, pos);
    }
  }

  /** The encodings of a sequence of elements, one after the other. */
  function EncodeAll(es: seq<Element>): seq<Byte> {
    ConcatMap(Encode, es)
  }

  /** The encoding is prefix-free. */
  lemma PrefixFree(a: Element, b: Element)
    requires Encode(a) <= Encode(b)
    ensures a == b
  {
    DecodeEncode(a, Encode(b), 0);
    DecodeEncode(b, Encode(b), 0);
  }

  /** Where the k-th element of a document starts. */
  function OffsetOf(pre: seq<Byte>, es: seq<Element>, k: nat): nat
    requires k <= |es|
  {
    |pre| + |ConcatUpTo(Encode, es, k)|
  }

  /** The k-th element of a document is read where the first k end. */
  lemma DecodeAt(pre: seq<Byte>, es: seq<Element>, k: nat)
    requires k < |es|
    ensures Decode(pre + EncodeAll(es), OffsetOf(pre, es, k)) == Got(es[k], OffsetOf(pre, es, k + 1))
  {
    var image, pos := Encode(es[k]), OffsetOf(pre, es, k);
    var bs := pre + EncodeAll(es);
    assert image <= bs[pos..] by {
      ConcatUpToPrefix(Encode, es, k + 1, |es|);
      assert ConcatUpTo(Encode, es, k + 1) == ConcatUpTo(Encode, es, k) + image;
    }
    assert bs[pos..pos + |image|] == image;
    DecodeEncode(es[k], bs, pos);
  }

  lemma SameElement(a: seq<Element>, b: seq<Element>, k: nat)
    requires EncodeAll(a) == EncodeAll(b) && k < |a| && k < |b|
    requires OffsetOf([], a, k) == OffsetOf([], b, k)
    ensures a[k] == b[k]
  {
    DecodeAt([], a, k);
    DecodeAt([], b, k);
  }

  lemma {:induction false} SameUpTo(a: seq<Element>, b: seq<Element>, k: nat)
    requires EncodeAll(a) == EncodeAll(b) && k <= |a|
    ensures k <= |b| && |ConcatUpTo(Encode, a, k)| == |ConcatUpTo(Encode, b, k)|
    ensures forall i :: 0 <= i < k ==> a[i] == b[i]
  {
    if k > 0 {
      SameUpTo(a, b, k - 1);
      ConcatUpToPrefix(Encode, a, k, |a|);
      assert k - 1 < |b|;
      SameElement(a, b, k - 1);
    }
  }

  /** Two element sequences with the same bytes are the same sequence. */
  lemma EncodeAllInjective(a: seq<Element>, b: seq<Element>)
    requires EncodeAll(a) == EncodeAll(b)
    ensures a == b
  {
    SameUpTo(a, b, |a|);
    SameUpTo(b, a, |b|);
  }
}
