# libujo-c: a verified model of the UJO writer and reader

UJO is a binary format for nested data. A writer takes calls (open a list, add a
number, close a table, ...), rejects those that are not allowed where it stands, and
appends the bytes of the others to a growing buffer. A reader takes such a buffer and
gives the elements back one by one. This project models the memory writer, the memory
reader, the document automaton and pointer stack that both of them drive, and the
conversion between single and half precision floats, and proves that

- reading what any run of calls has left in the buffer gives exactly the accepted
  calls, in order, and the reader's frames follow the writer's call by call;
- a writer closes a document exactly on the trees of the format's grammar, every such
  tree can be written with no call rejected, and the bytes determine the tree;
- the frame records in memory are always exactly the current one and the stacked ones,
  none is used after it has been freed, and disposal frees each once;
- the bytes written and read are those of the format, number by number: magic, version,
  type ids, subtypes, lengths, two's complement, field order; anything else is rejected,
  with the right code and at the right place;
- a float becomes the half of largest magnitude that does not exceed it, a half
  becomes exactly the same float, and no half is lost on the way there and back.

## How it is built

| file | contents |
|---|---|
| `Sequences.dfy`, `Integers.dfy`, `Shifts.dfy` | runs and concatenations over sequences, little-endian images, shifts |
| `HalfFloat.dfy` | the float conversion tables and functions, and their meaning |
| `DocState.dfy` | the automaton as a function on configurations |
| `StateMemory.dfy` | the automaton in memory: allocated frame records, the pointer array |
| `Elements.dfy` | the typed elements, their encoding and decoding |
| `WriterRules.dfy`, `ReaderRules.dfy` | what each call and each read does, as functions |
| `WireFormat.dfy` | the format byte by byte, in literal numbers, and that it is what is written and read |
| `Writer.dfy`, `Reader.dfy` | the writer and reader objects, proved against those functions |
| `RoundTrip.dfy`, `EndToEnd.dfy` | what the writer accepts, the reader gives back |
| `Grammar.dfy`, `Documents.dfy`, `Completeness.dfy` | document trees, and the automaton against them |
| `Accounting.dfy` | depth, terminators, stack shape and table rows over every run |

The frame records are modelled with explicit addresses: `StateHeap` maps each live
address to its record, an allocation hands out any address that is not live, and a
look-up needs the address to be live. Using a record after it has been freed, freeing
it twice, or following a null pointer is therefore not possible in code that verifies.
`Writer` and `Reader` are classes with the fields of the structures of the source; the
ghost field `calls` of a writer records every call, and its invariant says that the
memory holds what the function `Run` makes of those calls. The theorems are about
`Run`, and so about every writer.

What a read does depends on the buffer, the position in it and the frames. The
source does not check that enough bytes are left, and follows the popped pointer without
looking at it. `ReadNext` gives such a read the outcome `Fault`, and the reader's
methods require that the outcome is another one; the theorems show that on a writer's
buffer it always is, up to the end of the buffer. For other buffers the contracts still
say what happens, errors included.

The reference for the grammar is `Grow`, which reads elements into a tree under
construction without knowing the automaton. Column counters wrap around at 2^32, in the
model as in the source; `Width` is the wrapped number of columns, which for fewer than
2^32 columns is their number (`Grammar.RemainderIsModulo`).

The reference for the bytes is `Spelled` in `WireFormat.dfy`, a relation between bytes and
elements that uses none of the functions that encode or decode. The contracts of the
writer and the reader are stated in its terms, and in literal numbers where that is
shorter, besides the functions that they refine.

Floats are bit patterns and the numbers they denote are counted in units of 2^-149, so
that they are integers. Each of the five tables is given by its closed form, entry by
entry.

## Where the code does not do what it promises

The documentation of `ujo_writer_add_string_c` says that a C string is terminated by a NUL
and that only the last octet is one (src/ujo_writer.c:856-857). The code writes one byte
more than it has counted, whatever that byte is, and keeps that number in 32 bits.
`CStringCanonical` proves when the promise is kept: if and only if there is a NUL among the
first n + 1 bytes and its position can be counted in 32 bits. `CStringNotTerminated` and
`LongCStringIsLost` give strings for which it is not. The additional byte has to be in
memory: with neither n + 1 bytes nor a NUL the code reads past the string, and with one of
them it does not (`CStringInMemory`).

The length of a UTF-8, UTF-16 or UTF-32 string is a `size_t`, of which 32 bits are
written, while all units are. `TextReadBack` proves what is then read: the string cut to
its length modulo 2^32, which is the string if and only if it has fewer than 2^32 units.
`LongTextIsLost` is a string that is read back as the empty one.

`isinf_float16` by its name asks for infinities, and holds of not-a-numbers as well
(src/ujo_float.c:302-306); `NanTakenForInfinity` is one. `InfinityOrNan` proves that it is
right about a half if and only if the half is not a not-a-number, and that `isnan_float16`
is always right. The writer asks for not-a-numbers first and rejects both with the same error.

The second check of `ujo_stack_push` announces an invalid data pointer and tests the stack
again (src/ujo_stack.c:92-93), so that a null pointer is pushed like any other.

## Model

A writer's operation *extends the run* when its status is the automaton's verdict on the call and,
afterwards, the frames in memory and the bytes in the buffer are exactly those of the run with this
call added; when the call is rejected, frames, stack, buffer and sizes are moreover untouched.

| member | source | states |
|---|---|---|
| RoundTrip.WrittenIsRead | src/ujo_reader.c:685-799 | for every sequence of writer calls, accepted or rejected: the header is accepted, as many reads as calls were accepted give exactly the accepted elements in order, the reader is then at the end of the buffer with the writer's frames, and finds the end of data there exactly if the writer is closed |
| RoundTrip.KthElement | src/ujo_reader.c:710-799 | after its k-th element the reader is at the end of the bytes, and in the configuration without counters, that the writer had after its k-th accepted call, for every k and every run |
| RoundTrip.EndOnlyAtEnd | src/ujo_reader.c:717-726 | on a closed document the end of data is signalled at the end of the buffer and at no earlier element |
| RoundTrip.ParseClosed | src/ujo_reader.c:647-669 | parsing a closed document always ends; the handler is given the accepted elements in order, up to and including the first that it fails on, whose error is then the status, and all of them, up to the end of the buffer, if it fails on none |
| RoundTrip.LockStepRun | src/ujo_state.c:74-125 | after any run the reader that has consumed the accepted elements has the writer's current frame and stack with the table counters erased, although strings and column ends drive the automaton with other events |
| RoundTrip.SameBytesSameLog | src/ujo_writer.c:245-1097 | two runs that leave the same bytes have had the same elements accepted |
| RoundTrip.TextReadBack | src/ujo_writer.c:900-980 | a string of any length that is accepted after any run is read back, behind the elements before it, cut to its length modulo 2^32; it is the string itself, and nothing of it is left over, if and only if it has fewer than 2^32 units |
| RoundTrip.LongTextIsLost | src/ujo_writer.c:900-980 | a string of 2^32 letters in a list is read back as the empty string |
| RoundTrip.DocumentYields | src/ujo_reader.c:728-787 | the bytes of any element sequence that does not underflow the stack or go on after closing are read back element by element |
| ReaderRules.LockStep | src/ujo_reader.c:739-746 | one accepted call and the matching read commute with erasing the counters, in every configuration that can arise |
| ReaderRules.CountersStayZero | src/ujo_reader.c:548 | whatever element is read, allowed there or not, all table counters of the reader stay zero |
| ReaderRules.ConsumeAnywhere | src/ujo_reader.c:295-311 | the reader's frames after any element in any configuration, also where a writer would have rejected it |
| Elements.DecodeEncode | src/ujo_reader.c:313-567 | an element encoded anywhere in a buffer is read back from there with all its values, whatever surrounds it, and the reader stops right behind it |
| Elements.EncodeDecode | src/ujo_reader.c:728-787 | on any bytes, an element that is read is a valid one and the bytes passed over are exactly its encoding |
| Elements.PrefixFree | src/ujo_writer.c:354-1013 | no encoding is the beginning of the encoding of another element |
| Elements.EncodeAllInjective | src/ujo_writer.c:354-1013 | element sequences with the same bytes are the same |
| Elements.DecodeAt | src/ujo_reader.c:569-576 | in a document the k-th element is read where the encodings of the first k end, and leaves the reader where the first k + 1 end |
| WireFormat.SpelledIffEncoded | src/ujo_constants.h:51-93 | for every sequence of bytes and every element: the bytes are type id, subtype, length, fields and data as the format lays them out, in literal numbers, and everything is in range, if and only if the element is a valid one and they are its encoding |
| WireFormat.DecodesWhatIsSpelled | src/ujo_reader.c:728-787 | on any buffer the reader finds an element, ending at a place, if and only if the bytes from its position to that place spell that element |
| WireFormat.DecodeRejects | src/ujo_reader.c:785-799 | a read is rejected exactly behind a type id that is neither at most 0x13 nor 0x30 to 0x32, and behind the length of a string with a subtype above 3 |
| WireFormat.ReadsWhatIsSpelled | src/ujo_reader.c:710-799 | on any buffer, at any position and in any configuration: the end of the data is reported exactly in a closed document, an element is found exactly if it is spelled there and is no terminator on an empty stack, and 5503 is the answer exactly to an unknown type or subtype |
| WireFormat.NumberFormat | src/ujo_writer.c:354-447 | type id, width, range and sign of each of the thirteen kinds of number, and the value of every byte, in two's complement for negative numbers |
| WireFormat.TextFormat | src/ujo_writer.c:867-980 | for each encoding and units of any number: subtype 0, 1, 2 or 3, the low 32 bits of the number of units, and unit j at 6 + j, 6 + 2j or 6 + 4j, determine the bytes written |
| WireFormat.CallIsSpelled | src/ujo_writer.c:354-1013 | after any run, an accepted call appends bytes that spell its element, and changes none before them |
| WireFormat.HeaderFormat | src/ujo_reader.c:276-293 | on any buffer the header check succeeds if and only if six bytes are 5F 55 4A 4F 01 00 and a seventh follows, fails behind four bytes if they are not the magic and behind six if they are not version 1, and leaves the buffer otherwise |
| WireFormat.EmptyListDocument | src/ujo_writer.c:98-118 | opening and closing a list makes a closed document of nine given bytes |
| Integers.UnsignedOfLittleEndian | src/ujo_endian.h:106-111 | a number that fits its width is the number read from its little-endian bytes |
| Integers.DecodeEncodeUnits | src/ujo_writer.c:932-980 | the units of a string are read back from their bytes, for every unit width |
| Documents.AcceptedIffFits | src/ujo_state.c:30-50 | in every position of a document a call is accepted if and only if the grammar allows its element there, it closes what is open, and a half is in range |
| Documents.AcceptedMoves | src/ujo_state.c:52-125 | an accepted call takes the automaton to exactly the frames and counters of the tree with the new element |
| Documents.RunBuildsTree | src/ujo_state.c:74-125 | over every run the writer's frames and counters are exactly those of a legal tree under construction, which the reference reading makes of the accepted elements |
| Documents.StatusOfCall | src/ujo_writer.c:245-340 | the code that a call returns after any run, decided by the tree under construction alone: 0 if the call fits, 5505 for closing, 5503 for a number that is no half in a place for values, 5504 for anything else |
| Documents.ClosedIsTree | src/ujo_writer.c:268-340 | whenever a run has closed the document, the buffer is the header and the encoding of exactly one legal container tree |
| Completeness.EveryTreeIsWritten | src/ujo_writer.c:1035-1097 | every legal container tree can be written with no call rejected; the result is closed and is the header and the encoding of that tree |
| Completeness.BytesDetermineTree | src/ujo_writer.c:245-340 | two legal container trees with the same bytes are the same tree |
| Completeness.TreeLeads | src/ujo_writer.c:245-340 | wherever a document has a place for a tree, the calls that write it are all accepted, add its elements, and leave the document where the grammar delivers the tree |
| Grammar.GrowElements | src/ujo_writer.c:245-340 | the reference reading loses and invents nothing: the elements of the tree under construction are those read so far |
| Grammar.RemainderStep | src/ujo_state.c:83-87 | counting one cell more, and starting over on a full row, is counting modulo the columns |
| Grammar.RemainderIsModulo | src/ujo_state.c:83-87 | the wrapped counter is the number of cells modulo the columns |
| Accounting.ShapeOfRun | src/ujo_state.c:52-72 | over every run the stack is empty exactly at ROOT and CLOSED, ROOT is exactly its bottom, each map value lies on its key and each stacked key has its value above it, and neither open columns nor CLOSED are ever stacked |
| Accounting.RowsOfRun | src/ujo_state.c:98-105 | over every run each open table, current or buried, has columns, and its cell counter is the number of its finished cells modulo the columns, a nested container being one cell |
| Accounting.TableClosedOnWholeRows | src/ujo_writer.c:1086-1097 | closing a table is accepted exactly if the innermost open container is a table body with whole rows |
| Accounting.DepthOfRun | src/ujo_state.c:52-72 | over every run the stack holds one frame for every open container and one for every map value in progress |
| Accounting.TerminatorsOfClosed | src/ujo_writer.c:1062-1097 | in every closed document the terminators number the lists, the maps, and the tables twice |
| DocState.ShapedPrev | src/ujo_state.c:61-72 | a pop keeps the shape of the stack, leaves a map value for its key, and closes the document exactly when the last frame is popped |
| DocState.ShapedSwitch | src/ujo_state.c:74-125 | no event ever pops an empty stack, and every event keeps the shape |
| WriterRules.CStringCanonical | src/ujo_writer.c:867-883 | the bytes written for a C string end with their only NUL if and only if there is a NUL among the first n + 1 bytes, at a position below 2^32 - 1, and are then the string up to and including its first NUL |
| WriterRules.RejectedWith | src/ujo_errors.h:31-36 | in every configuration a rejected call gives 5505 if it closes, 5503 if it adds a half where values are allowed, and 5504 otherwise |
| WriterRules.CStringInMemory | src/ujo_writer.c:867-883 | for n + 1 below 2^32, counting and copying stay within the memory if and only if there are n + 1 bytes or a NUL; for greater n, also if there are exactly n bytes |
| WriterRules.CStringNotTerminated | src/ujo_writer.c:856-883 | a C string added with n too small is written without a terminator |
| WriterRules.LongCStringIsLost | src/ujo_writer.c:867-883 | a C string with its NUL behind 2^32 - 1 other bytes is written as no bytes |
| EndToEnd.CStringReadBack | src/ujo_reader.c:516-528 | after any run, an accepted C string with a NUL in reach, below 2^32, is read back as that canonical form, with n equal to its length |
| EndToEnd.Float16Accepted | src/ujo_writer.c:515-533 | where atomic values are allowed a half is accepted exactly for magnitudes below 2^16; every other number, infinity and not-a-number is rejected as invalid data and leaves the document unchanged |
| EndToEnd.Float16ReadBack | src/ujo_reader.c:1014-1021 | after any run, the element read back for an accepted half, converted, has the sign of the number written, zeros included, does not exceed it in magnitude, and is not exceeded by any half that does not exceed it |
| HalfFloat.Truncates | src/ujo_float.c:278-286 | for every number below 2^16 the half is of the largest magnitude that does not exceed the number, and has its sign |
| HalfFloat.TruncationError | src/ujo_float.c:278-286 | the error is below one part in 2^10 from 2^-14 on, and below 2^-24 under that |
| HalfFloat.ConversionMonotone | src/ujo_float.c:278-286 | the conversion to half preserves the order of the numbers, signs included |
| HalfFloat.RejectedExactly | src/ujo_float.c:302-313 | the half is an infinity or not-a-number exactly for the floats not below 2^16, and a not-a-number exactly if enough of a payload is left |
| HalfFloat.InfinityOrNan | src/ujo_float.c:302-313 | the test for infinities is right about a half if and only if it is not a not-a-number, and takes those for infinities; the test for not-a-numbers is right about every half |
| HalfFloat.NanTakenForInfinity | src/ujo_float.c:302-306 | a not-a-number that passes as an infinity |
| HalfFloat.HalfToFloatExact | src/ujo_float.c:288-300 | a finite half becomes exactly the same number, subnormals included |
| HalfFloat.HalfRoundTrip | src/ujo_float.c:278-300 | every 16-bit pattern comes back from a float unchanged: signed zeros, subnormals, infinities and payloads included |
| HalfFloat.WrittenAndReadBack | src/ujo_float.c:278-300 | a float that has become a half and is converted back is that half's value, and converting it again changes nothing |
| HalfFloat.HalfBitsByRange | src/ujo_float.c:43-116 | what the base and shift tables make of each range of exponents |
| HalfFloat.SubnormalImage | src/ujo_float.c:118-255 | the mantissa table normalises a subnormal fraction: its leading one bit becomes the implicit one |
| HalfFloat.HalfToFloatFields | src/ujo_float.c:257-275 | sign, exponent and fraction that the exponent and offset tables give each half |
| StateMemory.StateHeap.Calloc | src/ujo_decl.c:41-44 | a zeroed record at an address that is not in use |
| StateMemory.StateHeap.Free | src/ujo_decl.c:66-73 | only a live record can be freed, and it is then not live |
| StateMemory.PointerStack.Push | src/ujo_stack.c:88-115 | any pointer, a null one not excepted, is added on top; the array grows by one when it is full, so that its size is the greatest depth reached |
| StateMemory.PointerStack.Pop | src/ujo_stack.c:117-131 | the top pointer, and the rest stays; NULL for an empty stack |
| StateMemory.PointerStack.Clear | src/ujo_stack.c:62-71 | every stacked record is freed exactly once and the stack is empty |
| StateMemory.StateNext | src/ujo_state.c:52-59 | a new current record above the old one; the live records remain exactly the current and the stacked ones, all distinct |
| StateMemory.StatePrev | src/ujo_state.c:61-72 | the current record is freed and the uncovered one, live, becomes current, ROOT turning into CLOSED in place |
| StateMemory.StateSwitch | src/ujo_state.c:74-125 | the records in memory do what the automaton does on each event, and none is lost or used after it has been freed |
| StateMemory.FreeAll | src/ujo_stack.c:73-86 | disposal frees every live record exactly once |
| Writers.Writer.constructor | src/ujo_writer.c:98-118 | a new writer holds the empty document: the seven bytes of its header, in a buffer of 4096 |
| Writers.Writer.Put | src/ujo_writer.c:1104-1130 | the buffer is what it was with the new bytes appended; it grows, by whole pages of 4096, only when it has to; its size stays a positive multiple of 4096, is never exceeded, and is at most twice the bytes used and 4096 |
| Writers.Writer.Grow | src/ujo_writer.c:1112-1123 | reallocation keeps what has been written |
| Writers.Writer.ListOpen | src/ujo_writer.c:245-255 | extends the run by opening a list, with one byte 0x30; rejected with 5504 where no container may stand |
| Writers.Writer.ListClose | src/ujo_writer.c:268-280 | extends the run by closing the list that is innermost, with one byte 0; rejected with 5505 elsewhere |
| Writers.Writer.MapOpen | src/ujo_writer.c:305-315 | extends the run by opening a map, with one byte 0x31; rejected with 5504 where no container may stand |
| Writers.Writer.MapClose | src/ujo_writer.c:328-340 | extends the run by closing the map that is innermost and waits for a key, with one byte 0; rejected with 5505 elsewhere |
| Writers.Writer.TableOpen | src/ujo_writer.c:1035-1048 | extends the run by opening a table, with one byte 0x32; rejected with 5504 where no container may stand |
| Writers.Writer.TableEndColumns | src/ujo_writer.c:1062-1074 | extends the run by ending the columns, with one byte 0; rejected with 5505 elsewhere and without a column |
| Writers.Writer.TableClose | src/ujo_writer.c:1086-1097 | extends the run by closing the table, with one byte 0; rejected with 5505 elsewhere and within a row |
| Writers.Writer.AddScalar | src/ujo_writer.c:354-753 | each of the twelve operations for one number of a fixed width, here one method by type id and width, extends the run by that number and appends its type id and its bytes in two's complement: 64, 32, 16 and 8 bit integers, 32 and 64 bit floats, booleans and unix times; rejected with 5504 where no value may stand |
| Writers.Writer.AddNone | src/ujo_writer.c:460-470 | extends the run by a none value, with one byte 0x0F; rejected with 5504 |
| Writers.Writer.AddFloat16 | src/ujo_writer.c:515-538 | extends the run by a half; rejected with everything untouched, with 5504 where no value may stand, and there with 5503 exactly if the number is not below 2^16 |
| Writers.Writer.AddDate | src/ujo_writer.c:766-782 | extends the run by a date: 0x11, the year in two's complement, month, day; rejected with 5504 |
| Writers.Writer.AddTime | src/ujo_writer.c:797-811 | extends the run by a time: 0x12, hour, minute, second; rejected with 5504 |
| Writers.Writer.AddTimestamp | src/ujo_writer.c:827-851 | extends the run by a timestamp of seven fields behind 0x13; rejected with 5504 |
| Writers.Writer.AddStringC | src/ujo_writer.c:867-883 | extends the run by a C string, as a value, a key or a column name, whatever its length, if the memory is there, and appends 0x04, 0x00, its length and its bytes; rejected with 5504 |
| Writers.Writer.AddUnicode | src/ujo_writer.c:900-980 | appends 0x04, the subtype of the encoding, the low 32 bits of the number of units, and every unit in its place, as a value, a key or a column name; extends the run by that string, or, from 2^32 units on, by as much of it as the length field counts; rejected with 5504 |
| Writers.Writer.AddBinary | src/ujo_writer.c:998-1013 | extends the run by binary data: 0x0E, its subtype, its length and its bytes; rejected with 5504 |
| Writers.Writer.Dispose | src/ujo_writer.c:166-187 | every frame record has been freed exactly once |
| Readers.Reader.SetBuffer | src/ujo_reader.c:618-634 | whatever has been read before, the reader is on the new document in the configuration of a new reader, counters included |
| Readers.Reader.GetNext | src/ujo_reader.c:710-799 | the next element, which the bytes passed over spell, the end of data exactly where the document is closed, or 5503 exactly on an unknown type or subtype; frames as the functional read has them, for every buffer on which the source is defined; the counters stay zero and the shape is kept |
| Readers.Reader.GetFirst | src/ujo_reader.c:685-695 | the header check and then the next element; 5503 and no element for any other header than 5F 55 4A 4F 01 00 |
| Readers.Reader.ReadElement | src/ujo_reader.c:728-787 | the element that the bytes at the position spell, or none, with the position behind what has been looked at |
| Readers.Reader.ParseHeader | src/ujo_reader.c:276-293 | succeeds exactly for the bytes 5F 55 4A 4F 01 00, seven bytes on; otherwise 5503, four bytes on if the magic is wrong and six if the version is |
| Readers.Reader.ReadValue | src/ujo_reader.c:747-787 | the value that follows its type id, which the bytes passed over spell, or none exactly for an unknown type or string subtype |
| Readers.Reader.ReadText | src/ujo_reader.c:516-551 | subtype, length and units of a string, which the bytes passed over spell, or none exactly for a subtype above 3 |
| Readers.Reader.ReadBinary | src/ujo_reader.c:553-567 | subtype, length and bytes of a binary |
| Readers.Reader.ReadTimestamp | src/ujo_reader.c:495-514 | the seven fields of a timestamp, each from its place |
| Readers.Reader.Follow | src/ujo_reader.c:295-311 | the frames do what an element asks of them, and a table's first terminator ends its columns |
| Readers.Reader.CloseContainer | src/ujo_reader.c:449-455 | the container's frame goes and its surroundings are told |
| Readers.Reader.GetData | src/ujo_reader.c:569-576 | the next n bytes, within the buffer |
| Readers.Reader.Parse | src/ujo_reader.c:647-669 | terminates, with the elements delivered, the status and the position that the bytes and the handler determine, whatever error codes the handler returns; delivers nothing, with 5503, behind any other header than 5F 55 4A 4F 01 00 |
| Readers.Reader.Dispose | src/ujo_reader.c:235-256 | every frame record has been freed exactly once |
| EndToEnd.ReadBackFrom | test/tests/test01.c:110-167 | a reader that is handed a writer's buffer, open or closed, reads the accepted elements one by one |
| EndToEnd.ReadAllFrom | test/tests/test01.c:118-175 | reading a closed writer's buffer until the end of the data is reported terminates, gives exactly the accepted elements, and ends at the end of the buffer |
| EndToEnd.ParseBackFrom | src/ujo_reader.c:618-669 | parsing a closed writer's buffer delivers the accepted elements to the handler in order, up to and including the first that it fails on |

## Left out

- `ujo_writer_add_null`: it writes 0x00, the terminator, for every type id (src/ujo_writer.c:493), and the reader has no null element.
- File writer, file reader and logging: input and output only.
- Allocation failures and null handles: every allocation succeeds, also of zero bytes.
- The memory of buffers and elements: the reader does not release its previous buffer when it is given another one (src/ujo_reader.c:624), and a parse releases elements without their strings (src/ujo_reader.c:661); only the frame records are accounted for.
- Big-endian hosts: the byte order macros are the identity.
- What is read from bytes that an over-long string has left behind, and the calls after one: from then on the writer's buffer is no document.
- Buffers beyond the range of `size_t`.
- The header fields that the reader stores and does not use, and the accessors of an element, which only check its type; `GetFloat16` stands for the one that converts.
- A parse without a handler: it is a parse with a handler that never fails.
- Handlers with side effects on the reader: a handler is a function of the elements that it has seen.
- AddScalar: one method for the twelve operations that write a type id and one number (src/ujo_writer.c:354-447, src/ujo_writer.c:552-753), and ReadValue likewise on the reading side; they differ in type id, width and sign only.
- Date and time fields are not checked for their calendar range, in the source or here.
