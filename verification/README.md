# Verification of the co-simulation code

A Dafny model of the stateful and algebraic cores of this repository, with proofs about
them. One group of files per core:

- **Message codec** (`Wire`, `WireBytes`, `MessageSpec`, `MessageTheorems`, `MessageBytes`,
  `Packed`, `Reparse`, `CodedStreams`, `TestScalars`, `TestArrays`, `TestNested`, `TestMessage`): the
  four generated test messages with has-bits, cached sizes, oneof and unknown records. `MessageSpec` gives each message as a
  value, what one wire record does to it, its serialisation and its merge; the classes are
  the generated code, each method proved against those functions; `MessageTheorems`,
  `Packed` and `Reparse` prove what parser, printer and merge promise each other; `WireBytes` and
  `MessageBytes` say which bytes that are and what merging means. Primitives follow the
  Protocol Buffers Encoding specification, sections "Base 128 Varints", "Message Structure",
  "Submessages", "Packed Repeated Fields" and "Last One Wins".
- **Scheduler** (`Scheduler`, `SchedulerRuns`): the clock callback, the semaphore and the
  model step as objects, and every interleaving of clock, base-rate and main thread.
- **Apply commands** (`Commander`): the ten expiring stores as an object, and as a cache
  compared with a log that never deletes.
- **Transport** (`Transport`): framing, the two endpoints, and every interleaving of them
  under every fragmentation of the two byte streams.
- **Lease** (`Lease`): the timed exclusive lease with explicit, delayable timer completions.
- **Report search** (`Highlight`, `HighlightTags`, `HighlightSearch`): adding and removing highlights.
- **Workspace environment** (`EnvPaths`, `EnvHooks`): path prepending and rollback, hook
  deduplication.
- **Cart and pendulum** (`CartPend`): the derivatives, their equations of motion and energy.

Check the whole project with `dafny verify dfyconfig.toml` (Dafny 4.11).

Findings, where the code does something a reader would not expect:

- The end of a base-rate step can set the run flag again after a missed slot cleared it
  (`SchedulerRuns.StopFlagIsOverwritten`); `SchedulerRuns.StopFlagStays` says exactly when it
  stays cleared, and the steps that still start are bounded in either case
  (`SchedulerRuns.AfterMiss`).
- Shutdown hangs when terminate finds the base-rate thread about to set the flag again;
  `SchedulerRuns.ShutdownEnds` says exactly when it ends.
- The overrun counter counts every slot after the first (`SchedulerRuns.Overruns`).
- A timer completion already queued when the lease is renewed ends the renewed lease
  (`Lease.LateExpiryEndsRenewedLease`), and no other timer event does before its deadline
  (`Lease.RenewalLasts`); two waits are armed exactly when both timer operations of a renewal
  fail (`Lease.SecondWait`, `Lease.TwoWaits`).
- Deleting expired commands is invisible exactly when the ticks do not go back in time between
  clears (`Commander.InvisibleIffForward`).
- A payload that holds CR LF CR LF or ends in CR LF is not recovered under every
  fragmentation (`Framing.RecoveredIffFramable`).
- In the tag stripper the test for the end of a script slices between reversed
  bounds and never succeeds (`Stripping.NothingAfterScript`).
- Rolling back an environment also removes old entries that spell a folder of a workspace in
  force (`EnvironmentTheorems.OldFolderIsLost`); the exact condition is in
  `EnvironmentTheorems.RollbackRestores`.

## Model

| member | source | states |
|---|---|---|
| `Wire.VarintRoundTrip` | ROS/GazeboPlugin/msgsproto/mw.internal.robotics.gazebotransport.TestMsgs.pb.cc:407-591 | a base-128 varint read back from its bytes, whatever follows, is the value written, for all 64-bit values (Protocol Buffers Encoding, "Base 128 Varints") |
| `Wire.VarintSizeIsLength` | ROS/GazeboPlugin/msgsproto/mw.internal.robotics.gazebotransport.TestMsgs.pb.cc:730-798 | the size computed by comparing with powers of 128 is the number of bytes the varint takes |
| `Wire.SignedRoundTrip` | ROS/GazeboPlugin/msgsproto/mw.internal.robotics.gazebotransport.TestMsgs.pb.cc:407-591 | negative 64-bit values, and 32-bit values sign-extended to 64 bits, survive the unsigned varint |
| `Wire.Fixed32RoundTrip` | ROS/GazeboPlugin/msgsproto/mw.internal.robotics.gazebotransport.TestMsgs.pb.cc:407-591 | a float's four bytes come back as the same word |
| `Wire.Fixed64RoundTrip` | ROS/GazeboPlugin/msgsproto/mw.internal.robotics.gazebotransport.TestMsgs.pb.cc:407-591 | a double's eight bytes come back as the same word |
| `Wire.DelimitedRoundTrip` | ROS/GazeboPlugin/msgsproto/mw.internal.robotics.gazebotransport.TestMsgs.pb.cc:2364-2423 | a length prefix below 2^31 and its bytes read back as those bytes and leave what follows |
| `Wire.PayloadRoundTrip` | ROS/GazeboPlugin/msgsproto/mw.internal.robotics.gazebotransport.TestMsgs.pb.cc:407-591 | every well-formed record, nested groups included, reads back as itself after its tag |
| `Wire.FieldLength` | ROS/GazeboPlugin/msgsproto/mw.internal.robotics.gazebotransport.TestMsgs.pb.cc:730-798 | one tag byte plus the payload size is the length of a record |
| `Wire.ParseEncoded` | ROS/GazeboPlugin/msgsproto/mw.internal.robotics.gazebotransport.TestMsgs.pb.cc:2764-2847 | for any message kind, parsing the bytes of well-formed records is applying the records in order and going on with the bytes that follow |
| `Wire.JumpedTag` | ROS/GazeboPlugin/msgsproto/mw.internal.robotics.gazebotransport.TestMsgs.pb.cc:407-591 | jumping on an expected one-byte tag is the same as reading that tag at the top of the loop |
| `WireBytes.FixedByte` | ROS/GazeboPlugin/msgsproto/mw.internal.robotics.gazebotransport.TestMsgs.pb.cc:593-658 | byte i of a fixed-width word is its i-th digit in base 256: little-endian, as the float and double fields are written |
| `WireBytes.VarintByte` | ROS/GazeboPlugin/msgsproto/mw.internal.robotics.gazebotransport.TestMsgs.pb.cc:593-658 | byte i of a varint holds the i-th group of seven bits, lowest first, with the top bit on in every byte but the last, and there are no superfluous bytes |
| `WireBytes.TwosComplement` | ROS/GazeboPlugin/msgsproto/mw.internal.robotics.gazebotransport.TestMsgs.pb.cc:593-658 | signed numbers are written modulo 2^64, negative 32-bit ones included, and read modulo 2^64 or 2^32 |
| `WireBytes.VarintReads` | ROS/GazeboPlugin/msgsproto/mw.internal.robotics.gazebotransport.TestMsgs.pb.cc:407-591 | a varint is read exactly when one of the first ten bytes has its top bit off, canonical or not, and is what the groups up to it spell modulo 2^64 |
| `WireBytes.VarintUnfinished` | ROS/GazeboPlugin/msgsproto/mw.internal.robotics.gazebotransport.TestMsgs.pb.cc:407-591 | bytes that all have the top bit on are no varint |
| `WireBytes.DelimitedReads` | ROS/GazeboPlugin/msgsproto/mw.internal.robotics.gazebotransport.TestMsgs.pb.cc:2364-2423 | a delimited value is refused exactly for an unreadable length, one of 2^31 or more, or one beyond the bytes that are there |
| `WireBytes.TagBytes` | ROS/GazeboPlugin/msgsproto/mw.internal.robotics.gazebotransport.TestMsgs.pb.cc:593-658 | the bytes of every kind of record, tag and wire type in numbers |
| `MessageBytes.ScalarsAsBytes` | ROS/GazeboPlugin/msgsproto/mw.internal.robotics.gazebotransport.TestMsgs.pb.cc:593-658 | the bytes of the scalars, tag byte by tag byte: present fields by rising number, then the unknown records |
| `MessageBytes.ArraysAsBytes` | ROS/GazeboPlugin/msgsproto/mw.internal.robotics.gazebotransport.TestMsgs.pb.cc:1595-1667 | the bytes of the arrays, every element with its own tag byte |
| `MessageBytes.NestedAsBytes` | ROS/GazeboPlugin/msgsproto/mw.internal.robotics.gazebotransport.TestMsgs.pb.cc:2425-2445 | the bytes of the nested message, each sub-message with tag and length |
| `MessageBytes.MessageAsBytes` | ROS/GazeboPlugin/msgsproto/mw.internal.robotics.gazebotransport.TestMsgs.pb.cc:2849-2880 | the bytes of the oneof message: header, the one payload with its tag and length, the unknown records |
| `MessageBytes.HeaderOnly` | ROS/GazeboPlugin/msgsproto/mw.internal.robotics.gazebotransport.TestMsgs.pb.cc:2849-2880 | the nine bytes of a message that has only a header, each in numbers |
| `MessageBytes.ScalarNumbers` | ROS/GazeboPlugin/msgsproto/mw.internal.robotics.gazebotransport.TestMsgs.pb.cc:407-591 | what any varint, canonical or not, sets each scalar field to, modulo its width; other numbers than 0 and 1 set no enumerator |
| `MessageBytes.ArrayNumbers` | ROS/GazeboPlugin/msgsproto/mw.internal.robotics.gazebotransport.TestMsgs.pb.cc:1369-1593 | the same for the element that a varint adds to each repeated field |
| `MessageBytes.ScalarsMerged` | ROS/GazeboPlugin/msgsproto/mw.internal.robotics.gazebotransport.TestMsgs.pb.cc:878-922 | merging field by field: what the second message has wins, what it lacks stays |
| `MessageBytes.ArraysMerged` | ROS/GazeboPlugin/msgsproto/mw.internal.robotics.gazebotransport.TestMsgs.pb.cc:1861-1879 | merging column by column: elements of the first message, then of the second |
| `MessageBytes.MessagesMerged` | ROS/GazeboPlugin/msgsproto/mw.internal.robotics.gazebotransport.TestMsgs.pb.cc:2981-3011 | two payloads of one case are merged, another case is replaced, none changes nothing; sub-messages merge recursively |
| `MessageBytes.StrictRequires` | ROS/GazeboPlugin/msgsproto/mw.internal.robotics.gazebotransport.TestMsgs.pb.cc:3027-3037 | the strict entry point accepts a serialised message if and only if the header and, in a scalar or nested payload, all ten fields at every level are there |
| `MessageTheorems.FoldScalars` | ROS/GazeboPlugin/msgsproto/mw.internal.robotics.gazebotransport.TestMsgs.pb.cc:878-922 | applying the records of b to a is a.MergeFrom(b): present scalars overwrite, absent ones stay |
| `MessageTheorems.FoldArrays` | ROS/GazeboPlugin/msgsproto/mw.internal.robotics.gazebotransport.TestMsgs.pb.cc:1861-1879 | the same for the repeated fields: all ten columns append, in order |
| `MessageTheorems.FoldNested` | ROS/GazeboPlugin/msgsproto/mw.internal.robotics.gazebotransport.TestMsgs.pb.cc:2518-2532 | the same for the nested message: the sub-message merges recursively, the elements append |
| `MessageTheorems.FoldMessage` | ROS/GazeboPlugin/msgsproto/mw.internal.robotics.gazebotransport.TestMsgs.pb.cc:2981-3011 | the same for the oneof message: the same case merges, another case replaces |
| `MessageTheorems.ParseIsMergeScalars` | ROS/GazeboPlugin/msgsproto/mw.internal.robotics.gazebotransport.TestMsgs.pb.cc:407-591 | parsing serialise(b) into a equals a.MergeFrom(b), then goes on with the rest of the bytes ("Last One Wins") |
| `MessageTheorems.ParseIsMergeArrays` | ROS/GazeboPlugin/msgsproto/mw.internal.robotics.gazebotransport.TestMsgs.pb.cc:1369-1593 | parsing serialise(b) into a equals a.MergeFrom(b) for repeated fields |
| `MessageTheorems.ParseIsMergeNested` | ROS/GazeboPlugin/msgsproto/mw.internal.robotics.gazebotransport.TestMsgs.pb.cc:2364-2423 | parsing serialise(b) into a equals a.MergeFrom(b) for sub-messages |
| `MessageTheorems.ParseIsMergeMessage` | ROS/GazeboPlugin/msgsproto/mw.internal.robotics.gazebotransport.TestMsgs.pb.cc:2764-2847 | parsing serialise(b) into a equals a.MergeFrom(b) for every pair of messages, oneof cases and nestings |
| `MessageTheorems.MessageRoundTrip` | ROS/GazeboPlugin/msgsproto/mw.internal.robotics.gazebotransport.TestMsgs.pb.cc:2764-2880 | a message written out and parsed into a fresh one gives the same fields, has-bits, oneof case, nested messages and unknown records |
| `MessageTheorems.ConcatenationIsMerge` | ROS/GazeboPlugin/msgsproto/mw.internal.robotics.gazebotransport.TestMsgs.pb.cc:2981-3011 | the concatenation of the bytes of two messages parses to their merge |
| `MessageTheorems.StrictRoundTrip` | ROS/GazeboPlugin/msgsproto/mw.internal.robotics.gazebotransport.TestMsgs.pb.cc:3027-3037 | the strict entry point accepts a serialised message exactly when every required field at every level is set, and then returns it unchanged |
| `Reparse.ParsePreserves` | ROS/GazeboPlugin/msgsproto/mw.internal.robotics.gazebotransport.TestMsgs.pb.cc:2764-2847 | a property kept by every single record holds of whatever any accepted bytes parse to |
| `Reparse.EnumIsUnknown` | ROS/GazeboPlugin/msgsproto/mw.internal.robotics.gazebotransport.TestMsgs.pb.cc:269-277 | a number that is no enumerator is kept as an unknown record and stays unknown when read again |
| `Reparse.ParsedMessage` | ROS/GazeboPlugin/msgsproto/mw.internal.robotics.gazebotransport.TestMsgs.pb.cc:2764-2847 | whatever is parsed from any bytes holds only short strings and records that really are unknown |
| `Reparse.MessageIsSound` | ROS/GazeboPlugin/msgsproto/mw.internal.robotics.gazebotransport.TestMsgs.pb.cc:2919-2962 | a parsed message whose own bytes stay below 2^31 has every nested length below 2^31 |
| `Reparse.ReparseIsStable` | ROS/GazeboPlugin/msgsproto/mw.internal.robotics.gazebotransport.TestMsgs.pb.cc:2764-2880 | for any accepted bytes, canonical or not, the message read, written and read again is the same message |
| `CodedStreams.CodedInputStream.ReadTag` | ROS/GazeboPlugin/msgsproto/mw.internal.robotics.gazebotransport.TestMsgs.pb.cc:407-591 | tag 0 stands for the end, an unreadable varint or a zero tag; only the end of the bytes is a legitimate end |
| `CodedStreams.CodedInputStream.ExpectTag` | ROS/GazeboPlugin/msgsproto/mw.internal.robotics.gazebotransport.TestMsgs.pb.cc:407-591 | takes the next byte exactly when it is the expected tag, and nothing otherwise |
| `CodedStreams.WrittenMore` | ROS/GazeboPlugin/msgsproto/mw.internal.robotics.gazebotransport.TestMsgs.pb.cc:660-728 | two adjacent pieces written into an array are the concatenation, and nothing outside them has changed |
| `CodedStreams.WriteOptional` | ROS/GazeboPlugin/msgsproto/mw.internal.robotics.gazebotransport.TestMsgs.pb.cc:593-658 | a field goes to the stream exactly when its has-bit is on |
| `CodedStreams.SizeOptional` | ROS/GazeboPlugin/msgsproto/mw.internal.robotics.gazebotransport.TestMsgs.pb.cc:730-798 | the size grows by the record exactly when the has-bit is on |
| `ScalarsObject.TestScalars.constructor` | ROS/GazeboPlugin/msgsproto/mw.internal.robotics.gazebotransport.TestMsgs.pb.cc:312-326 | a new object is valid, has no has-bit on and every field at its default |
| `ScalarsObject.TestScalars.Clear` | ROS/GazeboPlugin/msgsproto/mw.internal.robotics.gazebotransport.TestMsgs.pb.cc:365-405 | the masked clear leaves exactly what a new object has, thanks to the invariant that an off has-bit means a default field |
| `ScalarsObject.TestScalars.SetInteger64` | ROS/GazeboPlugin/msgsproto/mw.internal.robotics.gazebotransport.TestMsgs.pb.h:886-890 | the field and its has-bit change, no other field does |
| `ScalarsObject.TestScalars.SetEnumItem` | ROS/GazeboPlugin/msgsproto/mw.internal.robotics.gazebotransport.TestMsgs.pb.h:1138-1143 | the enumerator and its has-bit change, no other field does |
| `ScalarsObject.TestScalars.MergeFrom` | ROS/GazeboPlugin/msgsproto/mw.internal.robotics.gazebotransport.TestMsgs.pb.cc:878-922 | the object becomes the merge of the two values; the group test over the low eight has-bits skips nothing that is present |
| `ScalarsObject.TestScalars.RequiredFieldsByteSizeFallback` | ROS/GazeboPlugin/msgsproto/mw.internal.robotics.gazebotransport.TestMsgs.pb.cc:730-798 | counts the bytes of the fields that are present |
| `ScalarsObject.TestScalars.RequiredFieldsByteSize` | ROS/GazeboPlugin/msgsproto/mw.internal.robotics.gazebotransport.TestMsgs.pb.cc:799-859 | with all has-bits on, the fast path counts the same bytes without looking at them one by one |
| `ScalarsObject.TestScalars.ByteSize` | ROS/GazeboPlugin/msgsproto/mw.internal.robotics.gazebotransport.TestMsgs.pb.cc:799-859 | both paths give the length of the serialised message and leave it in the cached size |
| `ScalarsObject.TestScalars.SerializeWithCachedSizes` | ROS/GazeboPlugin/msgsproto/mw.internal.robotics.gazebotransport.TestMsgs.pb.cc:593-658 | appends exactly the serialised message to the stream |
| `ScalarsObject.TestScalars.SerializeToArray` | ROS/GazeboPlugin/msgsproto/mw.internal.robotics.gazebotransport.TestMsgs.pb.cc:660-728 | writes the very same bytes at the given place of the array and touches nothing else |
| `ScalarsObject.TestScalars.Store` | ROS/GazeboPlugin/msgsproto/mw.internal.robotics.gazebotransport.TestMsgs.pb.cc:407-591 | one parse case changes the object as the record says; an unknown enumerator goes to the unknown records |
| `ScalarsObject.TestScalars.MergePartialFromCodedStream` | ROS/GazeboPlugin/msgsproto/mw.internal.robotics.gazebotransport.TestMsgs.pb.cc:407-591 | on every byte string the parser with its jumps accepts what the plain read-a-tag-and-switch loop accepts and ends in the same message at the same kind of end; it terminates |
| `ArraysObject.TestArrays.Clear` | ROS/GazeboPlugin/msgsproto/mw.internal.robotics.gazebotransport.TestMsgs.pb.cc:1351-1367 | every repeated field is empty afterwards |
| `ArraysObject.TestArrays.MergeFrom` | ROS/GazeboPlugin/msgsproto/mw.internal.robotics.gazebotransport.TestMsgs.pb.cc:1861-1879 | the object becomes the merge of the two values |
| `ArraysObject.RepeatedSize` | ROS/GazeboPlugin/msgsproto/mw.internal.robotics.gazebotransport.TestMsgs.pb.cc:1744-1842 | one tag byte per element plus the element sizes is the length of a repeated field's records |
| `ArraysObject.TestArrays.ByteSize` | ROS/GazeboPlugin/msgsproto/mw.internal.robotics.gazebotransport.TestMsgs.pb.cc:1744-1842 | equals the length of the serialised message and is cached |
| `ArraysObject.TestArrays.SerializeWithCachedSizes` | ROS/GazeboPlugin/msgsproto/mw.internal.robotics.gazebotransport.TestMsgs.pb.cc:1595-1667 | appends exactly the serialised message |
| `ArraysObject.TestArrays.SerializeToArray` | ROS/GazeboPlugin/msgsproto/mw.internal.robotics.gazebotransport.TestMsgs.pb.cc:1669-1742 | writes the same bytes into the array |
| `ArraysObject.TestArrays.StorePacked` | ROS/GazeboPlugin/msgsproto/mw.internal.robotics.gazebotransport.TestMsgs.pb.cc:1369-1593 | the object does with a packed payload what the packed record does to the value, which PackedFields says is its elements one by one; a cut-off element fails |
| `PackedFields.UnpackPacked` | ROS/GazeboPlugin/msgsproto/mw.internal.robotics.gazebotransport.TestMsgs.pb.cc:1369-1593 | elements of any format that reads back, packed one after the other, unpack to themselves ("Packed Repeated Fields") |
| `PackedFields.UnpackNumbers` | ROS/GazeboPlugin/msgsproto/mw.internal.robotics.gazebotransport.TestMsgs.pb.cc:1369-1593 | the varint, 8-byte and 4-byte formats in particular |
| `PackedFields.PackedVarints` | ROS/GazeboPlugin/msgsproto/mw.internal.robotics.gazebotransport.TestMsgs.pb.cc:1369-1593 | any packed record of a varint column, however its elements are encoded and unknown enumerators included, acts as its elements sent one by one, or fails on a cut-off element |
| `PackedFields.PackedDoubles` | ROS/GazeboPlugin/msgsproto/mw.internal.robotics.gazebotransport.TestMsgs.pb.cc:1369-1593 | the same for the packed doubles |
| `PackedFields.PackedFloats` | ROS/GazeboPlugin/msgsproto/mw.internal.robotics.gazebotransport.TestMsgs.pb.cc:1369-1593 | the same for the packed floats |
| `PackedFields.PackedIsUnpacked` | ROS/GazeboPlugin/msgsproto/mw.internal.robotics.gazebotransport.TestMsgs.pb.cc:1369-1593 | each of the eight columns that can be packed, written packed, has the effect of the unpacked records |
| `PackedFields.PackedBytes` | ROS/GazeboPlugin/msgsproto/mw.internal.robotics.gazebotransport.TestMsgs.pb.cc:1369-1593 | on the wire, the bytes of a packed varint column parse to what the bytes of its elements parse to, whatever follows |
| `ArraysObject.TestArrays.StorePackedEnums` | ROS/GazeboPlugin/msgsproto/mw.internal.robotics.gazebotransport.TestMsgs.pb.cc:1369-1593 | of a packed run of numbers the enumerators are appended and the others kept as unknown records, in order |
| `ArraysObject.TestArrays.MergePartialFromCodedStream` | ROS/GazeboPlugin/msgsproto/mw.internal.robotics.gazebotransport.TestMsgs.pb.cc:1369-1593 | the parser that jumps back to the same repeated field accepts and yields what the plain loop does, packed or not |
| `NestedObject.TestNested.Clear` | ROS/GazeboPlugin/msgsproto/mw.internal.robotics.gazebotransport.TestMsgs.pb.cc:2352-2362 | the object is empty afterwards; its sub-message is cleared in place and the same object is kept |
| `NestedObject.TestNested.MutableScalar` | ROS/GazeboPlugin/msgsproto/mw.internal.robotics.gazebotransport.TestMsgs.pb.h:1547-1554 | switches the has-bit on and gives the sub-message, a new one if there was none; nothing else changes |
| `NestedObject.TestNested.MergeFrom` | ROS/GazeboPlugin/msgsproto/mw.internal.robotics.gazebotransport.TestMsgs.pb.cc:2518-2532 | the sub-message is merged recursively in place and each element copied into a new object |
| `NestedObject.TestNested.ByteSize` | ROS/GazeboPlugin/msgsproto/mw.internal.robotics.gazebotransport.TestMsgs.pb.cc:2472-2499 | equals the length of the serialised message, and every sub-message has its own length cached |
| `NestedObject.TestNested.SerializeWithCachedSizes` | ROS/GazeboPlugin/msgsproto/mw.internal.robotics.gazebotransport.TestMsgs.pb.cc:2425-2445 | with the cached sizes as length prefixes, exactly the serialised message is written |
| `NestedObject.TestNested.SerializeToArray` | ROS/GazeboPlugin/msgsproto/mw.internal.robotics.gazebotransport.TestMsgs.pb.cc:2447-2470 | the array version writes the same bytes |
| `NestedObject.TestNested.MergePartialFromCodedStream` | ROS/GazeboPlugin/msgsproto/mw.internal.robotics.gazebotransport.TestMsgs.pb.cc:2364-2423 | the jumping parser equals the plain loop, sub-messages included |
| `MessageObject.TestMessage.Clear` | ROS/GazeboPlugin/msgsproto/mw.internal.robotics.gazebotransport.TestMsgs.pb.cc:2754-2762 | the oneof and the header are gone |
| `MessageObject.TestMessage.SetHeader` | ROS/GazeboPlugin/msgsproto/mw.internal.robotics.gazebotransport.TestMsgs.pb.h:1625-1630 | the header and its has-bit change, the payload does not |
| `MessageObject.TestMessage.MutableTestScalar` | ROS/GazeboPlugin/msgsproto/mw.internal.robotics.gazebotransport.TestMsgs.pb.cc:3106-3114 | keeps a payload of this case and replaces any other by an empty one |
| `MessageObject.TestMessage.MutableTestArray` | ROS/GazeboPlugin/msgsproto/mw.internal.robotics.gazebotransport.TestMsgs.pb.cc:3154-3162 | keeps a payload of this case and replaces any other by an empty one |
| `MessageObject.TestMessage.MutableTestNested` | ROS/GazeboPlugin/msgsproto/mw.internal.robotics.gazebotransport.TestMsgs.pb.h:1746-1754 | keeps a payload of this case and replaces any other by an empty one |
| `MessageObject.TestMessage.MergeFrom` | ROS/GazeboPlugin/msgsproto/mw.internal.robotics.gazebotransport.TestMsgs.pb.cc:2981-3011 | the object becomes the merge: same case merged, other case replaced |
| `MessageObject.TestMessage.ByteSize` | ROS/GazeboPlugin/msgsproto/mw.internal.robotics.gazebotransport.TestMsgs.pb.cc:2919-2962 | equals the length of the serialised message; the sizes of all nested messages are cached on the way |
| `MessageObject.TestMessage.SerializeWithCachedSizes` | ROS/GazeboPlugin/msgsproto/mw.internal.robotics.gazebotransport.TestMsgs.pb.cc:2849-2880 | writes exactly the serialised message |
| `MessageObject.TestMessage.SerializeToArray` | ROS/GazeboPlugin/msgsproto/mw.internal.robotics.gazebotransport.TestMsgs.pb.cc:2882-2917 | writes the same bytes into the array and touches nothing else |
| `MessageObject.TestMessage.ParseOne` | ROS/GazeboPlugin/msgsproto/mw.internal.robotics.gazebotransport.TestMsgs.pb.cc:2764-2847 | once round the loop, from a jump or not, agrees with the plain loop and uses up input |
| `MessageObject.TestMessage.MergePartialFromCodedStream` | ROS/GazeboPlugin/msgsproto/mw.internal.robotics.gazebotransport.TestMsgs.pb.cc:2764-2847 | on every byte string the jumping parser equals the plain loop, through all levels of nesting |
| `Scheduler.Semaphore.Notify` | simCodeGen/robotROSGetStartedExample_edit_ert_rtw/rosnodeinterface.h:57-62 | the 32-bit count goes up by one and wraps |
| `Scheduler.Semaphore.TryWait` | simCodeGen/robotROSGetStartedExample_edit_ert_rtw/rosnodeinterface.h:65-74 | a wait takes one token exactly when there is one |
| `Scheduler.Model.Step` | simCodeGen/robotROSGetStartedExample_edit_ert_rtw/robotROSGetStartedExample_edit.cpp:25-78 | a step publishes at the present model time, then moves both ticks and sets the time to tick times step size |
| `Scheduler.NodeInterface.RosClockSubscriberCallback` | simCodeGen/robotROSGetStartedExample_edit_ert_rtw/rosnodeinterface.cpp:135-206 | the callback does to its own state, the stop flag and the semaphore exactly what the decision function says, in that order |
| `SchedulerRuns.SlotDecision` | simCodeGen/robotROSGetStartedExample_edit_ert_rtw/rosnodeinterface.cpp:149-201 | once running, a later stamp releases the expected slot if it is that very time, counts as a miss if it is beyond it, and does nothing otherwise |
| `SchedulerRuns.TokensAndTimes` | simCodeGen/robotROSGetStartedExample_edit_ert_rtw/rosnodeinterface.cpp:237-258 | in every interleaving, tokens issued = tokens in the semaphore + waits completed, and the n-th step reads the time n times the step size (modulo the 32-bit tick) |
| `SchedulerRuns.SlotsOnTime` | simCodeGen/robotROSGetStartedExample_edit_ert_rtw/rosnodeinterface.cpp:174-201 | for strictly increasing stamps the k-th token is issued at start + k * 10^7 ns with start a whole second: no slot skipped or doubled |
| `SchedulerRuns.StepTimeIsStampOffset` | simCodeGen/robotROSGetStartedExample_edit_ert_rtw/robotROSGetStartedExample_edit.cpp:65-76 | the time the k-th step reads is the stamp that issued the k-th token minus the start stamp |
| `SchedulerRuns.EveryStepHasASlot` | simCodeGen/robotROSGetStartedExample_edit_ert_rtw/rosnodeinterface.cpp:237-258 | before a miss or shutdown there are never more steps than released slots |
| `SchedulerRuns.NoMoreReleases` | simCodeGen/robotROSGetStartedExample_edit_ert_rtw/rosnodeinterface.cpp:149-168 | after a miss no step of any thread releases a further slot |
| `SchedulerRuns.AfterMiss` | simCodeGen/robotROSGetStartedExample_edit_ert_rtw/rosnodeinterface.cpp:112-130 | after a miss, over every run, the steps that still start are at most the tokens outstanding, the one taken, and the one notify of terminate |
| `SchedulerRuns.FirstSlot` | simCodeGen/robotROSGetStartedExample_edit_ert_rtw/rosnodeinterface.cpp:175-190 | before the first slot a message at a whole second releases that very second and expects the next 10 ms later; any other sets the flag from the error status and reads it back |
| `SchedulerRuns.ErrorEndsRun` | simCodeGen/robotROSGetStartedExample_edit_ert_rtw/rosnodeinterface.cpp:183-190 | a model that reports an error ends the run at the next message before the first slot, whatever the base-rate thread does in between |
| `SchedulerRuns.ThreadsComeToRest` | simCodeGen/robotROSGetStartedExample_edit_ert_rtw/rosnodeinterface.cpp:112-130 | every run of the base-rate and main threads after the clock thread is done comes to rest within a bound counted from the tokens |
| `SchedulerRuns.ShutdownEnds` | simCodeGen/robotROSGetStartedExample_edit_ert_rtw/rosnodeinterface.cpp:112-130 | from terminate on, every such run leaves the main thread finished, the base-rate thread exited and the flag off, if and only if the thread has exited, the model reports an error, or the flag is off and the thread is not about to write it |
| `SchedulerRuns.IdleShutdownEnds` | simCodeGen/robotROSGetStartedExample_edit_ert_rtw/rosnodeinterface.cpp:87-130 | the usual shutdown, with the base-rate thread waiting for a token that will not come, always ends, and no step is taken |
| `SchedulerRuns.StopFlagStays` | simCodeGen/robotROSGetStartedExample_edit_ert_rtw/rosnodeinterface.cpp:237-258 | once the callback has ended the run and cleared the flag, the flag stays cleared in every interleaving if and only if the model reports an error or the base-rate thread is not about to write it (at its start, in a step, or after one) |
| `SchedulerRuns.StaysStopped` | simCodeGen/robotROSGetStartedExample_edit_ert_rtw/rosnodeinterface.cpp:237-258 | and then no step starts any more but the one already begun |
| `SchedulerRuns.StopFlagIsOverwritten` | simCodeGen/robotROSGetStartedExample_edit_ert_rtw/rosnodeinterface.cpp:237-258 | a run from the start in which that condition fails: the end of a step sets the flag again after a miss cleared it, and two more steps start |
| `SchedulerRuns.Overruns` | simCodeGen/robotROSGetStartedExample_edit_ert_rtw/rosnodeinterface.cpp:174-201 | the overrun counter is the number of slots after the first, whether or not the model kept up, because the running mark is never cleared |
| `CommandStore.ReplaceMembers` | ROS/GazeboPlugin/src/gazeboserver/gazeboapply/GazeboApplyCommander.cpp:22-97 | assigning through a key keeps the store ordered and replaces just the entry of that key |
| `CommandStore.LessByFirstDifference` | ROS/GazeboPlugin/src/gazeboserver/gazeboapply/GazeboApplyCommander.cpp:40-97 | names are walked through by the first character in which they differ, a beginning before what it begins |
| `CommandStore.UnexpiredTwice` | ROS/GazeboPlugin/src/gazeboserver/gazeboapply/GazeboApplyCommander.cpp:101-299 | dropping what had expired earlier makes no difference to what is unexpired later |
| `CommandStore.SortedIsUnique` | ROS/GazeboPlugin/src/gazeboserver/gazeboapply/GazeboApplyCommander.cpp:101-299 | an ordered store is determined by its entries |
| `CommandStore.ReplaceAgrees` | ROS/GazeboPlugin/src/gazeboserver/gazeboapply/GazeboApplyCommander.cpp:22-97 | two stores that differ only in expired entries still do after the same assignment |
| `Commander.KindsOfInsertion` | ROS/GazeboPlugin/src/gazeboserver/gazeboapply/GazeboApplyCommander.cpp:22-97 | the two ADD kinds gather every command; each of the eight others keeps its store ordered and drops only the entry of the same key |
| `Commander.OrderOfEffects` | ROS/GazeboPlugin/src/gazeboserver/gazeboapply/GazeboApplyCommander.cpp:101-299 | the effects of one update, store after store in the order written |
| `Commander.TickOfAdds` | ROS/GazeboPlugin/src/gazeboserver/gazeboapply/GazeboApplyCommander.cpp:101-299 | a tick applies every unexpired ADD command since the last clear once, in order |
| `Commander.TickOfSets` | ROS/GazeboPlugin/src/gazeboserver/gazeboapply/GazeboApplyCommander.cpp:101-299 | a tick applies per key only the latest command, if unexpired, in key order |
| `Commander.EagerDeletionIsInvisible` | ROS/GazeboPlugin/src/gazeboplugin/GazeboPlugin.cpp:247-254 | for each store, over any run of inserts, clears and ticks whose time does not go back between clears, the effects of every tick equal those of a log that never deletes |
| `Commander.InvisibleIffForward` | ROS/GazeboPlugin/src/gazeboplugin/GazeboPlugin.cpp:247-254 | exactly the sequences of ticks and clears that do not go back in time between clears make eager deletion invisible whatever commands come between them |
| `Commander.GoingBackDiffers` | ROS/GazeboPlugin/src/gazeboserver/gazeboapply/GazeboApplyCommander.cpp:101-299 | two ticks that go back, with a command valid at the second only, always tell the two apart |
| `Commander.GoingBackLosesCommands` | ROS/GazeboPlugin/src/gazeboserver/gazeboapply/GazeboApplyCommander.cpp:101-299 | the smallest such run and what each of the two applies in it |
| `Commander.CommanderIsLogged` | ROS/GazeboPlugin/src/gazeboserver/gazeboapply/GazeboApplyCommander.cpp:22-314 | the same for the whole commander: over any run of inserts of every kind, clears and updates not going back in time, the effects of every update over all ten stores are those of ten logs that delete nothing |
| `Commander.ApplyAndErase` | ROS/GazeboPlugin/src/gazeboserver/gazeboapply/GazeboApplyCommander.cpp:101-299 | the erase-while-iterating loop keeps exactly the unexpired entries and applies exactly those, in order |
| `Commander.GazeboApplyCommander.InsertJointCommand` | ROS/GazeboPlugin/src/gazeboserver/gazeboapply/GazeboApplyCommander.cpp:22-29 | the joint store is assigned through the key, so only the entry of that key is replaced; the nine others are as before |
| `Commander.GazeboApplyCommander.InsertJointSetPositionCommand` | ROS/GazeboPlugin/src/gazeboserver/gazeboapply/GazeboApplyCommander.cpp:31-38 | the same for joint positions |
| `Commander.GazeboApplyCommander.InsertJointSetVelocityCommand` | ROS/GazeboPlugin/src/gazeboserver/gazeboapply/GazeboApplyCommander.cpp:40-47 | the same for joint velocities |
| `Commander.GazeboApplyCommander.InsertSetLinkCommand` | ROS/GazeboPlugin/src/gazeboserver/gazeboapply/GazeboApplyCommander.cpp:49-60 | the store chosen by the command type is assigned through the link name; any other type changes nothing |
| `Commander.GazeboApplyCommander.InsertSetLinkWorldPoseCommand` | ROS/GazeboPlugin/src/gazeboserver/gazeboapply/GazeboApplyCommander.cpp:75-81 | the same for world poses |
| `Commander.GazeboApplyCommander.InsertSetLinkLinearVelocityCommand` | ROS/GazeboPlugin/src/gazeboserver/gazeboapply/GazeboApplyCommander.cpp:83-89 | the same for linear velocities |
| `Commander.GazeboApplyCommander.InsertSetLinkAngularVelocityCommand` | ROS/GazeboPlugin/src/gazeboserver/gazeboapply/GazeboApplyCommander.cpp:91-97 | the same for angular velocities |
| `Commander.GazeboApplyCommander.InsertAddLinkCommand` | ROS/GazeboPlugin/src/gazeboserver/gazeboapply/GazeboApplyCommander.cpp:63-73 | the list chosen by the command type grows at its end; any other type changes nothing |
| `Commander.GazeboApplyCommander.ExecuteApplyCommands` | ROS/GazeboPlugin/src/gazeboserver/gazeboapply/GazeboApplyCommander.cpp:101-299 | all ten stores are filtered at the current time and the effects are what is left in them, store after store |
| `Commander.GazeboApplyCommander.ClearApplyCommands` | ROS/GazeboPlugin/src/gazeboserver/gazeboapply/GazeboApplyCommander.cpp:302-314 | all ten stores are empty |
| `Framing.FirstEnd` | ROS/GazeboPlugin/src/transport/readWithTimeout.cpp:28-43 | read-until reports the end of the first delimiter, and there is none before it |
| `Framing.PrefixWithDelimiter` | ROS/GazeboPlugin/src/gazeboserver/GazeboServerCallback.cpp:21-25 | the first part of a framed payload that holds a delimiter is all of it |
| `Framing.ReadWithTimeout` | ROS/GazeboPlugin/src/transport/readWithTimeout.cpp:27-49 | the client's read returns the payload under every fragmentation of a framable payload and its delimiter; otherwise what precedes the buffer's last four bytes, or nothing |
| `Framing.RecoveredIffFramable` | ROS/GazeboPlugin/src/transport/readWithTimeout.cpp:28-43 | a payload is recovered under every fragmentation if and only if it holds no CR LF CR LF and does not end in CR LF |
| `Framing.BadFragments` | ROS/GazeboPlugin/src/transport/readWithTimeout.cpp:28-43 | for every other payload, the fragmentation under which it is not recovered |
| `Transport.Connection.OnHandshake` | ROS/GazeboPlugin/src/transport/Connection.cpp:40-83 | only the exact handshake is answered, with itself; anything else stops the connection; the buffer is emptied |
| `Transport.Connection.OnRequest` | ROS/GazeboPlugin/src/transport/Connection.cpp:85-128 | the callback gets the payload unless it is the end of session, and its reply with the delimiter is what will be written |
| `Transport.Client.Write` | ROS/GazeboPlugin/src/transport/Client.cpp:57-75 | drains what is left, sends message and delimiter, and starts a read into a new buffer |
| `Transport.Client.constructor` | ROS/GazeboPlugin/src/transport/Client.cpp:14-28 | connecting sends the handshake and waits for its reply |
| `Transport.Client.OnHandshakeReply` | ROS/GazeboPlugin/src/transport/Client.cpp:30-34 | only the handshake itself as reply makes a connection |
| `Transport.Client.Shutdown` | ROS/GazeboPlugin/src/transport/Client.cpp:42-55 | sends the end of session once, if the socket is still open |
| `Transport.RunKeeps` | ROS/GazeboPlugin/src/transport/Connection.cpp:40-138 | in every interleaving and fragmentation the session stays in one of its phases with exactly one message on its way |
| `Transport.RepliesMatchRequests` | ROS/GazeboPlugin/src/transport/Client.cpp:57-75 | the k-th write returns the callback's reply to the k-th message, and no byte of a later request or reply is ever dropped |
| `Transport.NoCallBeforeHandshake` | ROS/GazeboPlugin/src/transport/Connection.cpp:40-83 | no callback runs before the handshake has been answered |
| `Transport.NoCallAfterEnd` | ROS/GazeboPlugin/src/transport/Connection.cpp:85-128 | no callback runs for the end of session nor after it |
| `Transport.StrangersAreNotServed` | ROS/GazeboPlugin/src/transport/Connection.cpp:40-83 | whatever bytes arrive in whatever fragments, without the exact handshake first the callback is never asked and nothing is sent |
| `Transport.OtherAnswerIsRefused` | ROS/GazeboPlugin/src/transport/Client.cpp:23-34 | a client that gets any other answer to its handshake never sends a message |
| `Transport.NeverStuck` | ROS/GazeboPlugin/src/transport/Client.cpp:23-34 | a client that waits for a handshake or a reply always has some step of some party left to take |
| `Transport.StepIsNearer` | ROS/GazeboPlugin/src/transport/Client.cpp:57-75 | while the client waits, every step that changes anything lowers the stage of the exchange or the bytes still to be taken |
| `Transport.EveryWaitEnds` | ROS/GazeboPlugin/src/transport/Client.cpp:57-75 | so in every session in which nobody stops for good, every handshake and every write completes |
| `Lease.CoSimulationStatus.StartLease` | ROS/GazeboPlugin/src/gazeboserver/GazeboServer.cpp:35-71 | grants, renews or refuses as the specification says, state and answer |
| `Lease.CoSimulationStatus.ExtendLease` | ROS/GazeboPlugin/src/gazeboserver/GazeboServer.cpp:73-95 | only the owner renews; the old wait is cancelled and a new one armed |
| `Lease.CoSimulationStatus.StopLease` | ROS/GazeboPlugin/src/gazeboserver/GazeboServer.cpp:97-110 | only the owner, or anybody when nothing runs, stops |
| `Lease.OwnerIsStable` | ROS/GazeboPlugin/src/gazeboserver/GazeboServer.cpp:35-110 | over any run that keeps the lease running, with any delay of completions and any timer failure, the owner is the same, and a start or stop by anybody else is refused and changes nothing |
| `Lease.SecondWait` | ROS/GazeboPlugin/src/gazeboserver/GazeboServer.cpp:73-95 | a second wait is armed if and only if the owner renews for a finite time while both timer operations fail |
| `Lease.AtMostOneArmed` | ROS/GazeboPlugin/src/gazeboserver/GazeboServer.cpp:35-110 | otherwise at most one wait is armed in every reachable state |
| `Lease.RenewalLasts` | ROS/GazeboPlugin/src/gazeboserver/GazeboServer.cpp:73-95 | a renewed lease runs on, under every order and delay of completions and for as long as its timer does not go off at the new deadline, if and only if no expiry of an earlier wait is queued at the renewal |
| `Lease.LateExpiryEndsRenewedLease` | ROS/GazeboPlugin/src/gazeboserver/GazeboServer.cpp:73-95 | a run from the start in which such a completion ends the renewed lease and leaves its wait armed |
| `Lease.TwoWaits` | ROS/GazeboPlugin/src/gazeboserver/GazeboServer.cpp:73-95 | a run from the start in which a renewal whose two timer operations fail leaves two waits armed |
| `Lease.GrantIsTimed` | ROS/GazeboPlugin/src/gazeboserver/GazeboServer.cpp:35-95 | whether or not the timer works: a granted finite request has a wait armed for its end, and one refused because the timer cannot be set leaves an idle lease idle |
| `Lease.StopAlwaysStops` | ROS/GazeboPlugin/src/gazeboserver/GazeboServer.cpp:97-110 | a stop that is allowed stops even if the wait cannot be cancelled, and an aborted wait ends nothing |
| `Lease.LeaseRefinesAbstract` | ROS/GazeboPlugin/src/gazeboserver/GazeboServer.cpp:35-110 | with due completions delivered before each call and a working timer, the object refines the machine Free / Held(owner, deadline or none) over every run |
| `Lease.RunningMeansHeld` | ROS/GazeboPlugin/src/gazeboserver/GazeboServer.cpp:112-115 | then the flag is set exactly while the last grant or renewal covers the present and no stop by the owner followed; not running means no wait armed |
| `Regex.StopsAtAngle` | simCodeGen/robotROSGetStartedExample_edit_ert_rtw/html/search.js:196-197 | a pattern without an opening bracket never matches across one |
| `Spans.PatternEnds` | simCodeGen/robotROSGetStartedExample_edit_ert_rtw/html/search.js:208-211 | a matched start tag always has a closing bracket after it, so the loop shortens the text |
| `Spans.RemoveHighlight` | simCodeGen/robotROSGetStartedExample_edit_ert_rtw/html/search.js:191-224 | the loop terminates on every text and computes the text without its spans |
| `Spans.StartTagMatches` | simCodeGen/robotROSGetStartedExample_edit_ert_rtw/html/search.js:3-6 | every start tag that is written is recognised, whatever its number |
| `Spans.RemovesMarks` | simCodeGen/robotROSGetStartedExample_edit_ert_rtw/html/search.js:191-224 | taking the spans out of a text in which any ordered stretches without brackets were wrapped gives the text back, if it held no highlight tag |
| `Spans.UnchangedIffUnmarked` | simCodeGen/robotROSGetStartedExample_edit_ert_rtw/html/search.js:191-224 | a text comes back unchanged exactly when it holds no highlight tag |
| `HighlightTags.DecimalSpellsNumber` | simCodeGen/robotROSGetStartedExample_edit_ert_rtw/html/search.js:3-6 | the number of a match is written in decimal |
| `HighlightTags.NamesDiffer` | simCodeGen/robotROSGetStartedExample_edit_ert_rtw/html/search.js:3-6 | different matches get different names |
| `HighlightTags.SpanStands` | simCodeGen/robotROSGetStartedExample_edit_ert_rtw/html/search.js:56-87 | each mark stands in the text as one span, tag for tag and with its number, between what was before it and what was after it |
| `HighlightTags.RecognisedIffTag` | simCodeGen/robotROSGetStartedExample_edit_ert_rtw/html/search.js:196-197 | the start expression matches exactly where a tag begins that may have any number of quotes, any letter case, any digits and any number of times the word for the current match |
| `HighlightTags.RemovesRewrittenTags` | simCodeGen/robotROSGetStartedExample_edit_ert_rtw/html/search.js:191-224 | whatever a browser has done to the tags in this way, taking the highlights out gives the text back |
| `Stripping.ShownExactly` | simCodeGen/robotROSGetStartedExample_edit_ert_rtw/html/search.js:9-40 | the stripped text consists exactly of the characters outside tags and before any script |
| `Stripping.NothingAfterScript` | simCodeGen/robotROSGetStartedExample_edit_ert_rtw/html/search.js:18-23 | once a script has begun nothing is shown any more: its end is looked for between reversed bounds |
| `Highlighting.HasEscapeMeans` | simCodeGen/robotROSGetStartedExample_edit_ert_rtw/html/search.js:92-132 | the four searches find exactly the four escape sequences, in any letter case |
| `Highlighting.InEscapeIsInside` | simCodeGen/robotROSGetStartedExample_edit_ert_rtw/html/search.js:92-132 | every place in an escape sequence of the text is taken for inside one, unless the term spells one itself |
| `Highlighting.InsideIsNearEscape` | simCodeGen/robotROSGetStartedExample_edit_ert_rtw/html/search.js:92-132 | and a place is only taken for inside when a sequence stands within six characters from an ampersand at most five characters back |
| `Highlighting.IsInEscapedSequence` | simCodeGen/robotROSGetStartedExample_edit_ert_rtw/html/search.js:92-132 | true exactly when the last ampersand, at most five characters back with no semicolon between, opens a stretch of six that holds an escape sequence, and the term has none of its own |
| `Highlighting.StretchesInOrder` | simCodeGen/robotROSGetStartedExample_edit_ert_rtw/html/search.js:56-87 | the spans of one match are in order, and no two of them touch: each is as long as the page allows |
| `Highlighting.MarksCover` | simCodeGen/robotROSGetStartedExample_edit_ert_rtw/html/search.js:137-189 | the spans numbered c cover exactly the characters of match number c |
| `HighlighterObject.Highlighter.GetTagStrippedStringAndMap` | simCodeGen/robotROSGetStartedExample_edit_ert_rtw/html/search.js:9-40 | the loop leaves the map of shown positions and returns the characters there |
| `HighlighterObject.Highlighter.InsertHighlighting` | simCodeGen/robotROSGetStartedExample_edit_ert_rtw/html/search.js:56-87 | the text up to the end of one match with its spans written in |
| `HighlighterObject.Highlighter.AddHighlight` | simCodeGen/robotROSGetStartedExample_edit_ert_rtw/html/search.js:137-189 | terminates; wraps exactly the leftmost non-overlapping matches outside escape sequences, numbers them; no match starts in an occurrence of one of the four sequences unless the term spells one; removing the highlights gives the page back if it held none |
| `HighlighterObject.MatchSpellsTerm` | simCodeGen/robotROSGetStartedExample_edit_ert_rtw/html/search.js:137-189 | the characters that a match marks spell the search term |
| `HighlighterObject.HitsAreUnique` | simCodeGen/robotROSGetStartedExample_edit_ert_rtw/html/search.js:137-189 | the choice of matches that AddHighlight promises is unique |
| `PathLists.PathsOfJoin` | simCodeGen/devel/_setup_util.py:111-117 | a list of entries joined and split again is the same list |
| `EnvironmentSpec.KeepOneLess` | simCodeGen/devel/_setup_util.py:97-116 | removing the first path that spells a folder is counting that folder once more, so the order of removals does not matter |
| `EnvironmentSpec.FreshFacts` | simCodeGen/devel/_setup_util.py:155-178 | added are exactly the existing candidates that were not there yet, without repetition |
| `EnvironmentTheorems.KeepDropsAdded` | simCodeGen/devel/_setup_util.py:89-117 | each prepended folder uses up one removal |
| `EnvironmentTheorems.PrefixPrepends` | simCodeGen/devel/_setup_util.py:174-178 | the prefix text in front of the variable is the added folders in front of the list |
| `EnvironmentTheorems.WorkspaceIsFound` | simCodeGen/devel/_setup_util.py:120-132 | every workspace that was prepended is found by the rollback, even if it has been deleted in the meantime |
| `EnvironmentTheorems.RollbackRestores` | simCodeGen/devel/_setup_util.py:89-178 | rolling back after prepending, with the file system as it is by then, restores the list if and only if no old entry is named by more removals than added folders spell it |
| `EnvironmentTheorems.OldFolderIsLost` | simCodeGen/devel/_setup_util.py:89-178 | an old entry that is itself a folder of the prepended workspaces is never restored |
| `EnvironmentTheorems.LostEntry` | simCodeGen/devel/_setup_util.py:89-178 | a search path that loses its only entry in this way |
| `EnvironmentTheorems.RollbackRestoresClean` | simCodeGen/devel/_setup_util.py:89-178 | in particular when the old value names no workspace folder, with or without a trailing separator |
| `EnvironmentTheorems.OthersStay` | simCodeGen/devel/_setup_util.py:97-132 | an entry that is no folder of a path that counts as a workspace stays; an existing path without the marker file does not count |
| `EnvironmentTheorems.SlashesAreIgnored` | simCodeGen/devel/_setup_util.py:99-103 | a separator at either end of a subfolder makes no difference to the rollback |
| `EnvironmentTheorems.CandidateAtPlace` | simCodeGen/devel/_setup_util.py:161-168 | candidates come workspace by workspace and in each subfolder by subfolder |
| `EnvironmentTheorems.FreshInOrder` | simCodeGen/devel/_setup_util.py:169-175 | what is added keeps the order in which the candidates first come up |
| `EnvironmentObject.RemoveOne` | simCodeGen/devel/_setup_util.py:105-115 | the search loop and the removal by value take out the first path that spells the folder |
| `EnvironmentObject.RollbackEnvVariable` | simCodeGen/devel/_setup_util.py:89-117 | the nested loops compute what is left after all removals, or nothing if none was made |
| `EnvironmentObject.PrefixEnvVariable` | simCodeGen/devel/_setup_util.py:155-178 | the loops, nested the other way round, compute the prefix text |
| `EnvironmentObject.Environment.RollbackEnvVariables` | simCodeGen/devel/_setup_util.py:68-86 | each variable is rolled back from the workspaces as they were before any change, and no other variable changes |
| `HookSpec.LastOnlySnoc` | simCodeGen/devel/_setup_util.py:225-245 | scanning one more hook drops the earlier one of its name and goes to the end |
| `HookSpec.KeptIffLast` | simCodeGen/devel/_setup_util.py:225-245 | a hook is kept exactly when no later one has its name |
| `HookSpec.LastOnlyNames` | simCodeGen/devel/_setup_util.py:225-245 | no two kept hooks share a name, and no scanned name is lost |
| `HookSpec.PathTellsName` | simCodeGen/devel/_setup_util.py:229-240 | hooks with the same path have the same name, so a lookup by path finds the right one |
| `HookTheorems.FirstWorkspaceWins` | simCodeGen/devel/_setup_util.py:212-248 | of each file name exactly the hook of the first workspace of the list that has it is kept |
| `HookTheorems.ListedHooks` | simCodeGen/devel/_setup_util.py:222-241 | which hooks are listed, by the endings of their names: those with the general extension but not the one name left out, and of the others those with the extension of the shell |
| `HookTheorems.NoHookTwice` | simCodeGen/devel/_setup_util.py:212-250 | no hook is listed twice, neither in one list nor in both |
| `HookTables.HookTable.RemovePrevious` | simCodeGen/devel/_setup_util.py:230-233 | the hook of the same name leaves both lists at the same place |
| `HookTables.HookTable.Add` | simCodeGen/devel/_setup_util.py:225-238 | hooks, workspaces and the table by name stay aligned |
| `HookTables.FindEnvHooks` | simCodeGen/devel/_setup_util.py:212-250 | for generic and for specific hooks, exactly the scanned sequence with only the last occurrence of each file name, with its workspaces, and no hook twice |
| `CartPendulum.DenominatorIsPositive` | control_bootcamp_code/simulink_LQR_LQG/cartpend_sim_wrapper.c:69-71 | the coded quotient never divides by zero |
| `CartPendulum.AccelerationsSolve` | control_bootcamp_code/simulink_LQR_LQG/cartpend_sim_wrapper.c:68-71 | the coded accelerations satisfy the coupled equations of motion of cart and pendulum |
| `CartPendulum.AccelerationsAreUnique` | control_bootcamp_code/simulink_LQR_LQG/cartpend_sim_wrapper.c:68-71 | nothing else satisfies them |
| `CartPendulum.InNumbers` | control_bootcamp_code/simulink_LQR_LQG/cartpend_sim_wrapper.c:60-71 | the two equations in the numbers of the block |
| `CartPendulum.RateIsDerivative` | control_bootcamp_code/simulink_LQR_LQG/cartpend_sim_wrapper.c:68-71 | the energy rate used below is the derivative: an exact expansion in the step length with a polynomial remainder of second order |
| `CartPendulum.PowerBalance` | control_bootcamp_code/simulink_LQR_LQG/cartpend_sim_wrapper.c:60-71 | energy changes at the rate u*v - d*v^2 |
| `CartPendulum.EnergyNeverGrows` | control_bootcamp_code/simulink_LQR_LQG/cartpend_sim_wrapper.c:60-71 | without input the energy never grows |

## Left out

- Codec, library rules: where the generated code calls the runtime library, the model fixes one behaviour of it: a length prefix must be below 2^31 and must fit inside the enclosing bytes, field number 0 is illegal, a varint has at most ten bytes, and only the end of the bytes (not an unreadable tag) is a legitimate end.
- Codec, recursion limit: the depth limit of nested groups and messages is not modelled.
- Codec, input buffers: the input is one contiguous byte sequence, and the batching inside the library's repeated-field readers is not modelled.
- Codec, failed parse: of the object left behind by a failed parse only its invariant is promised.
- Codec, unknown records: they are kept and written in the order in which they were read; the original leaves that order to a library that is not part of this model.
- Codec, widths: sizes are unbounded integers; the theorems about sizes and round trips ask for the serialised parts to stay below 2^31 bytes, as the original's int sizes do. Floating-point fields are opaque 4- and 8-byte words.
- Codec, aliasing: MergeFrom asks for two objects without common parts, as the original's check against merging a message into itself does.
- Codec, the rest of the file: descriptors, reflection, arenas, UTF-8 logging, swapping, transfer of ownership and TestPose.
- Scheduler, base-rate task, run and terminate: they are steps of the interleaved machine and not methods, because they block on each other; at the start and at the end of a step reading the error status and writing the run flag is one atomic step, as it is in the callback, whose read-back of the flag is a step of its own; the overrun counter is unbounded.
- Scheduler, surroundings: ROS spinning and logging and the published values other than the model time.
- Commander: store keys are the original's strings, so two links whose concatenated names agree share a key; physics calls are recorded as effects; times are whole nanoseconds.
- Transport: timeouts, connection errors, port binding, the accept loop and the connection manager; a synchronous write puts the whole message on the stream at once; one server I/O thread.
- Lease: the cast of the duration to whole milliseconds is made by the caller of the model; calls are atomic, as under the original's mutex.
- HighlighterObject.Highlighter.AddHighlight: the escaped search term and the case mapping, character by character, are parameters; a case mapping that changes lengths is not modelled, and the hit number is printed in decimal however large it is.
- Highlighting, the rest of the report pages: DOM, frames and styling.
- Environment: the file system is a pair of predicates and a listing; the shell text around an assignment and the parsing of arguments are not modelled; POSIX separators only.
- CartPendulum: rounding; sine and cosine are parameters on the unit circle.
- Message handlers and dispatchers of the server, custom message handlers, the Simulink S-function frame and the integration programs: they copy fields or call into code that is not part of this model.
