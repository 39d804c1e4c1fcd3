// The messages byte by byte, and what merging and the strict entry point mean field by
// field.

module MessageBytes {
  import opened Options
  import opened Wire
  import opened WireBytes
  import opened MessageSpec
  import opened MessageTheorems

  // ---------- Values as bytes, without their tags ----------

  function SignedBytes64(x: int64): seq<byte> { EncodeVarint(x % 0x1_0000_0000_0000_0000) }

  /** A negative 32-bit number takes ten bytes, like the 64-bit number of the same value. */
  function SignedBytes32(x: int32): seq<byte> { EncodeVarint(x % 0x1_0000_0000_0000_0000) }

  function UnsignedBytes64(x: uint64): seq<byte> { EncodeVarint(x) }

  function UnsignedBytes32(x: uint32): seq<byte> { EncodeVarint(x) }

  function DoubleBytes(w: uint64): seq<byte> { EncodeFixed(w, 8) }

  function FloatBytes(w: uint32): seq<byte> { EncodeFixed(w, 4) }

  function TextBytes(b: seq<byte>): seq<byte> { EncodeVarint(|b|) + b }

  function EnumBytes(e: TestEnum): seq<byte> { if e == ITEM_A then [0] else [1] }

  function BoolBytes(b: bool): seq<byte> { if b then [1] else [0] }

  function ScalarsBytes(v: Scalars): seq<byte> { TextBytes(SerializeScalars(v)) }

  // ---------- Fields as bytes ----------

  function Slot<T>(tag: byte, bytes: T -> seq<byte>, o: Option<T>): seq<byte> {
    if o.None? then [] else [tag] + bytes(o.value)
  }

  function Column<T>(tag: byte, bytes: T -> seq<byte>, xs: seq<T>): seq<byte> {
    if xs == [] then [] else ([tag] + bytes(xs[0])) + Column(tag, bytes, xs[1..])
  }

  function Concat(pieces: seq<seq<byte>>): seq<byte> {
    if pieces == [] then [] else Concat(pieces[..|pieces| - 1]) + pieces[|pieces| - 1]
  }

  lemma SlotBytes<T>(tag: byte, bytes: T -> seq<byte>, o: Option<T>, enc: T -> Field)
    requires o.Some? ==> EncodeField(enc(o.value)) == [tag] + bytes(o.value)
    ensures EncodeFields(One(o, enc)) == Slot(tag, bytes, o)
  {
    hide EncodeField;
    if o.Some? {
      assert EncodeFields([enc(o.value)]) == EncodeField(enc(o.value)) + EncodeFields([]);
    }
  }

  lemma {:induction false} ColumnBytes<T>(tag: byte, bytes: T -> seq<byte>, xs: seq<T>, enc: T -> Field)
    requires forall x <- xs :: EncodeField(enc(x)) == [tag] + bytes(x)
    ensures EncodeFields(Map(enc, xs)) == Column(tag, bytes, xs)
    decreases |xs|
  {
    hide EncodeField;
    if xs != [] {
      ColumnBytes(tag, bytes, xs[1..], enc);
      assert Map(enc, xs)[1..] == Map(enc, xs[1..]);
      assert xs[0] in xs;
    }
  }

  lemma {:induction false} PartsBytes(parts: Layout, pieces: seq<seq<byte>>)
    requires |parts| == |pieces| && forall k :: 0 <= k < |parts| ==> EncodeFields(parts[k]) == pieces[k]
    ensures EncodeFields(Flatten(parts)) == Concat(pieces)
    decreases |parts|
  {
    hide EncodeFields;
    if parts == [] {
      PrefixEnds(parts);
    } else {
      var n := |parts| - 1;
      PartsBytes(parts[..n], pieces[..n]);
      PrefixStep(parts, n);
      assert parts[..n + 1] == parts;
    }
  }

  lemma OneByteTag(tag: byte)
    requires tag < 128
    ensures EncodeVarint(tag) == [tag]
  {
  }

  lemma StartsWithTag(f: Field, tag: byte)
    requires tag < 128 && TagOf(f) == tag
    ensures EncodeField(f) == [tag] + EncodePayload(f)
  {
    hide EncodeVarint, EncodePayload;
    OneByteTag(tag);
  }

  /** Every field of the scalars starts with the one byte of its tag. */
  lemma ScalarRecords(i: int64, u: uint64, j: int32, w: uint32, b: seq<byte>, e: TestEnum, l: bool)
    ensures EncodeField(Int64Field(1)(i)) == [0x08] + SignedBytes64(i)
    ensures EncodeField(UInt64Field(2)(u)) == [0x10] + UnsignedBytes64(u)
    ensures EncodeField(Int32Field(3)(j)) == [0x18] + SignedBytes32(j)
    ensures EncodeField(UInt32Field(4)(w)) == [0x20] + UnsignedBytes32(w)
    ensures EncodeField(DoubleField(5)(u)) == [0x29] + DoubleBytes(u)
    ensures EncodeField(FloatField(6)(w)) == [0x35] + FloatBytes(w)
    ensures EncodeField(BytesField(7)(b)) == [0x3A] + TextBytes(b)
    ensures EncodeField(BytesField(8)(b)) == [0x42] + TextBytes(b)
    ensures EncodeField(EnumField(9)(e)) == [0x48] + EnumBytes(e)
    ensures EncodeField(BoolField(10)(l)) == [0x50] + BoolBytes(l)
  {
    hide EncodeField, EncodeVarint, EncodeFixed;
    StartsWithTag(Int64Field(1)(i), 0x08);
    StartsWithTag(UInt64Field(2)(u), 0x10);
    StartsWithTag(Int32Field(3)(j), 0x18);
    StartsWithTag(UInt32Field(4)(w), 0x20);
    StartsWithTag(DoubleField(5)(u), 0x29);
    StartsWithTag(FloatField(6)(w), 0x35);
    StartsWithTag(BytesField(7)(b), 0x3A);
    StartsWithTag(BytesField(8)(b), 0x42);
    StartsWithTag(EnumField(9)(e), 0x48);
    StartsWithTag(BoolField(10)(l), 0x50);
    OneByteTag(0);
    OneByteTag(1);
  }

  // ---------- The four messages ----------

  /** The bytes of the scalars: present fields in the order of their numbers, then what was
      not recognised. */
  lemma ScalarsAsBytes(v: Scalars)
    ensures SerializeScalars(v) == Concat([
        Slot(0x08, SignedBytes64, v.integer64), Slot(0x10, UnsignedBytes64, v.unsigned64),
        Slot(0x18, SignedBytes32, v.integer32), Slot(0x20, UnsignedBytes32, v.unsigned32),
        Slot(0x29, DoubleBytes, v.binary64), Slot(0x35, FloatBytes, v.binary32),
        Slot(0x3A, TextBytes, v.byteArray), Slot(0x42, TextBytes, v.characterArray),
        Slot(0x48, EnumBytes, v.enumItem), Slot(0x50, BoolBytes, v.logicalItem),
        EncodeFields(v.unknown)])
  {
    hide EncodeField, EncodeFields, Concat, One, Slot;
    AllScalarRecords();
    SlotBytes(0x08, SignedBytes64, v.integer64, Int64Field(1));
    SlotBytes(0x10, UnsignedBytes64, v.unsigned64, UInt64Field(2));
    SlotBytes(0x18, SignedBytes32, v.integer32, Int32Field(3));
    SlotBytes(0x20, UnsignedBytes32, v.unsigned32, UInt32Field(4));
    SlotBytes(0x29, DoubleBytes, v.binary64, DoubleField(5));
    SlotBytes(0x35, FloatBytes, v.binary32, FloatField(6));
    SlotBytes(0x3A, TextBytes, v.byteArray, BytesField(7));
    SlotBytes(0x42, TextBytes, v.characterArray, BytesField(8));
    SlotBytes(0x48, EnumBytes, v.enumItem, EnumField(9));
    SlotBytes(0x50, BoolBytes, v.logicalItem, BoolField(10));
    PartsBytes(ScalarsParts(v), [
        Slot(0x08, SignedBytes64, v.integer64), Slot(0x10, UnsignedBytes64, v.unsigned64),
        Slot(0x18, SignedBytes32, v.integer32), Slot(0x20, UnsignedBytes32, v.unsigned32),
        Slot(0x29, DoubleBytes, v.binary64), Slot(0x35, FloatBytes, v.binary32),
        Slot(0x3A, TextBytes, v.byteArray), Slot(0x42, TextBytes, v.characterArray),
        Slot(0x48, EnumBytes, v.enumItem), Slot(0x50, BoolBytes, v.logicalItem),
        EncodeFields(v.unknown)]);
  }

  lemma AllScalarRecords()
    ensures forall x: int64 :: EncodeField(Int64Field(1)(x)) == [0x08] + SignedBytes64(x)
    ensures forall x: uint64 :: EncodeField(UInt64Field(2)(x)) == [0x10] + UnsignedBytes64(x)
    ensures forall x: int32 :: EncodeField(Int32Field(3)(x)) == [0x18] + SignedBytes32(x)
    ensures forall x: uint32 :: EncodeField(UInt32Field(4)(x)) == [0x20] + UnsignedBytes32(x)
    ensures forall x: uint64 :: EncodeField(DoubleField(5)(x)) == [0x29] + DoubleBytes(x)
    ensures forall x: uint32 :: EncodeField(FloatField(6)(x)) == [0x35] + FloatBytes(x)
    ensures forall x: seq<byte> :: EncodeField(BytesField(7)(x)) == [0x3A] + TextBytes(x)
    ensures forall x: seq<byte> :: EncodeField(BytesField(8)(x)) == [0x42] + TextBytes(x)
    ensures forall x: TestEnum :: EncodeField(EnumField(9)(x)) == [0x48] + EnumBytes(x)
    ensures forall x: bool :: EncodeField(BoolField(10)(x)) == [0x50] + BoolBytes(x)
  {
    hide *;
    forall x: int64 ensures EncodeField(Int64Field(1)(x)) == [0x08] + SignedBytes64(x) {
      ScalarRecords(x, 0, 0, 0, [], ITEM_A, false);
    }
    forall x: uint64 ensures EncodeField(UInt64Field(2)(x)) == [0x10] + UnsignedBytes64(x) {
      ScalarRecords(0, x, 0, 0, [], ITEM_A, false);
    }
    forall x: int32 ensures EncodeField(Int32Field(3)(x)) == [0x18] + SignedBytes32(x) {
      ScalarRecords(0, 0, x, 0, [], ITEM_A, false);
    }
    forall x: uint32 ensures EncodeField(UInt32Field(4)(x)) == [0x20] + UnsignedBytes32(x) {
      ScalarRecords(0, 0, 0, x, [], ITEM_A, false);
    }
    forall x: uint64 ensures EncodeField(DoubleField(5)(x)) == [0x29] + DoubleBytes(x) {
      ScalarRecords(0, x, 0, 0, [], ITEM_A, false);
    }
    forall x: uint32 ensures EncodeField(FloatField(6)(x)) == [0x35] + FloatBytes(x) {
      ScalarRecords(0, 0, 0, x, [], ITEM_A, false);
    }
    forall x: seq<byte>
      ensures EncodeField(BytesField(7)(x)) == [0x3A] + TextBytes(x)
      ensures EncodeField(BytesField(8)(x)) == [0x42] + TextBytes(x)
    {
      ScalarRecords(0, 0, 0, 0, x, ITEM_A, false);
    }
    forall x: TestEnum ensures EncodeField(EnumField(9)(x)) == [0x48] + EnumBytes(x) {
      ScalarRecords(0, 0, 0, 0, [], x, false);
    }
    forall x: bool ensures EncodeField(BoolField(10)(x)) == [0x50] + BoolBytes(x) {
      ScalarRecords(0, 0, 0, 0, [], ITEM_A, x);
    }
  }

  /** The bytes of the arrays: every element with its own tag, field after field. */
  lemma ArraysAsBytes(v: Arrays)
    ensures SerializeArrays(v) == Concat([
        Column(0x08, SignedBytes64, v.integer64), Column(0x10, UnsignedBytes64, v.unsigned64),
        Column(0x18, SignedBytes32, v.integer32), Column(0x20, UnsignedBytes32, v.unsigned32),
        Column(0x29, DoubleBytes, v.binary64), Column(0x35, FloatBytes, v.binary32),
        Column(0x3A, TextBytes, v.byteArray), Column(0x42, TextBytes, v.characterArray),
        Column(0x48, EnumBytes, v.enumItem), Column(0x50, BoolBytes, v.logicalItem),
        EncodeFields(v.unknown)])
  {
    hide EncodeField, EncodeFields, Concat, Map, Column;
    AllScalarRecords();
    ColumnBytes(0x08, SignedBytes64, v.integer64, Int64Field(1));
    ColumnBytes(0x10, UnsignedBytes64, v.unsigned64, UInt64Field(2));
    ColumnBytes(0x18, SignedBytes32, v.integer32, Int32Field(3));
    ColumnBytes(0x20, UnsignedBytes32, v.unsigned32, UInt32Field(4));
    ColumnBytes(0x29, DoubleBytes, v.binary64, DoubleField(5));
    ColumnBytes(0x35, FloatBytes, v.binary32, FloatField(6));
    ColumnBytes(0x3A, TextBytes, v.byteArray, BytesField(7));
    ColumnBytes(0x42, TextBytes, v.characterArray, BytesField(8));
    ColumnBytes(0x48, EnumBytes, v.enumItem, EnumField(9));
    ColumnBytes(0x50, BoolBytes, v.logicalItem, BoolField(10));
    PartsBytes(ArraysParts(v), [
        Column(0x08, SignedBytes64, v.integer64), Column(0x10, UnsignedBytes64, v.unsigned64),
        Column(0x18, SignedBytes32, v.integer32), Column(0x20, UnsignedBytes32, v.unsigned32),
        Column(0x29, DoubleBytes, v.binary64), Column(0x35, FloatBytes, v.binary32),
        Column(0x3A, TextBytes, v.byteArray), Column(0x42, TextBytes, v.characterArray),
        Column(0x48, EnumBytes, v.enumItem), Column(0x50, BoolBytes, v.logicalItem),
        EncodeFields(v.unknown)]);
  }

  lemma SubRecord(num: nat, b: seq<byte>)
    requires 1 <= num <= 4
    ensures EncodeField(Delimited(num, b)) == [(8 * num + 2) as byte] + TextBytes(b)
  {
    OneByteTag(8 * num + 2);
  }

  /** The bytes of the nested message: the sub-message, then the elements, each with its
      length in front. */
  lemma NestedAsBytes(v: Nested)
    ensures SerializeNested(v) == Concat([
        Slot(0x0A, ScalarsBytes, v.scalar), Column(0x12, ScalarsBytes, v.items), EncodeFields(v.unknown)])
  {
    hide EncodeField, EncodeFields, Concat, Map, Column, SerializeScalars, TextBytes;
    forall w: Scalars
      ensures EncodeField(ScalarsField(1)(w)) == [0x0A] + ScalarsBytes(w)
      ensures EncodeField(ScalarsField(2)(w)) == [0x12] + ScalarsBytes(w)
    {
      SubRecord(1, SerializeScalars(w));
      SubRecord(2, SerializeScalars(w));
    }
    SlotBytes(0x0A, ScalarsBytes, v.scalar, ScalarsField(1));
    ColumnBytes(0x12, ScalarsBytes, v.items, ScalarsField(2));
    PartsBytes(NestedParts(v), [
        Slot(0x0A, ScalarsBytes, v.scalar), Column(0x12, ScalarsBytes, v.items), EncodeFields(v.unknown)]);
  }

  function PayloadAsBytes(p: Payload): seq<byte> {
    match p
    case NotSet => []
    case TestScalar(v) => [0x12] + TextBytes(SerializeScalars(v))
    case TestArray(v) => [0x1A] + TextBytes(SerializeArrays(v))
    case TestNested(v) => [0x22] + TextBytes(SerializeNested(v))
  }

  lemma HeaderRecord(w: uint64)
    ensures EncodeField(DoubleField(1)(w)) == [0x09] + DoubleBytes(w)
  {
    OneByteTag(0x09);
  }

  lemma PayloadBytes(p: Payload)
    ensures EncodeFields(PayloadRecords(p)) == PayloadAsBytes(p)
  {
    hide EncodeField, SerializeScalars, SerializeArrays, SerializeNested, TextBytes;
    match p
    case NotSet =>
    case TestScalar(v) => SubRecord(2, SerializeScalars(v));
    case TestArray(v) => SubRecord(3, SerializeArrays(v));
    case TestNested(v) => SubRecord(4, SerializeNested(v));
  }

  /** The bytes of the oneof message: header, the one payload with its length, the rest. */
  lemma MessageAsBytes(v: Message)
    ensures SerializeMessage(v) ==
      Concat([Slot(0x09, DoubleBytes, v.header), PayloadAsBytes(v.payload), EncodeFields(v.unknown)])
  {
    hide EncodeField, EncodeFields, Concat, PayloadAsBytes, DoubleBytes, PayloadRecords;
    if v.header.Some? {
      HeaderRecord(v.header.value);
    }
    SlotBytes(0x09, DoubleBytes, v.header, DoubleField(1));
    PayloadBytes(v.payload);
    PartsBytes(MessageParts(v),
      [Slot(0x09, DoubleBytes, v.header), PayloadAsBytes(v.payload), EncodeFields(v.unknown)]);
  }

  /** The nine bytes of a message with only a header: its tag, then the double's eight bytes,
      lowest first. */
  lemma HeaderOnly(w: uint64)
    ensures SerializeMessage(Message(Some(w), NotSet, [])) ==
      [0x09, w % 0x100, w / 0x100 % 0x100, w / 0x1_0000 % 0x100, w / 0x100_0000 % 0x100,
       w / 0x1_0000_0000 % 0x100, w / 0x100_0000_0000 % 0x100,
       w / 0x1_0000_0000_0000 % 0x100, w / 0x100_0000_0000_0000 % 0x100]
  {
    hide SerializeMessage, EncodeFixed;
    MessageAsBytes(Message(Some(w), NotSet, []));
    OneOfThree([0x09] + DoubleBytes(w));
    PowersOf256();
    FixedByte(w, 8, 0);
    FixedByte(w, 8, 1);
    FixedByte(w, 8, 2);
    FixedByte(w, 8, 3);
    FixedByte(w, 8, 4);
    FixedByte(w, 8, 5);
    FixedByte(w, 8, 6);
    FixedByte(w, 8, 7);
  }

  lemma OneOfThree(b: seq<byte>)
    ensures Concat([b, [], []]) == b
  {
    assert [b, [], []][..2] == [b, []] && [b, []][..1] == [b] && [b][..0] == [];
    assert Concat([b]) == [] + b;
    assert Concat([b, []]) == Concat([b]) + [];
  }

  lemma PowersOf256()
    ensures Pow256(0) == 1 && Pow256(1) == 0x100 && Pow256(2) == 0x1_0000 && Pow256(3) == 0x100_0000
    ensures Pow256(4) == 0x1_0000_0000 && Pow256(5) == 0x100_0000_0000
    ensures Pow256(6) == 0x1_0000_0000_0000 && Pow256(7) == 0x100_0000_0000_0000
  {
  }

  // ---------- Numbers as they are read ----------

  /** Any varint, canonical or not: a 32-bit field takes its low 32 bits, a 64-bit field all
      of it, a logical field whether it is zero, an enumeration only 0 and 1. */
  lemma ScalarNumbers(v: Scalars, x: uint64)
    ensures var w := ApplyScalars(v, Varint(1, x)).value.integer64;
      w.Some? && (w.value - x) % 0x1_0000_0000_0000_0000 == 0
    ensures ApplyScalars(v, Varint(2, x)).value.unsigned64 == Some(x)
    ensures var w := ApplyScalars(v, Varint(3, x)).value.integer32; w.Some? && (w.value - x) % 0x1_0000_0000 == 0
    ensures var w := ApplyScalars(v, Varint(4, x)).value.unsigned32; w.Some? && w.value == x % 0x1_0000_0000
    ensures ApplyScalars(v, Varint(9, x)).value.enumItem ==
      if x % 0x1_0000_0000 == 0 then Some(ITEM_A) else if x % 0x1_0000_0000 == 1 then Some(ITEM_B) else v.enumItem
    ensures ApplyScalars(v, Varint(10, x)).value.logicalItem == Some(x > 0)
  {
  }

  /** The elements of repeated fields are read in the same way. */
  lemma ArrayNumbers(v: Arrays, x: uint64)
    ensures var w := ApplyArrays(v, Varint(1, x)).value.integer64;
      |w| == |v.integer64| + 1 && (w[|w| - 1] - x) % 0x1_0000_0000_0000_0000 == 0
    ensures ApplyArrays(v, Varint(2, x)).value.unsigned64 == v.unsigned64 + [x]
    ensures var w := ApplyArrays(v, Varint(3, x)).value.integer32;
      |w| == |v.integer32| + 1 && (w[|w| - 1] - x) % 0x1_0000_0000 == 0
    ensures ApplyArrays(v, Varint(4, x)).value.unsigned32 == v.unsigned32 + [x % 0x1_0000_0000]
    ensures ApplyArrays(v, Varint(9, x)).value.enumItem == v.enumItem +
      if x % 0x1_0000_0000 == 0 then [ITEM_A] else if x % 0x1_0000_0000 == 1 then [ITEM_B] else []
    ensures ApplyArrays(v, Varint(10, x)).value.logicalItem == v.logicalItem + [x > 0]
  {
  }

  // ---------- Merging, field by field ----------

  /** A field that the second message has wins; one that it lacks stays. */
  lemma ScalarsMerged(a: Scalars, b: Scalars)
    ensures var m := MergeScalars(a, b);
      && m.integer64 == (if b.integer64.Some? then b.integer64 else a.integer64)
      && m.unsigned64 == (if b.unsigned64.Some? then b.unsigned64 else a.unsigned64)
      && m.integer32 == (if b.integer32.Some? then b.integer32 else a.integer32)
      && m.unsigned32 == (if b.unsigned32.Some? then b.unsigned32 else a.unsigned32)
      && m.binary64 == (if b.binary64.Some? then b.binary64 else a.binary64)
      && m.binary32 == (if b.binary32.Some? then b.binary32 else a.binary32)
      && m.byteArray == (if b.byteArray.Some? then b.byteArray else a.byteArray)
      && m.characterArray == (if b.characterArray.Some? then b.characterArray else a.characterArray)
      && m.enumItem == (if b.enumItem.Some? then b.enumItem else a.enumItem)
      && m.logicalItem == (if b.logicalItem.Some? then b.logicalItem else a.logicalItem)
      && m.unknown == a.unknown + b.unknown
  {
  }

  /** Repeated fields are joined, the elements of the first message first. */
  lemma ArraysMerged(a: Arrays, b: Arrays)
    ensures var m := MergeArrays(a, b);
      && m.integer64 == a.integer64 + b.integer64
      && m.unsigned64 == a.unsigned64 + b.unsigned64
      && m.integer32 == a.integer32 + b.integer32
      && m.unsigned32 == a.unsigned32 + b.unsigned32
      && m.binary64 == a.binary64 + b.binary64
      && m.binary32 == a.binary32 + b.binary32
      && m.byteArray == a.byteArray + b.byteArray
      && m.characterArray == a.characterArray + b.characterArray
      && m.enumItem == a.enumItem + b.enumItem
      && m.logicalItem == a.logicalItem + b.logicalItem
      && m.unknown == a.unknown + b.unknown
  {
  }

  /** A sub-message that both have is merged; of two oneof payloads the same case is merged
      and another case replaced; a message without a payload changes none. */
  lemma MessagesMerged(a: Message, b: Message, c: Nested, d: Nested)
    ensures var n := MergeNested(c, d);
      && (d.scalar.None? ==> n.scalar == c.scalar)
      && (d.scalar.Some? && c.scalar.None? ==> n.scalar == d.scalar)
      && (d.scalar.Some? && c.scalar.Some? ==> n.scalar == Some(MergeScalars(c.scalar.value, d.scalar.value)))
      && n.items == c.items + d.items && n.unknown == c.unknown + d.unknown
    ensures var m := MergeMessage(a, b);
      && m.header == (if b.header.Some? then b.header else a.header) && m.unknown == a.unknown + b.unknown
      && match (a.payload, b.payload)
         case (_, NotSet) => m.payload == a.payload
         case (TestScalar(x), TestScalar(y)) => m.payload == TestScalar(MergeScalars(x, y))
         case (TestArray(x), TestArray(y)) => m.payload == TestArray(MergeArrays(x, y))
         case (TestNested(x), TestNested(y)) => m.payload == TestNested(MergeNested(x, y))
         case (_, _) => m.payload == b.payload
  {
    if d.scalar.Some? {
      MergeIntoNewScalars(d.scalar.value);
    }
    MergeIntoNewPayload(b.payload);
    hide MergeScalars, MergeArrays, MergeNested;
  }

  // ---------- Required fields ----------

  /** What the strict entry point asks for, field by field, at every level. */
  lemma StrictRequires(v: Message)
    requires SoundMessage(v)
    ensures ParseMessage(SerializeMessage(v)).Some? <==>
      && v.header.Some?
      && match v.payload
         case NotSet => true
         case TestArray(_) => true
         case TestScalar(s) => Complete(s)
         case TestNested(n) => n.scalar.Some? && Complete(n.scalar.value) && forall s <- n.items :: Complete(s)
    ensures ParseMessage(SerializeMessage(v)).Some? ==> ParseMessage(SerializeMessage(v)) == Some(v)
  {
    hide ParseMessage, SoundMessage, SerializeMessage;
    StrictRoundTrip(v);
  }

  /** None of the ten scalar fields is missing. */
  predicate Complete(v: Scalars) {
    !(|| v.integer64 == None
      || v.unsigned64 == None
      || v.integer32 == None
      || v.unsigned32 == None
      || v.binary64 == None
      || v.binary32 == None
      || v.byteArray == None
      || v.characterArray == None
      || v.enumItem == None
      || v.logicalItem == None)
  }
}
