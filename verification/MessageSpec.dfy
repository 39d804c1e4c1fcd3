// The four test messages as values: how one wire record changes each, how each
// is written as records, how two are merged, and the theorems relating them.

module MessageSpec {
  import opened Options
  import opened Wire

  // ---------- Values ----------

  datatype TestEnum = ITEM_A | ITEM_B

  function EnumNumber(e: TestEnum): int32 { if e == ITEM_A then 0 else 1 }

  /** Any number other than 0 and 1 is not an enumerator. */
  function EnumOf(x: int32): Option<TestEnum> {
    if x == 0 then Some(ITEM_A) else if x == 1 then Some(ITEM_B) else None
  }

  /** Optional fields carry their has-bit: None is "has-bit off". Floating-point
      fields are their 8- and 4-byte words. */
  datatype Scalars = Scalars(
    integer64: Option<int64>, unsigned64: Option<uint64>,
    integer32: Option<int32>, unsigned32: Option<uint32>,
    binary64: Option<uint64>, binary32: Option<uint32>,
    byteArray: Option<seq<byte>>, characterArray: Option<seq<byte>>,
    enumItem: Option<TestEnum>, logicalItem: Option<bool>,
    unknown: seq<Field>)

  datatype Arrays = Arrays(
    integer64: seq<int64>, unsigned64: seq<uint64>,
    integer32: seq<int32>, unsigned32: seq<uint32>,
    binary64: seq<uint64>, binary32: seq<uint32>,
    byteArray: seq<seq<byte>>, characterArray: seq<seq<byte>>,
    enumItem: seq<TestEnum>, logicalItem: seq<bool>,
    unknown: seq<Field>)

  datatype Nested = Nested(scalar: Option<Scalars>, items: seq<Scalars>, unknown: seq<Field>)

  datatype Payload = NotSet | TestScalar(scalar: Scalars) | TestArray(arrays: Arrays) | TestNested(nested: Nested)

  datatype Message = Message(header: Option<uint64>, payload: Payload, unknown: seq<Field>)

  const NO_SCALARS: Scalars :=
    Scalars(None, None, None, None, None, None, None, None, None, None, [])
  const NO_ARRAYS: Arrays := Arrays([], [], [], [], [], [], [], [], [], [], [])
  const NO_NESTED: Nested := Nested(None, [], [])
  const NO_MESSAGE: Message := Message(None, NotSet, [])

  // ---------- One record applied to a message ----------

  function ApplyScalars(v: Scalars, f: Field): Option<Scalars> {
    match f
    case Varint(1, x) => Some(v.(integer64 := Some(Signed64(x))))
    case Varint(2, x) => Some(v.(unsigned64 := Some(x)))
    case Varint(3, x) => Some(v.(integer32 := Some(Signed32(x))))
    case Varint(4, x) => Some(v.(unsigned32 := Some(Low32(x))))
    case Fixed64(5, w) => Some(v.(binary64 := Some(w)))
    case Fixed32(6, w) => Some(v.(binary32 := Some(w)))
    case Delimited(7, b) => Some(v.(byteArray := Some(b)))
    case Delimited(8, b) => Some(v.(characterArray := Some(b)))
    case Varint(9, x) =>
      if EnumOf(Signed32(x)).Some? then Some(v.(enumItem := EnumOf(Signed32(x))))
      else Some(v.(unknown := v.unknown + [Varint(9, Unsigned64(Signed32(x)))]))
    case Varint(10, x) => Some(v.(logicalItem := Some(x != 0)))
    case _ => Some(v.(unknown := v.unknown + [f]))
  }

  function Map<T, U>(enc: T -> U, xs: seq<T>): (ys: seq<U>)
    ensures |ys| == |xs| && forall i :: 0 <= i < |xs| ==> ys[i] == enc(xs[i])
  {
    seq(|xs|, i requires 0 <= i < |xs| => enc(xs[i]))
  }

  /** Packed elements fill the payload exactly; a cut-off element is an error. */
  function Unpack<T>(b: seq<byte>, read: seq<byte> -> Read<T>): Option<seq<T>>
    requires forall s :: read(s).Got? ==> |read(s).rest| < |s|
    decreases |b|
  {
    if b == [] then Some([])
    else
      match read(b)
      case Bad => None
      case Got(x, rest) =>
        match Unpack(rest, read) { case None => None case Some(xs) => Some([x] + xs) }
  }

  function AddEnum(v: Arrays, x: uint64): Arrays {
    match EnumOf(Signed32(x))
    case Some(e) => v.(enumItem := v.enumItem + [e])
    case None => v.(unknown := v.unknown + [Varint(9, Unsigned64(Signed32(x)))])
  }

  function AddEnums(v: Arrays, xs: seq<uint64>): Arrays
    decreases |xs|
  {
    if xs == [] then v else AddEnums(AddEnum(v, xs[0]), xs[1..])
  }

  /** The varints of a packed payload of field num, appended to its column. */
  function AddVarints(v: Arrays, num: nat, xs: seq<uint64>): Arrays
    requires 1 <= num <= 4 || 9 <= num <= 10
  {
    if num == 1 then v.(integer64 := v.integer64 + Map(Signed64, xs))
    else if num == 2 then v.(unsigned64 := v.unsigned64 + xs)
    else if num == 3 then v.(integer32 := v.integer32 + Map(Signed32, xs))
    else if num == 4 then v.(unsigned32 := v.unsigned32 + Map(Low32, xs))
    else if num == 9 then AddEnums(v, xs)
    else v.(logicalItem := v.logicalItem + Map((x: uint64) => x != 0, xs))
  }

  function ApplyPacked(v: Arrays, num: nat, b: seq<byte>): Option<Arrays>
    requires 1 <= num <= 6 || 9 <= num <= 10
  {
    if num == 5 then
      match Unpack(b, ReadFixed64) { case None => None case Some(ws) => Some(v.(binary64 := v.binary64 + ws)) }
    else if num == 6 then
      match Unpack(b, ReadFixed32) { case None => None case Some(ws) => Some(v.(binary32 := v.binary32 + ws)) }
    else
      match Unpack(b, ReadVarint)
      case None => None
      case Some(xs) => Some(AddVarints(v, num, xs))
  }

  function ApplyArrays(v: Arrays, f: Field): Option<Arrays> {
    match f
    case Varint(1, x) => Some(v.(integer64 := v.integer64 + [Signed64(x)]))
    case Varint(2, x) => Some(v.(unsigned64 := v.unsigned64 + [x]))
    case Varint(3, x) => Some(v.(integer32 := v.integer32 + [Signed32(x)]))
    case Varint(4, x) => Some(v.(unsigned32 := v.unsigned32 + [Low32(x)]))
    case Fixed64(5, w) => Some(v.(binary64 := v.binary64 + [w]))
    case Fixed32(6, w) => Some(v.(binary32 := v.binary32 + [w]))
    case Delimited(7, b) => Some(v.(byteArray := v.byteArray + [b]))
    case Delimited(8, b) => Some(v.(characterArray := v.characterArray + [b]))
    case Varint(9, x) => Some(AddEnum(v, x))
    case Varint(10, x) => Some(v.(logicalItem := v.logicalItem + [x != 0]))
    case Delimited(n, b) =>
      if 1 <= n <= 6 || 9 <= n <= 10 then ApplyPacked(v, n, b)
      else Some(v.(unknown := v.unknown + [f]))
    case _ => Some(v.(unknown := v.unknown + [f]))
  }

  /** A sub-message must parse up to a legitimate end of its own bytes. */
  function SubMessage<V>(v: V, b: seq<byte>, apply: (V, Field) -> Option<V>): Option<V> {
    match ParseLoop(v, b, apply)
    case Done(w, true) => Some(w)
    case _ => None
  }

  function OrNew(o: Option<Scalars>): Scalars { if o.Some? then o.value else NO_SCALARS }

  function ApplyNested(v: Nested, f: Field): Option<Nested> {
    match f
    case Delimited(1, b) =>
      (match SubMessage(OrNew(v.scalar), b, ApplyScalars)
       case None => None
       case Some(w) => Some(v.(scalar := Some(w))))
    case Delimited(2, b) =>
      (match SubMessage(NO_SCALARS, b, ApplyScalars)
       case None => None
       case Some(w) => Some(v.(items := v.items + [w])))
    case _ => Some(v.(unknown := v.unknown + [f]))
  }

  // mutable_test_scalar and its siblings: the current payload if it has the
  // wanted case, a fresh one otherwise.
  function ScalarPayload(p: Payload): Scalars { if p.TestScalar? then p.scalar else NO_SCALARS }

  function ArrayPayload(p: Payload): Arrays { if p.TestArray? then p.arrays else NO_ARRAYS }

  function NestedPayload(p: Payload): Nested { if p.TestNested? then p.nested else NO_NESTED }

  function ApplyMessage(v: Message, f: Field): Option<Message> {
    match f
    case Fixed64(1, w) => Some(v.(header := Some(w)))
    case Delimited(2, b) =>
      (match SubMessage(ScalarPayload(v.payload), b, ApplyScalars)
       case None => None
       case Some(w) => Some(v.(payload := TestScalar(w))))
    case Delimited(3, b) =>
      (match SubMessage(ArrayPayload(v.payload), b, ApplyArrays)
       case None => None
       case Some(w) => Some(v.(payload := TestArray(w))))
    case Delimited(4, b) =>
      (match SubMessage(NestedPayload(v.payload), b, ApplyNested)
       case None => None
       case Some(w) => Some(v.(payload := TestNested(w))))
    case _ => Some(v.(unknown := v.unknown + [f]))
  }

  // ---------- A message as records and as bytes ----------

  function One<T>(o: Option<T>, enc: T -> Field): seq<Field> {
    match o
    case None => []
    case Some(x) => [enc(x)]
  }

  function Int64Field(num: nat): int64 -> Field { (x: int64) => Varint(num, Unsigned64(x)) }

  function UInt64Field(num: nat): uint64 -> Field { (x: uint64) => Varint(num, x) }

  /** Negative 32-bit values are sign-extended to ten bytes. */
  function Int32Field(num: nat): int32 -> Field { (x: int32) => Varint(num, Unsigned64(x)) }

  function UInt32Field(num: nat): uint32 -> Field { (x: uint32) => Varint(num, x) }

  function DoubleField(num: nat): uint64 -> Field { (w: uint64) => Fixed64(num, w) }

  function FloatField(num: nat): uint32 -> Field { (w: uint32) => Fixed32(num, w) }

  function BytesField(num: nat): seq<byte> -> Field { b => Delimited(num, b) }

  function EnumField(num: nat): TestEnum -> Field { e => Varint(num, Unsigned64(EnumNumber(e))) }

  function BoolField(num: nat): bool -> Field { b => Varint(num, if b then 1 else 0) }

  function ScalarsField(num: nat): Scalars -> Field { v => Delimited(num, SerializeScalars(v)) }

  function NumberParts(v: Scalars): Layout {
    [One(v.integer64, Int64Field(1)), One(v.unsigned64, UInt64Field(2)),
     One(v.integer32, Int32Field(3)), One(v.unsigned32, UInt32Field(4)),
     One(v.binary64, DoubleField(5)), One(v.binary32, FloatField(6))]
  }

  function TextParts(v: Scalars): Layout {
    [One(v.byteArray, BytesField(7)), One(v.characterArray, BytesField(8)),
     One(v.enumItem, EnumField(9)), One(v.logicalItem, BoolField(10)), v.unknown]
  }

  function ScalarsParts(v: Scalars): Layout { NumberParts(v) + TextParts(v) }

  function ArraysParts(v: Arrays): Layout {
    [Map(Int64Field(1), v.integer64), Map(UInt64Field(2), v.unsigned64),
     Map(Int32Field(3), v.integer32), Map(UInt32Field(4), v.unsigned32),
     Map(DoubleField(5), v.binary64), Map(FloatField(6), v.binary32),
     Map(BytesField(7), v.byteArray), Map(BytesField(8), v.characterArray),
     Map(EnumField(9), v.enumItem), Map(BoolField(10), v.logicalItem), v.unknown]
  }

  function NestedParts(v: Nested): Layout {
    [One(v.scalar, ScalarsField(1)), Map(ScalarsField(2), v.items), v.unknown]
  }

  function PayloadRecords(p: Payload): seq<Field> {
    match p
    case NotSet => []
    case TestScalar(v) => [Delimited(2, SerializeScalars(v))]
    case TestArray(v) => [Delimited(3, SerializeArrays(v))]
    case TestNested(v) => [Delimited(4, SerializeNested(v))]
  }

  function MessageParts(v: Message): Layout {
    [One(v.header, DoubleField(1)), PayloadRecords(v.payload), v.unknown]
  }

  function SerializeScalars(v: Scalars): seq<byte> { EncodeFields(Flatten(ScalarsParts(v))) }

  function SerializeArrays(v: Arrays): seq<byte> { EncodeFields(Flatten(ArraysParts(v))) }

  function SerializeNested(v: Nested): seq<byte> { EncodeFields(Flatten(NestedParts(v))) }

  function SerializeMessage(v: Message): seq<byte> { EncodeFields(Flatten(MessageParts(v))) }

  // ---------- Merging ----------

  /** The later value wins when there is one. */
  function Later<T>(a: Option<T>, b: Option<T>): Option<T> { if b.Some? then b else a }

  function MergeScalars(a: Scalars, b: Scalars): Scalars {
    Scalars(Later(a.integer64, b.integer64), Later(a.unsigned64, b.unsigned64),
            Later(a.integer32, b.integer32), Later(a.unsigned32, b.unsigned32),
            Later(a.binary64, b.binary64), Later(a.binary32, b.binary32),
            Later(a.byteArray, b.byteArray), Later(a.characterArray, b.characterArray),
            Later(a.enumItem, b.enumItem), Later(a.logicalItem, b.logicalItem),
            a.unknown + b.unknown)
  }

  function MergeArrays(a: Arrays, b: Arrays): Arrays {
    Arrays(a.integer64 + b.integer64, a.unsigned64 + b.unsigned64,
           a.integer32 + b.integer32, a.unsigned32 + b.unsigned32,
           a.binary64 + b.binary64, a.binary32 + b.binary32,
           a.byteArray + b.byteArray, a.characterArray + b.characterArray,
           a.enumItem + b.enumItem, a.logicalItem + b.logicalItem,
           a.unknown + b.unknown)
  }

  function MergeNested(a: Nested, b: Nested): Nested {
    Nested(if b.scalar.None? then a.scalar else Some(MergeScalars(OrNew(a.scalar), b.scalar.value)),
           a.items + b.items, a.unknown + b.unknown)
  }

  function MergePayload(a: Payload, b: Payload): Payload {
    match b
    case NotSet => a
    case TestScalar(v) => TestScalar(MergeScalars(ScalarPayload(a), v))
    case TestArray(v) => TestArray(MergeArrays(ArrayPayload(a), v))
    case TestNested(v) => TestNested(MergeNested(NestedPayload(a), v))
  }

  function MergeMessage(a: Message, b: Message): Message {
    Message(Later(a.header, b.header), MergePayload(a.payload, b.payload), a.unknown + b.unknown)
  }

  // ---------- Which values can be stored ----------

  /** f is a record that apply does not recognise: it is kept among the unknown ones. */
  predicate UnknownToScalars(f: Field) {
    WellFormed(f) && ApplyScalars(NO_SCALARS, f) == Some(NO_SCALARS.(unknown := [f]))
  }

  predicate UnknownToArrays(f: Field) {
    WellFormed(f) && ApplyArrays(NO_ARRAYS, f) == Some(NO_ARRAYS.(unknown := [f]))
  }

  predicate UnknownToNested(f: Field) {
    WellFormed(f) && ApplyNested(NO_NESTED, f) == Some(NO_NESTED.(unknown := [f]))
  }

  predicate UnknownToMessage(f: Field) {
    WellFormed(f) && ApplyMessage(NO_MESSAGE, f) == Some(NO_MESSAGE.(unknown := [f]))
  }

  predicate Short(b: seq<byte>) { |b| < TWO_31 }

  /** Byte strings below 2^31 bytes and unknown records that really are unknown. */
  predicate SoundScalars(v: Scalars) {
    && (v.byteArray.Some? ==> Short(v.byteArray.value))
    && (v.characterArray.Some? ==> Short(v.characterArray.value))
    && forall f <- v.unknown :: UnknownToScalars(f)
  }

  predicate SoundArrays(v: Arrays) {
    && (forall b <- v.byteArray :: Short(b))
    && (forall b <- v.characterArray :: Short(b))
    && forall f <- v.unknown :: UnknownToArrays(f)
  }

  predicate StorableScalars(v: Scalars) { SoundScalars(v) && Short(SerializeScalars(v)) }

  predicate SoundNested(v: Nested) {
    && (v.scalar.Some? ==> StorableScalars(v.scalar.value))
    && (forall w <- v.items :: StorableScalars(w))
    && forall f <- v.unknown :: UnknownToNested(f)
  }

  predicate SoundPayload(p: Payload) {
    match p
    case NotSet => true
    case TestScalar(v) => StorableScalars(v)
    case TestArray(v) => SoundArrays(v) && Short(SerializeArrays(v))
    case TestNested(v) => SoundNested(v) && Short(SerializeNested(v))
  }

  predicate SoundMessage(v: Message) {
    SoundPayload(v.payload) && forall f <- v.unknown :: UnknownToMessage(f)
  }
}
