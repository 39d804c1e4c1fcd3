// Whatever bytes the parser accepts, the message it builds is one that can be
// written and read back: parsing never leaves a message that serialising distorts.

module Reparse {
  import opened Options
  import opened Wire
  import opened MessageSpec
  import opened MessageTheorems

  // ---------- What is read is well formed ----------

  lemma {:induction false} PayloadIsWellFormed(tag: uint32, s: seq<byte>)
    requires ReadPayload(tag, s).Got?
    ensures WellFormed(ReadPayload(tag, s).value)
    decreases |s|, 1
  {
    if tag % 8 == 3 {
      GroupIsWellFormed(tag / 8, s);
    }
  }

  lemma {:induction false} GroupIsWellFormed(num: nat, s: seq<byte>)
    requires ReadGroup(num, s).Got?
    ensures forall f <- ReadGroup(num, s).value :: WellFormed(f)
    decreases |s|, 0
  {
    var t := Wire.ReadTag(s);
    if t.tag % 8 != END_GROUP {
      PayloadIsWellFormed(t.tag, t.rest);
      GroupIsWellFormed(num, ReadPayload(t.tag, t.rest).rest);
    }
  }

  /** A property that every well-formed record preserves holds of whatever is parsed. */
  lemma {:induction false} ParsePreserves<V(!new)>(v: V, s: seq<byte>, apply: (V, Field) -> Option<V>, good: V -> bool)
    requires good(v)
    requires forall w: V, f: Field :: good(w) && WellFormed(f) && apply(w, f).Some? ==> good(apply(w, f).value)
    ensures ParseLoop(v, s, apply).Done? ==> good(ParseLoop(v, s, apply).value)
    decreases |s|
  {
    match Wire.ReadTag(s)
    case AtEnd =>
    case Unreadable =>
    case Tag(tag, rest) =>
      if tag != 0 && tag % 8 != END_GROUP {
        match ReadPayload(tag, rest)
        case Bad =>
        case Got(f, rest') =>
          PayloadIsWellFormed(tag, rest);
          match apply(v, f)
          case None =>
          case Some(w) => ParsePreserves(w, rest', apply, good);
      }
  }

  // ---------- Each kind of message ----------

  lemma UnknownIsSound(v: Scalars, f: Field)
    requires SoundScalars(v) && UnknownToScalars(f)
    ensures SoundScalars(v.(unknown := v.unknown + [f]))
  {
    hide UnknownToScalars;
  }

  lemma SoundScalarsKept(v: Scalars, f: Field)
    requires SoundScalars(v) && WellFormed(f)
    ensures SoundScalars(ApplyScalars(v, f).value)
  {
    hide Signed64, Signed32, Low32, Unsigned64, EnumOf;
    match f
    case Varint(9, x) =>
      if EnumOf(Signed32(x)).None? {
        EnumIsUnknown(x);
        UnknownIsSound(v, Varint(9, Unsigned64(Signed32(x))));
      }
    case _ =>
      if ApplyScalars(v, f).value.unknown != v.unknown {
        assert NO_SCALARS.unknown + [f] == [f];
        UnknownIsSound(v, f);
      }
  }

  /** An enumerator that does not exist is kept with its sign extended; it stays unknown. */
  lemma EnumIsUnknown(x: uint64)
    requires EnumOf(Signed32(x)).None?
    ensures UnknownToScalars(Varint(9, Unsigned64(Signed32(x))))
    ensures UnknownToArrays(Varint(9, Unsigned64(Signed32(x))))
  {
    SignedRoundTrip(0, Signed32(x));
    var f := Varint(9, Unsigned64(Signed32(x)));
    assert NO_SCALARS.unknown + [f] == [f] && NO_ARRAYS.unknown + [f] == [f];
  }

  lemma ParsedScalars(v: Scalars, b: seq<byte>)
    requires SoundScalars(v)
    ensures var r := SubMessage(v, b, ApplyScalars); r.Some? ==> SoundScalars(r.value)
  {
    forall w: Scalars, f: Field | SoundScalars(w) && WellFormed(f) ensures SoundScalars(ApplyScalars(w, f).value) {
      SoundScalarsKept(w, f);
    }
    ParsePreserves(v, b, ApplyScalars, SoundScalars);
  }

  lemma {:induction false} SoundEnumsKept(v: Arrays, xs: seq<uint64>)
    requires SoundArrays(v)
    ensures SoundArrays(AddEnums(v, xs))
    decreases |xs|
  {
    if xs != [] {
      SoundEnumKept(v, xs[0]);
      SoundEnumsKept(AddEnum(v, xs[0]), xs[1..]);
    }
  }

  lemma SoundEnumKept(v: Arrays, x: uint64)
    requires SoundArrays(v)
    ensures SoundArrays(AddEnum(v, x))
  {
    if EnumOf(Signed32(x)).None? {
      EnumIsUnknown(x);
    }
  }

  lemma SoundArraysKept(v: Arrays, f: Field)
    requires SoundArrays(v) && WellFormed(f) && ApplyArrays(v, f).Some?
    ensures SoundArrays(ApplyArrays(v, f).value)
  {
    hide Unpack, AddEnum, AddEnums, ApplyPacked;
    assert NO_ARRAYS.unknown + [f] == [f];
    match f
    case Varint(9, x) => SoundEnumKept(v, x);
    case Delimited(n, b) =>
      if 1 <= n <= 6 || 9 <= n <= 10 {
        SoundPackedKept(v, n, b);
      }
    case _ =>
  }

  lemma SoundPackedKept(v: Arrays, num: nat, b: seq<byte>)
    requires (1 <= num <= 6 || 9 <= num <= 10) && SoundArrays(v) && ApplyPacked(v, num, b).Some?
    ensures SoundArrays(ApplyPacked(v, num, b).value)
  {
    hide Unpack, AddEnums, Map, UnknownToArrays;
    if num == 9 {
      SoundEnumsKept(v, Unpack(b, ReadVarint).value);
    }
  }

  lemma ParsedArrays(v: Arrays, b: seq<byte>)
    requires SoundArrays(v)
    ensures var r := SubMessage(v, b, ApplyArrays); r.Some? ==> SoundArrays(r.value)
  {
    forall w: Arrays, f: Field | SoundArrays(w) && WellFormed(f) && ApplyArrays(w, f).Some?
      ensures SoundArrays(ApplyArrays(w, f).value)
    {
      SoundArraysKept(w, f);
    }
    ParsePreserves(v, b, ApplyArrays, SoundArrays);
  }

  /** SoundNested without the bound on the sizes of the sub-messages. */
  predicate ParsedNestedShape(v: Nested) {
    && (v.scalar.Some? ==> SoundScalars(v.scalar.value))
    && (forall w <- v.items :: SoundScalars(w))
    && forall f <- v.unknown :: UnknownToNested(f)
  }

  lemma NestedKept(v: Nested, f: Field)
    requires ParsedNestedShape(v) && WellFormed(f) && ApplyNested(v, f).Some?
    ensures ParsedNestedShape(ApplyNested(v, f).value)
  {
    assert NO_NESTED.unknown + [f] == [f];
    match f
    case Delimited(1, b) => ParsedScalars(OrNew(v.scalar), b);
    case Delimited(2, b) => ParsedScalars(NO_SCALARS, b);
    case _ =>
  }

  lemma ParsedNested(v: Nested, b: seq<byte>)
    requires ParsedNestedShape(v)
    ensures var r := SubMessage(v, b, ApplyNested); r.Some? ==> ParsedNestedShape(r.value)
  {
    forall w: Nested, f: Field | ParsedNestedShape(w) && WellFormed(f) && ApplyNested(w, f).Some?
      ensures ParsedNestedShape(ApplyNested(w, f).value)
    {
      NestedKept(w, f);
    }
    ParsePreserves(v, b, ApplyNested, ParsedNestedShape);
  }

  predicate ParsedShape(v: Message) {
    && (v.payload.TestScalar? ==> SoundScalars(v.payload.scalar))
    && (v.payload.TestArray? ==> SoundArrays(v.payload.arrays))
    && (v.payload.TestNested? ==> ParsedNestedShape(v.payload.nested))
    && forall f <- v.unknown :: UnknownToMessage(f)
  }

  lemma MessageKept(v: Message, f: Field)
    requires ParsedShape(v) && WellFormed(f) && ApplyMessage(v, f).Some?
    ensures ParsedShape(ApplyMessage(v, f).value)
  {
    assert NO_MESSAGE.unknown + [f] == [f];
    match f
    case Delimited(2, b) => ParsedScalars(ScalarPayload(v.payload), b);
    case Delimited(3, b) => ParsedArrays(ArrayPayload(v.payload), b);
    case Delimited(4, b) => ParsedNested(NestedPayload(v.payload), b);
    case _ =>
  }

  lemma ParsedMessage(v: Message, s: seq<byte>)
    requires ParsedShape(v)
    ensures ParseLoop(v, s, ApplyMessage).Done? ==> ParsedShape(ParseLoop(v, s, ApplyMessage).value)
  {
    forall w: Message, f: Field | ParsedShape(w) && WellFormed(f) && ApplyMessage(w, f).Some?
      ensures ParsedShape(ApplyMessage(w, f).value)
    {
      MessageKept(w, f);
    }
    ParsePreserves(v, s, ApplyMessage, ParsedShape);
  }

  // ---------- A short message has short parts ----------

  lemma {:induction false} RecordIsShorter(fs: seq<Field>, f: Field)
    requires f in fs
    ensures |EncodeField(f)| <= |EncodeFields(fs)|
  {
    if f != fs[0] {
      RecordIsShorter(fs[1..], f);
    }
  }

  lemma PartIsShorter(parts: Layout, k: nat, num: nat, b: seq<byte>)
    requires k < |parts| && Delimited(num, b) in parts[k]
    ensures |b| < |EncodeFields(Flatten(parts))|
  {
    RecordIsShorter(parts[k], Delimited(num, b));
    PrefixStep(parts, k);
    PrefixFits(parts, k + 1);
  }

  lemma NestedIsSound(v: Nested)
    requires ParsedNestedShape(v) && Short(SerializeNested(v))
    ensures SoundNested(v)
  {
    var parts := NestedParts(v);
    if v.scalar.Some? {
      assert ScalarsField(1)(v.scalar.value) in parts[0];
      PartIsShorter(parts, 0, 1, SerializeScalars(v.scalar.value));
    }
    forall w | w in v.items ensures StorableScalars(w) {
      var i :| 0 <= i < |v.items| && v.items[i] == w;
      assert parts[1][i] == ScalarsField(2)(w);
      PartIsShorter(parts, 1, 2, SerializeScalars(w));
    }
  }

  lemma MessageIsSound(v: Message)
    requires ParsedShape(v) && Short(SerializeMessage(v))
    ensures SoundMessage(v)
  {
    var parts := MessageParts(v);
    assert parts[1] == PayloadRecords(v.payload);
    match v.payload
    case NotSet =>
    case TestScalar(w) => PartIsShorter(parts, 1, 2, SerializeScalars(w));
    case TestArray(w) => PartIsShorter(parts, 1, 3, SerializeArrays(w));
    case TestNested(w) =>
      PartIsShorter(parts, 1, 4, SerializeNested(w));
      NestedIsSound(w);
  }

  /** Any accepted bytes, canonical or not: the message read, written out and read
      again is the same message (if its own bytes stay below 2^31). */
  lemma ReparseIsStable(s: seq<byte>, v: Message)
    requires ParseLoop(NO_MESSAGE, s, ApplyMessage) == Done(v, true)
    requires Short(SerializeMessage(v))
    ensures ParseLoop(NO_MESSAGE, SerializeMessage(v), ApplyMessage) == Done(v, true)
  {
    ParsedMessage(NO_MESSAGE, s);
    MessageIsSound(v);
    MessageRoundTrip(v);
  }
}
