// The TestScalars message object: ten required fields with has-bits, changed in place.

module HasBits {
  /** A 32-bit has-bits word, lowest bit first. */
  type Word = w: seq<bool> | |w| == 32 witness seq(32, _ => false)

  const NO_BITS: Word := seq(32, _ => false)

  /** Some bit from lo up to hi is on: a test against a mask of consecutive bits. */
  predicate AnyBit(w: Word, lo: nat, hi: nat)
    requires lo <= hi <= 32
  {
    exists i :: lo <= i < hi && w[i]
  }

  /** All of the lowest n bits are on. */
  predicate AllBits(w: Word, n: nat)
    requires n <= 32
  {
    forall i :: 0 <= i < n ==> w[i]
  }

  lemma AllAreOn(w: Word, n: nat)
    requires n <= 32 && AllBits(w, n)
    ensures forall i :: 0 <= i < n ==> w[i]
  {
  }
}

module ScalarsObject {
  import opened Options
  import opened Wire
  import opened HasBits
  import opened MessageSpec
  import opened CodedStreams

  function When<T>(has: bool, x: T): Option<T> { if has then Some(x) else None }

  class TestScalars {
    var hasBits: Word
    var cachedSize: int
    var integer64: int64
    var unsigned64: uint64
    var integer32: int32
    var unsigned32: uint32
    var binary64: uint64
    var binary32: uint32
    var byteArray: seq<byte>
    var characterArray: seq<byte>
    var enumItem: TestEnum
    var logicalItem: bool
    var unknown: seq<Field>

    /** A field whose has-bit is off holds its default. */
    ghost predicate Valid()
      reads this`hasBits, this`integer64, this`unsigned64, this`integer32, this`unsigned32, this`binary64,
            this`binary32, this`byteArray, this`characterArray, this`enumItem, this`logicalItem
    {
      && (!hasBits[0] ==> integer64 == 0) && (!hasBits[1] ==> unsigned64 == 0)
      && (!hasBits[2] ==> integer32 == 0) && (!hasBits[3] ==> unsigned32 == 0)
      && (!hasBits[4] ==> binary64 == 0) && (!hasBits[5] ==> binary32 == 0)
      && (!hasBits[6] ==> byteArray == []) && (!hasBits[7] ==> characterArray == [])
      && (!hasBits[8] ==> enumItem == ITEM_A) && (!hasBits[9] ==> !logicalItem)
    }

    /** The message this object stands for. */
    ghost function Value(): Scalars
      reads this`hasBits, this`integer64, this`unsigned64, this`integer32, this`unsigned32, this`binary64,
            this`binary32, this`byteArray, this`characterArray, this`enumItem, this`logicalItem, this`unknown
    {
      Scalars(When(hasBits[0], integer64), When(hasBits[1], unsigned64),
              When(hasBits[2], integer32), When(hasBits[3], unsigned32),
              When(hasBits[4], binary64), When(hasBits[5], binary32),
              When(hasBits[6], byteArray), When(hasBits[7], characterArray),
              When(hasBits[8], enumItem), When(hasBits[9], logicalItem), unknown)
    }

    /** Every field as the constructor leaves it. */
    ghost predicate Fresh()
      reads this
    {
      && hasBits == NO_BITS && integer64 == 0 && unsigned64 == 0 && integer32 == 0 && unsigned32 == 0
      && binary64 == 0 && binary32 == 0 && byteArray == [] && characterArray == []
      && enumItem == ITEM_A && !logicalItem && unknown == []
    }

    constructor ()
      ensures Fresh() && Valid() && Value() == NO_SCALARS
    {
      hasBits, cachedSize := NO_BITS, 0;
      integer64, unsigned64, integer32, unsigned32, binary64, binary32 := 0, 0, 0, 0, 0, 0;
      byteArray, characterArray, enumItem, logicalItem, unknown := [], [], ITEM_A, false, [];
    }

    lemma FreshIsNew()
      requires Fresh()
      ensures Valid() && Value() == NO_SCALARS
    {
    }

    /** Nothing to do when the has-bits of the first eight fields are all off. */
    method ClearLowFields()
      requires Valid()
      modifies this`integer64, this`unsigned64, this`integer32, this`unsigned32
      modifies this`binary64, this`binary32, this`byteArray, this`characterArray
      ensures integer64 == 0 && unsigned64 == 0 && integer32 == 0 && unsigned32 == 0
      ensures binary64 == 0 && binary32 == 0 && byteArray == [] && characterArray == []
    {
      if AnyBit(hasBits, 0, 8) {
        integer64, unsigned64, integer32, unsigned32, binary64 := 0, 0, 0, 0, 0;
        binary32 := 0;
        if hasBits[6] {
          byteArray := [];
        }
        if hasBits[7] {
          characterArray := [];
        }
      }
    }

    /** The masked clear skips whole groups of fields whose has-bits are all off,
        and still leaves what a fresh object holds. */
    method Clear()
      requires Valid()
      modifies this
      ensures Fresh() && Valid() && Value() == NO_SCALARS
    {
      ClearLowFields();
      if AnyBit(hasBits, 8, 10) {
        enumItem, logicalItem := ITEM_A, false;
      }
      hasBits := NO_BITS;
      if unknown != [] {
        unknown := [];
      }
      FreshIsNew();
    }

    // ---------- Setters ----------

    method SetInteger64(x: int64)
      requires Valid()
      modifies this`hasBits, this`integer64
      ensures Valid() && Value() == old(Value()).(integer64 := Some(x))
    {
      hasBits := hasBits[0 := true];
      integer64 := x;
    }

    method SetUnsigned64(x: uint64)
      requires Valid()
      modifies this`hasBits, this`unsigned64
      ensures Valid() && Value() == old(Value()).(unsigned64 := Some(x))
    {
      hasBits := hasBits[1 := true];
      unsigned64 := x;
    }

    method SetInteger32(x: int32)
      requires Valid()
      modifies this`hasBits, this`integer32
      ensures Valid() && Value() == old(Value()).(integer32 := Some(x))
    {
      hasBits := hasBits[2 := true];
      integer32 := x;
    }

    method SetUnsigned32(x: uint32)
      requires Valid()
      modifies this`hasBits, this`unsigned32
      ensures Valid() && Value() == old(Value()).(unsigned32 := Some(x))
    {
      hasBits := hasBits[3 := true];
      unsigned32 := x;
    }

    method SetBinary64(x: uint64)
      requires Valid()
      modifies this`hasBits, this`binary64
      ensures Valid() && Value() == old(Value()).(binary64 := Some(x))
    {
      hasBits := hasBits[4 := true];
      binary64 := x;
    }

    method SetBinary32(x: uint32)
      requires Valid()
      modifies this`hasBits, this`binary32
      ensures Valid() && Value() == old(Value()).(binary32 := Some(x))
    {
      hasBits := hasBits[5 := true];
      binary32 := x;
    }

    method SetByteArray(x: seq<byte>)
      requires Valid()
      modifies this`hasBits, this`byteArray
      ensures Valid() && Value() == old(Value()).(byteArray := Some(x))
    {
      hasBits := hasBits[6 := true];
      byteArray := x;
    }

    method SetCharacterArray(x: seq<byte>)
      requires Valid()
      modifies this`hasBits, this`characterArray
      ensures Valid() && Value() == old(Value()).(characterArray := Some(x))
    {
      hasBits := hasBits[7 := true];
      characterArray := x;
    }

    method SetEnumItem(x: TestEnum)
      requires Valid()
      modifies this`hasBits, this`enumItem
      ensures Valid() && Value() == old(Value()).(enumItem := Some(x))
    {
      hasBits := hasBits[8 := true];
      enumItem := x;
    }

    method SetLogicalItem(x: bool)
      requires Valid()
      modifies this`hasBits, this`logicalItem
      ensures Valid() && Value() == old(Value()).(logicalItem := Some(x))
    {
      hasBits := hasBits[9 := true];
      logicalItem := x;
    }

    method AddUnknown(f: Field)
      requires Valid()
      modifies this`unknown
      ensures Valid() && Value() == old(Value()).(unknown := old(Value()).unknown + [f])
    {
      unknown := unknown + [f];
    }

    // ---------- Merging ----------

    method MergeInteger64(from: TestScalars)
      requires from != this && Valid()
      modifies this`hasBits, this`integer64
      ensures Valid() && Value() == old(Value()).(integer64 := Later(old(Value()).integer64, from.Value().integer64))
    {
      if from.hasBits[0] {
        SetInteger64(from.integer64);
      }
    }

    method MergeUnsigned64(from: TestScalars)
      requires from != this && Valid()
      modifies this`hasBits, this`unsigned64
      ensures Valid() && Value() == old(Value()).(unsigned64 := Later(old(Value()).unsigned64, from.Value().unsigned64))
    {
      if from.hasBits[1] {
        SetUnsigned64(from.unsigned64);
      }
    }

    method MergeInteger32(from: TestScalars)
      requires from != this && Valid()
      modifies this`hasBits, this`integer32
      ensures Valid() && Value() == old(Value()).(integer32 := Later(old(Value()).integer32, from.Value().integer32))
    {
      if from.hasBits[2] {
        SetInteger32(from.integer32);
      }
    }

    method MergeUnsigned32(from: TestScalars)
      requires from != this && Valid()
      modifies this`hasBits, this`unsigned32
      ensures Valid() && Value() == old(Value()).(unsigned32 := Later(old(Value()).unsigned32, from.Value().unsigned32))
    {
      if from.hasBits[3] {
        SetUnsigned32(from.unsigned32);
      }
    }

    method MergeBinary64(from: TestScalars)
      requires from != this && Valid()
      modifies this`hasBits, this`binary64
      ensures Valid() && Value() == old(Value()).(binary64 := Later(old(Value()).binary64, from.Value().binary64))
    {
      if from.hasBits[4] {
        SetBinary64(from.binary64);
      }
    }

    method MergeBinary32(from: TestScalars)
      requires from != this && Valid()
      modifies this`hasBits, this`binary32
      ensures Valid() && Value() == old(Value()).(binary32 := Later(old(Value()).binary32, from.Value().binary32))
    {
      if from.hasBits[5] {
        SetBinary32(from.binary32);
      }
    }

    method MergeByteArray(from: TestScalars)
      requires from != this && Valid()
      modifies this`hasBits, this`byteArray
      ensures Valid() && Value() == old(Value()).(byteArray := Later(old(Value()).byteArray, from.Value().byteArray))
    {
      if from.hasBits[6] {
        SetByteArray(from.byteArray);
      }
    }

    method MergeCharacterArray(from: TestScalars)
      requires from != this && Valid()
      modifies this`hasBits, this`characterArray
      ensures Valid()
      ensures Value() ==
        old(Value()).(characterArray := Later(old(Value()).characterArray, from.Value().characterArray))
    {
      if from.hasBits[7] {
        SetCharacterArray(from.characterArray);
      }
    }

    method MergeEnumItem(from: TestScalars)
      requires from != this && Valid()
      modifies this`hasBits, this`enumItem
      ensures Valid() && Value() == old(Value()).(enumItem := Later(old(Value()).enumItem, from.Value().enumItem))
    {
      if from.hasBits[8] {
        SetEnumItem(from.enumItem);
      }
    }

    method MergeLogicalItem(from: TestScalars)
      requires from != this && Valid()
      modifies this`hasBits, this`logicalItem
      ensures Valid()
      ensures Value() == old(Value()).(logicalItem := Later(old(Value()).logicalItem, from.Value().logicalItem))
    {
      if from.hasBits[9] {
        SetLogicalItem(from.logicalItem);
      }
    }

    /** v with the first eight fields of b where b has them. */
    ghost static function LowFields(v: Scalars, b: Scalars): Scalars {
      MergeScalars(v, b).(enumItem := v.enumItem, logicalItem := v.logicalItem, unknown := v.unknown)
    }

    method MergeLowFields(from: TestScalars)
      requires from != this && Valid()
      modifies this
      ensures Valid() && Value() == LowFields(old(Value()), from.Value())
    {
      hide Valid, Value;
      MergeInteger64(from);
      MergeUnsigned64(from);
      MergeInteger32(from);
      MergeUnsigned32(from);
      MergeBinary64(from);
      MergeBinary32(from);
      MergeByteArray(from);
      MergeCharacterArray(from);
    }

    lemma NothingPresent(lo: nat, hi: nat)
      requires lo <= hi <= 32 && !AnyBit(hasBits, lo, hi)
      ensures (lo, hi) == (0, 8) ==> forall v: Scalars :: LowFields(v, Value()) == v
      ensures (lo, hi) == (8, 16) ==> Value().enumItem == None && Value().logicalItem == None
    {
    }

    method MergeFrom(from: TestScalars)
      requires from != this && Valid() && from.Valid()
      modifies this
      ensures Valid() && Value() == MergeScalars(old(Value()), from.Value())
    {
      hide Valid, Value, AnyBit;
      ghost var v, b := Value(), from.Value();
      if AnyBit(from.hasBits, 0, 8) {
        MergeLowFields(from);
      } else {
        from.NothingPresent(0, 8);
      }
      assert Value() == LowFields(v, b);
      if AnyBit(from.hasBits, 8, 16) {
        MergeEnumItem(from);
        MergeLogicalItem(from);
      } else {
        from.NothingPresent(8, 16);
      }
      assert from.Value() == b;
      assert Value() == MergeScalars(v, b).(unknown := v.unknown);
      MergeUnknown(from);
    }

    method MergeUnknown(from: TestScalars)
      requires from != this && Valid()
      modifies this`unknown
      ensures Valid() && Value() == old(Value()).(unknown := old(Value()).unknown + from.Value().unknown)
    {
      assert unknown + [] == unknown;
      if from.unknown != [] {
        unknown := unknown + from.unknown;
      }
    }

    // ---------- Size and serialisation ----------

    /** The records this object is written as, field by field: has-bits decide. */
    lemma Describe() returns (parts: Layout)
      ensures |parts| == 11 && EncodeFields(Flatten(parts)) == SerializeScalars(Value())
      ensures parts[0] == if hasBits[0] then [Int64Field(1)(integer64)] else []
      ensures parts[1] == if hasBits[1] then [UInt64Field(2)(unsigned64)] else []
      ensures parts[2] == if hasBits[2] then [Int32Field(3)(integer32)] else []
      ensures parts[3] == if hasBits[3] then [UInt32Field(4)(unsigned32)] else []
      ensures parts[4] == if hasBits[4] then [DoubleField(5)(binary64)] else []
      ensures parts[5] == if hasBits[5] then [FloatField(6)(binary32)] else []
      ensures parts[6] == if hasBits[6] then [BytesField(7)(byteArray)] else []
      ensures parts[7] == if hasBits[7] then [BytesField(8)(characterArray)] else []
      ensures parts[8] == if hasBits[8] then [EnumField(9)(enumItem)] else []
      ensures parts[9] == if hasBits[9] then [BoolField(10)(logicalItem)] else []
      ensures parts[10] == unknown
    {
      parts := ScalarsParts(Value());
    }

    /** The lengths of the records, and that the strings are short. */
    lemma Lengths()
      requires Valid() && SoundScalars(Value())
      ensures |byteArray| < TWO_31 && |characterArray| < TWO_31
      ensures |EncodeField(Int64Field(1)(integer64))| == 1 + VarintSize(Unsigned64(integer64))
      ensures |EncodeField(UInt64Field(2)(unsigned64))| == 1 + VarintSize(unsigned64)
      ensures |EncodeField(Int32Field(3)(integer32))| == 1 + VarintSize(Unsigned64(integer32))
      ensures |EncodeField(UInt32Field(4)(unsigned32))| == 1 + VarintSize(unsigned32)
      ensures |EncodeField(DoubleField(5)(binary64))| == 1 + 8
      ensures |EncodeField(FloatField(6)(binary32))| == 1 + 4
      ensures |EncodeField(BytesField(7)(byteArray))| == 1 + DelimitedSize(byteArray)
      ensures |EncodeField(BytesField(8)(characterArray))| == 1 + DelimitedSize(characterArray)
      ensures |EncodeField(EnumField(9)(enumItem))| == 1 + VarintSize(Unsigned64(EnumNumber(enumItem)))
      ensures |EncodeField(BoolField(10)(logicalItem))| == 1 + 1
    {
      FieldLength(Int64Field(1)(integer64));
      FieldLength(UInt64Field(2)(unsigned64));
      FieldLength(Int32Field(3)(integer32));
      FieldLength(UInt32Field(4)(unsigned32));
      FieldLength(DoubleField(5)(binary64));
      FieldLength(FloatField(6)(binary32));
      FieldLength(BytesField(7)(byteArray));
      FieldLength(BytesField(8)(characterArray));
      FieldLength(EnumField(9)(enumItem));
      FieldLength(BoolField(10)(logicalItem));
    }

    method RequiredFieldsByteSizeFallback(ghost parts: Layout) returns (total: nat)
      requires Valid() && SoundScalars(Value())
      requires |parts| == 11
      requires parts[0] == if hasBits[0] then [Int64Field(1)(integer64)] else []
      requires parts[1] == if hasBits[1] then [UInt64Field(2)(unsigned64)] else []
      requires parts[2] == if hasBits[2] then [Int32Field(3)(integer32)] else []
      requires parts[3] == if hasBits[3] then [UInt32Field(4)(unsigned32)] else []
      requires parts[4] == if hasBits[4] then [DoubleField(5)(binary64)] else []
      requires parts[5] == if hasBits[5] then [FloatField(6)(binary32)] else []
      requires parts[6] == if hasBits[6] then [BytesField(7)(byteArray)] else []
      requires parts[7] == if hasBits[7] then [BytesField(8)(characterArray)] else []
      requires parts[8] == if hasBits[8] then [EnumField(9)(enumItem)] else []
      requires parts[9] == if hasBits[9] then [BoolField(10)(logicalItem)] else []
      ensures total == |Prefix(parts, 10)|
    {
      hide *;
      Lengths();
      PrefixEnds(parts);
      total := 0;
      total := SizeOptional(
        hasBits[0], 1 + VarintSize(Unsigned64(integer64)), total, Int64Field(1)(integer64), parts, 0);
      total := SizeOptional(hasBits[1], 1 + VarintSize(unsigned64), total, UInt64Field(2)(unsigned64), parts, 1);
      total := SizeOptional(
        hasBits[2], 1 + VarintSize(Unsigned64(integer32)), total, Int32Field(3)(integer32), parts, 2);
      total := SizeOptional(hasBits[3], 1 + VarintSize(unsigned32), total, UInt32Field(4)(unsigned32), parts, 3);
      total := SizeOptional(hasBits[4], 1 + 8, total, DoubleField(5)(binary64), parts, 4);
      total := SizeOptional(hasBits[5], 1 + 4, total, FloatField(6)(binary32), parts, 5);
      total := SizeOptional(hasBits[6], 1 + DelimitedSize(byteArray), total, BytesField(7)(byteArray), parts, 6);
      total := SizeOptional(
        hasBits[7], 1 + DelimitedSize(characterArray), total, BytesField(8)(characterArray), parts, 7);
      total := SizeOptional(
        hasBits[8], 1 + VarintSize(Unsigned64(EnumNumber(enumItem))), total, EnumField(9)(enumItem), parts, 8);
      total := SizeOptional(hasBits[9], 1 + 1, total, BoolField(10)(logicalItem), parts, 9);
    }

    /** All required fields present: no has-bit is looked at one by one. */
    method RequiredFieldsByteSize(ghost parts: Layout) returns (total: nat)
      requires Valid() && SoundScalars(Value()) && AllBits(hasBits, 10)
      requires |parts| == 11
      requires parts[0] == if hasBits[0] then [Int64Field(1)(integer64)] else []
      requires parts[1] == if hasBits[1] then [UInt64Field(2)(unsigned64)] else []
      requires parts[2] == if hasBits[2] then [Int32Field(3)(integer32)] else []
      requires parts[3] == if hasBits[3] then [UInt32Field(4)(unsigned32)] else []
      requires parts[4] == if hasBits[4] then [DoubleField(5)(binary64)] else []
      requires parts[5] == if hasBits[5] then [FloatField(6)(binary32)] else []
      requires parts[6] == if hasBits[6] then [BytesField(7)(byteArray)] else []
      requires parts[7] == if hasBits[7] then [BytesField(8)(characterArray)] else []
      requires parts[8] == if hasBits[8] then [EnumField(9)(enumItem)] else []
      requires parts[9] == if hasBits[9] then [BoolField(10)(logicalItem)] else []
      ensures total == |Prefix(parts, 10)|
    {
      hide *;
      Lengths();
      PrefixEnds(parts);
      AllAreOn(hasBits, 10);
      total := 0;
      PartBytes(parts, 0, true, Int64Field(1)(integer64));
      total := total + 1 + VarintSize(Unsigned64(integer64));
      PartBytes(parts, 1, true, UInt64Field(2)(unsigned64));
      total := total + 1 + VarintSize(unsigned64);
      PartBytes(parts, 2, true, Int32Field(3)(integer32));
      total := total + 1 + VarintSize(Unsigned64(integer32));
      PartBytes(parts, 3, true, UInt32Field(4)(unsigned32));
      total := total + 1 + VarintSize(unsigned32);
      PartBytes(parts, 4, true, DoubleField(5)(binary64));
      total := total + 1 + 8;
      PartBytes(parts, 5, true, FloatField(6)(binary32));
      total := total + 1 + 4;
      PartBytes(parts, 6, true, BytesField(7)(byteArray));
      total := total + 1 + DelimitedSize(byteArray);
      PartBytes(parts, 7, true, BytesField(8)(characterArray));
      total := total + 1 + DelimitedSize(characterArray);
      PartBytes(parts, 8, true, EnumField(9)(enumItem));
      total := total + 1 + VarintSize(Unsigned64(EnumNumber(enumItem)));
      PartBytes(parts, 9, true, BoolField(10)(logicalItem));
      total := total + 1 + 1;
    }

    /** Both paths count exactly the bytes of the serialised message and leave the
        count where the enclosing message will look for it. */
    method ByteSize() returns (total: nat)
      requires Valid() && SoundScalars(Value())
      modifies this`cachedSize
      ensures total == cachedSize == |SerializeScalars(Value())|
    {
      hide *;
      ghost var parts := Describe();
      if AllBits(hasBits, 10) {
        total := RequiredFieldsByteSize(parts);
      } else {
        total := RequiredFieldsByteSizeFallback(parts);
      }
      PrefixStep(parts, 10);
      PrefixEnds(parts);
      if unknown != [] {
        total := total + |EncodeFields(unknown)|;
      }
      cachedSize := total;
    }

    method SerializeWithCachedSizes(output: CodedOutputStream)
      requires Valid()
      modifies output
      ensures output.written == old(output.written) + SerializeScalars(Value())
    {
      hide *;
      ghost var parts := Describe();
      ghost var before := output.written;
      PrefixEnds(parts);
      output.HoldsNothing();
      WriteOptional(hasBits[0], Int64Field(1)(integer64), output, before, parts, 0);
      WriteOptional(hasBits[1], UInt64Field(2)(unsigned64), output, before, parts, 1);
      WriteOptional(hasBits[2], Int32Field(3)(integer32), output, before, parts, 2);
      WriteOptional(hasBits[3], UInt32Field(4)(unsigned32), output, before, parts, 3);
      WriteOptional(hasBits[4], DoubleField(5)(binary64), output, before, parts, 4);
      WriteOptional(hasBits[5], FloatField(6)(binary32), output, before, parts, 5);
      WriteOptional(hasBits[6], BytesField(7)(byteArray), output, before, parts, 6);
      WriteOptional(hasBits[7], BytesField(8)(characterArray), output, before, parts, 7);
      WriteOptional(hasBits[8], EnumField(9)(enumItem), output, before, parts, 8);
      WriteOptional(hasBits[9], BoolField(10)(logicalItem), output, before, parts, 9);
      WriteUnknown(unknown, output, before, parts, 10);
    }

    method WriteTextsToArray(target: array<byte>, pos: nat, ghost before: seq<byte>, ghost at: nat, ghost parts: Layout)
      returns (end: nat)
      requires |parts| == 11 && at + |EncodeFields(Flatten(parts))| <= target.Length
      requires parts[6] == if hasBits[6] then [BytesField(7)(byteArray)] else []
      requires parts[7] == if hasBits[7] then [BytesField(8)(characterArray)] else []
      requires parts[8] == if hasBits[8] then [EnumField(9)(enumItem)] else []
      requires parts[9] == if hasBits[9] then [BoolField(10)(logicalItem)] else []
      requires WrittenTo(target, before, at, pos, Prefix(parts, 6))
      modifies target
      ensures WrittenTo(target, before, at, end, Prefix(parts, 10))
    {
      hide *;
      end := WriteOptionalToArray(hasBits[6], BytesField(7)(byteArray), target, pos, before, at, parts, 6);
      end := WriteOptionalToArray(hasBits[7], BytesField(8)(characterArray), target, end, before, at, parts, 7);
      end := WriteOptionalToArray(hasBits[8], EnumField(9)(enumItem), target, end, before, at, parts, 8);
      end := WriteOptionalToArray(hasBits[9], BoolField(10)(logicalItem), target, end, before, at, parts, 9);
    }

    /** The array serialiser writes the same bytes at the given position and touches nothing else. */
    method SerializeToArray(target: array<byte>, at: nat) returns (end: nat)
      requires Valid() && at + |SerializeScalars(Value())| <= target.Length
      modifies target
      ensures WrittenTo(target, old(target[..]), at, end, SerializeScalars(Value()))
    {
      hide *;
      ghost var parts := Describe();
      ghost var before := target[..];
      PrefixEnds(parts);
      WrittenNothing(target, at);
      end := WriteOptionalToArray(hasBits[0], Int64Field(1)(integer64), target, at, before, at, parts, 0);
      end := WriteOptionalToArray(hasBits[1], UInt64Field(2)(unsigned64), target, end, before, at, parts, 1);
      end := WriteOptionalToArray(hasBits[2], Int32Field(3)(integer32), target, end, before, at, parts, 2);
      end := WriteOptionalToArray(hasBits[3], UInt32Field(4)(unsigned32), target, end, before, at, parts, 3);
      end := WriteOptionalToArray(hasBits[4], DoubleField(5)(binary64), target, end, before, at, parts, 4);
      end := WriteOptionalToArray(hasBits[5], FloatField(6)(binary32), target, end, before, at, parts, 5);
      end := WriteTextsToArray(target, end, before, at, parts);
      end := WriteUnknownToArray(unknown, target, end, before, at, parts, 10);
    }

    // ---------- Parsing ----------

    /** What the case of a field does with the value it has read. */
    method Store(f: Field)
      requires Valid()
      modifies this
      ensures Valid() && ApplyScalars(old(Value()), f) == Some(Value())
    {
      hide Valid, Value;
      match f
      case Varint(1, x) => SetInteger64(Signed64(x));
      case Varint(2, x) => SetUnsigned64(x);
      case Varint(3, x) => SetInteger32(Signed32(x));
      case Varint(4, x) => SetUnsigned32(Low32(x));
      case Fixed64(5, w) => SetBinary64(w);
      case Fixed32(6, w) => SetBinary32(w);
      case Delimited(7, b) => SetByteArray(b);
      case Delimited(8, b) => SetCharacterArray(b);
      case Varint(9, x) =>
        var e := EnumOf(Signed32(x));
        if e.Some? {
          SetEnumItem(e.value);
        } else {
          AddUnknown(Varint(9, Unsigned64(Signed32(x))));
        }
      case Varint(10, x) => SetLogicalItem(x != 0);
      case _ => AddUnknown(f);
    }

    /** The tag each field expects next (0 after the last field): on a match the
        parser jumps to that field without going back to the top of the loop. */
    static function NextTag(tag: uint32): byte {
      if tag == 8 then 16 else if tag == 16 then 24 else if tag == 24 then 32
      else if tag == 32 then 41 else if tag == 41 then 53 else if tag == 53 then 58
      else if tag == 58 then 66 else if tag == 66 then 72 else if tag == 72 then 80 else 0
    }

    static predicate KnownTag(tag: uint32) { tag == 80 || NextTag(tag) != 0 }

    /** The parser with its jumps accepts the same bytes as the plain loop and ends in
        the same message, at the same kind of end. */
    method MergePartialFromCodedStream(input: CodedInputStream) returns (ok: bool)
      requires Valid()
      modifies this, input
      ensures Valid()
      ensures match ParseLoop(old(Value()), old(input.rest), ApplyScalars)
              case Failure => !ok
              case Done(v, atEnd) => ok && Value() == v && input.legitimateEnd == atEnd
    {
      hide Valid, Value, ApplyScalars, Wire.ReadTag, ReadPayload;
      ghost var target := ParseLoop(Value(), input.rest, ApplyScalars);
      var jump: byte := 0;
      assert [] + input.rest == input.rest;
      while true
        invariant Valid()
        invariant jump != 0 ==> KnownTag(jump)
        invariant ParseLoop(Value(), Pending(jump) + input.rest, ApplyScalars) == target
        decreases |Pending(jump)| + |input.rest|
      {
        var tag: uint32 := jump;
        if jump == 0 {
          assert [] + input.rest == input.rest;
          tag := input.ReadTag();
        } else {
          JumpedTag(jump, input.rest);
        }
        if KnownTag(tag) {
          var f := input.ReadField(tag);
          if f.None? {
            return false;
          }
          Store(f.value);
          jump := 0;
          assert [] + input.rest == input.rest;
          if tag == 80 {
            var done := input.ExpectAtEnd();
            if done {
              return true;
            }
          } else {
            var found := input.ExpectTag(NextTag(tag));
            if found {
              jump := NextTag(tag);
            }
          }
        } else {
          if tag == 0 || tag % 8 == END_GROUP {
            return true;
          }
          var f := input.ReadField(tag);
          if f.None? {
            return false;
          }
          Unrecognised(Value(), f.value);
          AddUnknown(f.value);
          jump := 0;
          assert [] + input.rest == input.rest;
        }
      }
    }

    static lemma Unrecognised(v: Scalars, f: Field)
      requires TagOf(f) < TWO_32 && !KnownTag(TagOf(f))
      ensures ApplyScalars(v, f) == Some(v.(unknown := v.unknown + [f]))
    {
    }
  }
}
