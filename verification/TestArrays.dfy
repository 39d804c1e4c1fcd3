// The TestArrays message object: ten repeated fields, changed in place.

module ArraysObject {
  import opened Options
  import opened Wire
  import opened MessageSpec
  import opened CodedStreams

  // ---------- One repeated field ----------

  lemma MapGrows<T>(enc: T -> Field, xs: seq<T>, i: nat)
    requires i < |xs|
    ensures EncodeFields(Map(enc, xs[..i + 1])) == EncodeFields(Map(enc, xs[..i])) + EncodeField(enc(xs[i]))
  {
    assert Map(enc, xs[..i + 1]) == Map(enc, xs[..i]) + [enc(xs[i])];
    EncodeFieldsAppend(Map(enc, xs[..i]), [enc(xs[i])]);
    assert EncodeFields([enc(xs[i])]) == EncodeField(enc(xs[i])) + EncodeFields([]);
  }

  lemma {:induction false} MapFits<T>(enc: T -> Field, xs: seq<T>, i: nat)
    requires i <= |xs|
    ensures |EncodeFields(Map(enc, xs[..i]))| <= |EncodeFields(Map(enc, xs))|
    decreases |xs| - i
  {
    if i == |xs| {
      assert xs[..i] == xs;
    } else {
      MapGrows(enc, xs, i);
      MapFits(enc, xs, i + 1);
    }
  }

  predicate Countable(f: Field) {
    TagOf(f) < 128 && !f.Group? && (f.Delimited? ==> |f.payload| < TWO_31)
  }

  /** One tag byte for each element, plus the data sizes added up in a loop. */
  method RepeatedSize<T>(xs: seq<T>, enc: T -> Field) returns (size: nat)
    requires forall x <- xs :: Countable(enc(x))
    ensures size == |EncodeFields(Map(enc, xs))|
  {
    var dataSize := 0;
    for i := 0 to |xs|
      invariant dataSize + i == |EncodeFields(Map(enc, xs[..i]))|
    {
      MapGrows(enc, xs, i);
      FieldLength(enc(xs[i]));
      dataSize := dataSize + PayloadSize(enc(xs[i]));
    }
    assert xs[..|xs|] == xs;
    size := 1 * |xs| + dataSize;
  }

  /** Elements of one fixed size need no loop. */
  lemma {:induction false} FixedSize<T>(xs: seq<T>, enc: T -> Field, n: nat)
    requires forall x <- xs :: Countable(enc(x)) && PayloadSize(enc(x)) == n
    ensures n == 8 ==> |EncodeFields(Map(enc, xs))| == |xs| + 8 * |xs|
    ensures n == 4 ==> |EncodeFields(Map(enc, xs))| == |xs| + 4 * |xs|
    ensures n == 1 ==> |EncodeFields(Map(enc, xs))| == |xs| + 1 * |xs|
  {
    hide PayloadSize, Countable;
    if xs == [] {
      EncodeNone();
    } else {
      var i := |xs| - 1;
      MapGrows(enc, xs, i);
      assert xs[..i + 1] == xs;
      FixedRecord(enc(xs[i]), n);
      FixedSize(xs[..i], enc, n);
    }
  }

  lemma FixedRecord(f: Field, n: nat)
    requires Countable(f) && PayloadSize(f) == n
    ensures |EncodeField(f)| == 1 + n
  {
    FieldLength(f);
  }

  method WriteRepeated<T>(xs: seq<T>, enc: T -> Field, output: CodedOutputStream,
                          ghost before: seq<byte>, ghost parts: Layout, ghost k: nat)
    requires k < |parts| && parts[k] == Map(enc, xs)
    requires output.Holds(before, Prefix(parts, k))
    modifies output
    ensures output.Holds(before, Prefix(parts, k + 1))
  {
    hide EncodeField, EncodeFields, Prefix;
    PrefixStep(parts, k);
    ghost var start := output.written;
    EncodeNone();
    for i := 0 to |xs|
      invariant output.written == start + EncodeFields(Map(enc, xs[..i]))
    {
      MapGrows(enc, xs, i);
      output.WriteField(enc(xs[i]));
    }
    assert xs[..|xs|] == xs;
  }

  method WriteRepeatedToArray<T>(
    xs: seq<T>, enc: T -> Field, target: array<byte>, pos: nat,
    ghost before: seq<byte>, ghost at: nat, ghost parts: Layout, ghost k: nat) returns (end: nat)
    requires k < |parts| && parts[k] == Map(enc, xs)
    requires at + |EncodeFields(Flatten(parts))| <= target.Length
    requires WrittenTo(target, before, at, pos, Prefix(parts, k))
    modifies target
    ensures WrittenTo(target, before, at, end, Prefix(parts, k + 1))
  {
    hide EncodeField, EncodeFields, Prefix;
    PrefixStep(parts, k);
    PrefixFits(parts, k + 1);
    ghost var mid := target[..];
    EncodeNone();
    end := pos;
    for i := 0 to |xs|
      invariant WrittenTo(target, mid, pos, end, EncodeFields(Map(enc, xs[..i])))
    {
      MapGrows(enc, xs, i);
      MapFits(enc, xs, i + 1);
      ghost var s, p := target[..], end;
      end := WriteToArray(EncodeField(enc(xs[i])), target, end);
      WrittenMore(target[..], s, mid, pos, p, EncodeFields(Map(enc, xs[..i])), end, EncodeField(enc(xs[i])));
    }
    assert xs[..|xs|] == xs;
    WrittenMore(target[..], mid, before, at, pos, Prefix(parts, k), end, EncodeFields(Map(enc, xs)));
  }

  lemma EncodeNone()
    ensures EncodeFields([]) == []
  {
  }

  lemma NoneMapped<T>(enc: T -> Field)
    ensures EncodeFields(Map(enc, [])) == []
  {
  }

  class TestArrays {
    var cachedSize: int
    var integer64: seq<int64>
    var unsigned64: seq<uint64>
    var integer32: seq<int32>
    var unsigned32: seq<uint32>
    var binary64: seq<uint64>
    var binary32: seq<uint32>
    var byteArray: seq<seq<byte>>
    var characterArray: seq<seq<byte>>
    var enumItem: seq<TestEnum>
    var logicalItem: seq<bool>
    var unknown: seq<Field>

    ghost function Value(): Arrays
      reads this`integer64, this`unsigned64, this`integer32, this`unsigned32, this`binary64, this`binary32,
            this`byteArray, this`characterArray, this`enumItem, this`logicalItem, this`unknown
    {
      Arrays(integer64, unsigned64, integer32, unsigned32, binary64, binary32,
             byteArray, characterArray, enumItem, logicalItem, unknown)
    }

    constructor ()
      ensures Value() == NO_ARRAYS
    {
      cachedSize := 0;
      integer64, unsigned64, integer32, unsigned32, binary64, binary32 := [], [], [], [], [], [];
      byteArray, characterArray, enumItem, logicalItem, unknown := [], [], [], [], [];
    }

    method Clear()
      modifies this
      ensures Value() == NO_ARRAYS
    {
      integer64, unsigned64, integer32, unsigned32, binary64, binary32 := [], [], [], [], [], [];
      byteArray, characterArray, enumItem, logicalItem := [], [], [], [];
      if unknown != [] {
        unknown := [];
      }
    }

    method MergeFrom(from: TestArrays)
      requires from != this
      modifies this
      ensures Value() == MergeArrays(old(Value()), from.Value())
    {
      MergeNumbers(from);
      byteArray := byteArray + from.byteArray;
      characterArray := characterArray + from.characterArray;
      enumItem := enumItem + from.enumItem;
      logicalItem := logicalItem + from.logicalItem;
      assert unknown + [] == unknown;
      if from.unknown != [] {
        unknown := unknown + from.unknown;
      }
    }

    method MergeNumbers(from: TestArrays)
      requires from != this
      modifies this`integer64, this`unsigned64, this`integer32, this`unsigned32, this`binary64, this`binary32
      ensures integer64 == old(integer64) + from.integer64 && unsigned64 == old(unsigned64) + from.unsigned64
      ensures integer32 == old(integer32) + from.integer32 && unsigned32 == old(unsigned32) + from.unsigned32
      ensures binary64 == old(binary64) + from.binary64 && binary32 == old(binary32) + from.binary32
    {
      integer64 := integer64 + from.integer64;
      unsigned64 := unsigned64 + from.unsigned64;
      integer32 := integer32 + from.integer32;
      unsigned32 := unsigned32 + from.unsigned32;
      binary64 := binary64 + from.binary64;
      binary32 := binary32 + from.binary32;
    }

    // ---------- Size and serialisation ----------

    lemma Describe() returns (parts: Layout)
      ensures |parts| == 11 && EncodeFields(Flatten(parts)) == SerializeArrays(Value())
      ensures parts[0] == Map(Int64Field(1), integer64)
      ensures parts[1] == Map(UInt64Field(2), unsigned64)
      ensures parts[2] == Map(Int32Field(3), integer32)
      ensures parts[3] == Map(UInt32Field(4), unsigned32)
      ensures parts[4] == Map(DoubleField(5), binary64)
      ensures parts[5] == Map(FloatField(6), binary32)
      ensures parts[6] == Map(BytesField(7), byteArray)
      ensures parts[7] == Map(BytesField(8), characterArray)
      ensures parts[8] == Map(EnumField(9), enumItem)
      ensures parts[9] == Map(BoolField(10), logicalItem)
      ensures parts[10] == unknown
    {
      parts := ArraysParts(Value());
    }

    lemma Sizes()
      requires SoundArrays(Value())
      ensures forall x <- integer64 :: Countable(Int64Field(1)(x))
      ensures forall x <- unsigned64 :: Countable(UInt64Field(2)(x))
      ensures forall x <- integer32 :: Countable(Int32Field(3)(x))
      ensures forall x <- unsigned32 :: Countable(UInt32Field(4)(x))
      ensures |EncodeFields(Map(DoubleField(5), binary64))| == |binary64| + 8 * |binary64|
      ensures |EncodeFields(Map(FloatField(6), binary32))| == |binary32| + 4 * |binary32|
      ensures forall x <- byteArray :: Countable(BytesField(7)(x))
      ensures forall x <- characterArray :: Countable(BytesField(8)(x))
      ensures forall x <- enumItem :: Countable(EnumField(9)(x))
      ensures |EncodeFields(Map(BoolField(10), logicalItem))| == |logicalItem| + 1 * |logicalItem|
    {
      FixedSize(binary64, DoubleField(5), 8);
      FixedSize(binary32, FloatField(6), 4);
      FixedSize(logicalItem, BoolField(10), 1);
    }

    method ByteSize() returns (total: nat)
      requires SoundArrays(Value())
      modifies this`cachedSize
      ensures total == cachedSize == |SerializeArrays(Value())|
    {
      hide *;
      ghost var parts := Describe();
      Sizes();
      PrefixEnds(parts);
      total := 0;
      var size: nat;
      PrefixStep(parts, 0);
      size := RepeatedSize(integer64, Int64Field(1));
      total := total + size;
      PrefixStep(parts, 1);
      size := RepeatedSize(unsigned64, UInt64Field(2));
      total := total + size;
      PrefixStep(parts, 2);
      size := RepeatedSize(integer32, Int32Field(3));
      total := total + size;
      PrefixStep(parts, 3);
      size := RepeatedSize(unsigned32, UInt32Field(4));
      total := total + size;
      PrefixStep(parts, 4);
      total := total + |binary64| + 8 * |binary64|;
      PrefixStep(parts, 5);
      total := total + |binary32| + 4 * |binary32|;
      PrefixStep(parts, 6);
      size := RepeatedSize(byteArray, BytesField(7));
      total := total + size;
      PrefixStep(parts, 7);
      size := RepeatedSize(characterArray, BytesField(8));
      total := total + size;
      PrefixStep(parts, 8);
      size := RepeatedSize(enumItem, EnumField(9));
      total := total + size;
      PrefixStep(parts, 9);
      total := total + |logicalItem| + 1 * |logicalItem|;
      PrefixStep(parts, 10);
      if unknown != [] {
        total := total + |EncodeFields(unknown)|;
      }
      cachedSize := total;
    }

    method SerializeWithCachedSizes(output: CodedOutputStream)
      modifies output
      ensures output.written == old(output.written) + SerializeArrays(Value())
    {
      hide *;
      ghost var parts := Describe();
      ghost var before := output.written;
      PrefixEnds(parts);
      output.HoldsNothing();
      WriteRepeated(integer64, Int64Field(1), output, before, parts, 0);
      WriteRepeated(unsigned64, UInt64Field(2), output, before, parts, 1);
      WriteRepeated(integer32, Int32Field(3), output, before, parts, 2);
      WriteRepeated(unsigned32, UInt32Field(4), output, before, parts, 3);
      WriteRepeated(binary64, DoubleField(5), output, before, parts, 4);
      WriteRepeated(binary32, FloatField(6), output, before, parts, 5);
      WriteRepeated(byteArray, BytesField(7), output, before, parts, 6);
      WriteRepeated(characterArray, BytesField(8), output, before, parts, 7);
      WriteRepeated(enumItem, EnumField(9), output, before, parts, 8);
      WriteRepeated(logicalItem, BoolField(10), output, before, parts, 9);
      WriteUnknown(unknown, output, before, parts, 10);
    }

    method SerializeToArray(target: array<byte>, at: nat) returns (end: nat)
      requires at + |SerializeArrays(Value())| <= target.Length
      modifies target
      ensures WrittenTo(target, old(target[..]), at, end, SerializeArrays(Value()))
    {
      hide *;
      ghost var parts := Describe();
      ghost var before := target[..];
      PrefixEnds(parts);
      WrittenNothing(target, at);
      end := at;
      end := WriteRepeatedToArray(integer64, Int64Field(1), target, end, before, at, parts, 0);
      end := WriteRepeatedToArray(unsigned64, UInt64Field(2), target, end, before, at, parts, 1);
      end := WriteRepeatedToArray(integer32, Int32Field(3), target, end, before, at, parts, 2);
      end := WriteRepeatedToArray(unsigned32, UInt32Field(4), target, end, before, at, parts, 3);
      end := WriteRepeatedToArray(binary64, DoubleField(5), target, end, before, at, parts, 4);
      end := WriteRepeatedToArray(binary32, FloatField(6), target, end, before, at, parts, 5);
      end := WriteRepeatedToArray(byteArray, BytesField(7), target, end, before, at, parts, 6);
      end := WriteRepeatedToArray(characterArray, BytesField(8), target, end, before, at, parts, 7);
      end := WriteRepeatedToArray(enumItem, EnumField(9), target, end, before, at, parts, 8);
      end := WriteRepeatedToArray(logicalItem, BoolField(10), target, end, before, at, parts, 9);
      end := WriteUnknownToArray(unknown, target, end, before, at, parts, 10);
    }

    // ---------- Parsing ----------

    method AddUnknown(f: Field)
      modifies this`unknown
      ensures Value() == old(Value()).(unknown := old(Value()).unknown + [f])
    {
      unknown := unknown + [f];
    }

    method AddEnumItem(x: uint64)
      modifies this`enumItem, this`unknown
      ensures Value() == AddEnum(old(Value()), x)
    {
      var e := EnumOf(Signed32(x));
      if e.Some? {
        enumItem := enumItem + [e.value];
      } else {
        unknown := unknown + [Varint(9, Unsigned64(Signed32(x)))];
      }
    }

    /** A packed payload, read to its end; enumerators that do not exist are kept as unknown. */
    method StorePacked(num: nat, b: seq<byte>) returns (ok: bool)
      requires 1 <= num <= 6 || 9 <= num <= 10
      modifies this
      ensures match ApplyPacked(old(Value()), num, b)
              case None => !ok
              case Some(v) => ok && Value() == v
    {
      if num == 5 {
        var ws := Unpack(b, ReadFixed64);
        if ws.None? {
          return false;
        }
        binary64 := binary64 + ws.value;
        return true;
      }
      if num == 6 {
        var ws := Unpack(b, ReadFixed32);
        if ws.None? {
          return false;
        }
        binary32 := binary32 + ws.value;
        return true;
      }
      var xs := Unpack(b, ReadVarint);
      if xs.None? {
        return false;
      }
      if num == 1 {
        integer64 := integer64 + Map(Signed64, xs.value);
      } else if num == 2 {
        unsigned64 := unsigned64 + xs.value;
      } else if num == 3 {
        integer32 := integer32 + Map(Signed32, xs.value);
      } else if num == 4 {
        unsigned32 := unsigned32 + Map(Low32, xs.value);
      } else if num == 9 {
        StorePackedEnums(xs.value);
      } else {
        logicalItem := logicalItem + Map((x: uint64) => x != 0, xs.value);
      }
      ok := true;
    }

    method StorePackedEnums(xs: seq<uint64>)
      modifies this`enumItem, this`unknown
      ensures Value() == AddEnums(old(Value()), xs)
    {
      ghost var v := Value();
      for i := 0 to |xs|
        invariant Value() == AddEnums(v, xs[..i])
      {
        AddEnumsGrows(v, xs, i);
        AddEnumItem(xs[i]);
      }
      assert xs[..|xs|] == xs;
    }

    static lemma {:induction false} AddEnumsGrows(v: Arrays, xs: seq<uint64>, i: nat)
      requires i < |xs|
      ensures AddEnums(v, xs[..i + 1]) == AddEnum(AddEnums(v, xs[..i]), xs[i])
      decreases i
    {
      if i > 0 {
        assert xs[..i + 1][1..] == xs[1..][..i] && xs[..i][1..] == xs[1..][..i - 1];
        AddEnumsGrows(AddEnum(v, xs[0]), xs[1..], i - 1);
      }
    }

    /** What the case of a field does with the value it has read. */
    method Store(f: Field) returns (ok: bool)
      modifies this
      ensures match ApplyArrays(old(Value()), f)
              case None => !ok
              case Some(v) => ok && Value() == v
    {
      hide ApplyPacked, AddEnum;
      ok := true;
      match f
      case Varint(1, x) => integer64 := integer64 + [Signed64(x)];
      case Varint(2, x) => unsigned64 := unsigned64 + [x];
      case Varint(3, x) => integer32 := integer32 + [Signed32(x)];
      case Varint(4, x) => unsigned32 := unsigned32 + [Low32(x)];
      case Fixed64(5, w) => binary64 := binary64 + [w];
      case Fixed32(6, w) => binary32 := binary32 + [w];
      case Delimited(7, b) => byteArray := byteArray + [b];
      case Delimited(8, b) => characterArray := characterArray + [b];
      case Varint(9, x) => AddEnumItem(x);
      case Varint(10, x) => logicalItem := logicalItem + [x != 0];
      case Delimited(n, b) =>
        if 1 <= n <= 6 || 9 <= n <= 10 {
          ok := StorePacked(n, b);
        } else {
          unknown := unknown + [f];
        }
      case _ => unknown := unknown + [f];
    }

    /** The tag of the first element of a field, given any tag of that field. */
    static function ElementTag(tag: uint32): byte {
      var n := tag / 8;
      if n == 5 then 41 else if n == 6 then 53 else if n == 7 then 58 else if n == 8 then 66
      else if n <= 10 then 8 * n else 0
    }

    /** Element tags, and the packed tags of every field but the two of byte strings. */
    static predicate KnownTag(tag: uint32) {
      1 <= tag / 8 <= 10 && (tag == ElementTag(tag) || tag % 8 == 2)
    }

    static lemma KnownTagsCarryValues(tag: uint32)
      requires KnownTag(tag)
      ensures tag != 0 && tag % 8 != END_GROUP
    {
    }

    /** After a field the parser first expects another element of it, then one of the
        next field; after the last field it may only expect the end. */
    method Jump(tag: uint32, input: CodedInputStream) returns (jump: byte, done: bool)
      requires KnownTag(tag)
      modifies input
      ensures jump != 0 ==> KnownTag(jump) && jump < 128
      ensures old(input.rest) == Pending(jump) + input.rest
      ensures done ==> jump == 0 && input.rest == [] && input.legitimateEnd
    {
      jump, done := 0, false;
      var found := input.ExpectTag(ElementTag(tag));
      if found {
        jump := ElementTag(tag);
      } else if tag / 8 == 10 {
        done := input.ExpectAtEnd();
      } else {
        var next := ElementTag(8 * (tag / 8 + 1));
        found := input.ExpectTag(next);
        if found {
          jump := next;
        }
      }
    }

    /** The jumps do not change what is accepted nor what is read. */
    method MergePartialFromCodedStream(input: CodedInputStream) returns (ok: bool)
      modifies this, input
      ensures match ParseLoop(old(Value()), old(input.rest), ApplyArrays)
              case Failure => !ok
              case Done(v, atEnd) => ok && Value() == v && input.legitimateEnd == atEnd
    {
      hide Value, ApplyArrays, Wire.ReadTag, ReadPayload, KnownTag;
      ghost var target := ParseLoop(Value(), input.rest, ApplyArrays);
      var jump: byte := 0;
      assert [] + input.rest == input.rest;
      while true
        invariant jump != 0 ==> KnownTag(jump) && jump < 128
        invariant ParseLoop(Value(), Pending(jump) + input.rest, ApplyArrays) == target
        decreases |Pending(jump)| + |input.rest|
      {
        var tag: uint32 := jump;
        if jump == 0 {
          assert [] + input.rest == input.rest;
          tag := input.ReadTag();
        } else {
          JumpedTag(jump, input.rest);
        }
        if KnownTag(tag) {
          KnownTagsCarryValues(tag);
          var f := input.ReadField(tag);
          if f.None? {
            return false;
          }
          var stored := Store(f.value);
          if !stored {
            return false;
          }
          var done: bool;
          jump, done := Jump(tag, input);
          if done {
            return true;
          }
        } else {
          if tag == 0 || tag % 8 == END_GROUP {
            return true;
          }
          var f := input.ReadField(tag);
          if f.None? {
            return false;
          }
          Unrecognised(f.value);
          AddUnknown(f.value);
          jump := 0;
          assert [] + input.rest == input.rest;
        }
      }
    }

    lemma Unrecognised(f: Field)
      requires TagOf(f) < TWO_32 && !KnownTag(TagOf(f))
      ensures ApplyArrays(Value(), f) == Some(Value().(unknown := Value().unknown + [f]))
    {
    }
  }
}
