// The TestNestedMessage object: one required sub-message and a repeated one, held
// by reference and changed in place.

module NestedObject {
  import opened Options
  import opened Wire
  import opened HasBits
  import opened MessageSpec
  import opened MessageTheorems
  import opened CodedStreams
  import opened ScalarsObject
  import opened ArraysObject

  /** The messages that a sequence of objects stands for. */
  ghost function Values(items: seq<TestScalars>): (vs: seq<Scalars>)
    reads items
    ensures |vs| == |items| && forall i :: 0 <= i < |items| ==> vs[i] == items[i].Value()
  {
    seq(|items|, i requires 0 <= i < |items| reads items => items[i].Value())
  }

  /** Reads a length-delimited sub-message: its bytes must be used up exactly. */
  method ReadMessage(b: seq<byte>, sub: TestScalars) returns (ok: bool)
    requires sub.Valid()
    modifies sub
    ensures sub.Valid()
    ensures match SubMessage(old(sub.Value()), b, ApplyScalars)
            case None => !ok
            case Some(v) => ok && sub.Value() == v
  {
    hide ApplyScalars, TestScalars.Valid, TestScalars.Value;
    var inner := new CodedInputStream(b);
    ok := sub.MergePartialFromCodedStream(inner);
    ok := ok && inner.legitimateEnd;
  }

  /** Tag, cached size, then the sub-message itself. */
  method WriteMessage(num: nat, sub: TestScalars, output: CodedOutputStream)
    requires sub.Valid() && sub.cachedSize == |SerializeScalars(sub.Value())|
    modifies output
    ensures output.written == old(output.written) + EncodeField(ScalarsField(num)(sub.Value()))
  {
    hide TestScalars.Value, TestScalars.Valid, SerializeScalars, Head, EncodeField;
    output.WriteHead(num, sub.cachedSize);
    sub.SerializeWithCachedSizes(output);
    HeadAndBody(num, SerializeScalars(sub.Value()));
    Associative(old(output.written), Head(num, sub.cachedSize), SerializeScalars(sub.Value()));
  }

  method WriteMessageToArray(num: nat, sub: TestScalars, target: array<byte>, at: nat) returns (end: nat)
    requires sub.Valid() && sub.cachedSize == |SerializeScalars(sub.Value())|
    requires at + |EncodeField(ScalarsField(num)(sub.Value()))| <= target.Length
    modifies target
    ensures WrittenTo(target, old(target[..]), at, end, EncodeField(ScalarsField(num)(sub.Value())))
  {
    hide TestScalars.Value, TestScalars.Valid, SerializeScalars, Head, EncodeField;
    HeadAndBody(num, SerializeScalars(sub.Value()));
    ghost var s0 := target[..];
    var mid := WriteToArray(Head(num, sub.cachedSize), target, at);
    ghost var s1 := target[..];
    end := sub.SerializeToArray(target, mid);
    WrittenMore(target[..], s1, s0, at, mid, Head(num, sub.cachedSize), end, SerializeScalars(sub.Value()));
  }

  class TestNested {
    var hasBits: Word
    var cachedSize: int
    var scalar: TestScalars?
    var items: seq<TestScalars>
    var unknown: seq<Field>

    /** A sub-message kept after its has-bit went off is an empty one. */
    ghost predicate Valid()
      reads this, scalar, items
    {
      && (hasBits[0] ==> scalar != null)
      && (scalar != null ==> scalar.Valid() && scalar !in items)
      && (scalar != null && !hasBits[0] ==> scalar.Value() == NO_SCALARS)
      && (forall w <- items :: w.Valid())
      && (forall i, j :: 0 <= i < j < |items| ==> items[i] != items[j])
    }

    ghost function Value(): Nested
      requires Valid()
      reads this, scalar, items
    {
      Nested(if hasBits[0] then Some(scalar.Value()) else None, Values(items), unknown)
    }

    ghost function Repr(): (r: set<object>)
      reads this
      ensures this in r
    {
      {this} + (if scalar == null then {} else {scalar}) + set w <- items
    }

    constructor ()
      ensures Valid() && Value() == NO_NESTED && fresh(Repr())
    {
      hasBits, cachedSize, scalar, items, unknown := NO_BITS, 0, null, [], [];
    }

    /** Clears the sub-message in place and keeps it for reuse. */
    method Clear()
      requires Valid()
      modifies Repr()
      ensures Valid() && Value() == NO_NESTED && Repr() <= old(Repr()) && scalar == old(scalar)
    {
      if hasBits[0] {
        scalar.Clear();
      }
      items := [];
      hasBits := NO_BITS;
      if unknown != [] {
        unknown := [];
      }
    }

    method MutableScalar() returns (sub: TestScalars)
      requires Valid()
      modifies this`hasBits, this`scalar
      ensures Valid() && hasBits[0] && scalar == sub
      ensures sub.Value() == OrNew(old(Value()).scalar)
      ensures old(scalar) != null ==> sub == old(scalar)
      ensures old(scalar) == null ==> fresh(sub)
    {
      hasBits := hasBits[0 := true];
      if scalar == null {
        scalar := new TestScalars();
      }
      sub := scalar;
    }

    /** Adds an empty element and returns it. */
    method AddItem() returns (sub: TestScalars)
      requires Valid()
      modifies this`items
      ensures Valid() && fresh(sub) && items == old(items) + [sub]
      ensures sub.Value() == NO_SCALARS
    {
      sub := new TestScalars();
      items := items + [sub];
    }

    // ---------- Merging ----------

    method AddCopy(w: TestScalars)
      requires Valid() && w.Valid() && w !in Repr()
      modifies this`items
      ensures Valid() && |items| == |old(items)| + 1 && items[..|old(items)|] == old(items)
      ensures fresh(items[|old(items)|])
      ensures Values(items) == old(Values(items)) + [w.Value()]
    {
      hide TestScalars.Value, TestScalars.Valid, MergeScalars;
      var sub := AddItem();
      sub.MergeFrom(w);
      MergeIntoNewScalars(w.Value());
    }

    /** Each element of from is copied into a new element of this. */
    method MergeItems(from: TestNested)
      requires Valid() && from.Valid() && Repr() !! from.Repr()
      modifies this`items
      ensures Valid() && fresh(Repr() - old(Repr())) && scalar == old(scalar)
      ensures Value() == old(Value()).(items := old(Value()).items + old(from.Value()).items)
    {
      hide TestScalars.Value, TestScalars.Valid;
      ghost var had := items;
      for i := 0 to |from.items|
        invariant Valid() && |items| == |had| + i && items[..|had|] == had
        invariant forall k :: |had| <= k < |items| ==> fresh(items[k])
        invariant Values(items) == old(Values(items)) + Values(from.items)[..i]
      {
        AddCopy(from.items[i]);
      }
      assert Values(from.items)[..|from.items|] == Values(from.items);
    }

    method MergeScalar(from: TestNested)
      requires Valid() && from.Valid() && Repr() !! from.Repr()
      modifies this`hasBits, this`scalar, scalar
      ensures Valid() && items == old(items) && fresh(Repr() - old(Repr()))
      ensures Value() == old(Value()).(scalar := MergeNested(old(Value()), old(from.Value())).scalar)
    {
      hide TestScalars.Value, TestScalars.Valid, MergeScalars;
      if AnyBit(from.hasBits, 0, 8) {
        if from.hasBits[0] {
          var sub := MutableScalar();
          sub.MergeFrom(from.scalar);
        }
      }
      assert Values(items) == old(Values(items));
    }

    method MergeFrom(from: TestNested)
      requires Valid() && from.Valid() && Repr() !! from.Repr()
      modifies Repr()
      ensures Valid() && fresh(Repr() - old(Repr()))
      ensures Value() == MergeNested(old(Value()), old(from.Value()))
    {
      hide TestScalars.Value, TestScalars.Valid, Valid, Value;
      MergeItems(from);
      MergeScalar(from);
      MergeUnknown(from);
    }

    method MergeUnknown(from: TestNested)
      requires Valid() && from.Valid() && Repr() !! from.Repr()
      modifies this`unknown
      ensures Valid() && Repr() == old(Repr())
      ensures Value() == old(Value()).(unknown := old(Value()).unknown + old(from.Value()).unknown)
    {
      assert unknown + [] == unknown;
      if from.unknown != [] {
        unknown := unknown + from.unknown;
      }
    }

    // ---------- Size and serialisation ----------

    /** Every sub-message remembers the number of bytes it is about to write. */
    ghost predicate SizesCached()
      requires Valid()
      reads this, scalar, items
    {
      && (hasBits[0] ==> scalar.cachedSize == |SerializeScalars(scalar.Value())|)
      && forall w <- items :: w.cachedSize == |SerializeScalars(w.Value())|
    }

    lemma Describe() returns (parts: Layout)
      requires Valid()
      ensures |parts| == 3 && EncodeFields(Flatten(parts)) == SerializeNested(Value())
      ensures parts[0] == if hasBits[0] then [ScalarsField(1)(scalar.Value())] else []
      ensures parts[1] == Map(ScalarsField(2), Values(items))
      ensures parts[2] == unknown
    {
      parts := NestedParts(Value());
    }

    /** Sizes the elements one by one; each keeps its own size. */
    method ItemsSize() returns (total: nat)
      requires Valid() && SoundNested(Value())
      modifies items`cachedSize
      ensures Valid() && Values(items) == old(Values(items))
      ensures forall w <- items :: w.cachedSize == |SerializeScalars(w.Value())|
      ensures total == |EncodeFields(Map(ScalarsField(2), Values(items)))|
    {
      hide TestScalars.Value, TestScalars.Valid, SerializeScalars, SoundScalars;
      hide EncodeField, EncodeFields, EncodePayload, Map;
      ghost var vs := Values(items);
      NoneMapped(ScalarsField(2));
      assert vs[..0] == [];
      total := 0;
      for i := 0 to |items|
        invariant Valid() && Values(items) == vs
        invariant forall k :: 0 <= k < i ==> items[k].cachedSize == |SerializeScalars(items[k].Value())|
        invariant total == |EncodeFields(Map(ScalarsField(2), vs[..i]))|
      {
        assert vs[i] in vs;
        var size := items[i].ByteSize();
        MapGrows(ScalarsField(2), vs, i);
        FieldLength(ScalarsField(2)(vs[i]));
        total := total + 1 + (VarintSize(size) + size);
      }
      assert vs[..|items|] == vs;
    }

    method ScalarSize(ghost parts: Layout) returns (total: nat)
      requires Valid() && SoundNested(Value())
      requires |parts| == 3 && parts[0] == if hasBits[0] then [ScalarsField(1)(scalar.Value())] else []
      modifies (if scalar == null then {} else {scalar})`cachedSize
      ensures Valid() && Value() == old(Value()) && Values(items) == old(Values(items))
      ensures hasBits[0] ==> scalar.cachedSize == |SerializeScalars(scalar.Value())|
      ensures total == |Prefix(parts, 1)|
    {
      hide TestScalars.Value, TestScalars.Valid, SerializeScalars, EncodeField, EncodeFields, SoundScalars, Prefix;
      PrefixEnds(parts);
      total := 0;
      if hasBits[0] {
        var size := scalar.ByteSize();
        FieldLength(ScalarsField(1)(scalar.Value()));
        total := 1 + (VarintSize(size) + size);
        PartBytes(parts, 0, true, ScalarsField(1)(scalar.Value()));
      } else {
        PartBytes(parts, 0, false, ScalarsField(1)(NO_SCALARS));
      }
    }

    method ByteSize() returns (total: nat)
      requires Valid() && SoundNested(Value())
      modifies this`cachedSize, (if scalar == null then {} else {scalar})`cachedSize, items`cachedSize
      ensures Valid() && SizesCached() && Value() == old(Value())
      ensures total == cachedSize == |SerializeNested(Value())|
    {
      hide TestScalars.Value, TestScalars.Valid, SerializeScalars, EncodeField, EncodeFields, SoundScalars, SoundNested,
        Prefix, Map;
      ghost var parts := Describe();
      PrefixEnds(parts);
      total := ScalarSize(parts);
      var size := ItemsSize();
      PrefixStep(parts, 1);
      PrefixStep(parts, 2);
      total := total + size;
      if unknown != [] {
        total := total + |EncodeFields(unknown)|;
      }
      cachedSize := total;
    }

    method WriteScalar(output: CodedOutputStream, ghost before: seq<byte>, ghost parts: Layout)
      requires Valid() && SizesCached() && output.written == before
      requires |parts| == 3 && parts[0] == if hasBits[0] then [ScalarsField(1)(scalar.Value())] else []
      modifies output
      ensures output.written == before + Prefix(parts, 1)
    {
      hide TestScalars.Value, TestScalars.Valid, SerializeScalars, EncodeVarint, EncodeFields, EncodeField, Prefix;
      PrefixEnds(parts);
      if hasBits[0] {
        ghost var first := EncodeField(ScalarsField(1)(scalar.Value()));
        PartBytes(parts, 0, true, ScalarsField(1)(scalar.Value()));
        assert [] + first == first;
        WriteMessage(1, scalar, output);
      } else {
        PartBytes(parts, 0, false, ScalarsField(1)(NO_SCALARS));
      }
    }

    /** The cached size of each sub-message is written as its length prefix. */
    method SerializeWithCachedSizes(output: CodedOutputStream)
      requires Valid() && SizesCached()
      modifies output
      ensures output.written == old(output.written) + SerializeNested(Value())
    {
      hide TestScalars.Value, TestScalars.Valid, SerializeScalars, EncodeVarint, EncodeFields, EncodeField, Prefix, Map;
      ghost var parts := Describe();
      ghost var before := output.written;
      PrefixEnds(parts);
      WriteScalar(output, before, parts);
      WriteItems(output);
      PrefixStep(parts, 1);
      Associative(before, Prefix(parts, 1), EncodeFields(parts[1]));
      WriteUnknown(unknown, output, before, parts, 2);
    }

    method WriteItems(output: CodedOutputStream)
      requires Valid() && SizesCached()
      modifies output
      ensures output.written == old(output.written) + EncodeFields(Map(ScalarsField(2), Values(items)))
    {
      hide TestScalars.Value, TestScalars.Valid, SerializeScalars, EncodeField, EncodeFields;
      ghost var vs := Values(items);
      EncodeNone();
      for i := 0 to |items|
        invariant Values(items) == vs
        invariant output.written == old(output.written) + EncodeFields(Map(ScalarsField(2), vs[..i]))
      {
        WriteMessage(2, items[i], output);
        MapGrows(ScalarsField(2), vs, i);
      }
      assert vs[..|items|] == vs;
    }

    method SerializeToArray(target: array<byte>, at: nat) returns (end: nat)
      requires Valid() && SizesCached() && at + |SerializeNested(Value())| <= target.Length
      modifies target
      ensures WrittenTo(target, old(target[..]), at, end, SerializeNested(Value()))
    {
      hide TestScalars.Value, TestScalars.Valid, SerializeScalars, EncodeField, EncodeFields, Prefix;
      ghost var parts := Describe();
      ghost var before := target[..];
      PrefixEnds(parts);
      PrefixFits(parts, 1);
      PrefixFits(parts, 2);
      WrittenNothing(target, at);
      end := at;
      if hasBits[0] {
        ghost var first := EncodeField(ScalarsField(1)(scalar.Value()));
        PartBytes(parts, 0, true, ScalarsField(1)(scalar.Value()));
        assert Prefix(parts, 1) == first by {
          assert [] + first == first;
        }
        end := WriteMessageToArray(1, scalar, target, end);
      } else {
        PartBytes(parts, 0, false, ScalarsField(1)(NO_SCALARS));
      }
      assert WrittenTo(target, before, at, end, Prefix(parts, 1));
      PrefixStep(parts, 1);
      end := WriteItemsToArray(target, end, before, at, Prefix(parts, 1));
      end := WriteUnknownToArray(unknown, target, end, before, at, parts, 2);
    }

    method WriteItemsToArray(target: array<byte>, pos: nat,
                             ghost before: seq<byte>, ghost at: nat, ghost done: seq<byte>)
      returns (end: nat)
      requires Valid() && SizesCached()
      requires WrittenTo(target, before, at, pos, done)
      requires pos + |EncodeFields(Map(ScalarsField(2), Values(items)))| <= target.Length
      modifies target
      ensures WrittenTo(target, before, at, end, done + EncodeFields(Map(ScalarsField(2), Values(items))))
    {
      hide TestScalars.Value, TestScalars.Valid, SerializeScalars, EncodeField, EncodeFields;
      ghost var vs, mid := Values(items), target[..];
      EncodeNone();
      end := pos;
      for i := 0 to |items|
        invariant Values(items) == vs
        invariant WrittenTo(target, mid, pos, end, EncodeFields(Map(ScalarsField(2), vs[..i])))
      {
        MapGrows(ScalarsField(2), vs, i);
        MapFits(ScalarsField(2), vs, i + 1);
        ghost var s, p := target[..], end;
        end := WriteMessageToArray(2, items[i], target, end);
        WrittenMore(target[..], s, mid, pos, p, EncodeFields(Map(ScalarsField(2), vs[..i])), end,
                    EncodeField(ScalarsField(2)(vs[i])));
      }
      assert vs[..|items|] == vs;
      WrittenMore(target[..], mid, before, at, pos, done, end, EncodeFields(Map(ScalarsField(2), vs)));
    }

    // ---------- Parsing ----------

    method AddUnknown(f: Field)
      requires Valid()
      modifies this`unknown
      ensures Valid() && Value() == old(Value()).(unknown := old(Value()).unknown + [f])
      ensures Repr() == old(Repr())
    {
      unknown := unknown + [f];
    }

    /** What the case of a field does with the value it has read. */
    method Store(f: Field) returns (ok: bool)
      requires Valid()
      modifies Repr()
      ensures Valid() && fresh(Repr() - old(Repr()))
      ensures match ApplyNested(old(Value()), f)
              case None => !ok
              case Some(v) => ok && Value() == v
    {
      hide TestScalars.Value, TestScalars.Valid, SubMessage;
      ok := true;
      match f
      case Delimited(1, b) =>
        var sub := MutableScalar();
        ok := ReadMessage(b, sub);
        assert Values(items) == old(Values(items));
      case Delimited(2, b) =>
        var sub := AddItem();
        ok := ReadMessage(b, sub);
        assert Values(items)[..|items| - 1] == old(Values(items));
      case _ => AddUnknown(f);
    }

    static lemma KnownTagsCarryValues(tag: uint32)
      requires tag == 10 || tag == 18
      ensures tag != 0 && tag % 8 != END_GROUP
    {
    }

    /** After either field the parser first expects an element, and after an element the end. */
    static method Jump(tag: uint32, input: CodedInputStream) returns (jump: byte, done: bool)
      modifies input
      ensures jump == 0 || jump == 18
      ensures old(input.rest) == Pending(jump) + input.rest
      ensures done ==> jump == 0 && input.rest == [] && input.legitimateEnd
    {
      jump, done := 0, false;
      var found := input.ExpectTag(18);
      if found {
        jump := 18;
      } else if tag == 18 {
        done := input.ExpectAtEnd();
      }
    }

    /** A field of any other tag is kept as it is. */
    method KeepUnknown(tag: uint32, input: CodedInputStream) returns (ok: bool)
      requires Valid() && tag != 10 && tag != 18
      modifies this`unknown, input
      ensures Valid() && Repr() == old(Repr())
      ensures match ReadPayload(tag, old(input.rest))
              case Bad => !ok
              case Got(f, rest) => ok && input.rest == rest && ApplyNested(old(Value()), f) == Some(Value())
    {
      hide Valid, Value, ApplyNested, ReadPayload;
      var f := input.ReadField(tag);
      ok := f.Some?;
      if ok {
        Unrecognised(Value(), f.value);
        AddUnknown(f.value);
      }
    }

    /** Jumping from one element straight to the next reads the same message. */
    method MergePartialFromCodedStream(input: CodedInputStream) returns (ok: bool)
      requires Valid() && input !in Repr()
      modifies Repr(), input
      ensures Valid() && fresh(Repr() - old(Repr()))
      ensures match ParseLoop(old(Value()), old(input.rest), ApplyNested)
              case Failure => !ok
              case Done(v, atEnd) => ok && Value() == v && input.legitimateEnd == atEnd
    {
      hide Valid, Value, ApplyNested, Wire.ReadTag, ReadPayload, TestScalars.Value, TestScalars.Valid;
      ghost var target := ParseLoop(Value(), input.rest, ApplyNested);
      var jump: byte := 0;
      assert [] + input.rest == input.rest;
      while true
        invariant Valid() && fresh(Repr() - old(Repr())) && input !in Repr()
        invariant jump == 0 || jump == 18
        invariant ParseLoop(Value(), Pending(jump) + input.rest, ApplyNested) == target
        decreases |Pending(jump)| + |input.rest|
      {
        var tag: uint32 := jump;
        if jump == 0 {
          assert [] + input.rest == input.rest;
          tag := input.ReadTag();
        } else {
          JumpedTag(jump, input.rest);
        }
        if tag == 10 || tag == 18 {
          KnownTagsCarryValues(tag);
          var f := input.ReadField(tag);
          if f.None? {
            return false;
          }
          var stored := Store(f.value);
          if !stored {
            return false;
          }
          var done: bool;
          jump, done := Jump(tag, input);
          if done {
            return true;
          }
        } else {
          if tag == 0 || tag % 8 == END_GROUP {
            return true;
          }
          var kept := KeepUnknown(tag, input);
          if !kept {
            return false;
          }
          jump := 0;
          assert [] + input.rest == input.rest;
        }
      }
    }

    static lemma Unrecognised(v: Nested, f: Field)
      requires TagOf(f) != 10 && TagOf(f) != 18
      ensures ApplyNested(v, f) == Some(v.(unknown := v.unknown + [f]))
    {
    }
  }
}
