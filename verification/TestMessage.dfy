// The TestMessage object: a required header and a oneof payload held by reference.

module MessageObject {
  import opened Options
  import opened Wire
  import opened HasBits
  import opened MessageSpec
  import opened CodedStreams
  import opened ScalarsObject
  import opened ArraysObject
  import opened NestedObject

  /** The oneof case and the union member it selects. */
  datatype PayloadRef =
    | NoPayload
    | ScalarRef(scalar: TestScalars)
    | ArrayRef(arrays: TestArrays)
    | NestedRef(nested: TestNested)

  method ReadArrays(b: seq<byte>, sub: TestArrays) returns (ok: bool)
    modifies sub
    ensures match SubMessage(old(sub.Value()), b, ApplyArrays)
            case None => !ok
            case Some(v) => ok && sub.Value() == v
  {
    hide ApplyArrays, TestArrays.Value;
    var inner := new CodedInputStream(b);
    ok := sub.MergePartialFromCodedStream(inner);
    ok := ok && inner.legitimateEnd;
  }

  method ReadNested(b: seq<byte>, sub: TestNested) returns (ok: bool)
    requires sub.Valid()
    modifies sub.Repr()
    ensures sub.Valid() && fresh(sub.Repr() - old(sub.Repr()))
    ensures match SubMessage(old(sub.Value()), b, ApplyNested)
            case None => !ok
            case Some(v) => ok && sub.Value() == v
  {
    hide ApplyNested, TestNested.Value, TestNested.Valid;
    var inner := new CodedInputStream(b);
    ok := sub.MergePartialFromCodedStream(inner);
    ok := ok && inner.legitimateEnd;
  }

  /** The plain loop up to its next tag. */
  lemma LoopStep<V>(v: V, s: seq<byte>, apply: (V, Field) -> Option<V>)
    ensures ParseLoop(v, s, apply) ==
      match Wire.ReadTag(s)
      case AtEnd => Done(v, true)
      case Unreadable => Done(v, false)
      case Tag(tag, rest) =>
        if tag == 0 || tag % 8 == END_GROUP then Done(v, false)
        else
          match ReadPayload(tag, rest)
          case Bad => Failure
          case Got(f, rest') =>
            match apply(v, f)
            case None => Failure
            case Some(v') => ParseLoop(v', rest', apply)
    ensures Wire.ReadTag([]) == AtEnd
  {
  }

  class TestMessage {
    var hasBits: Word
    var cachedSize: int
    var header: uint64
    var payload: PayloadRef
    var unknown: seq<Field>

    /** The objects the payload is made of. */
    ghost function Parts(): (r: set<object>)
      reads this`payload, (if payload.NestedRef? then {payload.nested} else {})
    {
      match payload
      case NoPayload => {}
      case ScalarRef(s) => {s}
      case ArrayRef(a) => {a}
      case NestedRef(n) => n.Repr()
    }

    ghost function Repr(): set<object>
      reads this`payload, (if payload.NestedRef? then {payload.nested} else {})
    {
      {this} + Parts()
    }

    ghost predicate Valid()
      reads this`payload, this`hasBits, this`header, (if payload.NestedRef? then {payload.nested} else {}), Parts()
    {
      && this !in Parts()
      && (!hasBits[0] ==> header == 0)
      && match payload
         case NoPayload => true
         case ScalarRef(s) => s.Valid()
         case ArrayRef(_) => true
         case NestedRef(n) => n.Valid()
    }

    ghost function PayloadValue(): Payload
      requires Valid()
      reads this`payload, this`hasBits, this`header, (if payload.NestedRef? then {payload.nested} else {}), Parts()
    {
      match payload
      case NoPayload => NotSet
      case ScalarRef(s) => TestScalar(s.Value())
      case ArrayRef(a) => TestArray(a.Value())
      case NestedRef(n) => MessageSpec.TestNested(n.Value())
    }

    ghost function Value(): Message
      requires Valid()
      reads this`payload, this`hasBits, this`header, this`unknown
      reads (if payload.NestedRef? then {payload.nested} else {}), Parts()
    {
      Message(When(hasBits[0], header), PayloadValue(), unknown)
    }

    constructor ()
      ensures Valid() && Value() == NO_MESSAGE && fresh(Repr())
    {
      hasBits, cachedSize, header, payload, unknown := NO_BITS, 0, 0, NoPayload, [];
    }

    method Clear()
      requires Valid()
      modifies this
      ensures Valid() && Value() == NO_MESSAGE && Repr() == {this}
    {
      header := 0;
      payload := NoPayload;
      hasBits := NO_BITS;
      if unknown != [] {
        unknown := [];
      }
    }

    method SetHeader(w: uint64)
      requires Valid()
      modifies this`hasBits, this`header
      ensures Valid() && Value() == old(Value()).(header := Some(w)) && payload == old(payload)
    {
      hasBits := hasBits[0 := true];
      header := w;
    }

    // A payload of another case is dropped; one of the wanted case is kept.

    method MutableTestScalar() returns (sub: TestScalars)
      requires Valid()
      modifies this`payload
      ensures Valid() && payload == ScalarRef(sub) && sub.Value() == old(ScalarPayload(PayloadValue()))
      ensures if old(payload).ScalarRef? then payload == old(payload) else fresh(sub)
    {
      if !payload.ScalarRef? {
        sub := new TestScalars();
        payload := ScalarRef(sub);
      }
      sub := payload.scalar;
    }

    method MutableTestArray() returns (sub: TestArrays)
      requires Valid()
      modifies this`payload
      ensures Valid() && payload == ArrayRef(sub) && sub.Value() == old(ArrayPayload(PayloadValue()))
      ensures if old(payload).ArrayRef? then payload == old(payload) else fresh(sub)
    {
      if !payload.ArrayRef? {
        sub := new TestArrays();
        payload := ArrayRef(sub);
      }
      sub := payload.arrays;
    }

    method MutableTestNested() returns (sub: TestNested)
      requires Valid()
      modifies this`payload
      ensures Valid() && payload == NestedRef(sub) && sub.Value() == old(NestedPayload(PayloadValue()))
      ensures if old(payload).NestedRef? then payload == old(payload) else fresh(sub.Repr())
    {
      if !payload.NestedRef? {
        sub := new TestNested();
        payload := NestedRef(sub);
      }
      sub := payload.nested;
    }

    // ---------- Merging ----------

    method MergePayload(from: TestMessage)
      requires Valid() && from.Valid() && Repr() !! from.Repr()
      modifies this`payload, Parts()
      ensures Valid() && fresh(Repr() - old(Repr()))
      ensures PayloadValue() == MessageSpec.MergePayload(old(PayloadValue()), old(from.PayloadValue()))
    {
      hide TestScalars.Value, TestScalars.Valid, TestArrays.Value, TestNested.Value, TestNested.Valid;
      match from.payload
      case NoPayload =>
      case ScalarRef(s) =>
        var sub := MutableTestScalar();
        sub.MergeFrom(s);
      case ArrayRef(a) =>
        var sub := MutableTestArray();
        sub.MergeFrom(a);
      case NestedRef(n) =>
        var sub := MutableTestNested();
        sub.MergeFrom(n);
    }

    method MergeHeader(from: TestMessage)
      requires Valid() && (!from.hasBits[0] ==> from.header == 0) && from != this
      modifies this`hasBits, this`header
      ensures Valid()
      ensures Value() == old(Value()).(header := Later(old(Value()).header, When(from.hasBits[0], from.header)))
    {
      if AnyBit(from.hasBits, 0, 8) {
        if from.hasBits[0] {
          SetHeader(from.header);
        }
      }
    }

    method MergeUnknown(from: TestMessage)
      requires Valid() && from != this
      modifies this`unknown
      ensures Valid() && Value() == old(Value()).(unknown := old(Value()).unknown + from.unknown)
    {
      assert unknown + [] == unknown;
      if from.unknown != [] {
        unknown := unknown + from.unknown;
      }
    }

    lemma ValueIs()
      requires Valid()
      ensures Value() == Message(When(hasBits[0], header), PayloadValue(), unknown)
    {
    }

    method MergeFrom(from: TestMessage)
      requires Valid() && from.Valid() && Repr() !! from.Repr()
      modifies Repr()
      ensures Valid() && fresh(Repr() - old(Repr()))
      ensures Value() == MergeMessage(old(Value()), old(from.Value()))
    {
      hide Value, PayloadValue, Parts, MessageSpec.MergePayload;
      ValueIs();
      from.ValueIs();
      MergePayload(from);
      ValueIs();
      MergeHeader(from);
      MergeUnknown(from);
    }

    // ---------- Size and serialisation ----------

    /** Every message below this one remembers the number of bytes it is about to write. */
    ghost predicate SizesCached()
      requires Valid()
      reads this`payload, this`hasBits, this`header, (if payload.NestedRef? then {payload.nested} else {}), Parts()
    {
      match payload
      case NoPayload => true
      case ScalarRef(s) => s.cachedSize == |SerializeScalars(s.Value())|
      case ArrayRef(a) => a.cachedSize == |SerializeArrays(a.Value())|
      case NestedRef(n) => n.SizesCached() && n.cachedSize == |SerializeNested(n.Value())|
    }

    lemma Describe() returns (parts: Layout)
      requires Valid()
      ensures |parts| == 3 && EncodeFields(Flatten(parts)) == SerializeMessage(Value())
      ensures parts[0] == if hasBits[0] then [DoubleField(1)(header)] else []
      ensures parts[1] == PayloadRecords(PayloadValue())
      ensures parts[2] == unknown
    {
      parts := MessageParts(Value());
    }

    lemma SubMessageLength(f: Field)
      requires f.Delimited? && f.num <= 15 && |f.payload| < TWO_31
      ensures |EncodeFields([f])| == 1 + (VarintSize(|f.payload|) + |f.payload|)
    {
      FieldLength(f);
      HeadAndBody(f.num, f.payload);
    }

    method CountPayload() returns (total: nat)
      requires Valid() && SoundPayload(PayloadValue())
      modifies Parts()
      ensures Valid() && SizesCached() && PayloadValue() == old(PayloadValue()) && Repr() == old(Repr())
      ensures total == |EncodeFields(PayloadRecords(PayloadValue()))|
    {
      hide TestScalars.Value, TestScalars.Valid, TestArrays.Value, TestNested.Value, TestNested.Valid;
      hide SerializeScalars, SerializeArrays, SerializeNested, EncodeField, SoundScalars, SoundArrays, SoundNested;
      match payload
      case NoPayload => total := 0;
      case ScalarRef(s) =>
        var size := s.ByteSize();
        SubMessageLength(PayloadRecords(PayloadValue())[0]);
        total := 1 + (VarintSize(size) + size);
      case ArrayRef(a) =>
        var size := a.ByteSize();
        SubMessageLength(PayloadRecords(PayloadValue())[0]);
        total := 1 + (VarintSize(size) + size);
      case NestedRef(n) =>
        var size := n.ByteSize();
        SubMessageLength(PayloadRecords(PayloadValue())[0]);
        total := 1 + (VarintSize(size) + size);
    }

    method RememberSize(total: nat)
      requires Valid() && SizesCached()
      modifies this`cachedSize
      ensures Valid() && SizesCached() && Value() == old(Value()) && Repr() == old(Repr())
      ensures cachedSize == total
    {
      hide TestScalars.Value, TestScalars.Valid, TestArrays.Value, TestNested.Value, TestNested.Valid;
      cachedSize := total;
    }

    method ByteSize() returns (total: nat)
      requires Valid() && SoundMessage(Value())
      modifies Repr()
      ensures Valid() && SizesCached() && Value() == old(Value()) && Repr() == old(Repr())
      ensures total == cachedSize == |SerializeMessage(Value())|
    {
      hide *;
      ghost var parts := Describe();
      PayloadIsSound();
      PrefixEnds(parts);
      HeaderLength(header);
      ValueIs();
      InRepr();
      PartBytes(parts, 0, hasBits[0], DoubleField(1)(header));
      total := 0;
      if hasBits[0] {
        total := total + 1 + 8;
      }
      var size := CountPayload();
      ValueIs();
      PrefixStep(parts, 1);
      PrefixStep(parts, 2);
      total := total + size;
      if unknown != [] {
        total := total + |EncodeFields(unknown)|;
      }
      RememberSize(total);
    }

    lemma HeaderLength(w: uint64)
      ensures |EncodeField(DoubleField(1)(w))| == 1 + 8
    {
      FieldLength(DoubleField(1)(w));
    }

    lemma PayloadIsSound()
      requires Valid() && SoundMessage(Value())
      ensures SoundPayload(PayloadValue())
    {
    }

    lemma InRepr()
      requires Valid()
      ensures this in Repr() && this !in Parts() && Parts() <= Repr()
    {
    }

    method WritePayload(output: CodedOutputStream)
      requires Valid() && SizesCached() && output !in Repr()
      modifies output
      ensures output.written == old(output.written) + EncodeFields(PayloadRecords(PayloadValue()))
    {
      hide TestScalars.Value, TestScalars.Valid, TestArrays.Value, TestNested.Value, TestNested.Valid;
      hide SerializeScalars, SerializeArrays, SerializeNested, Head, EncodeFields;
      ghost var b: seq<byte>;
      match payload
      case NoPayload =>
        EncodeNone();
        return;
      case ScalarRef(s) =>
        output.WriteHead(2, s.cachedSize);
        s.SerializeWithCachedSizes(output);
        b := SerializeScalars(s.Value());
        HeadAndBody(2, b);
        Associative(old(output.written), Head(2, |b|), b);
      case ArrayRef(a) =>
        output.WriteHead(3, a.cachedSize);
        a.SerializeWithCachedSizes(output);
        b := SerializeArrays(a.Value());
        HeadAndBody(3, b);
        Associative(old(output.written), Head(3, |b|), b);
      case NestedRef(n) =>
        output.WriteHead(4, n.cachedSize);
        n.SerializeWithCachedSizes(output);
        b := SerializeNested(n.Value());
        HeadAndBody(4, b);
        Associative(old(output.written), Head(4, |b|), b);
    }

    /** The cached size of each sub-message is written as its length prefix. */
    method SerializeWithCachedSizes(output: CodedOutputStream)
      requires Valid() && SizesCached() && output !in Repr()
      modifies output
      ensures output.written == old(output.written) + SerializeMessage(old(Value()))
    {
      hide EncodeFields, EncodeField, Prefix, PayloadRecords, Value, EncodePayload, Flatten;
      hide TestScalars.Value, TestScalars.Valid, TestArrays.Value, TestNested.Value, TestNested.Valid;
      InRepr();
      ghost var parts := Describe();
      ghost var before := output.written;
      PrefixEnds(parts);
      output.HoldsNothing();
      WriteOptional(hasBits[0], DoubleField(1)(header), output, before, parts, 0);
      WritePayload(output);
      PrefixStep(parts, 1);
      Associative(before, Prefix(parts, 1), EncodeFields(parts[1]));
      WriteUnknown(unknown, output, before, parts, 2);
    }

    method WritePayloadToArray(target: array<byte>, at: nat) returns (end: nat)
      requires Valid() && SizesCached()
      requires at + |EncodeFields(PayloadRecords(PayloadValue()))| <= target.Length
      modifies target
      ensures WrittenTo(target, old(target[..]), at, end, EncodeFields(PayloadRecords(PayloadValue())))
    {
      hide TestScalars.Value, TestScalars.Valid, TestArrays.Value, TestNested.Value, TestNested.Valid;
      hide SerializeScalars, SerializeArrays, SerializeNested, Head, EncodeFields;
      ghost var s0 := target[..];
      ghost var s1: seq<byte>;
      var mid;
      match payload
      case NoPayload =>
        EncodeNone();
        WrittenNothing(target, at);
        end := at;
      case ScalarRef(s) =>
        HeadAndBody(2, SerializeScalars(s.Value()));
        mid := WriteToArray(Head(2, s.cachedSize), target, at);
        s1 := target[..];
        end := s.SerializeToArray(target, mid);
        WrittenMore(target[..], s1, s0, at, mid, Head(2, s.cachedSize), end, SerializeScalars(s.Value()));
      case ArrayRef(a) =>
        HeadAndBody(3, SerializeArrays(a.Value()));
        mid := WriteToArray(Head(3, a.cachedSize), target, at);
        s1 := target[..];
        end := a.SerializeToArray(target, mid);
        WrittenMore(target[..], s1, s0, at, mid, Head(3, a.cachedSize), end, SerializeArrays(a.Value()));
      case NestedRef(n) =>
        HeadAndBody(4, SerializeNested(n.Value()));
        mid := WriteToArray(Head(4, n.cachedSize), target, at);
        s1 := target[..];
        end := n.SerializeToArray(target, mid);
        WrittenMore(target[..], s1, s0, at, mid, Head(4, n.cachedSize), end, SerializeNested(n.Value()));
    }

    method WritePayloadPart(target: array<byte>, pos: nat, ghost before: seq<byte>, ghost at: nat, ghost parts: Layout)
      returns (end: nat)
      requires Valid() && SizesCached()
      requires |parts| == 3 && parts[1] == PayloadRecords(PayloadValue())
      requires at + |EncodeFields(Flatten(parts))| <= target.Length
      requires WrittenTo(target, before, at, pos, Prefix(parts, 1))
      modifies target
      ensures WrittenTo(target, before, at, end, Prefix(parts, 2))
    {
      hide EncodeFields, EncodeField, Prefix, PayloadRecords, PayloadValue;
      PrefixFits(parts, 2);
      PrefixStep(parts, 1);
      ghost var s := target[..];
      end := WritePayloadToArray(target, pos);
      WrittenMore(target[..], s, before, at, pos, Prefix(parts, 1), end, EncodeFields(parts[1]));
    }

    method SerializeToArray(target: array<byte>, at: nat) returns (end: nat)
      requires Valid() && SizesCached() && at + |SerializeMessage(Value())| <= target.Length
      modifies target
      ensures WrittenTo(target, old(target[..]), at, end, SerializeMessage(old(Value())))
    {
      hide EncodeFields, EncodeField, Prefix, PayloadRecords, Value, WrittenTo, Written;
      hide TestScalars.Value, TestScalars.Valid, TestArrays.Value, TestNested.Value, TestNested.Valid;
      ghost var parts := Describe();
      ghost var before := target[..];
      PrefixEnds(parts);
      WrittenNothing(target, at);
      end := WriteOptionalToArray(hasBits[0], DoubleField(1)(header), target, at, before, at, parts, 0);
      end := WritePayloadPart(target, end, before, at, parts);
      end := WriteUnknownToArray(unknown, target, end, before, at, parts, 2);
    }

    // ---------- Parsing ----------

    /** What the case of a field does with the value it has read. */
    method Store(f: Field) returns (ok: bool)
      requires Valid()
      modifies Repr()
      ensures Valid() && fresh(Repr() - old(Repr()))
      ensures match ApplyMessage(old(Value()), f)
              case None => !ok
              case Some(v) => ok && Value() == v
    {
      hide TestScalars.Value, TestScalars.Valid, TestArrays.Value, TestNested.Value, TestNested.Valid, SubMessage;
      ok := true;
      match f
      case Fixed64(1, w) => SetHeader(w);
      case Delimited(2, b) =>
        var sub := MutableTestScalar();
        ok := ReadMessage(b, sub);
      case Delimited(3, b) =>
        var sub := MutableTestArray();
        ok := ReadArrays(b, sub);
      case Delimited(4, b) =>
        var sub := MutableTestNested();
        ok := ReadNested(b, sub);
      case _ => AddUnknown(f);
    }

    method AddUnknown(f: Field)
      requires Valid()
      modifies this`unknown
      ensures Valid() && Value() == old(Value()).(unknown := old(Value()).unknown + [f])
      ensures Repr() == old(Repr())
    {
      unknown := unknown + [f];
    }

    /** The tag each field expects next; 0 after the last one. */
    static function NextTag(tag: uint32): byte {
      if tag == 9 then 18 else if tag == 18 then 26 else if tag == 26 then 34 else 0
    }

    static predicate KnownTag(tag: uint32) { tag == 34 || NextTag(tag) != 0 }

    static lemma KnownTagsCarryValues(tag: uint32)
      requires KnownTag(tag)
      ensures tag != 0 && tag % 8 != END_GROUP
    {
    }

    static method Jump(tag: uint32, input: CodedInputStream) returns (jump: byte, done: bool)
      requires KnownTag(tag)
      modifies input
      ensures jump != 0 ==> KnownTag(jump) && jump < 128
      ensures old(input.rest) == Pending(jump) + input.rest
      ensures done ==> jump == 0 && input.rest == [] && input.legitimateEnd
    {
      jump, done := 0, false;
      if tag == 34 {
        done := input.ExpectAtEnd();
        assert [] + input.rest == input.rest;
      } else {
        var found := input.ExpectTag(NextTag(tag));
        if found {
          jump := NextTag(tag);
        }
      }
    }

    /** The case of a known tag: read, store, then jump if the expected tag follows. */
    method ParseField(tag: uint32, input: CodedInputStream) returns (ok: bool, jump: byte, done: bool)
      requires Valid() && KnownTag(tag) && input !in Repr()
      modifies Repr(), input
      ensures Valid() && fresh(Repr() - old(Repr())) && input !in Repr()
      ensures jump != 0 ==> KnownTag(jump) && jump < 128
      ensures done ==> ok && jump == 0 && input.rest == [] && input.legitimateEnd
      ensures match ReadPayload(tag, old(input.rest))
              case Bad => !ok
              case Got(f, rest) =>
                match ApplyMessage(old(Value()), f)
                case None => !ok
                case Some(v) => ok && Value() == v && rest == Pending(jump) + input.rest
    {
      hide ApplyMessage, ReadPayload, KnownTag;
      hide TestScalars.Value, TestScalars.Valid, TestArrays.Value, TestNested.Value, TestNested.Valid;
      jump, done := 0, false;
      var f := input.ReadField(tag);
      if f.None? {
        return false, 0, false;
      }
      ok := Store(f.value);
      if ok {
        jump, done := Jump(tag, input);
      }
    }

    /** A field of any other tag is kept as it is. */
    method KeepUnknown(tag: uint32, input: CodedInputStream) returns (ok: bool)
      requires Valid() && !KnownTag(tag) && input !in Repr()
      modifies this`unknown, input
      ensures Valid() && Repr() == old(Repr())
      ensures match ReadPayload(tag, old(input.rest))
              case Bad => !ok
              case Got(f, rest) => ok && input.rest == rest && ApplyMessage(old(Value()), f) == Some(Value())
    {
      hide ApplyMessage, ReadPayload;
      hide TestScalars.Value, TestScalars.Valid, TestArrays.Value, TestNested.Value, TestNested.Valid;
      var f := input.ReadField(tag);
      ok := f.Some?;
      if ok {
        Unrecognised(Value(), f.value);
        AddUnknown(f.value);
      }
    }

    /** Once round the parse loop, from the tag that a jump has taken (0: none). */
    method ParseOne(jump: byte, input: CodedInputStream) returns (more: bool, ok: bool, next: byte)
      requires Valid() && input !in Repr() && (jump != 0 ==> KnownTag(jump) && jump < 128)
      modifies Repr(), input
      ensures Valid() && fresh(Repr() - old(Repr())) && input !in Repr()
      ensures next != 0 ==> KnownTag(next) && next < 128
      ensures more ==> |Pending(next) + input.rest| < |Pending(jump) + old(input.rest)|
      ensures var whole := ParseLoop(old(Value()), Pending(jump) + old(input.rest), ApplyMessage);
        if more then ParseLoop(Value(), Pending(next) + input.rest, ApplyMessage) == whole
        else
          match whole
          case Failure => !ok
          case Done(v, atEnd) => ok && Value() == v && input.legitimateEnd == atEnd
    {
      hide Value, ApplyMessage, Wire.ReadTag, ReadPayload, KnownTag, ParseLoop;
      hide TestScalars.Value, TestScalars.Valid, TestArrays.Value, TestNested.Value, TestNested.Valid;
      LoopStep(Value(), Pending(jump) + input.rest, ApplyMessage);
      more, ok, next := true, true, 0;
      var tag: uint32 := jump;
      if jump == 0 {
        assert [] + input.rest == input.rest;
        tag := input.ReadTag();
      } else {
        JumpedTag(jump, input.rest);
      }
      if KnownTag(tag) {
        KnownTagsCarryValues(tag);
        var done: bool;
        ok, next, done := ParseField(tag, input);
        more := ok && !done;
        if done {
          LoopStep(Value(), [], ApplyMessage);
          assert Pending(next) + input.rest == [];
        }
      } else {
        if tag == 0 || tag % 8 == END_GROUP {
          return false, true, 0;
        }
        ok := KeepUnknown(tag, input);
        more := ok;
        assert [] + input.rest == input.rest;
      }
    }

    /** The parser with its jumps accepts the same bytes as the plain loop and ends in
        the same message, at the same kind of end; a payload of another case is replaced. */
    method MergePartialFromCodedStream(input: CodedInputStream) returns (ok: bool)
      requires Valid() && input !in Repr()
      modifies Repr(), input
      ensures Valid() && fresh(Repr() - old(Repr()))
      ensures match ParseLoop(old(Value()), old(input.rest), ApplyMessage)
              case Failure => !ok
              case Done(v, atEnd) => ok && Value() == v && input.legitimateEnd == atEnd
    {
      hide Value, ApplyMessage, KnownTag, ParseLoop;
      hide TestScalars.Value, TestScalars.Valid, TestArrays.Value, TestNested.Value, TestNested.Valid;
      ghost var target := ParseLoop(Value(), input.rest, ApplyMessage);
      var jump: byte, more := 0, true;
      ok := true;
      assert [] + input.rest == input.rest;
      while more
        invariant Valid() && fresh(Repr() - old(Repr())) && input !in Repr()
        invariant jump != 0 ==> KnownTag(jump) && jump < 128
        invariant more ==> ParseLoop(Value(), Pending(jump) + input.rest, ApplyMessage) == target
        invariant !more ==>
          match target
          case Failure => !ok
          case Done(v, atEnd) => ok && Value() == v && input.legitimateEnd == atEnd
        decreases more, |Pending(jump) + input.rest|
      {
        more, ok, jump := ParseOne(jump, input);
      }
    }

    static lemma Unrecognised(v: Message, f: Field)
      requires TagOf(f) < TWO_32 && !KnownTag(TagOf(f))
      ensures ApplyMessage(v, f) == Some(v.(unknown := v.unknown + [f]))
    {
    }
  }
}
