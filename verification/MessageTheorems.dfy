// What serialising, parsing and merging promise each other.

module MessageTheorems {
  import opened Options
  import opened Wire
  import opened MessageSpec

  // ---------- Folding the records of one column ----------

  /** get and set view one repeated field of a message. */
  ghost predicate Lens<V(!new), T(!new)>(get: V -> seq<T>, set_: (V, seq<T>) -> V) {
    && (forall v: V :: set_(v, get(v)) == v)
    && (forall v: V, a: seq<T> :: get(set_(v, a)) == a)
    && (forall v: V, a: seq<T>, b: seq<T> :: set_(set_(v, a), b) == set_(v, b))
  }

  lemma FoldFirst<V, T>(v: V, w: V, xs: seq<T>, enc: T -> Field, apply: (V, Field) -> Option<V>)
    requires xs != [] && apply(v, enc(xs[0])) == Some(w)
    ensures Fold(v, Map(enc, xs), apply) == Fold(w, Map(enc, xs[1..]), apply)
  {
    assert Map(enc, xs)[1..] == Map(enc, xs[1..]);
  }

  lemma LensAppend<V(!new), T(!new)>(v: V, xs: seq<T>, get: V -> seq<T>, set_: (V, seq<T>) -> V)
    requires Lens(get, set_) && xs != []
    ensures var w := set_(v, get(v) + [xs[0]]);
            set_(w, get(w) + xs[1..]) == set_(v, get(v) + xs)
  {
    var w := set_(v, get(v) + [xs[0]]);
    assert get(w) == get(v) + [xs[0]];
    assert get(w) + xs[1..] == get(v) + xs;
  }

  /** If each record appends its element to a column, the records of xs append xs. */
  lemma {:induction false} FoldColumn<V(!new), T(!new)>(
    v: V, xs: seq<T>, enc: T -> Field, apply: (V, Field) -> Option<V>,
    get: V -> seq<T>, set_: (V, seq<T>) -> V)
    requires Lens(get, set_)
    requires forall w: V, x: T :: x in xs ==> apply(w, enc(x)) == Some(set_(w, get(w) + [x]))
    ensures Fold(v, Map(enc, xs), apply) == Some(set_(v, get(v) + xs))
    decreases |xs|
  {
    if xs == [] {
      assert get(v) + [] == get(v);
    } else {
      var w := set_(v, get(v) + [xs[0]]);
      FoldFirst(v, w, xs, enc, apply);
      FoldColumn(w, xs[1..], enc, apply, get, set_);
      LensAppend(v, xs, get, set_);
    }
  }

  /** The records nobody recognises, re-read, are appended in order. */
  lemma FoldUnknown<V(!new)>(
    v: V, us: seq<Field>, apply: (V, Field) -> Option<V>,
    get: V -> seq<Field>, set_: (V, seq<Field>) -> V)
    requires Lens(get, set_)
    requires forall w: V, f: Field :: f in us ==> apply(w, f) == Some(set_(w, get(w) + [f]))
    ensures Fold(v, us, apply) == Some(set_(v, get(v) + us))
  {
    var same := (f: Field) => f;
    assert Map(same, us) == us;
    FoldColumn(v, us, same, apply, get, set_);
  }

  lemma UnknownToScalarsIsKept(v: Scalars, f: Field)
    requires UnknownToScalars(f)
    ensures ApplyScalars(v, f) == Some(v.(unknown := v.unknown + [f]))
  {
    assert ApplyScalars(NO_SCALARS, f).value.unknown[0] == f;
  }

  lemma FoldScalarsUnknown(v: Scalars, us: seq<Field>)
    requires forall f <- us :: UnknownToScalars(f)
    ensures Fold(v, us, ApplyScalars) == Some(v.(unknown := v.unknown + us))
  {
    forall w: Scalars, f | f in us ensures ApplyScalars(w, f) == Some(w.(unknown := w.unknown + [f])) {
      UnknownToScalarsIsKept(w, f);
    }
    FoldUnknown(v, us, ApplyScalars, (w: Scalars) => w.unknown,
                (w: Scalars, fs: seq<Field>) => w.(unknown := fs));
  }

  // ---------- TestScalars ----------

  lemma FoldInt64(v: Scalars, o: Option<int64>)
    ensures Fold(v, One(o, Int64Field(1)), ApplyScalars) == Some(v.(integer64 := Later(v.integer64, o)))
  {
  }

  lemma FoldUInt64(v: Scalars, o: Option<uint64>)
    ensures Fold(v, One(o, UInt64Field(2)), ApplyScalars) == Some(v.(unsigned64 := Later(v.unsigned64, o)))
  {
  }

  lemma FoldInt32(v: Scalars, o: Option<int32>)
    ensures Fold(v, One(o, Int32Field(3)), ApplyScalars) == Some(v.(integer32 := Later(v.integer32, o)))
  {
  }

  lemma FoldUInt32(v: Scalars, o: Option<uint32>)
    ensures Fold(v, One(o, UInt32Field(4)), ApplyScalars) == Some(v.(unsigned32 := Later(v.unsigned32, o)))
  {
  }

  lemma FoldDouble(v: Scalars, o: Option<uint64>)
    ensures Fold(v, One(o, DoubleField(5)), ApplyScalars) == Some(v.(binary64 := Later(v.binary64, o)))
  {
  }

  lemma FoldFloat(v: Scalars, o: Option<uint32>)
    ensures Fold(v, One(o, FloatField(6)), ApplyScalars) == Some(v.(binary32 := Later(v.binary32, o)))
  {
  }

  lemma FoldByteString(v: Scalars, o: Option<seq<byte>>)
    ensures Fold(v, One(o, BytesField(7)), ApplyScalars) == Some(v.(byteArray := Later(v.byteArray, o)))
  {
  }

  lemma FoldString(v: Scalars, o: Option<seq<byte>>)
    ensures Fold(v, One(o, BytesField(8)), ApplyScalars) == Some(v.(characterArray := Later(v.characterArray, o)))
  {
  }

  lemma FoldEnum(v: Scalars, o: Option<TestEnum>)
    ensures Fold(v, One(o, EnumField(9)), ApplyScalars) == Some(v.(enumItem := Later(v.enumItem, o)))
  {
  }

  lemma FoldBool(v: Scalars, o: Option<bool>)
    ensures Fold(v, One(o, BoolField(10)), ApplyScalars) == Some(v.(logicalItem := Later(v.logicalItem, o)))
  {
  }

  /** a with the number fields that b has. */
  function WithNumbers(a: Scalars, b: Scalars): Scalars {
    a.(integer64 := Later(a.integer64, b.integer64), unsigned64 := Later(a.unsigned64, b.unsigned64),
       integer32 := Later(a.integer32, b.integer32), unsigned32 := Later(a.unsigned32, b.unsigned32),
       binary64 := Later(a.binary64, b.binary64), binary32 := Later(a.binary32, b.binary32))
  }

  lemma FoldNumbers(a: Scalars, b: Scalars)
    ensures Fold(a, Flatten(NumberParts(b)), ApplyScalars) == Some(WithNumbers(a, b))
  {
    var v1 := a.(integer64 := Later(a.integer64, b.integer64));
    var v2 := v1.(unsigned64 := Later(a.unsigned64, b.unsigned64));
    var v3 := v2.(integer32 := Later(a.integer32, b.integer32));
    var v4 := v3.(unsigned32 := Later(a.unsigned32, b.unsigned32));
    var v5 := v4.(binary64 := Later(a.binary64, b.binary64));
    FoldInt64(a, b.integer64);
    FoldUInt64(v1, b.unsigned64);
    FoldInt32(v2, b.integer32);
    FoldUInt32(v3, b.unsigned32);
    FoldDouble(v4, b.binary64);
    FoldFloat(v5, b.binary32);
    FoldParts(NumberParts(b), [a, v1, v2, v3, v4, v5, WithNumbers(a, b)], ApplyScalars);
  }

  lemma FoldTexts(v: Scalars, a: Scalars, b: Scalars)
    requires SoundScalars(b) && v == WithNumbers(a, b)
    ensures Fold(v, Flatten(TextParts(b)), ApplyScalars) == Some(MergeScalars(a, b))
  {
    var v1 := v.(byteArray := Later(v.byteArray, b.byteArray));
    var v2 := v1.(characterArray := Later(v.characterArray, b.characterArray));
    var v3 := v2.(enumItem := Later(v.enumItem, b.enumItem));
    var v4 := v3.(logicalItem := Later(v.logicalItem, b.logicalItem));
    FoldByteString(v, b.byteArray);
    FoldString(v1, b.characterArray);
    FoldEnum(v2, b.enumItem);
    FoldBool(v3, b.logicalItem);
    FoldScalarsUnknown(v4, b.unknown);
    FoldParts(TextParts(b), [v, v1, v2, v3, v4, MergeScalars(a, b)], ApplyScalars);
  }

  /** Applying the records of b to a is merging b into a. */
  lemma FoldScalars(a: Scalars, b: Scalars)
    requires SoundScalars(b)
    ensures Fold(a, Flatten(ScalarsParts(b)), ApplyScalars) == Some(MergeScalars(a, b))
  {
    FoldNumbers(a, b);
    FoldTexts(WithNumbers(a, b), a, b);
    FlattenAppend(NumberParts(b), TextParts(b));
    FoldAppend(a, Flatten(NumberParts(b)), Flatten(TextParts(b)), ApplyScalars);
  }

  // ---------- TestArrays, one repeated field at a time ----------

  lemma FoldInt64s(v: Arrays, xs: seq<int64>)
    ensures Fold(v, Map(Int64Field(1), xs), ApplyArrays) == Some(v.(integer64 := v.integer64 + xs))
  {
    hide Fold, Map;
    FoldColumn(v, xs, Int64Field(1), ApplyArrays, (w: Arrays) => w.integer64,
               (w: Arrays, ys: seq<int64>) => w.(integer64 := ys));
  }

  lemma FoldUInt64s(v: Arrays, xs: seq<uint64>)
    ensures Fold(v, Map(UInt64Field(2), xs), ApplyArrays) == Some(v.(unsigned64 := v.unsigned64 + xs))
  {
    hide Fold, Map;
    FoldColumn(v, xs, UInt64Field(2), ApplyArrays, (w: Arrays) => w.unsigned64,
               (w: Arrays, ys: seq<uint64>) => w.(unsigned64 := ys));
  }

  lemma FoldInt32s(v: Arrays, xs: seq<int32>)
    ensures Fold(v, Map(Int32Field(3), xs), ApplyArrays) == Some(v.(integer32 := v.integer32 + xs))
  {
    forall x: int32 ensures Signed32(Unsigned64(x)) == x {
      SignedRoundTrip(x, x);
    }
    FoldColumn(v, xs, Int32Field(3), ApplyArrays, (w: Arrays) => w.integer32,
               (w: Arrays, ys: seq<int32>) => w.(integer32 := ys));
  }

  lemma FoldUInt32s(v: Arrays, xs: seq<uint32>)
    ensures Fold(v, Map(UInt32Field(4), xs), ApplyArrays) == Some(v.(unsigned32 := v.unsigned32 + xs))
  {
    forall w: Arrays, x: uint32
      ensures ApplyArrays(w, UInt32Field(4)(x)) == Some(w.(unsigned32 := w.unsigned32 + [x]))
    {
      assert Low32(x) == x;
    }
    FoldColumn(v, xs, UInt32Field(4), ApplyArrays, (w: Arrays) => w.unsigned32,
               (w: Arrays, ys: seq<uint32>) => w.(unsigned32 := ys));
  }

  lemma FoldDoubles(v: Arrays, xs: seq<uint64>)
    ensures Fold(v, Map(DoubleField(5), xs), ApplyArrays) == Some(v.(binary64 := v.binary64 + xs))
  {
    hide Fold, Map;
    FoldColumn(v, xs, DoubleField(5), ApplyArrays, (w: Arrays) => w.binary64,
               (w: Arrays, ys: seq<uint64>) => w.(binary64 := ys));
  }

  lemma FoldFloats(v: Arrays, xs: seq<uint32>)
    ensures Fold(v, Map(FloatField(6), xs), ApplyArrays) == Some(v.(binary32 := v.binary32 + xs))
  {
    hide Fold, Map;
    FoldColumn(v, xs, FloatField(6), ApplyArrays, (w: Arrays) => w.binary32,
               (w: Arrays, ys: seq<uint32>) => w.(binary32 := ys));
  }

  lemma FoldByteStrings(v: Arrays, xs: seq<seq<byte>>)
    ensures Fold(v, Map(BytesField(7), xs), ApplyArrays) == Some(v.(byteArray := v.byteArray + xs))
  {
    hide Fold, Map;
    FoldColumn(v, xs, BytesField(7), ApplyArrays, (w: Arrays) => w.byteArray,
               (w: Arrays, ys: seq<seq<byte>>) => w.(byteArray := ys));
  }

  lemma FoldStrings(v: Arrays, xs: seq<seq<byte>>)
    ensures Fold(v, Map(BytesField(8), xs), ApplyArrays) == Some(v.(characterArray := v.characterArray + xs))
  {
    hide Fold, Map;
    FoldColumn(v, xs, BytesField(8), ApplyArrays, (w: Arrays) => w.characterArray,
               (w: Arrays, ys: seq<seq<byte>>) => w.(characterArray := ys));
  }

  lemma FoldEnums(v: Arrays, xs: seq<TestEnum>)
    ensures Fold(v, Map(EnumField(9), xs), ApplyArrays) == Some(v.(enumItem := v.enumItem + xs))
  {
    hide Fold, Map;
    FoldColumn(v, xs, EnumField(9), ApplyArrays, (w: Arrays) => w.enumItem,
               (w: Arrays, ys: seq<TestEnum>) => w.(enumItem := ys));
  }

  lemma FoldBools(v: Arrays, xs: seq<bool>)
    ensures Fold(v, Map(BoolField(10), xs), ApplyArrays) == Some(v.(logicalItem := v.logicalItem + xs))
  {
    hide Fold, Map;
    FoldColumn(v, xs, BoolField(10), ApplyArrays, (w: Arrays) => w.logicalItem,
               (w: Arrays, ys: seq<bool>) => w.(logicalItem := ys));
  }

  lemma {:induction false} EnumsLeaveVarints(v: Arrays, xs: seq<uint64>)
    requires forall u <- v.unknown :: u.Varint?
    ensures forall u <- AddEnums(v, xs).unknown :: u.Varint?
    decreases |xs|
  {
    if xs != [] {
      EnumsLeaveVarints(AddEnum(v, xs[0]), xs[1..]);
    }
  }

  lemma UnknownToArraysIsKept(v: Arrays, f: Field)
    requires UnknownToArrays(f)
    ensures ApplyArrays(v, f) == Some(v.(unknown := v.unknown + [f]))
  {
    var w := ApplyArrays(NO_ARRAYS, f).value;
    assert w.unknown[0] == f;
    match f
    case Varint(9, x) =>
      assert w == AddEnum(NO_ARRAYS, x);
    case Delimited(9, b) =>
      EnumsLeaveVarints(NO_ARRAYS, Unpack(b, ReadVarint).value);
      assert false;
    case _ =>
  }

  lemma FoldArraysUnknown(v: Arrays, us: seq<Field>)
    requires forall f <- us :: UnknownToArrays(f)
    ensures Fold(v, us, ApplyArrays) == Some(v.(unknown := v.unknown + us))
  {
    forall w: Arrays, f | f in us ensures ApplyArrays(w, f) == Some(w.(unknown := w.unknown + [f])) {
      UnknownToArraysIsKept(w, f);
    }
    FoldUnknown(v, us, ApplyArrays, (w: Arrays) => w.unknown,
                (w: Arrays, fs: seq<Field>) => w.(unknown := fs));
  }

  lemma FoldArrays(a: Arrays, b: Arrays)
    requires SoundArrays(b)
    ensures Fold(a, Flatten(ArraysParts(b)), ApplyArrays) == Some(MergeArrays(a, b))
  {
    var v1 := a.(integer64 := a.integer64 + b.integer64);
    var v2 := v1.(unsigned64 := a.unsigned64 + b.unsigned64);
    var v3 := v2.(integer32 := a.integer32 + b.integer32);
    var v4 := v3.(unsigned32 := a.unsigned32 + b.unsigned32);
    var v5 := v4.(binary64 := a.binary64 + b.binary64);
    var v6 := v5.(binary32 := a.binary32 + b.binary32);
    var v7 := v6.(byteArray := a.byteArray + b.byteArray);
    var v8 := v7.(characterArray := a.characterArray + b.characterArray);
    var v9 := v8.(enumItem := a.enumItem + b.enumItem);
    var v10 := v9.(logicalItem := a.logicalItem + b.logicalItem);
    FoldInt64s(a, b.integer64);
    FoldUInt64s(v1, b.unsigned64);
    FoldInt32s(v2, b.integer32);
    FoldUInt32s(v3, b.unsigned32);
    FoldDoubles(v4, b.binary64);
    FoldFloats(v5, b.binary32);
    FoldByteStrings(v6, b.byteArray);
    FoldStrings(v7, b.characterArray);
    FoldEnums(v8, b.enumItem);
    FoldBools(v9, b.logicalItem);
    FoldArraysUnknown(v10, b.unknown);
    FoldParts(ArraysParts(b), [a, v1, v2, v3, v4, v5, v6, v7, v8, v9, v10, MergeArrays(a, b)], ApplyArrays);
  }

  // ---------- Parsing serialised bytes is merging ----------

  lemma MapWellFormed<T>(enc: T -> Field, xs: seq<T>)
    requires forall x <- xs :: WellFormed(enc(x))
    ensures forall f <- Map(enc, xs) :: WellFormed(f)
  {
  }

  lemma {:induction false} FlattenWellFormed(parts: Layout)
    requires forall p <- parts :: forall f <- p :: WellFormed(f)
    ensures forall f <- Flatten(parts) :: WellFormed(f)
  {
    if parts != [] {
      var n := |parts| - 1;
      assert forall p <- parts[..n] :: p in parts;
      FlattenWellFormed(parts[..n]);
      assert parts[n] in parts;
    }
  }

  lemma ScalarsWellFormed(v: Scalars)
    requires SoundScalars(v)
    ensures forall f <- Flatten(ScalarsParts(v)) :: WellFormed(f)
  {
    FlattenWellFormed(NumberParts(v));
    FlattenWellFormed(TextParts(v));
    FlattenAppend(NumberParts(v), TextParts(v));
  }

  lemma ArraysWellFormed(v: Arrays)
    requires SoundArrays(v)
    ensures forall f <- Flatten(ArraysParts(v)) :: WellFormed(f)
  {
    MapWellFormed(BytesField(7), v.byteArray);
    MapWellFormed(BytesField(8), v.characterArray);
    FlattenWellFormed(ArraysParts(v));
  }

  lemma NestedWellFormed(v: Nested)
    requires SoundNested(v)
    ensures forall f <- Flatten(NestedParts(v)) :: WellFormed(f)
  {
    MapWellFormed(ScalarsField(2), v.items);
    FlattenWellFormed(NestedParts(v));
  }

  lemma MessageWellFormed(v: Message)
    requires SoundMessage(v)
    ensures forall f <- Flatten(MessageParts(v)) :: WellFormed(f)
  {
    FlattenWellFormed(MessageParts(v));
  }

  /** Parsing the bytes of b into a leaves what merging b into a leaves, and goes
      on with the bytes that follow. */
  lemma ParseIsMergeScalars(a: Scalars, b: Scalars, tail: seq<byte>)
    requires SoundScalars(b)
    ensures ParseLoop(a, SerializeScalars(b) + tail, ApplyScalars)
         == ParseLoop(MergeScalars(a, b), tail, ApplyScalars)
  {
    ScalarsWellFormed(b);
    FoldScalars(a, b);
    ParseEncoded(a, Flatten(ScalarsParts(b)), tail, ApplyScalars);
  }

  lemma SubScalars(a: Scalars, b: Scalars)
    requires SoundScalars(b)
    ensures SubMessage(a, SerializeScalars(b), ApplyScalars) == Some(MergeScalars(a, b))
  {
    ParseIsMergeScalars(a, b, []);
    assert SerializeScalars(b) + [] == SerializeScalars(b);
  }

  lemma ParseIsMergeArrays(a: Arrays, b: Arrays, tail: seq<byte>)
    requires SoundArrays(b)
    ensures ParseLoop(a, SerializeArrays(b) + tail, ApplyArrays)
         == ParseLoop(MergeArrays(a, b), tail, ApplyArrays)
  {
    ArraysWellFormed(b);
    FoldArrays(a, b);
    ParseEncoded(a, Flatten(ArraysParts(b)), tail, ApplyArrays);
  }

  lemma SubArrays(a: Arrays, b: Arrays)
    requires SoundArrays(b)
    ensures SubMessage(a, SerializeArrays(b), ApplyArrays) == Some(MergeArrays(a, b))
  {
    ParseIsMergeArrays(a, b, []);
    assert SerializeArrays(b) + [] == SerializeArrays(b);
  }

  lemma MergeIntoNewScalars(v: Scalars)
    ensures MergeScalars(NO_SCALARS, v) == v
  {
    assert [] + v.unknown == v.unknown;
  }

  lemma MergeIntoNewArrays(v: Arrays)
    ensures MergeArrays(NO_ARRAYS, v) == v
  {
    var w := MergeArrays(NO_ARRAYS, v);
    assert w.integer64 == v.integer64 && w.unsigned64 == v.unsigned64 && w.integer32 == v.integer32;
    assert w.unsigned32 == v.unsigned32 && w.binary64 == v.binary64 && w.binary32 == v.binary32;
    assert w.byteArray == v.byteArray && w.characterArray == v.characterArray;
    assert w.enumItem == v.enumItem && w.logicalItem == v.logicalItem && w.unknown == v.unknown;
  }

  lemma FoldItems(v: Nested, items: seq<Scalars>)
    requires forall w <- items :: StorableScalars(w)
    ensures Fold(v, Map(ScalarsField(2), items), ApplyNested) == Some(v.(items := v.items + items))
  {
    forall w: Nested, x: Scalars | x in items
      ensures ApplyNested(w, ScalarsField(2)(x)) == Some(w.(items := w.items + [x]))
    {
      SubScalars(NO_SCALARS, x);
      MergeIntoNewScalars(x);
    }
    FoldColumn(v, items, ScalarsField(2), ApplyNested, (w: Nested) => w.items,
               (w: Nested, xs: seq<Scalars>) => w.(items := xs));
  }

  lemma FoldScalarPart(a: Nested, o: Option<Scalars>)
    requires o.Some? ==> SoundScalars(o.value)
    ensures Fold(a, One(o, ScalarsField(1)), ApplyNested)
         == Some(if o.None? then a else a.(scalar := Some(MergeScalars(OrNew(a.scalar), o.value))))
  {
    if o.Some? {
      SubScalars(OrNew(a.scalar), o.value);
    }
  }

  lemma FoldNested(a: Nested, b: Nested)
    requires SoundNested(b)
    ensures Fold(a, Flatten(NestedParts(b)), ApplyNested) == Some(MergeNested(a, b))
  {
    var v := a.(scalar := MergeNested(a, b).scalar);
    FoldScalarPart(a, b.scalar);
    FoldItems(v, b.items);
    var u := v.(items := v.items + b.items);
    FoldUnknown(u, b.unknown, ApplyNested, (w: Nested) => w.unknown,
                (w: Nested, fs: seq<Field>) => w.(unknown := fs));
    FoldParts(NestedParts(b), [a, v, u, MergeNested(a, b)], ApplyNested);
  }

  lemma ParseIsMergeNested(a: Nested, b: Nested, tail: seq<byte>)
    requires SoundNested(b)
    ensures ParseLoop(a, SerializeNested(b) + tail, ApplyNested)
         == ParseLoop(MergeNested(a, b), tail, ApplyNested)
  {
    NestedWellFormed(b);
    FoldNested(a, b);
    ParseEncoded(a, Flatten(NestedParts(b)), tail, ApplyNested);
  }

  lemma SubNested(a: Nested, b: Nested)
    requires SoundNested(b)
    ensures SubMessage(a, SerializeNested(b), ApplyNested) == Some(MergeNested(a, b))
  {
    ParseIsMergeNested(a, b, []);
    assert SerializeNested(b) + [] == SerializeNested(b);
  }

  lemma ApplyPayload(a: Message, b: Payload)
    requires SoundPayload(b) && b != NotSet
    ensures ApplyMessage(a, PayloadRecords(b)[0]) == Some(a.(payload := MergePayload(a.payload, b)))
  {
    hide SubMessage, SerializeScalars, SerializeArrays, SerializeNested, MergeScalars, MergeArrays, MergeNested;
    match b
    case TestScalar(v) => SubScalars(ScalarPayload(a.payload), v);
    case TestArray(v) => SubArrays(ArrayPayload(a.payload), v);
    case TestNested(v) => SubNested(NestedPayload(a.payload), v);
  }

  lemma FoldPayload(a: Message, b: Payload)
    requires SoundPayload(b)
    ensures Fold(a, PayloadRecords(b), ApplyMessage) == Some(a.(payload := MergePayload(a.payload, b)))
  {
    if b != NotSet {
      ApplyPayload(a, b);
    }
  }

  lemma FoldMessage(a: Message, b: Message)
    requires SoundMessage(b)
    ensures Fold(a, Flatten(MessageParts(b)), ApplyMessage) == Some(MergeMessage(a, b))
  {
    var v := a.(header := Later(a.header, b.header));
    assert Fold(a, One(b.header, DoubleField(1)), ApplyMessage) == Some(v);
    FoldPayload(v, b.payload);
    var u := v.(payload := MergePayload(v.payload, b.payload));
    FoldUnknown(u, b.unknown, ApplyMessage, (w: Message) => w.unknown,
                (w: Message, fs: seq<Field>) => w.(unknown := fs));
    FoldParts(MessageParts(b), [a, v, u, MergeMessage(a, b)], ApplyMessage);
  }

  /** Main theorem: for any two messages, whatever their oneof cases, nesting and
      has-bits, parsing the bytes of b into a is a.MergeFrom(b). */
  lemma ParseIsMergeMessage(a: Message, b: Message, tail: seq<byte>)
    requires SoundMessage(b)
    ensures ParseLoop(a, SerializeMessage(b) + tail, ApplyMessage)
         == ParseLoop(MergeMessage(a, b), tail, ApplyMessage)
  {
    MessageWellFormed(b);
    FoldMessage(a, b);
    ParseEncoded(a, Flatten(MessageParts(b)), tail, ApplyMessage);
  }

  lemma MergeIntoNewPayload(p: Payload)
    ensures MergePayload(NotSet, p) == p
  {
    match p
    case NotSet =>
    case TestScalar(w) => MergeIntoNewScalars(w);
    case TestArray(w) => MergeIntoNewArrays(w);
    case TestNested(w) =>
      assert [] + w.items == w.items && [] + w.unknown == w.unknown;
      if w.scalar.Some? {
        MergeIntoNewScalars(w.scalar.value);
      }
  }

  /** Round trip: the bytes of a message, parsed into a fresh one, give it back. */
  lemma MessageRoundTrip(v: Message)
    requires SoundMessage(v)
    ensures ParseLoop(NO_MESSAGE, SerializeMessage(v), ApplyMessage) == Done(v, true)
  {
    ParseIsMergeMessage(NO_MESSAGE, v, []);
    MergeIntoNewPayload(v.payload);
    assert [] + v.unknown == v.unknown;
    assert SerializeMessage(v) + [] == SerializeMessage(v);
  }

  /** Bytes concatenated on the wire are messages merged. */
  lemma ConcatenationIsMerge(a: Message, b: Message)
    requires SoundMessage(a) && SoundMessage(b)
    ensures ParseLoop(NO_MESSAGE, SerializeMessage(a) + SerializeMessage(b), ApplyMessage)
         == Done(MergeMessage(a, b), true)
  {
    ParseIsMergeMessage(NO_MESSAGE, a, SerializeMessage(b));
    MergeIntoNewPayload(a.payload);
    assert [] + a.unknown == a.unknown;
    ParseIsMergeMessage(a, b, []);
    assert SerializeMessage(b) + [] == SerializeMessage(b);
  }

  // ---------- Required fields ----------

  predicate InitializedScalars(v: Scalars) {
    && v.integer64.Some? && v.unsigned64.Some? && v.integer32.Some? && v.unsigned32.Some?
    && v.binary64.Some? && v.binary32.Some? && v.byteArray.Some? && v.characterArray.Some?
    && v.enumItem.Some? && v.logicalItem.Some?
  }

  predicate InitializedNested(v: Nested) {
    v.scalar.Some? && InitializedScalars(v.scalar.value) && forall w <- v.items :: InitializedScalars(w)
  }

  predicate InitializedMessage(v: Message) {
    && v.header.Some?
    && (v.payload.TestScalar? ==> InitializedScalars(v.payload.scalar))
    && (v.payload.TestNested? ==> InitializedNested(v.payload.nested))
  }

  /** The whole-message entry point: every byte consumed and no required field missing. */
  function ParseMessage(s: seq<byte>): Option<Message> {
    match ParseLoop(NO_MESSAGE, s, ApplyMessage)
    case Done(v, true) => if InitializedMessage(v) then Some(v) else None
    case _ => None
  }

  /** A serialised message is accepted by the strict entry point exactly when all
      its required fields are set, at every level; then it comes back unchanged. */
  lemma StrictRoundTrip(v: Message)
    requires SoundMessage(v)
    ensures ParseMessage(SerializeMessage(v)) == if InitializedMessage(v) then Some(v) else None
  {
    MessageRoundTrip(v);
  }
}
