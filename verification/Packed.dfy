// Packed repeated fields: what the elements of a packed payload are, and that a packed
// record has the effect of its elements sent one by one.

module PackedFields {
  import opened Options
  import opened Wire
  import opened MessageSpec

  /** The elements one after the other, without tags. */
  function Packed<T>(enc: T -> seq<byte>, xs: seq<T>): seq<byte> {
    if xs == [] then [] else enc(xs[0]) + Packed(enc, xs[1..])
  }

  /** Unpacking undoes packing, for any element format that reads back. */
  lemma {:induction false} UnpackPacked<T(!new)>(xs: seq<T>, enc: T -> seq<byte>, read: seq<byte> -> Read<T>)
    requires forall s :: read(s).Got? ==> |read(s).rest| < |s|
    requires forall x: T, tail: seq<byte> :: read(enc(x) + tail) == Got(x, tail)
    ensures Unpack(Packed(enc, xs), read) == Some(xs)
    decreases |xs|
  {
    if xs != [] {
      var tail := Packed(enc, xs[1..]);
      assert read(enc(xs[0]) + tail) == Got(xs[0], tail);
      UnpackPacked(xs[1..], enc, read);
      assert [xs[0]] + xs[1..] == xs;
    }
  }

  function VarintBytes(x: uint64): seq<byte> { EncodeVarint(x) }

  function Fixed64Bytes(w: uint64): seq<byte> { EncodeFixed(w, 8) }

  function Fixed32Bytes(w: uint32): seq<byte> { EncodeFixed(w, 4) }

  /** The three formats in which numbers are packed. */
  lemma UnpackNumbers(xs: seq<uint64>, ds: seq<uint64>, fs: seq<uint32>)
    ensures Unpack(Packed(VarintBytes, xs), ReadVarint) == Some(xs)
    ensures Unpack(Packed(Fixed64Bytes, ds), ReadFixed64) == Some(ds)
    ensures Unpack(Packed(Fixed32Bytes, fs), ReadFixed32) == Some(fs)
  {
    hide ReadVarint, ReadFixed64, ReadFixed32, Packed, Unpack;
    forall x: uint64, tail: seq<byte> ensures ReadVarint(VarintBytes(x) + tail) == Got(x, tail) {
      VarintRoundTrip(x, tail);
    }
    forall w: uint64, tail: seq<byte> ensures ReadFixed64(Fixed64Bytes(w) + tail) == Got(w, tail) {
      Fixed64RoundTrip(w, tail);
    }
    forall w: uint32, tail: seq<byte> ensures ReadFixed32(Fixed32Bytes(w) + tail) == Got(w, tail) {
      Fixed32RoundTrip(w, tail);
    }
    UnpackPacked(xs, VarintBytes, ReadVarint);
    UnpackPacked(ds, Fixed64Bytes, ReadFixed64);
    UnpackPacked(fs, Fixed32Bytes, ReadFixed32);
  }

  // ---------- A packed record is its elements ----------

  predicate VarintColumn(num: nat) { 1 <= num <= 4 || 9 <= num <= 10 }

  function RawVarint(num: nat): uint64 -> Field { (x: uint64) => Varint(num, x) }

  lemma MapCons<T, U>(f: T -> U, xs: seq<T>)
    requires xs != []
    ensures Map(f, xs) == [f(xs[0])] + Map(f, xs[1..])
  {
  }

  /** One element first, then the others. */
  lemma AddOneFirst(v: Arrays, num: nat, xs: seq<uint64>)
    requires VarintColumn(num) && xs != []
    ensures ApplyArrays(v, Varint(num, xs[0])).Some?
    ensures AddVarints(v, num, xs) == AddVarints(ApplyArrays(v, Varint(num, xs[0])).value, num, xs[1..])
  {
    hide AddEnum, Map, Signed64, Signed32, Low32;
    MapCons(Signed64, xs);
    MapCons(Signed32, xs);
    MapCons(Low32, xs);
    MapCons((x: uint64) => x != 0, xs);
    assert xs == [xs[0]] + xs[1..];
    Grouped(v.integer64, Signed64(xs[0]), Map(Signed64, xs[1..]));
    Grouped(v.unsigned64, xs[0], xs[1..]);
    Grouped(v.integer32, Signed32(xs[0]), Map(Signed32, xs[1..]));
    Grouped(v.unsigned32, Low32(xs[0]), Map(Low32, xs[1..]));
    Grouped(v.logicalItem, xs[0] != 0, Map((x: uint64) => x != 0, xs[1..]));
  }

  lemma Grouped<T>(s: seq<T>, x: T, rest: seq<T>)
    ensures s + ([x] + rest) == (s + [x]) + rest
  {
  }

  lemma NoneAdded(v: Arrays, num: nat)
    requires VarintColumn(num)
    ensures AddVarints(v, num, []) == v
  {
    assert v.integer64 + [] == v.integer64 && v.unsigned64 + [] == v.unsigned64;
    assert v.integer32 + [] == v.integer32 && v.unsigned32 + [] == v.unsigned32;
    assert v.logicalItem + [] == v.logicalItem;
  }

  lemma {:induction false} VarintsOneByOne(v: Arrays, num: nat, xs: seq<uint64>)
    requires VarintColumn(num)
    ensures Fold(v, Map(RawVarint(num), xs), ApplyArrays) == Some(AddVarints(v, num, xs))
    decreases |xs|
  {
    hide AddVarints, ApplyArrays;
    if xs == [] {
      NoneAdded(v, num);
    } else {
      AddOneFirst(v, num, xs);
      var v' := ApplyArrays(v, Varint(num, xs[0])).value;
      assert Map(RawVarint(num), xs)[1..] == Map(RawVarint(num), xs[1..]);
      VarintsOneByOne(v', num, xs[1..]);
    }
  }

  lemma {:induction false} DoublesOneByOne(v: Arrays, ws: seq<uint64>)
    ensures Fold(v, Map(DoubleField(5), ws), ApplyArrays) == Some(v.(binary64 := v.binary64 + ws))
    decreases |ws|
  {
    if ws == [] {
      assert v.binary64 + [] == v.binary64;
    } else {
      assert Map(DoubleField(5), ws)[1..] == Map(DoubleField(5), ws[1..]);
      DoublesOneByOne(v.(binary64 := v.binary64 + [ws[0]]), ws[1..]);
      assert v.binary64 + [ws[0]] + ws[1..] == v.binary64 + ws;
    }
  }

  lemma {:induction false} FloatsOneByOne(v: Arrays, ws: seq<uint32>)
    ensures Fold(v, Map(FloatField(6), ws), ApplyArrays) == Some(v.(binary32 := v.binary32 + ws))
    decreases |ws|
  {
    if ws == [] {
      assert v.binary32 + [] == v.binary32;
    } else {
      assert Map(FloatField(6), ws)[1..] == Map(FloatField(6), ws[1..]);
      FloatsOneByOne(v.(binary32 := v.binary32 + [ws[0]]), ws[1..]);
      assert v.binary32 + [ws[0]] + ws[1..] == v.binary32 + ws;
    }
  }

  /** Any packed record of varints, however its elements are encoded, unknown enumerators
      included, has the effect of its elements one by one; a cut-off element is an error. */
  lemma PackedVarints(v: Arrays, num: nat, b: seq<byte>)
    requires VarintColumn(num)
    ensures ApplyArrays(v, Delimited(num, b)) ==
      match Unpack(b, ReadVarint)
      case None => None
      case Some(xs) => Fold(v, Map(RawVarint(num), xs), ApplyArrays)
  {
    hide Unpack, AddVarints, Fold;
    if Unpack(b, ReadVarint).Some? {
      VarintsOneByOne(v, num, Unpack(b, ReadVarint).value);
    }
  }

  lemma PackedDoubles(v: Arrays, b: seq<byte>)
    ensures ApplyArrays(v, Delimited(5, b)) ==
      match Unpack(b, ReadFixed64)
      case None => None
      case Some(ws) => Fold(v, Map(DoubleField(5), ws), ApplyArrays)
  {
    hide Unpack, Fold;
    if Unpack(b, ReadFixed64).Some? {
      DoublesOneByOne(v, Unpack(b, ReadFixed64).value);
    }
  }

  lemma PackedFloats(v: Arrays, b: seq<byte>)
    ensures ApplyArrays(v, Delimited(6, b)) ==
      match Unpack(b, ReadFixed32)
      case None => None
      case Some(ws) => Fold(v, Map(FloatField(6), ws), ApplyArrays)
  {
    hide Unpack, Fold;
    if Unpack(b, ReadFixed32).Some? {
      FloatsOneByOne(v, Unpack(b, ReadFixed32).value);
    }
  }

  /** A column written packed instead of element by element, all eight that can be. */
  lemma PackedIsUnpacked(v: Arrays, num: nat, xs: seq<uint64>, ds: seq<uint64>, fs: seq<uint32>)
    requires VarintColumn(num)
    ensures ApplyArrays(v, Delimited(num, Packed(VarintBytes, xs))) == Fold(v, Map(RawVarint(num), xs), ApplyArrays)
    ensures ApplyArrays(v, Delimited(5, Packed(Fixed64Bytes, ds))) == Fold(v, Map(DoubleField(5), ds), ApplyArrays)
    ensures ApplyArrays(v, Delimited(6, Packed(Fixed32Bytes, fs))) == Fold(v, Map(FloatField(6), fs), ApplyArrays)
  {
    hide ApplyArrays, Fold, Unpack, Packed;
    UnpackNumbers(xs, ds, fs);
    PackedVarints(v, num, Packed(VarintBytes, xs));
    PackedDoubles(v, Packed(Fixed64Bytes, ds));
    PackedFloats(v, Packed(Fixed32Bytes, fs));
  }

  /** So on the wire: the bytes of the packed record parse as the bytes of its elements. */
  lemma SameBytes(v: Arrays, f: Field, fs: seq<Field>, tail: seq<byte>)
    requires WellFormed(f) && (forall g <- fs :: WellFormed(g))
    requires ApplyArrays(v, f) == Fold(v, fs, ApplyArrays)
    ensures ParseLoop(v, EncodeField(f) + tail, ApplyArrays) == ParseLoop(v, EncodeFields(fs) + tail, ApplyArrays)
  {
    hide ApplyArrays, ParseLoop, EncodeField;
    assert [f][1..] == [] && EncodeFields([f]) == EncodeField(f) + [];
    assert EncodeField(f) + [] == EncodeField(f);
    assert forall g <- [f] :: g == f;
    ParseEncoded(v, [f], tail, ApplyArrays);
    ParseEncoded(v, fs, tail, ApplyArrays);
  }

  lemma PackedBytes(v: Arrays, num: nat, xs: seq<uint64>, tail: seq<byte>)
    requires VarintColumn(num) && |Packed(VarintBytes, xs)| < TWO_31
    ensures ParseLoop(v, EncodeField(Delimited(num, Packed(VarintBytes, xs))) + tail, ApplyArrays)
         == ParseLoop(v, EncodeFields(Map(RawVarint(num), xs)) + tail, ApplyArrays)
  {
    hide ApplyArrays, ParseLoop, EncodeField, EncodeFields, Fold, Packed;
    PackedIsUnpacked(v, num, xs, [], []);
    SameBytes(v, Delimited(num, Packed(VarintBytes, xs)), Map(RawVarint(num), xs), tail);
  }
}
