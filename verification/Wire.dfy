// The Protocol Buffers wire format: base-128 varints, fixed-width words,
// length-delimited values and groups, each as an encoder, a decoder and the
// lemmas that connect the two.

module Options {
  datatype Option<+T> = None | Some(value: T)
}

module Wire {
  import opened Options

  const TWO_31: int := 0x8000_0000
  const TWO_32: int := 0x1_0000_0000
  const TWO_63: int := 0x8000_0000_0000_0000
  const TWO_64: int := 0x1_0000_0000_0000_0000

  type byte = b: int | 0 <= b < 256
  type uint32 = x: int | 0 <= x < 0x1_0000_0000
  type uint64 = x: int | 0 <= x < 0x1_0000_0000_0000_0000
  type int32 = x: int | -0x8000_0000 <= x < 0x8000_0000
  type int64 = x: int | -0x8000_0000_0000_0000 <= x < 0x8000_0000_0000_0000

  /** The result of a decoder: what it read and the bytes that follow. */
  datatype Read<T> = Bad | Got(value: T, rest: seq<byte>)

  // ---------- Base 128 varints ----------

  function EncodeVarint(v: nat): (s: seq<byte>)
    ensures |s| >= 1
  {
    if v < 128 then [v] else [v % 128 + 128] + EncodeVarint(v / 128)
  }

  /** Reads at most n more bytes of a varint; the last one has its top bit clear. */
  function VarintFrom(s: seq<byte>, n: nat): (r: Read<nat>)
    ensures r.Got? ==> |r.rest| < |s|
    decreases |s|
  {
    if n == 0 || s == [] then Bad
    else if s[0] < 128 then Got(s[0], s[1..])
    else
      match VarintFrom(s[1..], n - 1)
      case Bad => Bad
      case Got(v, rest) => Got(s[0] - 128 + 128 * v, rest)
  }

  /** A varint has at most ten bytes; bits beyond the 64th are dropped. */
  function ReadVarint(s: seq<byte>): (r: Read<uint64>)
    ensures r.Got? ==> |r.rest| < |s|
  {
    match VarintFrom(s, 10)
    case Bad => Bad
    case Got(v, rest) => Got(v % TWO_64, rest)
  }

  /** The number of bytes of a varint, by comparison with the powers of 128. */
  function VarintSize(v: uint64): (n: nat)
    ensures 1 <= n <= 10
  {
    if v < 0x80 then 1
    else if v < 0x4000 then 2
    else if v < 0x20_0000 then 3
    else if v < 0x1000_0000 then 4
    else if v < 0x8_0000_0000 then 5
    else if v < 0x400_0000_0000 then 6
    else if v < 0x2_0000_0000_0000 then 7
    else if v < 0x100_0000_0000_0000 then 8
    else if v < 0x8000_0000_0000_0000 then 9
    else 10
  }

  lemma {:induction false} VarintFromEncoded(v: uint64, n: nat, tail: seq<byte>)
    requires VarintSize(v) <= n
    ensures VarintFrom(EncodeVarint(v) + tail, n) == Got(v, tail)
  {
    if v < 128 {
      assert EncodeVarint(v) + tail == [v] + tail;
      assert ([v] + tail)[1..] == tail;
    } else {
      var b: byte, s := v % 128 + 128, EncodeVarint(v / 128) + tail;
      assert EncodeVarint(v) + tail == [b] + s;
      assert ([b] + s)[1..] == s;
      VarintFromEncoded(v / 128, n - 1, tail);
      assert VarintFrom([b] + s, n) == Got(v, tail);
    }
  }

  /** Decoding undoes encoding, whatever bytes follow. */
  lemma VarintRoundTrip(v: uint64, tail: seq<byte>)
    ensures ReadVarint(EncodeVarint(v) + tail) == Got(v, tail)
  {
    VarintFromEncoded(v, 10, tail);
    ReadVarintIs(EncodeVarint(v) + tail, v, tail);
  }

  lemma ReadVarintIs(s: seq<byte>, v: uint64, tail: seq<byte>)
    requires VarintFrom(s, 10) == Got(v, tail)
    ensures ReadVarint(s) == Got(v, tail)
  {
  }

  /** The size computed by comparison is the length of the encoding. */
  lemma {:induction false} VarintSizeIsLength(v: uint64)
    ensures |EncodeVarint(v)| == VarintSize(v)
    decreases v
  {
    if v >= 128 {
      VarintSizeIsLength(v / 128);
    }
  }

  // ---------- Two's complement views of a 64-bit varint ----------

  function Signed64(v: uint64): int64 { if v < TWO_63 then v else v - TWO_64 }

  function Unsigned64(x: int64): uint64 { if x < 0 then x + TWO_64 else x }

  function Low32(v: uint64): uint32 { v % TWO_32 }

  /** A 32-bit value keeps the low half of the varint and is then read as signed. */
  function Signed32(v: uint64): int32 {
    if Low32(v) < TWO_31 then Low32(v) else Low32(v) - TWO_32
  }

  lemma SignedRoundTrip(x: int64, y: int32)
    ensures Signed64(Unsigned64(x)) == x
    ensures Signed32(Unsigned64(y)) == y
  {
    assert y < 0 ==> Low32(Unsigned64(y)) == y + TWO_32;
  }

  // ---------- Fixed-width little-endian words ----------

  function Pow256(n: nat): (p: nat)
    ensures p >= 1
  {
    if n == 0 then 1 else 256 * Pow256(n - 1)
  }

  function EncodeFixed(w: nat, n: nat): (s: seq<byte>)
    ensures |s| == n
    decreases n, w
  {
    if n == 0 then [] else [w % 256] + EncodeFixed(w / 256, n - 1)
  }

  function DecodeFixed(s: seq<byte>): (w: nat)
    ensures w < Pow256(|s|)
  {
    if s == [] then 0 else s[0] + 256 * DecodeFixed(s[1..])
  }

  lemma {:induction false} FixedRoundTrip(w: nat, n: nat)
    requires w < Pow256(n)
    ensures DecodeFixed(EncodeFixed(w, n)) == w
  {
    if n > 0 {
      assert EncodeFixed(w, n)[1..] == EncodeFixed(w / 256, n - 1);
      FixedRoundTrip(w / 256, n - 1);
    }
  }

  lemma Pow256Of4And8()
    ensures Pow256(4) == TWO_32
    ensures Pow256(8) == TWO_64
  {
    assert Pow256(2) == 0x1_0000;
    assert Pow256(6) == 0x1_0000_0000_0000;
  }

  function ReadFixed32(s: seq<byte>): (r: Read<uint32>)
    ensures r.Got? ==> |r.rest| < |s|
  {
    Pow256Of4And8();
    if |s| < 4 then Bad else Got(DecodeFixed(s[..4]), s[4..])
  }

  function ReadFixed64(s: seq<byte>): (r: Read<uint64>)
    ensures r.Got? ==> |r.rest| < |s|
  {
    Pow256Of4And8();
    if |s| < 8 then Bad else Got(DecodeFixed(s[..8]), s[8..])
  }

  lemma Fixed32RoundTrip(w: uint32, tail: seq<byte>)
    ensures ReadFixed32(EncodeFixed(w, 4) + tail) == Got(w, tail)
  {
    Pow256Of4And8();
    FixedRoundTrip(w, 4);
    assert (EncodeFixed(w, 4) + tail)[..4] == EncodeFixed(w, 4);
    assert (EncodeFixed(w, 4) + tail)[4..] == tail;
  }

  lemma Fixed64RoundTrip(w: uint64, tail: seq<byte>)
    ensures ReadFixed64(EncodeFixed(w, 8) + tail) == Got(w, tail)
  {
    Pow256Of4And8();
    FixedRoundTrip(w, 8);
    assert (EncodeFixed(w, 8) + tail)[..8] == EncodeFixed(w, 8);
    assert (EncodeFixed(w, 8) + tail)[8..] == tail;
  }

  // ---------- Length-delimited values ----------

  function EncodeDelimited(b: seq<byte>): (s: seq<byte>)
    ensures |s| > |b|
  {
    EncodeVarint(|b|) + b
  }

  /** The length must be below 2^31 and the bytes it announces must be there. */
  function ReadDelimited(s: seq<byte>): (r: Read<seq<byte>>)
    ensures r.Got? ==> |r.rest| < |s| && |r.value| < |s| && |r.value| < TWO_31
  {
    match ReadVarint(s)
    case Bad => Bad
    case Got(n, rest) =>
      if n >= TWO_31 || n > |rest| then Bad else Got(rest[..n], rest[n..])
  }

  lemma DelimitedRoundTrip(b: seq<byte>, tail: seq<byte>)
    requires |b| < TWO_31
    ensures ReadDelimited(EncodeDelimited(b) + tail) == Got(b, tail)
  {
    VarintRoundTrip(|b|, b + tail);
    assert EncodeDelimited(b) + tail == EncodeVarint(|b|) + (b + tail);
    assert (b + tail)[..|b|] == b && (b + tail)[|b|..] == tail;
  }

  // ---------- Records ----------

  /** One field of a message as it stands on the wire. */
  datatype Field =
    | Varint(num: nat, value: uint64)
    | Fixed64(num: nat, word64: uint64)
    | Delimited(num: nat, payload: seq<byte>)
    | Group(num: nat, fields: seq<Field>)
    | Fixed32(num: nat, word32: uint32)

  const MAX_FIELD_NUMBER: nat := 0x1fff_ffff

  function WireType(f: Field): nat {
    match f
    case Varint(_, _) => 0
    case Fixed64(_, _) => 1
    case Delimited(_, _) => 2
    case Group(_, _) => 3
    case Fixed32(_, _) => 5
  }

  const END_GROUP: nat := 4


  predicate WellFormed(f: Field)
    decreases f
  {
    && 1 <= f.num <= MAX_FIELD_NUMBER
    && (f.Delimited? ==> |f.payload| < TWO_31)
    && (f.Group? ==> forall g <- f.fields :: WellFormed(g))
  }

  function TagOf(f: Field): (tag: nat)
    ensures WellFormed(f) ==> tag < TWO_32
    ensures tag / 8 == f.num && tag % 8 == WireType(f)
  {
    8 * f.num + WireType(f)
  }

  function EncodePayload(f: Field): seq<byte>
    decreases f, 0
  {
    match f
    case Varint(_, v) => EncodeVarint(v)
    case Fixed64(_, w) => EncodeFixed(w, 8)
    case Delimited(_, b) => EncodeDelimited(b)
    case Group(n, fs) => EncodeFields(fs) + EncodeVarint(8 * n + END_GROUP)
    case Fixed32(_, w) => EncodeFixed(w, 4)
  }

  function EncodeField(f: Field): (s: seq<byte>)
    ensures |s| >= 1
    decreases f, 1
  {
    EncodeVarint(TagOf(f)) + EncodePayload(f)
  }

  function EncodeFields(fs: seq<Field>): seq<byte>
    decreases fs, 0
  {
    if fs == [] then [] else EncodeField(fs[0]) + EncodeFields(fs[1..])
  }

  lemma Associative(a: seq<byte>, b: seq<byte>, c: seq<byte>)
    ensures (a + b) + c == a + (b + c)
  {
  }

  lemma Regroup(t: seq<byte>, p: seq<byte>, e: seq<byte>, c: seq<byte>, tail: seq<byte>)
    ensures ((t + p) + e) + c + tail == t + (p + (e + c + tail))
  {
  }

  lemma {:induction false} EncodeFieldsAppend(a: seq<Field>, b: seq<Field>)
    ensures EncodeFields(a + b) == EncodeFields(a) + EncodeFields(b)
  {
    if a == [] {
      assert a + b == b;
    } else {
      EncodeFieldsAppend(a[1..], b);
      assert (a + b)[1..] == a[1..] + b && (a + b)[0] == a[0];
      Associative(EncodeField(a[0]), EncodeFields(a[1..]), EncodeFields(b));
    }
  }

  // ---------- Messages laid out field by field ----------

  /** The records of a message, grouped by the field they come from. */
  type Layout = seq<seq<Field>>

  function Flatten(parts: Layout): seq<Field> {
    if parts == [] then [] else Flatten(parts[..|parts| - 1]) + parts[|parts| - 1]
  }

  lemma {:induction false} FlattenAppend(p: Layout, q: Layout)
    ensures Flatten(p + q) == Flatten(p) + Flatten(q)
    decreases |q|
  {
    if q == [] {
      assert p + q == p;
    } else {
      assert (p + q)[..|p + q| - 1] == p + q[..|q| - 1];
      FlattenAppend(p, q[..|q| - 1]);
    }
  }

  /** The bytes of the first k parts. */
  function Prefix(parts: Layout, k: nat): seq<byte>
    requires k <= |parts|
  {
    EncodeFields(Flatten(parts[..k]))
  }

  lemma PrefixStep(parts: Layout, k: nat)
    requires k < |parts|
    ensures Prefix(parts, k + 1) == Prefix(parts, k) + EncodeFields(parts[k])
  {
    assert parts[..k + 1][..k] == parts[..k];
    EncodeFieldsAppend(Flatten(parts[..k]), parts[k]);
  }

  lemma PrefixEnds(parts: Layout)
    ensures Prefix(parts, 0) == []
    ensures Prefix(parts, |parts|) == EncodeFields(Flatten(parts))
    ensures EncodeFields([]) == []
  {
    assert parts[..|parts|] == parts;
  }

  lemma {:induction false} PrefixFits(parts: Layout, k: nat)
    requires k <= |parts|
    ensures |Prefix(parts, k)| <= |EncodeFields(Flatten(parts))|
    decreases |parts| - k
  {
    if k == |parts| {
      assert parts[..k] == parts;
    } else {
      PrefixStep(parts, k);
      PrefixFits(parts, k + 1);
    }
  }

  // ---------- Sizes ----------

  function DelimitedSize(b: seq<byte>): nat
    requires |b| < TWO_31
  {
    VarintSize(|b|) + |b|
  }

  function PayloadSize(f: Field): nat
    requires !f.Group? && (f.Delimited? ==> |f.payload| < TWO_31)
  {
    match f
    case Varint(_, v) => VarintSize(v)
    case Fixed64(_, _) => 8
    case Delimited(_, b) => DelimitedSize(b)
    case Fixed32(_, _) => 4
  }

  /** A one-byte tag and the payload size make the length of a record. */
  lemma FieldLength(f: Field)
    requires TagOf(f) < 128 && !f.Group? && (f.Delimited? ==> |f.payload| < TWO_31)
    ensures |EncodeField(f)| == 1 + PayloadSize(f)
  {
    match f
    case Varint(_, v) => VarintSizeIsLength(v);
    case Delimited(_, b) => VarintSizeIsLength(|b|);
    case _ =>
  }

  /** The bytes of a part that holds one record or none. */
  lemma PartBytes(parts: Layout, k: nat, present: bool, f: Field)
    requires k < |parts| && parts[k] == if present then [f] else []
    ensures Prefix(parts, k + 1) == Prefix(parts, k) + if present then EncodeField(f) else []
  {
    PrefixStep(parts, k);
    if present {
      assert EncodeFields([f]) == EncodeField(f) + EncodeFields([]);
    }
  }

  // ---------- Reading records ----------

  datatype TagRead = AtEnd | Unreadable | Tag(tag: uint32, rest: seq<byte>)

  /** A tag is a varint cut to 32 bits; only the end of the bytes is a legitimate end. */
  function ReadTag(s: seq<byte>): (r: TagRead)
    ensures r.Tag? ==> |r.rest| < |s|
    ensures r.AtEnd? <==> s == []
  {
    if s == [] then AtEnd
    else
      match ReadVarint(s)
      case Bad => Unreadable
      case Got(v, rest) => Tag(Low32(v), rest)
  }

  /** The value after a tag, chosen by its wire type; field number 0 is illegal. */
  function ReadPayload(tag: uint32, s: seq<byte>): (r: Read<Field>)
    ensures r.Got? ==> |r.rest| < |s| && TagOf(r.value) == tag
    decreases |s|, 1
  {
    var num := tag / 8;
    if num == 0 then Bad
    else if tag % 8 == 0 then
      match ReadVarint(s) { case Bad => Bad case Got(v, rest) => Got(Varint(num, v), rest) }
    else if tag % 8 == 1 then
      match ReadFixed64(s) { case Bad => Bad case Got(w, rest) => Got(Fixed64(num, w), rest) }
    else if tag % 8 == 2 then
      match ReadDelimited(s) { case Bad => Bad case Got(b, rest) => Got(Delimited(num, b), rest) }
    else if tag % 8 == 3 then
      match ReadGroup(num, s) { case Bad => Bad case Got(fs, rest) => Got(Group(num, fs), rest) }
    else if tag % 8 == 5 then
      match ReadFixed32(s) { case Bad => Bad case Got(w, rest) => Got(Fixed32(num, w), rest) }
    else Bad
  }

  /** The fields of group num up to and including its own end-group tag. */
  function ReadGroup(num: nat, s: seq<byte>): (r: Read<seq<Field>>)
    ensures r.Got? ==> |r.rest| < |s|
    decreases |s|, 0
  {
    match ReadTag(s)
    case AtEnd => Bad
    case Unreadable => Bad
    case Tag(tag, rest) =>
      if tag % 8 == END_GROUP then (if tag / 8 == num then Got([], rest) else Bad)
      else
        match ReadPayload(tag, rest)
        case Bad => Bad
        case Got(f, rest') =>
          match ReadGroup(num, rest')
          case Bad => Bad
          case Got(fs, rest'') => Got([f] + fs, rest'')
  }

  lemma TagRoundTrip(tag: uint32, tail: seq<byte>)
    ensures ReadTag(EncodeVarint(tag) + tail) == Tag(tag, tail)
  {
    VarintRoundTrip(tag, tail);
  }

  /** Every well-formed record reads back as itself, groups included. */
  lemma {:induction false} PayloadRoundTrip(f: Field, tail: seq<byte>)
    requires WellFormed(f)
    ensures ReadPayload(TagOf(f), EncodePayload(f) + tail) == Got(f, tail)
    decreases f, 0
  {
    assert TagOf(f) / 8 == f.num && TagOf(f) % 8 == WireType(f);
    match f
    case Varint(_, v) => VarintRoundTrip(v, tail);
    case Fixed64(_, w) => Fixed64RoundTrip(w, tail);
    case Delimited(_, b) => DelimitedRoundTrip(b, tail);
    case Group(n, fs) => GroupRoundTrip(n, fs, tail, EncodePayload(f) + tail);
    case Fixed32(_, w) => Fixed32RoundTrip(w, tail);
  }

  lemma {:induction false} GroupRoundTrip(n: nat, fs: seq<Field>, tail: seq<byte>, s: seq<byte>)
    requires 1 <= n <= MAX_FIELD_NUMBER
    requires forall g <- fs :: WellFormed(g)
    requires s == EncodeFields(fs) + EncodeVarint(8 * n + END_GROUP) + tail
    ensures ReadGroup(n, s) == Got(fs, tail)
    decreases fs, 0
  {
    var close := EncodeVarint(8 * n + END_GROUP);
    if fs == [] {
      assert s == close + tail;
      TagRoundTrip(8 * n + END_GROUP, tail);
    } else {
      var after := EncodeFields(fs[1..]) + close + tail;
      PayloadRoundTrip(fs[0], after);
      GroupRoundTrip(n, fs[1..], tail, after);
      FirstRecord(fs, close, tail);
      TagRoundTrip(TagOf(fs[0]), EncodePayload(fs[0]) + after);
      GroupStep(n, TagOf(fs[0]), s, EncodePayload(fs[0]) + after);
      assert [fs[0]] + fs[1..] == fs;
    }
  }

  lemma GroupStep(n: nat, tag: uint32, s: seq<byte>, rest: seq<byte>)
    requires ReadTag(s) == Tag(tag, rest) && tag % 8 != END_GROUP
    requires ReadPayload(tag, rest).Got? && ReadGroup(n, ReadPayload(tag, rest).rest).Got?
    ensures var f := ReadPayload(tag, rest);
            var fs := ReadGroup(n, f.rest);
            ReadGroup(n, s) == Got([f.value] + fs.value, fs.rest)
  {
  }

  lemma FirstRecord(fs: seq<Field>, close: seq<byte>, tail: seq<byte>)
    requires fs != []
    ensures EncodeFields(fs) + close + tail
         == EncodeVarint(TagOf(fs[0])) + (EncodePayload(fs[0]) + (EncodeFields(fs[1..]) + close + tail))
  {
    Regroup(EncodeVarint(TagOf(fs[0])), EncodePayload(fs[0]), EncodeFields(fs[1..]), close, tail);
  }

  // ---------- The plain parse loop ----------

  /** Failure, or the message read and whether its end was a legitimate one. */
  datatype Outcome<+V> = Failure | Done(value: V, atEnd: bool)

  /** Reads one tag at a time, reads the value its wire type announces and applies it. */
  function ParseLoop<V>(v: V, s: seq<byte>, apply: (V, Field) -> Option<V>): Outcome<V>
    decreases |s|
  {
    match ReadTag(s)
    case AtEnd => Done(v, true)
    case Unreadable => Done(v, false)
    case Tag(tag, rest) =>
      if tag == 0 || tag % 8 == END_GROUP then Done(v, false)
      else
        match ReadPayload(tag, rest)
        case Bad => Failure
        case Got(f, rest') =>
          match apply(v, f)
          case None => Failure
          case Some(v') => ParseLoop(v', rest', apply)
  }

  /** Applies records one after the other. */
  function Fold<V>(v: V, fs: seq<Field>, apply: (V, Field) -> Option<V>): Option<V> {
    if fs == [] then Some(v)
    else
      match apply(v, fs[0])
      case None => None
      case Some(v') => Fold(v', fs[1..], apply)
  }

  lemma {:induction false} FoldAppend<V>(v: V, a: seq<Field>, b: seq<Field>, apply: (V, Field) -> Option<V>)
    ensures Fold(v, a + b, apply)
         == match Fold(v, a, apply) { case None => None case Some(w) => Fold(w, b, apply) }
  {
    if a == [] {
      assert a + b == b;
    } else {
      assert (a + b)[1..] == a[1..] + b;
      match apply(v, a[0])
      case None =>
      case Some(v') => FoldAppend(v', a[1..], b, apply);
    }
  }

  /** Folding a message part by part, through the given intermediate values. */
  lemma {:induction false} FoldParts<V>(parts: Layout, steps: seq<V>, apply: (V, Field) -> Option<V>)
    requires |steps| == |parts| + 1
    requires forall k :: 0 <= k < |parts| ==> Fold(steps[k], parts[k], apply) == Some(steps[k + 1])
    ensures Fold(steps[0], Flatten(parts), apply) == Some(steps[|parts|])
    decreases |parts|
  {
    if parts != [] {
      var n := |parts| - 1;
      FoldParts(parts[..n], steps[..n + 1], apply);
      FoldAppend(steps[0], Flatten(parts[..n]), parts[n], apply);
    }
  }

  /** Parsing the bytes of well-formed records is applying the records, whatever
      the message kind and whatever bytes follow. */
  lemma {:induction false} ParseEncoded<V>(v: V, fs: seq<Field>, tail: seq<byte>, apply: (V, Field) -> Option<V>)
    requires forall f <- fs :: WellFormed(f)
    ensures ParseLoop(v, EncodeFields(fs) + tail, apply)
         == match Fold(v, fs, apply) { case None => Failure case Some(w) => ParseLoop(w, tail, apply) }
    decreases |fs|
  {
    if fs == [] {
      assert EncodeFields(fs) + tail == tail;
    } else {
      var after := EncodeFields(fs[1..]) + tail;
      var t, p := EncodeVarint(TagOf(fs[0])), EncodePayload(fs[0]);
      assert EncodeFields(fs) + tail == t + (p + after) by {
        Associative(t + p, EncodeFields(fs[1..]), tail);
        Associative(t, p, after);
      }
      TagRoundTrip(TagOf(fs[0]), p + after);
      PayloadRoundTrip(fs[0], after);
      match apply(v, fs[0])
      case None =>
      case Some(v') => ParseEncoded(v', fs[1..], tail, apply);
    }
  }

  // ---------- Jumping past the tag read ----------

  /** The one-byte tag that a parser has taken when it jumps (0: it has taken none). */
  function Pending(tag: byte): seq<byte> { if tag == 0 then [] else [tag] }

  /** Jumping on a one-byte tag is reading that tag at the top of the loop. */
  lemma JumpedTag(tag: byte, s: seq<byte>)
    requires 0 < tag < 128
    ensures ReadTag(Pending(tag) + s) == Tag(tag, s)
  {
    assert EncodeVarint(tag) == [tag];
    TagRoundTrip(tag, s);
  }
}
