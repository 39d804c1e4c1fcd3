// The coded input and output streams that the message classes read and write.
// Their primitives are the wire-format functions; the streams hold the position.

module CodedStreams {
  import opened Options
  import opened Wire

  /** The bytes up to the current limit. legitimateEnd says whether the last tag
      read was the end of those bytes rather than a stray or unreadable tag. */
  class CodedInputStream {
    var rest: seq<byte>
    var legitimateEnd: bool

    constructor (bytes: seq<byte>)
      ensures rest == bytes
    {
      rest, legitimateEnd := bytes, false;
    }

    /** 0 stands for "no tag": the end of the bytes, an unreadable varint or a zero tag. */
    method ReadTag() returns (tag: uint32)
      modifies this
      ensures match Wire.ReadTag(old(rest))
              case AtEnd => tag == 0 && legitimateEnd && rest == []
              case Unreadable => tag == 0 && !legitimateEnd
              case Tag(t, r) => tag == t && !legitimateEnd && rest == r
    {
      match Wire.ReadTag(rest)
      case AtEnd => tag, legitimateEnd := 0, true;
      case Unreadable => tag, legitimateEnd := 0, false;
      case Tag(t, r) => tag, legitimateEnd, rest := t, false, r;
    }

    /** Takes the next byte if it is the given one-byte tag. */
    method ExpectTag(expected: byte) returns (found: bool)
      modifies this`rest
      ensures found == (old(rest) != [] && old(rest)[0] == expected)
      ensures old(rest) == (if found then [expected] else []) + rest
      ensures !found ==> rest == old(rest)
    {
      found := rest != [] && rest[0] == expected;
      if found {
        rest := rest[1..];
      }
    }

    /** May only answer true when nothing is left; then the end is legitimate. */
    method ExpectAtEnd() returns (done: bool)
      modifies this`legitimateEnd
      ensures done == (rest == [])
      ensures done ==> legitimateEnd
    {
      done := rest == [];
      if done {
        legitimateEnd := true;
      }
    }

    /** Reads the value that belongs to tag; it also serves to skip a field. */
    method ReadField(tag: uint32) returns (f: Option<Field>)
      modifies this`rest
      ensures match ReadPayload(tag, old(rest))
              case Bad => f == None
              case Got(g, r) => f == Some(g) && rest == r
    {
      match ReadPayload(tag, rest)
      case Bad => f := None;
      case Got(g, r) => f, rest := Some(g), r;
    }
  }

  class CodedOutputStream {
    var written: seq<byte>

    constructor ()
      ensures written == []
    {
      written := [];
    }

    ghost predicate Holds(before: seq<byte>, b: seq<byte>)
      reads this
    {
      written == before + b
    }

    lemma HoldsNothing()
      ensures Holds(written, [])
    {
    }

    method WriteField(f: Field)
      modifies this
      ensures written == old(written) + EncodeField(f)
    {
      written := written + EncodeField(f);
    }

    method WriteFields(fs: seq<Field>)
      modifies this
      ensures written == old(written) + EncodeFields(fs)
    {
      written := written + EncodeFields(fs);
    }

    method WriteHead(num: nat, size: nat)
      modifies this
      ensures written == old(written) + Head(num, size)
    {
      written := written + Head(num, size);
    }
  }

  /** now is before with b at position at, up to end. */
  ghost predicate Written(now: seq<byte>, before: seq<byte>, at: nat, end: nat, b: seq<byte>) {
    && |now| == |before| && end == at + |b| <= |now|
    && now[..end] == before[..at] + b && now[end..] == before[end..]
  }

  ghost predicate WrittenTo(target: array<byte>, before: seq<byte>, at: nat, end: nat, b: seq<byte>)
    reads target
  {
    Written(target[..], before, at, end, b)
  }

  lemma WrittenNothing(target: array<byte>, at: nat)
    requires at <= target.Length
    ensures WrittenTo(target, target[..], at, at, [])
  {
  }

  /** Copies b into target from position at on and returns the position after it. */
  method WriteToArray(b: seq<byte>, target: array<byte>, at: nat) returns (end: nat)
    requires at + |b| <= target.Length
    modifies target
    ensures Written(target[..], old(target[..]), at, end, b)
  {
    for i := 0 to |b|
      invariant target[..at] == old(target[..at])
      invariant target[at..at + i] == b[..i]
      invariant target[at + |b|..] == old(target[at + |b|..])
    {
      target[at + i] := b[i];
    }
    end := at + |b|;
    assert target[..end] == target[..at] + target[at..end];
    assert target[..][end..] == target[end..];
  }

  // ---------- Sub-messages ----------

  /** The tag and the length prefix of a sub-message of the given size. */
  function Head(num: nat, size: nat): seq<byte> { EncodeVarint(8 * num + 2) + EncodeVarint(size) }

  lemma HeadAndBody(num: nat, b: seq<byte>)
    ensures EncodeField(Delimited(num, b)) == Head(num, |b|) + b
    ensures EncodeFields([Delimited(num, b)]) == Head(num, |b|) + b
  {
    var f := Delimited(num, b);
    Associative(EncodeVarint(TagOf(f)), EncodeVarint(|b|), b);
    assert EncodeFields([f]) == EncodeField(f) + EncodeFields([]);
  }

  // ---------- Writing a message part by part ----------

  /** Writes part k of a layout: the record f if its has-bit is on. */
  method WriteOptional(has: bool, f: Field, output: CodedOutputStream,
                       ghost before: seq<byte>, ghost parts: Layout, ghost k: nat)
    requires k < |parts| && parts[k] == if has then [f] else []
    requires output.Holds(before, Prefix(parts, k))
    modifies output
    ensures output.Holds(before, Prefix(parts, k + 1))
  {
    hide EncodeField, EncodeFields, Prefix;
    PartBytes(parts, k, has, f);
    if has {
      Associative(before, Prefix(parts, k), EncodeField(f));
      output.WriteField(f);
    }
  }

  /** The unknown records are the last part. */
  method WriteUnknown(fs: seq<Field>, output: CodedOutputStream,
                      ghost before: seq<byte>, ghost parts: Layout, ghost k: nat)
    requires |parts| == k + 1 && parts[k] == fs
    requires output.Holds(before, Prefix(parts, k))
    modifies output
    ensures output.written == before + EncodeFields(Flatten(parts))
  {
    hide EncodeField, EncodeFields, Prefix;
    PrefixStep(parts, k);
    PrefixEnds(parts);
    if fs != [] {
      Associative(before, Prefix(parts, k), EncodeFields(fs));
      output.WriteFields(fs);
    }
  }

  /** Counts part k of a layout. */
  method SizeOptional(has: bool, size: nat, total: nat, ghost f: Field, ghost parts: Layout, ghost k: nat)
    returns (sum: nat)
    requires k < |parts| && parts[k] == if has then [f] else []
    requires total == |Prefix(parts, k)| && (has ==> size == |EncodeField(f)|)
    ensures sum == |Prefix(parts, k + 1)|
  {
    PartBytes(parts, k, has, f);
    sum := if has then total + size else total;
  }

  method WriteOptionalToArray(
    has: bool, f: Field, target: array<byte>, pos: nat,
    ghost before: seq<byte>, ghost at: nat, ghost parts: Layout, ghost k: nat) returns (end: nat)
    requires k < |parts| && parts[k] == if has then [f] else []
    requires at + |EncodeFields(Flatten(parts))| <= target.Length
    requires WrittenTo(target, before, at, pos, Prefix(parts, k))
    modifies target
    ensures WrittenTo(target, before, at, end, Prefix(parts, k + 1))
  {
    PartBytes(parts, k, has, f);
    PrefixFits(parts, k + 1);
    hide EncodeField, EncodeFields, Prefix;
    end := pos;
    if has {
      ghost var s := target[..];
      end := WriteToArray(EncodeField(f), target, end);
      WrittenMore(target[..], s, before, at, pos, Prefix(parts, k), end, EncodeField(f));
    }
  }

  /** The unknown records are the last part. */
  method WriteUnknownToArray(
    fs: seq<Field>, target: array<byte>, pos: nat,
    ghost before: seq<byte>, ghost at: nat, ghost parts: Layout, ghost k: nat) returns (end: nat)
    requires |parts| == k + 1 && parts[k] == fs
    requires at + |EncodeFields(Flatten(parts))| <= target.Length
    requires WrittenTo(target, before, at, pos, Prefix(parts, k))
    modifies target
    ensures WrittenTo(target, before, at, end, EncodeFields(Flatten(parts)))
  {
    PrefixStep(parts, k);
    PrefixEnds(parts);
    hide EncodeFields, Prefix;
    end := pos;
    if fs != [] {
      ghost var s := target[..];
      end := WriteToArray(EncodeFields(fs), target, end);
      WrittenMore(target[..], s, before, at, pos, Prefix(parts, k), end, EncodeFields(fs));
    }
  }

  lemma WrittenMore(now: seq<byte>, mid: seq<byte>, before: seq<byte>, at: nat, pos: nat, a: seq<byte>,
                    end: nat, b: seq<byte>)
    requires Written(mid, before, at, pos, a)
    requires Written(now, mid, pos, end, b)
    ensures Written(now, before, at, end, a + b)
  {
    assert mid[end..] == mid[pos..][|b|..];
    assert before[end..] == before[pos..][|b|..];
  }
}
