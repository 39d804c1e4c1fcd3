// The bytes themselves: what stands at each place of an encoded number, which bytes a
// number can be read from, and every record and message spelled out byte by byte.

module WireBytes {
  import opened Wire

  // ---------- Positional digits ----------

  lemma DivideTwice(w: nat, a: nat, b: nat)
    requires a > 0 && b > 0 && a * b > 0
    ensures w / a / b == w / (a * b)
  {
    var q, r := w / (a * b), w % (a * b);
    Divided(w, a * b);
    Regroup3(a, b, q);
    Quotient(a, b * q, r, w);
    Whole(b, q, w / a - b * q, w / a);
  }

  lemma Regroup3(a: nat, b: nat, q: nat)
    ensures a * b * q == a * (b * q)
  {
  }

  lemma Quotient(a: nat, x: nat, r: nat, w: nat)
    requires a > 0 && w == a * x + r
    ensures w / a == x + r / a
    ensures forall b: nat :: r < a * b ==> r / a < b
  {
    var y := r / a;
    Divided(r, a);
    Distributed(a, x, y);
    Whole(a, x + y, r % a, w);
    forall b: nat ensures r < a * b ==> y < b {
      Larger(a, b, y);
    }
  }

  lemma Distributed(a: nat, x: nat, y: nat)
    ensures a * (x + y) == a * x + a * y
  {
  }

  lemma Larger(b: nat, x: nat, y: nat)
    ensures x <= y ==> b * x <= b * y
  {
    if x <= y {
      assert b * y == b * x + b * (y - x);
    }
  }

  lemma Whole(b: nat, q: nat, y: nat, w: nat)
    requires b > 0 && y < b && w == b * q + y
    ensures w / b == q
  {
    var d, r := w / b, w % b;
    Divided(w, b);
    assert b * (d + 1) == b * d + b && b * (q + 1) == b * q + b;
    Larger(b, d + 1, q);
    Larger(b, q + 1, d);
  }

  lemma Divided(w: nat, b: nat)
    requires b > 0
    ensures w == b * (w / b) + w % b && 0 <= w % b < b
  {
  }

  /** Little-endian: byte i of a fixed-width word is its i-th digit in base 256. */
  lemma {:induction false} FixedByte(w: nat, n: nat, i: nat)
    requires i < n
    ensures EncodeFixed(w, n)[i] == w / Pow256(i) % 256
    decreases i
  {
    if i > 0 {
      FixedByte(w / 256, n - 1, i - 1);
      DivideTwice(w, 256, Pow256(i - 1));
    }
  }

  function Pow128(n: nat): (p: nat)
    ensures p >= 1
  {
    if n == 0 then 1 else 128 * Pow128(n - 1)
  }

  /** Byte i of a varint holds the i-th group of seven bits, lowest first, and its top bit
      is on in every byte but the last; the last group is not zero unless it is the only one. */
  lemma {:induction false} VarintByte(v: nat, i: nat)
    requires i < |EncodeVarint(v)|
    ensures var last := |EncodeVarint(v)| - 1;
      && EncodeVarint(v)[i] == v / Pow128(i) % 128 + (if i < last then 128 else 0)
      && v < Pow128(last + 1) && (last > 0 ==> Pow128(last) <= v)
    decreases v
  {
    if v >= 128 {
      var rest := EncodeVarint(v / 128);
      assert EncodeVarint(v)[1..] == rest;
      VarintByte(v / 128, if i > 0 then i - 1 else 0);
      if i > 0 {
        assert EncodeVarint(v)[i] == rest[i - 1];
        DivideTwice(v, 128, Pow128(i - 1));
      }
    }
  }

  /** The unsigned view of a signed number is that number modulo 2^64, and back; the 32-bit
      views agree with the 64-bit word modulo 2^32. */
  lemma TwosComplement(x: int64, v: uint64)
    ensures Unsigned64(x) == x % 0x1_0000_0000_0000_0000
    ensures Signed64(v) % 0x1_0000_0000_0000_0000 == v
    ensures Low32(v) == v % 0x1_0000_0000
    ensures Signed32(v) % 0x1_0000_0000 == v % 0x1_0000_0000
  {
  }

  // ---------- Which bytes are read ----------

  /** The first byte of s, from i on, without its top bit. */
  ghost predicate EndsVarint(s: seq<byte>, i: nat) {
    i < |s| && s[i] < 128 && forall j :: 0 <= j < i ==> s[j] >= 128
  }

  /** The number that seven-bit groups spell, lowest group first. */
  function Groups(s: seq<byte>): nat {
    if s == [] then 0 else s[0] % 128 + 128 * Groups(s[1..])
  }

  lemma {:induction false} VarintFromReads(s: seq<byte>, n: nat, i: nat)
    requires EndsVarint(s, i)
    ensures i < n ==> VarintFrom(s, n) == Got(Groups(s[..i + 1]), s[i + 1..])
    ensures i >= n ==> VarintFrom(s, n) == Bad
    decreases |s|
  {
    if i > 0 && n > 0 {
      assert EndsVarint(s[1..], i - 1);
      VarintFromReads(s[1..], n - 1, i - 1);
      assert s[..i + 1][1..] == s[1..][..i] && s[1..][i..] == s[i + 1..];
    } else if n > 0 {
      assert s[..1][1..] == [];
    }
  }

  lemma {:induction false} VarintFromFails(s: seq<byte>, n: nat)
    requires forall j :: 0 <= j < |s| ==> s[j] >= 128
    ensures VarintFrom(s, n) == Bad
    decreases |s|
  {
    if s != [] && n > 0 {
      VarintFromFails(s[1..], n - 1);
    }
  }

  /** A varint is read exactly when one of the first ten bytes has its top bit off: the
      groups up to the first such byte, modulo 2^64, canonical or not. */
  lemma VarintReads(s: seq<byte>, i: nat)
    requires EndsVarint(s, i)
    ensures ReadVarint(s) ==
      if i < 10 then Got(Groups(s[..i + 1]) % 0x1_0000_0000_0000_0000, s[i + 1..]) else Bad
  {
    VarintFromReads(s, 10, i);
  }

  lemma VarintUnfinished(s: seq<byte>)
    requires forall j :: 0 <= j < |s| ==> s[j] >= 128
    ensures ReadVarint(s) == Bad
  {
    VarintFromFails(s, 10);
  }

  /** A delimited value is refused exactly when its length cannot be read, is 2^31 or more,
      or announces more bytes than there are. */
  lemma DelimitedReads(s: seq<byte>)
    ensures ReadDelimited(s).Bad? <==>
      match ReadVarint(s) { case Bad => true case Got(n, rest) => n >= 0x8000_0000 || n > |rest| }
    ensures ReadDelimited(s).Got? ==>
      ReadDelimited(s).value + ReadDelimited(s).rest == ReadVarint(s).rest
      && |ReadDelimited(s).value| == ReadVarint(s).value
  {
  }

  /** The tag of a record: the field number above three bits of wire type. */
  lemma TagBytes(f: Field)
    ensures EncodeField(f) ==
      match f
      case Varint(n, v) => EncodeVarint(8 * n) + EncodeVarint(v)
      case Fixed64(n, w) => EncodeVarint(8 * n + 1) + EncodeFixed(w, 8)
      case Delimited(n, b) => EncodeVarint(8 * n + 2) + (EncodeVarint(|b|) + b)
      case Group(n, fs) => EncodeVarint(8 * n + 3) + (EncodeFields(fs) + EncodeVarint(8 * n + 4))
      case Fixed32(n, w) => EncodeVarint(8 * n + 5) + EncodeFixed(w, 4)
  {
  }
}
