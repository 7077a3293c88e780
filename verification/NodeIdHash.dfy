/** The numeric NodeId hash and the canonical NodeId encoding of bench_nodeid_dict.c. */
module NodeIdHash {

  import opened Basics
  import opened Probing

  // ----- Exclusive or of natural numbers -----

  function Xor(a: nat, b: nat): nat
    decreases a + b
  {
    if a == 0 && b == 0 then 0
    else (if a % 2 != b % 2 then 1 else 0) + 2 * Xor(a / 2, b / 2)
  }

  /** The lowest bit and the other bits of an exclusive or. */
  lemma XorParts(a: nat, b: nat)
    ensures Xor(a, b) % 2 == (if a % 2 != b % 2 then 1 else 0)
    ensures Xor(a, b) / 2 == Xor(a / 2, b / 2)
  {
  }

  lemma {:induction false} XorCancels(a: nat, b: nat)
    ensures Xor(Xor(a, b), b) == a
    decreases a + b
  {
    if a != 0 || b != 0 {
      hide Xor;
      XorCancels(a / 2, b / 2);
      XorParts(a, b);
      XorParts(Xor(a, b), b);
    }
  }

  lemma {:induction false} XorZero(a: nat)
    ensures Xor(a, 0) == a
  {
    if a != 0 {
      XorZero(a / 2);
    }
  }

  function Shift(a: nat, k: nat): nat
    decreases k
  {
    if k == 0 then a else Shift(a / 2, k - 1)
  }

  lemma DivideTwice(a: nat, p: nat)
    requires p > 0
    ensures a / 2 / p == a / (2 * p)
  {
    var h := a / 2;
    var q, r := h / p, h % p;
    assert h == p * q + r;
    assert 2 * (p * q + r) == 2 * p * q + 2 * r;
    RemainderUnique(a, 2 * p, q, 2 * r + a % 2);
  }

  lemma {:induction false} ShiftIsDivision(a: nat, k: nat)
    ensures Shift(a, k) == a / Pow2(k)
    decreases k
  {
    if k > 0 {
      ShiftIsDivision(a / 2, k - 1);
      DivideTwice(a, Pow2(k - 1));
    }
  }

  /** Shifting right distributes over exclusive or. */
  lemma {:induction false} XorShift(a: nat, b: nat, k: nat)
    ensures Shift(Xor(a, b), k) == Xor(Shift(a, k), Shift(b, k))
    decreases k
  {
    if k > 0 {
      XorShift(a / 2, b / 2, k - 1);
      XorParts(a, b);
    }
  }

  lemma {:induction false} XorBound(a: nat, b: nat, k: nat)
    requires a < Pow2(k) && b < Pow2(k)
    ensures Xor(a, b) < Pow2(k)
    decreases k
  {
    if k > 0 && (a != 0 || b != 0) {
      XorBound(a / 2, b / 2, k - 1);
    }
  }

  // ----- The 64-bit mixer -----

  const WORD := 0x1_0000_0000_0000_0000
  const FACTOR1 := 0xff51afd7ed558ccd
  const FACTOR2 := 0xc4ceb9fe1a85ec53
  // the inverses of the factors modulo 2^64
  const INVERSE1 := 0x4f74430c22a54005
  const INVERSE2 := 0x9cb4b2f8129337db

  /** `x ^= x >> 33` */
  function FoldHigh(x: nat): nat {
    Xor(x, x / 0x2_0000_0000)
  }

  /** `x *= factor` on 64-bit words */
  function Times(x: nat, factor: nat): nat {
    x * factor % WORD
  }

  /** `mix64` */
  function Mix64(x: nat): nat {
    FoldHigh(Times(FoldHigh(Times(FoldHigh(x), FACTOR1)), FACTOR2))
  }

  function Unmix64(y: nat): nat {
    FoldHigh(Times(FoldHigh(Times(FoldHigh(y), INVERSE2)), INVERSE1))
  }

  lemma Pow2One()
    ensures Pow2(1) == 2
  {
  }

  lemma Powers()
    ensures Pow2(33) == 0x2_0000_0000 && Pow2(64) == WORD
  {
    hide Pow2;
    Pow2One();
    Pow2Sum(1, 1);
    Pow2Sum(2, 2);
    Pow2Sum(4, 4);
    Pow2Sum(8, 8);
    Pow2Sum(16, 16);
    Pow2Sum(32, 1);
    Pow2Sum(32, 32);
  }

  /** Folding the high bits of a word into the low ones is its own inverse. */
  lemma FoldHighTwice(x: nat)
    requires x < WORD
    ensures FoldHigh(x) < WORD && FoldHigh(FoldHigh(x)) == x
  {
    hide Xor, Pow2, Shift;
    Powers();
    var h := x / 0x2_0000_0000;
    XorBound(x, h, 64);
    XorShift(x, h, 33);
    ShiftIsDivision(x, 33);
    ShiftIsDivision(h, 33);
    ShiftIsDivision(Xor(x, h), 33);
    XorZero(h);
    XorCancels(x, h);
  }

  lemma TimesInverse(x: nat, factor: nat, inverse: nat, q: nat)
    requires x < WORD && factor * inverse == q * WORD + 1
    ensures Times(x, factor) < WORD && Times(Times(x, factor), inverse) == x
  {
    var y, n := x * factor % WORD, x * factor / WORD;
    assert x * factor == WORD * n + y;
    assert x * factor * inverse == x * (factor * inverse);
    assert x * (q * WORD + 1) == WORD * (x * q) + x;
    assert (WORD * n + y) * inverse == WORD * (n * inverse) + y * inverse;
    assert y * inverse == WORD * (x * q - n * inverse) + x;
    RemainderUnique(y * inverse, WORD, x * q - n * inverse, x);
  }

  /** Each factor cancels with its inverse, in both orders. */
  lemma FactorsCancel(x: nat)
    requires x < WORD
    ensures Times(x, FACTOR1) < WORD && Times(Times(x, FACTOR1), INVERSE1) == x
    ensures Times(x, INVERSE1) < WORD && Times(Times(x, INVERSE1), FACTOR1) == x
    ensures Times(x, FACTOR2) < WORD && Times(Times(x, FACTOR2), INVERSE2) == x
    ensures Times(x, INVERSE2) < WORD && Times(Times(x, INVERSE2), FACTOR2) == x
  {
    hide Times;
    var q1, q2 := FACTOR1 * INVERSE1 / WORD, FACTOR2 * INVERSE2 / WORD;
    TimesInverse(x, FACTOR1, INVERSE1, q1);
    TimesInverse(x, INVERSE1, FACTOR1, q1);
    TimesInverse(x, FACTOR2, INVERSE2, q2);
    TimesInverse(x, INVERSE2, FACTOR2, q2);
  }

  /** The mixer is a bijection on 64-bit words. */
  lemma Mix64Bijective(x: nat)
    requires x < WORD
    ensures Mix64(x) < WORD && Unmix64(Mix64(x)) == x
    ensures Unmix64(x) < WORD && Mix64(Unmix64(x)) == x
  {
    hide FoldHigh, Times;
    FoldHighTwice(x);
    var a := FoldHigh(x);
    FactorsCancel(a);
    var b, b' := Times(a, FACTOR1), Times(a, INVERSE2);
    FoldHighTwice(b);
    FoldHighTwice(b');
    FactorsCancel(FoldHigh(b));
    FactorsCancel(FoldHigh(b'));
    FoldHighTwice(Times(FoldHigh(b), FACTOR2));
    FoldHighTwice(Times(FoldHigh(b'), INVERSE1));
  }

  /** `nodeid_hash_numeric_mix` for a numeric NodeId: the identifier type, 0, is mixed in at bit 48. */
  function NumericHash(ns: uint16, id: uint32): nat {
    Mix64(Xor(ns as int * 0x1_0000_0000 + id as int, 0))
  }

  /** Distinct numeric NodeIds never have the same hash. */
  lemma NumericHashInjective(ns: uint16, id: uint32, ns': uint16, id': uint32)
    requires NumericHash(ns, id) == NumericHash(ns', id')
    ensures ns == ns' && id == id'
  {
    hide Mix64, Unmix64, Xor;
    var x, y := ns as int * 0x1_0000_0000 + id as int, ns' as int * 0x1_0000_0000 + id' as int;
    XorZero(x);
    XorZero(y);
    Mix64Bijective(x);
    Mix64Bijective(y);
    assert x == y;
  }

  // ----- The canonical encoding -----

  newtype byte = x: int | 0 <= x < 256
  newtype uint16 = x: int | 0 <= x < 0x1_0000
  newtype uint32 = x: int | 0 <= x < 0x1_0000_0000

  /** A String or a ByteString; a null one has length -1. */
  datatype Text = Null | Bytes(data: seq<byte>) {
    function Length(): int {
      if Null? then -1 else |data|
    }
  }

  datatype Guid = Guid(data1: uint32, data2: uint16, data3: uint16, data4: seq<byte>)

  datatype Identifier =
    | Numeric(id: uint32)
    | Characters(text: Text)
    | GuidId(guid: Option<Guid>)
    | Opaque(text: Text)

  datatype NodeId = NodeId(ns: uint16, identifier: Identifier)

  /** Lengths are 32-bit signed, the last part of a Guid has 8 bytes. */
  predicate Valid(n: NodeId) {
    match n.identifier
    case Numeric(_) => true
    case Characters(t) => t.Length() < 0x8000_0000
    case GuidId(g) => g.Some? ==> |g.value.data4| == 8
    case Opaque(t) => t.Length() < 0x8000_0000
  }

  /** `nodeid_canonical_size`; the length is converted to an unsigned 64-bit size. */
  function CanonicalSize(n: NodeId): nat {
    match n.identifier
    case Numeric(_) => 7
    case Characters(t) => (7 + t.Length()) % WORD
    case GuidId(_) => 19
    case Opaque(t) => (7 + t.Length()) % WORD
  }

  function U16(v: uint16): (b: seq<byte>)
    ensures |b| == 2
  {
    [(v / 256) as byte, (v % 256) as byte]
  }

  function U32(v: uint32): (b: seq<byte>)
    ensures |b| == 4
  {
    [(v / 0x100_0000) as byte, (v / 0x1_0000 % 256) as byte, (v / 256 % 256) as byte, (v % 256) as byte]
  }

  /** The length as an unsigned 32-bit number; -1 becomes 0xFFFFFFFF. */
  function LengthBytes(t: Text): seq<byte>
    requires t.Length() < 0x8000_0000
  {
    U32((if t.Null? then 0xFFFF_FFFF else |t.data|) as uint32)
  }

  function TextBytes(t: Text): seq<byte>
    requires t.Length() < 0x8000_0000
  {
    LengthBytes(t) + if t.Null? then [] else t.data
  }

  function Tag(i: Identifier): byte {
    match i
    case Numeric(_) => 0
    case Characters(_) => 1
    case GuidId(_) => 2
    case Opaque(_) => 3
  }

  function IdentifierBytes(i: Identifier): seq<byte>
    requires Valid(NodeId(0, i))
  {
    match i
    case Numeric(id) => U32(id)
    case Characters(t) => TextBytes(t)
    case GuidId(g) =>
      if g.None? then [] else U32(g.value.data1) + U16(g.value.data2) + U16(g.value.data3) + g.value.data4
    case Opaque(t) => TextBytes(t)
  }

  /** The bytes that the encoder reports; for a null Guid it reports only the header. */
  function Encode(n: NodeId): seq<byte>
    requires Valid(n)
  {
    [Tag(n.identifier)] + U16(n.ns) + IdentifierBytes(n.identifier)
  }

  predicate HasNull(n: NodeId) {
    match n.identifier
    case Numeric(_) => false
    case Characters(t) => t.Null?
    case GuidId(g) => g.None?
    case Opaque(t) => t.Null?
  }

  /** The encoder writes the announced number of bytes if and only if no part of the id is null. */
  lemma SizeExactIff(n: NodeId)
    requires Valid(n)
    ensures |Encode(n)| == CanonicalSize(n) <==> !HasNull(n)
  {
  }

  predicate NullText(n: NodeId) {
    match n.identifier
    case Characters(t) => t.Null?
    case Opaque(t) => t.Null?
    case _ => false
  }

  /** The number of bytes that the encoder writes: a null Guid is cleared but not reported. */
  function Written(n: NodeId): nat
    requires Valid(n)
  {
    if n.identifier == GuidId(None) then 19 else |Encode(n)|
  }

  /** A capacity that the encoder accepts holds what it writes, except 6 bytes for a null text: the announced
      size of a null text is one byte too small. */
  lemma WritesFitIff(n: NodeId, capacity: nat)
    requires Valid(n) && CanonicalSize(n) <= capacity
    ensures Written(n) <= capacity <==> !(NullText(n) && capacity == 6)
  {
  }

  /** A buffer of the announced size, as the hash functions allocate, is too small exactly for a null text. */
  lemma AnnouncedSizeTooSmallIff(n: NodeId)
    requires Valid(n)
    ensures Written(n) > CanonicalSize(n) <==> NullText(n)
  {
  }

  lemma NullTextExample()
    ensures var n := NodeId(0, Characters(Null)); CanonicalSize(n) == 6 && |Encode(n)| == 7
  {
  }

  // ----- Writing the encoding into a buffer -----

  /** Writes `data` at `offset` and nothing else: what `append_u16_be`, `append_u32_be` and memcpy do. */
  method Append(buf: array<byte>, offset: nat, data: seq<byte>) returns (next: nat)
    requires offset + |data| <= buf.Length
    modifies buf
    ensures next == offset + |data|
    ensures buf[..next] == old(buf[..offset]) + data && buf[next..] == old(buf[next..])
  {
    next := offset;
    for i := 0 to |data|
      invariant next == offset + i
      invariant buf[..next] == old(buf[..offset]) + data[..i]
      invariant buf[next..] == old(buf[next..])
    {
      ghost var before := buf[..next];
      buf[next] := data[i];
      assert buf[..next + 1] == before + [data[i]];
      assert data[..i + 1] == data[..i] + [data[i]];
      next := next + 1;
    }
    assert data[..|data|] == data;
  }

  /** `nodeid_canonical_encode`. The one case left out is where it writes behind the end of the buffer
      (`WritesFitIff`). For a null Guid the bytes after the header are cleared but not counted. */
  method CanonicalEncode(n: NodeId, buf: array<byte>) returns (ok: bool, len: nat)
    requires Valid(n) && (NullText(n) ==> buf.Length != 6)
    modifies buf
    ensures ok <==> CanonicalSize(n) <= buf.Length
    ensures ok ==> len == |Encode(n)| <= Written(n) <= buf.Length && buf[..len] == Encode(n)
    ensures ok ==> buf[Written(n)..] == old(buf[Written(n)..])
    ensures !ok ==> buf[..] == old(buf[..])
  {
    hide U16, IdentifierBytes, Encode, Written, CanonicalSize, Valid, NullText;
    len := 0;
    var needed := CanonicalSize(n);
    ok := needed <= buf.Length;
    if !ok {
      return;
    }
    WritesFitIff(n, buf.Length);
    Layout(n);
    len := Append(buf, 0, [Tag(n.identifier)] + U16(n.ns));
    ghost var rest := buf[3..];
    if n.identifier == GuidId(None) {
      var _ := Append(buf, len, seq(16, _ => 0));
      assert buf[..3] == buf[..19][..3];
    } else {
      len := Append(buf, len, IdentifierBytes(n.identifier));
    }
    ghost var end := Written(n);
    assert old(buf[end..]) == old(buf[3..])[end - 3..] == rest[end - 3..];
  }

  lemma Layout(n: NodeId)
    requires Valid(n)
    ensures Valid(NodeId(0, n.identifier))
    ensures Encode(n) == [Tag(n.identifier)] + U16(n.ns) + IdentifierBytes(n.identifier)
    ensures n.identifier == GuidId(None) ==> IdentifierBytes(n.identifier) == [] && Written(n) == 19
    ensures n.identifier != GuidId(None) ==> Written(n) == 3 + |IdentifierBytes(n.identifier)|
  {
  }

  // ----- Reading the encoding back -----

  function ReadU16(b: seq<byte>, at: nat): uint16
    requires at + 2 <= |b|
  {
    b[at] as uint16 * 256 + b[at + 1] as uint16
  }

  function ReadU32(b: seq<byte>, at: nat): uint32
    requires at + 4 <= |b|
  {
    b[at] as uint32 * 0x100_0000 + b[at + 1] as uint32 * 0x1_0000 + b[at + 2] as uint32 * 256 + b[at + 3] as uint32
  }

  lemma ReadU16Back(b: seq<byte>, at: nat, v: uint16)
    requires at + 2 <= |b| && b[at..at + 2] == U16(v)
    ensures ReadU16(b, at) == v
  {
    assert b[at] == b[at..at + 2][0] && b[at + 1] == b[at..at + 2][1];
  }

  lemma ReadU32Back(b: seq<byte>, at: nat, v: uint32)
    requires at + 4 <= |b| && b[at..at + 4] == U32(v)
    ensures ReadU32(b, at) == v
  {
    assert b[at] == b[at..at + 4][0] && b[at + 1] == b[at..at + 4][1];
    assert b[at + 2] == b[at..at + 4][2] && b[at + 3] == b[at..at + 4][3];
    FourBytes(v as int);
  }

  lemma FourBytes(v: int)
    ensures v / 0x100_0000 * 0x100_0000 + v / 0x1_0000 % 256 * 0x1_0000 + v / 256 % 256 * 256 + v % 256 == v
  {
    assert v / 0x1_0000 == v / 256 / 256;
    assert v / 0x100_0000 == v / 256 / 256 / 256;
  }

  function ReadText(b: seq<byte>): Text
    requires |b| >= 7
  {
    if ReadU32(b, 3) == 0xFFFF_FFFF then Null else Bytes(b[7..])
  }

  /** A decoder for the encoding: `None` for bytes that no NodeId encodes to. */
  function Decode(b: seq<byte>): Option<NodeId> {
    if |b| < 3 then None
    else
      var ns := ReadU16(b, 1);
      if b[0] == 2 && |b| == 3 then Some(NodeId(ns, GuidId(None)))
      else if |b| < 7 then None
      else if b[0] == 0 && |b| == 7 then Some(NodeId(ns, Numeric(ReadU32(b, 3))))
      else if b[0] == 1 then Some(NodeId(ns, Characters(ReadText(b))))
      else if b[0] == 2 && |b| == 19 then
        Some(NodeId(ns, GuidId(Some(Guid(ReadU32(b, 3), ReadU16(b, 7), ReadU16(b, 9), b[11..])))))
      else if b[0] == 3 then Some(NodeId(ns, Opaque(ReadText(b))))
      else None
  }

  lemma RoundTrip(n: NodeId)
    requires Valid(n)
    ensures Decode(Encode(n)) == Some(n)
  {
    hide ReadU16, ReadU32, U16, U32;
    var b := Encode(n);
    assert b[1..3] == U16(n.ns);
    ReadU16Back(b, 1, n.ns);
    match n.identifier
    case Numeric(id) =>
      assert b[3..7] == U32(id);
      ReadU32Back(b, 3, id);
    case Characters(t) => TextRoundTrip(b, t);
    case GuidId(g) =>
      if g.Some? {
        assert b[3..7] == U32(g.value.data1) && b[7..9] == U16(g.value.data2) && b[9..11] == U16(g.value.data3);
        assert b[11..] == g.value.data4;
        ReadU32Back(b, 3, g.value.data1);
        ReadU16Back(b, 7, g.value.data2);
        ReadU16Back(b, 9, g.value.data3);
      }
    case Opaque(t) => TextRoundTrip(b, t);
  }

  lemma TextRoundTrip(b: seq<byte>, t: Text)
    requires t.Length() < 0x8000_0000 && |b| >= 7 && b[3..] == TextBytes(t)
    ensures ReadText(b) == t
  {
    hide ReadU32, U32;
    assert b[3..7] == b[3..][..4] == LengthBytes(t);
    assert b[7..] == b[3..][4..];
    ReadU32Back(b, 3, (if t.Null? then 0xFFFF_FFFF else |t.data|) as uint32);
  }

  /** Different NodeIds have different encodings. */
  lemma EncodeInjective(m: NodeId, n: NodeId)
    requires Valid(m) && Valid(n) && Encode(m) == Encode(n)
    ensures m == n
  {
    RoundTrip(m);
    RoundTrip(n);
  }
}
