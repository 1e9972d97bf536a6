/** Variable-length 32-bit integers: seven bits a byte, low bits first, the high bit of a byte
    set while more bytes follow. */
module VarInt {
  import opened Bytes
  import opened Bitwise

  const U32 := 0x1_0000_0000
  const MAX_SIZE := 5

  type i32 = v: int | -0x8000_0000 <= v < 0x8000_0000
  type u32 = v: int | 0 <= v < U32

  /** The casts `as u32` and `as i32`. */
  function ToU32(v: i32): u32 {
    if v < 0 then v + U32 else v
  }

  function ToI32(n: nat): i32 {
    var u := n % U32;
    if u < 0x8000_0000 then u else u - U32
  }

  function Pow128(n: nat): (p: nat)
    ensures p > 0
  {
    if n == 0 then 1 else 128 * Pow128(n - 1)
  }

  /** Both casts keep the number modulo 2^32. */
  lemma CastsAreCongruent(v: i32, n: nat)
    ensures (ToU32(v) - v) % U32 == 0 && (ToI32(n) - n) % U32 == 0
  {
  }

  /** The reference encoding: a loop that emits seven bits at a time. */
  function Encode(u: nat): (bytes: seq<byte>)
    ensures |bytes| > 0
  {
    if u < 128 then [u] else [u % 128 + 128] + Encode(u / 128)
  }

  lemma {:induction false} EncodeSize(u: nat, k: nat)
    requires k > 0
    ensures |Encode(u)| <= k <==> u < Pow128(k)
  {
    if u < 128 {
      Pow128AtLeast128(k);
    } else if k == 1 {
      assert Pow128(1) == 128 * Pow128(0);
    } else {
      EncodeSize(u / 128, k - 1);
      assert Pow128(k) == 128 * Pow128(k - 1);
    }
  }

  lemma {:induction false} Pow128AtLeast128(k: nat)
    requires k > 0
    ensures Pow128(k) >= 128
  {
  }

  lemma Pow128Values()
    ensures Pow128(1) == 128 && Pow128(2) == 0x4000 && Pow128(3) == 0x20_0000
    ensures Pow128(4) == 0x1000_0000 && Pow128(5) == 0x8_0000_0000
  {
    assert Pow128(1) == 128 * Pow128(0);
    assert Pow128(2) == 128 * Pow128(1);
    assert Pow128(3) == 128 * Pow128(2);
    assert Pow128(4) == 128 * Pow128(3);
  }

  /** Byte `i` holds the seven bits from bit `7 * i` on; all but the last byte have the high bit
      set. */
  lemma {:induction false} EncodeAt(u: nat, i: nat)
    requires i < |Encode(u)|
    ensures Encode(u)[i] == Shr(u, 7 * i) % 128 + if i < |Encode(u)| - 1 then 128 else 0
    decreases i
  {
    if i > 0 {
      EncodeAt(u / 128, i - 1);
      ShrSeven(u, 7 * i);
    }
  }

  // ---------------------------------------------------------------- sizes

  /** The number of significant bits, `32 - leading_zeros()` on a 32-bit value. */
  function BitLength(u: nat): nat {
    if u == 0 then 0 else 1 + BitLength(u / 2)
  }

  /** `VarInt::written_size`, computed from the leading zeros. */
  function WrittenSize(v: i32): nat {
    var u := ToU32(v);
    if u == 0 then 1 else (BitLength(u) - 1) / 7 + 1
  }

  lemma {:induction false} BitLengthShift8(u: nat)
    requires u >= 8
    ensures BitLength(u) == 3 + BitLength(u / 8)
  {
    assert u / 2 / 2 == u / 4 && u / 4 / 2 == u / 8;
    assert BitLength(u / 2) == 1 + BitLength(u / 4);
    assert BitLength(u / 4) == 1 + BitLength(u / 8);
  }

  lemma {:induction false} BitLengthShift(u: nat)
    requires u >= 128
    ensures BitLength(u) == 7 + BitLength(u / 128)
  {
    BitLengthShift8(u);
    BitLengthShift8(u / 8);
    assert u / 8 / 8 == u / 64 && u / 64 / 2 == u / 128;
  }

  lemma {:induction false} BitLengthBound(u: nat, k: nat)
    requires u < Pow2(k)
    ensures BitLength(u) <= k
  {
    if u > 0 {
      BitLengthBound(u / 2, k - 1);
    }
  }

  lemma {:induction false} EncodeLengthFromBits(u: nat)
    requires u > 0
    ensures |Encode(u)| == (BitLength(u) - 1) / 7 + 1
  {
    if u < 128 {
      assert Pow2(7) == 128 by {
        assert Pow2(3) == 8;
      }
      BitLengthBound(u, 7);
    } else {
      BitLengthShift(u);
      EncodeLengthFromBits(u / 128);
    }
  }

  /** The size computed from leading zeros is the length of the encoding, and at most five. */
  lemma WrittenSizeIsEncodedLength(v: i32)
    ensures |Encode(ToU32(v))| == WrittenSize(v) <= MAX_SIZE
  {
    var u := ToU32(v);
    if u > 0 {
      EncodeLengthFromBits(u);
    }
    EncodeSize(u, 5);
    Pow128Values();
  }

  // ---------------------------------------------------------------- the two fast writers

  /** `to_le_bytes()[..k]`. */
  function LeBytes(x: nat, k: nat): seq<byte> {
    if k == 0 then [] else [x % 256] + LeBytes(x / 256, k - 1)
  }

  /** `pack_payload`: moves the seven-bit groups of a value into byte lanes. */
  function PackPayload(value: nat): nat {
    Or(Or(Or(Or(Or(Or(Or(
      And(value, 0x7f),
      Shl(And(value, 0x3f80), 1)),
      Shl(And(value, 0x1f_c000), 2)),
      Shl(And(value, 0xfe0_0000), 3)),
      Shl(And(value, 0x7_f000_0000), 4)),
      Shl(And(value, 0x3f8_0000_0000), 5)),
      Shl(And(value, 0x1_fc00_0000_0000), 6)),
      Shl(And(value, 0xfe_0000_0000_0000), 7))
  }

  /** The continuation bits of all bytes but the last. */
  function Continuation(size: nat): nat
    requires 1 <= size <= 5
  {
    Shr(0x80_8080_8080_8080, (8 - size) * 8)
  }

  /** The bytes `set_in_front` puts before the packet. */
  function FrontBytes(v: i32, size: nat): seq<byte>
    requires 1 <= size <= 5
  {
    LeBytes(Or(PackPayload(ToU32(v)), Continuation(size)), size)
  }

  /** `VarInt::write`: three literal forms and the packed form. */
  function Write(v: i32): seq<byte> {
    var u := ToU32(v);
    if u < 0x80 then [u]
    else if u < 0x4000 then [u % 128 + 128, u / 0x80]
    else if u < 0x20_0000 then [u % 128 + 128, u / 0x80 % 128 + 128, u / 0x4000]
    else if u < 0x1000_0000 then LeBytes(Or(PackPayload(u), 0x80_8080), 4)
    else LeBytes(Or(PackPayload(u), 0x8080_8080), 5)
  }

  function Lanes(u: nat, k: nat): nat {
    if k == 0 then 0 else u % 128 + 256 * Lanes(u / 128, k - 1)
  }

  function Marks(k: nat): nat {
    if k <= 1 then 0 else 128 + 256 * Marks(k - 1)
  }

  lemma ByteSplit(low: nat, high: nat)
    requires low < 256
    ensures (low + 256 * high) % 256 == low && (low + 256 * high) / 256 == high
  {
  }

  lemma {:induction false} LanesEncode(u: nat, k: nat, width: nat)
    requires |Encode(u)| == k <= width
    ensures LeBytes(Lanes(u, width) + Marks(k), k) == Encode(u)
    decreases k
  {
    var rest := Lanes(u / 128, width - 1);
    if u < 128 {
      ByteSplit(u, rest);
    } else {
      LanesEncode(u / 128, k - 1, width - 1);
      var low, high := u % 128 + 128, rest + Marks(k - 1);
      assert Lanes(u, width) + Marks(k) == low + 256 * high;
      ByteSplit(low, high);
      assert LeBytes(low + 256 * high, k) == [low] + LeBytes(high, k - 1);
    }
  }

  /** The first `k` terms of `PackPayload`. */
  function Packed(value: nat, k: nat): nat {
    if k == 0 then 0 else Or(Packed(value, k - 1), Shl(And(value, Shl(127, 7 * (k - 1))), k - 1))
  }

  lemma ShlShl(g: nat, a: nat, b: nat)
    ensures Shl(Shl(g, a), b) == Shl(g, a + b)
  {
    Pow2Add(a, b);
    MulAssociates(g, Pow2(a), Pow2(b));
  }

  lemma Pow2Seven()
    ensures Pow2(7) == 128 && Pow2(8) == 256
  {
    assert Pow2(3) == 8;
    assert Pow2(7) == 128 by { assert Pow2(5) == 32; }
  }

  /** One term sets the bits of its own lane. */
  lemma {:induction false} PackTerm(acc: nat, value: nat, k: nat)
    requires acc < Pow2(8 * k)
    ensures Or(acc, Shl(And(value, Shl(127, 7 * k)), k)) == acc + Shl(Shr(value, 7 * k) % 128, 8 * k)
  {
    var g := Shr(value, 7 * k) % 128;
    Pow2Seven();
    AndField(value, 7, 7 * k);
    ShlShl(g, 7 * k, k);
    OrDisjoint(acc, g, 8 * k);
  }

  lemma {:induction false} LanesBound(u: nat, k: nat)
    ensures Lanes(u, k) < Pow2(8 * k)
    decreases k
  {
    if k > 0 {
      LanesBound(u / 128, k - 1);
      Pow2Seven();
      Pow2Add(8, 8 * (k - 1));
    }
  }

  lemma ShrSeven(u: nat, n: nat)
    requires n >= 7
    ensures Shr(u, n) == Shr(u / 128, n - 7)
  {
    assert Shr(u, n) == Shr(u / 4, n - 2) by {
      assert u / 2 / 2 == u / 4;
    }
    assert Shr(u / 4, n - 2) == Shr(u / 16, n - 4) by {
      assert u / 4 / 2 / 2 == u / 16;
    }
    assert Shr(u / 16, n - 4) == Shr(u / 64, n - 6) by {
      assert u / 16 / 2 / 2 == u / 64;
    }
    assert u / 64 / 2 == u / 128;
  }

  lemma {:induction false} LanesSnoc(u: nat, k: nat)
    ensures Lanes(u, k + 1) == Lanes(u, k) + Shl(Shr(u, 7 * k) % 128, 8 * k)
    decreases k
  {
    if k > 0 {
      var g := Shr(u, 7 * k) % 128;
      LanesSnoc(u / 128, k - 1);
      ShrSeven(u, 7 * k);
      Pow2Seven();
      ShlShl(g, 8 * (k - 1), 8);
    }
  }

  lemma {:induction false} PackedIsLanes(u: nat, k: nat)
    ensures Packed(u, k) == Lanes(u, k)
  {
    if k > 0 {
      PackedIsLanes(u, k - 1);
      LanesBound(u, k - 1);
      PackTerm(Packed(u, k - 1), u, k - 1);
      LanesSnoc(u, k - 1);
    }
  }

  lemma LowMasks()
    ensures Shl(127, 0) == 0x7f && Shl(127, 7) == 0x3f80 && Shl(127, 14) == 0x1f_c000 && Shl(127, 21) == 0xfe0_0000
    ensures Pow2(28) == 0x1000_0000
  {
    Pow2Seven();
    Pow2Add(7, 7);
    Pow2Add(14, 7);
    Pow2Add(14, 14);
  }

  lemma HighMasks()
    ensures Shl(127, 28) == 0x7_f000_0000 && Shl(127, 35) == 0x3f8_0000_0000
    ensures Shl(127, 42) == 0x1_fc00_0000_0000 && Shl(127, 49) == 0xfe_0000_0000_0000
  {
    LowMasks();
    Pow2Seven();
    Pow2Add(28, 7);
    Pow2Add(35, 7);
    Pow2Add(42, 7);
  }

  lemma {:induction false} PackLow(u: nat)
    ensures Packed(u, 4)
         == Or(Or(Or(And(u, 0x7f), Shl(And(u, 0x3f80), 1)), Shl(And(u, 0x1f_c000), 2)), Shl(And(u, 0xfe0_0000), 3))
  {
    LowMasks();
    assert Packed(u, 1) == Or(0, Shl(And(u, 0x7f), 0)) == And(u, 0x7f);
    assert Packed(u, 2) == Or(Packed(u, 1), Shl(And(u, 0x3f80), 1));
    assert Packed(u, 3) == Or(Packed(u, 2), Shl(And(u, 0x1f_c000), 2));
  }

  /** The masked and shifted terms put every seven-bit group into its own byte lane. */
  lemma {:induction false} PackPayloadIsLanes(u: nat)
    ensures PackPayload(u) == Lanes(u, 8)
  {
    PackLow(u);
    HighMasks();
    assert Packed(u, 5) == Or(Packed(u, 4), Shl(And(u, 0x7_f000_0000), 4));
    assert Packed(u, 6) == Or(Packed(u, 5), Shl(And(u, 0x3f8_0000_0000), 5));
    assert Packed(u, 7) == Or(Packed(u, 6), Shl(And(u, 0x1_fc00_0000_0000), 6));
    assert Packed(u, 8) == Or(Packed(u, 7), Shl(And(u, 0xfe_0000_0000_0000), 7));
    PackedIsLanes(u, 8);
  }

  /** The lanes leave the continuation bits clear. */
  lemma {:induction false} OrMarks(u: nat, width: nat, k: nat)
    requires k <= width
    ensures Or(Lanes(u, width), Marks(k)) == Lanes(u, width) + Marks(k)
    decreases k
  {
    if k <= 1 {
      OrZero(Lanes(u, width));
    } else {
      OrMarks(u / 128, width - 1, k - 1);
      OrLane(u % 128, Lanes(u / 128, width - 1), Marks(k - 1));
    }
  }

  lemma OrLane(low: nat, lanes: nat, marks: nat)
    requires low < 128
    ensures Or(low + 256 * lanes, 128 + 256 * marks) == low + 128 + 256 * Or(lanes, marks)
  {
    Pow2Seven();
    OrSplit(low, lanes, 128, marks, 8);
    OrDisjoint(low, 1, 7);
  }

  lemma MarkValues()
    ensures Marks(1) == 0 && Marks(2) == 0x80 && Marks(3) == 0x8080 && Marks(4) == 0x80_8080 && Marks(5) == 0x8080_8080
  {
    assert Marks(2) == 128 + 256 * Marks(1);
    assert Marks(3) == 128 + 256 * Marks(2);
    assert Marks(4) == 128 + 256 * Marks(3);
    assert Marks(5) == 128 + 256 * Marks(4);
  }

  lemma {:induction false} ShrBytes(x: nat, n: nat)
    ensures Shr(x, 8 * (n + 1)) == Shr(x / 256, 8 * n)
  {
    ShrSeven(x, 8 * (n + 1));
    assert x / 128 / 2 == x / 256;
  }

  lemma {:induction false} MarksShift(m: nat, j: nat)
    requires j < m
    ensures Shr(Marks(m), 8 * j) == Marks(m - j)
    decreases j
  {
    if j > 0 {
      ShrBytes(Marks(m), j - 1);
      MarksShift(m - 1, j - 1);
    }
  }

  lemma {:induction false} MarksIsContinuation(size: nat)
    requires 1 <= size <= 5
    ensures Marks(size) == Continuation(size)
  {
    MarkValues();
    assert Marks(6) == 128 + 256 * Marks(5);
    assert Marks(7) == 128 + 256 * Marks(6);
    assert Marks(8) == 128 + 256 * Marks(7);
    MarksShift(8, 8 - size);
  }

  lemma {:induction false} PackedIsEncode(u: nat, k: nat)
    requires |Encode(u)| == k <= 8
    ensures LeBytes(Or(PackPayload(u), Marks(k)), k) == Encode(u)
  {
    PackPayloadIsLanes(u);
    OrMarks(u, 8, k);
    LanesEncode(u, k, 8);
  }

  /** The header writer produces the reference encoding when given the written size. */
  lemma FrontBytesIsEncode(v: i32)
    ensures WrittenSize(v) >= 1 && WrittenSize(v) <= 5
    ensures FrontBytes(v, WrittenSize(v)) == Encode(ToU32(v))
  {
    WrittenSizeIsEncodedLength(v);
    MarksIsContinuation(WrittenSize(v));
    PackedIsEncode(ToU32(v), WrittenSize(v));
  }

  /** The branching writer produces the reference encoding. */
  lemma WriteIsEncode(v: i32)
    ensures Write(v) == Encode(ToU32(v))
  {
    var u := ToU32(v);
    Pow128Values();
    if u < 0x4000 {
      assert u >= 128 ==> Encode(u / 128) == [u / 128];
    } else if u < 0x20_0000 {
      assert u / 128 / 128 == u / 0x4000;
      assert Encode(u / 128) == [u / 128 % 128 + 128] + Encode(u / 0x4000);
    } else {
      EncodeSize(u, 5);
      EncodeSize(u, 4);
      EncodeSize(u, 3);
      MarkValues();
      PackedIsEncode(u, |Encode(u)|);
    }
  }

  // ---------------------------------------------------------------- reading

  datatype Parsed = NeedMore | TooLong | Value(value: i32, size: nat)

  /** The unbounded value of a terminated group of at most `budget` bytes. */
  datatype RawParsed = RawNeedMore | RawTooLong | RawValue(value: nat, size: nat)

  function ParseRaw(s: seq<byte>, budget: nat): (r: RawParsed)
    ensures r.RawValue? ==> 1 <= r.size <= |s| && r.size <= budget
    decreases |s|
  {
    if budget == 0 then RawTooLong
    else if s == [] then RawNeedMore
    else if s[0] < 128 then RawValue(s[0], 1)
    else
      match ParseRaw(s[1..], budget - 1)
      case RawValue(v, n) => RawValue(s[0] % 128 + 128 * v, n + 1)
      case other => other
  }

  /** What reading a VarInt from the front of `s` means: at most five bytes, modulo 2^32. */
  function Parse(s: seq<byte>): (r: Parsed)
    ensures r.Value? ==> 1 <= r.size <= |s| && r.size <= MAX_SIZE
  {
    match ParseRaw(s, MAX_SIZE)
    case RawNeedMore => NeedMore
    case RawTooLong => TooLong
    case RawValue(v, n) => Value(ToI32(v), n)
  }

  /** The first `n` bytes all have the high bit set. */
  predicate AllContinue(s: seq<byte>, n: nat)
    requires n <= |s|
  {
    forall i :: 0 <= i < n ==> s[i] >= 128
  }

  /** The number that the seven-bit groups of the first `n` bytes make up. */
  function Groups(s: seq<byte>, n: nat): nat
    requires n <= |s|
  {
    if n == 0 then 0 else Groups(s, n - 1) + s[n - 1] % 128 * Pow128(n - 1)
  }

  lemma {:induction false} GroupsCons(s: seq<byte>, n: nat)
    requires 0 < n <= |s|
    ensures Groups(s, n) == s[0] % 128 + 128 * Groups(s[1..], n - 1)
    decreases n
  {
    if n > 1 {
      GroupsCons(s, n - 1);
      ScaledGroup(s[n - 1] % 128, Pow128(n - 2), Groups(s[1..], n - 2));
    }
  }

  lemma ScaledGroup(low: nat, p: nat, tail: nat)
    ensures 128 * tail + low * (128 * p) == 128 * (tail + low * p)
  {
    MulAssociates(low, 128, p);
    MulAssociates(128, low, p);
  }

  lemma {:induction false} ParseRawMeans(s: seq<byte>, budget: nat)
    ensures ParseRaw(s, budget).RawNeedMore? ==> |s| < budget && AllContinue(s, |s|)
    ensures ParseRaw(s, budget).RawTooLong? ==> budget <= |s| && AllContinue(s, budget)
    ensures var r := ParseRaw(s, budget);
            r.RawValue? ==> AllContinue(s, r.size - 1) && s[r.size - 1] < 128 && r.value == Groups(s, r.size)
    decreases budget
  {
    if budget > 0 && s != [] {
      if s[0] < 128 {
        GroupsCons(s, 1);
      } else {
        ParseRawMeans(s[1..], budget - 1);
        var tail := ParseRaw(s[1..], budget - 1);
        if tail.RawValue? {
          GroupsCons(s, tail.size + 1);
        }
      }
    }
  }

  /** What reading means, in terms of the bytes: the number ends at the first byte without the high
      bit, among the first five, and is the sum of the groups modulo 2^32. */
  lemma {:induction false} ParseMeans(s: seq<byte>)
    ensures Parse(s).NeedMore? ==> |s| < 5 && AllContinue(s, |s|)
    ensures Parse(s).TooLong? ==> 5 <= |s| && AllContinue(s, 5)
    ensures var r := Parse(s);
            r.Value? ==>
              && r.size <= 5 && AllContinue(s, r.size - 1) && s[r.size - 1] < 128
              && (r.value - Groups(s, r.size)) % U32 == 0
  {
    ParseRawMeans(s, MAX_SIZE);
    if Parse(s).Value? {
      CastsAreCongruent(0, Groups(s, Parse(s).size));
    }
  }

  lemma {:induction false} ParseRawEncode(u: nat, rest: seq<byte>, budget: nat)
    requires |Encode(u)| <= budget
    ensures ParseRaw(Encode(u) + rest, budget) == RawValue(u, |Encode(u)|)
  {
    if u >= 128 {
      assert (Encode(u) + rest)[1..] == Encode(u / 128) + rest;
      ParseRawEncode(u / 128, rest, budget - 1);
    }
  }

  /** Every 32-bit value reads back, and exactly its own bytes are consumed. */
  lemma ParseEncode(v: i32, rest: seq<byte>)
    ensures Parse(Encode(ToU32(v)) + rest) == Value(v, |Encode(ToU32(v))|)
  {
    WrittenSizeIsEncodedLength(v);
    ParseRawEncode(ToU32(v), rest, MAX_SIZE);
  }

  lemma {:induction false} ParseRawPrefix(u: nat, n: nat, budget: nat)
    requires n < |Encode(u)| <= budget
    ensures ParseRaw(Encode(u)[..n], budget).RawNeedMore?
  {
    if n > 0 {
      assert Encode(u)[..n][1..] == Encode(u / 128)[..n - 1];
      ParseRawPrefix(u / 128, n - 1, budget - 1);
    }
  }

  /** A cut encoding never reads as a value. */
  lemma ParsePrefix(v: i32, n: nat)
    requires n < |Encode(ToU32(v))|
    ensures Parse(Encode(ToU32(v))[..n]).NeedMore?
  {
    WrittenSizeIsEncodedLength(v);
    ParseRawPrefix(ToU32(v), n, MAX_SIZE);
  }

  /** The value read never needs more bytes than were read. */
  lemma {:induction false} ParsedSizeCovers(s: seq<byte>, budget: nat)
    requires ParseRaw(s, budget).RawValue?
    ensures var r := ParseRaw(s, budget); |Encode(r.value)| <= r.size
  {
    if s[0] >= 128 {
      ParsedSizeCovers(s[1..], budget - 1);
      var v := ParseRaw(s[1..], budget - 1).value;
      var w := s[0] % 128 + 128 * v;
      assert w / 128 == v;
    }
  }

  lemma WrittenSizeAtMostParsed(s: seq<byte>)
    requires Parse(s).Value?
    ensures WrittenSize(Parse(s).value) <= Parse(s).size
  {
    var r := ParseRaw(s, MAX_SIZE);
    ParsedSizeCovers(s, MAX_SIZE);
    WrittenSizeIsEncodedLength(Parse(s).value);
    if r.size < MAX_SIZE {
      ShortIsSmall(r.value, r.size);
      assert ToU32(ToI32(r.value)) == r.value;
    }
  }

  /** Four bytes hold 28 bits. */
  lemma {:induction false} ShortIsSmall(u: nat, size: nat)
    requires |Encode(u)| <= size < MAX_SIZE
    ensures u < 0x1000_0000
  {
    EncodeSize(u, 4);
    Pow128Values();
  }

  ghost function Extend(acc: nat, i: nat, r: RawParsed): RawParsed {
    match r
    case RawValue(v, n) => RawValue(acc + Pow128(i) * v, n + i)
    case other => other
  }

  /** After `i` bytes with the continuation bit set, `val` holds their seven-bit groups. */
  ghost predicate ReadSoFar(s: seq<byte>, val: nat, i: nat) {
    && i <= MAX_SIZE && i <= |s|
    && ParseRaw(s, MAX_SIZE) == Extend(val, i, ParseRaw(s[i..], MAX_SIZE - i))
  }

  lemma {:induction false} ReadContinues(s: seq<byte>, val: nat, i: nat, group: nat)
    requires ReadSoFar(s, val, i) && i < MAX_SIZE && i < |s| && s[i] >= 128
    requires group == s[i] % 128 * Pow128(i)
    ensures ReadSoFar(s, val + group, i + 1)
  {
    assert s[i..][1..] == s[i + 1..];
    var tail := ParseRaw(s[i + 1..], MAX_SIZE - i - 1);
    if tail.RawValue? {
      Regroup(Pow128(i), s[i] % 128, tail.value);
    }
  }

  lemma Regroup(p: nat, low: nat, high: nat)
    ensures p * (low + 128 * high) == low * p + 128 * p * high
  {
    assert p * (128 * high) == 128 * p * high;
  }

  lemma {:induction false} ReadEnds(s: seq<byte>, val: nat, i: nat, group: nat)
    requires ReadSoFar(s, val, i) && i < MAX_SIZE && i < |s| && s[i] < 128
    requires group == s[i] % 128 * Pow128(i)
    ensures Parse(s) == Value(ToI32((val + group) % U32), i + 1)
  {
    var low := s[i] % 128;
    assert low == s[i];
    RawEnds(s, val, i);
    ToI32Wraps(val + low * Pow128(i));
  }

  lemma {:induction false} RawEnds(s: seq<byte>, val: nat, i: nat)
    requires ReadSoFar(s, val, i) && i < MAX_SIZE && i < |s| && s[i] < 128
    ensures ParseRaw(s, MAX_SIZE) == RawValue(val + s[i] * Pow128(i), i + 1)
  {
    calc {
      ParseRaw(s, MAX_SIZE);
    ==
      Extend(val, i, ParseRaw(s[i..], MAX_SIZE - i));
    == { assert ParseRaw(s[i..], MAX_SIZE - i) == RawValue(s[i], 1); }
      Extend(val, i, RawValue(s[i], 1));
    == { ExtendOne(val, i, s[i]); }
      RawValue(val + s[i] * Pow128(i), i + 1);
    }
  }

  lemma {:induction false} ExtendOne(acc: nat, i: nat, low: nat)
    ensures Extend(acc, i, RawValue(low, 1)) == RawValue(acc + low * Pow128(i), i + 1)
  {
    Commute(Pow128(i), low);
  }

  lemma ToI32Wraps(n: nat)
    ensures ToI32(n % U32) == ToI32(n)
  {
  }

  lemma Commute(a: nat, b: nat)
    ensures a * b == b * a
  {
  }

  // ---------------------------------------------------------------- the bits of a byte that is read

  lemma {:induction false} Pow2IsPow128(i: nat)
    ensures Pow2(7 * i) == Pow128(i)
  {
    if i > 0 {
      Pow2IsPow128(i - 1);
      Pow2Seven();
      Pow2Add(7, 7 * (i - 1));
    }
  }

  /** The two masks of the source split a byte into its group and its continuation bit. */
  lemma {:induction false} ByteIsMasked(b: byte)
    ensures And(b, 0x7f) == b % 128
    ensures And(b, 0x80) == 0 <==> b < 128
  {
    Pow2Seven();
    AndLow(b, 7);
    AndHighBit(b);
  }

  lemma {:induction false} AndHighBit(b: byte)
    ensures And(b, 0x80) == if b < 128 then 0 else 128
  {
    Pow2Seven();
    AndField(b, 1, 7);
    assert Shl(Pow2(1) - 1, 7) == 0x80;
    ShrIsDivision(b, 7);
  }

  /** The group in place, as a 32-bit shift leaves it: of the fifth group only four bits fit. */
  lemma GroupFits(low: nat, i: nat)
    requires low < 128 && i < MAX_SIZE
    ensures Shl(low, 7 * i) % U32 == Shl(if i < 4 then low else low % 16, 7 * i)
  {
    Pow2IsPow128(i);
    Pow128Values();
  }

  lemma GroupBound(sum: nat, low: nat, i: nat)
    requires sum < Pow128(i) && low < 128
    ensures sum + low * Pow128(i) < Pow128(i + 1)
  {
    ScaledBound(sum, low, Pow128(i));
  }

  lemma ScaledBound(sum: nat, low: nat, p: nat)
    requires sum < p && low < 128
    ensures sum + low * p < 128 * p
  {
    assert low * p <= 127 * p;
  }

  /** The groups occupy disjoint bits, so the `|=` of the source adds them up modulo 2^32. */
  lemma {:induction false} OrGroup(sum: nat, low: nat, i: nat)
    requires sum < Pow128(i) && low < 128 && i < MAX_SIZE
    ensures Or(sum % U32, Shl(low, 7 * i) % U32) == (sum + low * Pow128(i)) % U32
  {
    var fits := if i < 4 then low else low % 16;
    assert sum % U32 == sum by {
      Pow128Values();
    }
    Pow2IsPow128(i);
    GroupFits(low, i);
    OrDisjoint(sum, fits, 7 * i);
    SumWraps(sum, low, i);
  }

  lemma {:induction false} SumWraps(sum: nat, low: nat, i: nat)
    requires sum < Pow128(i) && low < 128 && i < MAX_SIZE
    ensures (sum + low * Pow128(i)) % U32 == sum + (if i < 4 then low else low % 16) * Pow128(i)
  {
    Pow128Values();
  }

  /** The value of a group at its place. */
  function Group(b: byte, i: nat): nat {
    b % 128 * Pow128(i)
  }

  /** `val |= (byte & 0x7F) << (i * 7)` on the bit pattern of an `i32`. */
  function WithGroup(val: nat, b: byte, i: nat): nat {
    Or(val, Shl(And(b, 0x7f), 7 * i) % U32)
  }

  /** After `i` bytes with the continuation bit set, `val` holds the sum of their groups. */
  ghost predicate Gathered(s: seq<byte>, val: nat, sum: nat, i: nat) {
    ReadSoFar(s, sum, i) && sum < Pow128(i) && val == sum % U32
  }

  lemma {:induction false} WithGroupAdds(val: nat, sum: nat, b: byte, i: nat)
    requires sum < Pow128(i) && val == sum % U32 && i < MAX_SIZE
    ensures WithGroup(val, b, i) == (sum + Group(b, i)) % U32
  {
    ByteIsMasked(b);
    OrGroup(sum, b % 128, i);
  }

  lemma GatherEnds(s: seq<byte>, val: nat, sum: nat, i: nat)
    requires Gathered(s, val, sum, i) && i < MAX_SIZE && i < |s| && And(s[i], 0x80) == 0
    ensures Parse(s) == Value(ToI32(WithGroup(val, s[i], i)), i + 1)
  {
    ByteIsMasked(s[i]);
    WithGroupAdds(val, sum, s[i], i);
    ReadEnds(s, sum, i, Group(s[i], i));
  }

  lemma GatherContinues(s: seq<byte>, val: nat, sum: nat, i: nat)
    requires Gathered(s, val, sum, i) && i < MAX_SIZE && i < |s| && And(s[i], 0x80) != 0
    ensures Gathered(s, WithGroup(val, s[i], i), sum + Group(s[i], i), i + 1)
  {
    ByteIsMasked(s[i]);
    WithGroupAdds(val, sum, s[i], i);
    ReadContinues(s, sum, i, Group(s[i], i));
    GroupBound(sum, s[i] % 128, i);
  }

  /** The loop of `VarInt::read` and `VarInt::read_async` over the bytes of `s`. */
  method Read(s: seq<byte>) returns (r: Parsed)
    ensures r == Parse(s)
  {
    var val: nat := 0;
    ghost var sum: nat := 0;
    for i := 0 to MAX_SIZE
      invariant Gathered(s, val, sum, i)
    {
      if i == |s| {
        return NeedMore;
      }
      var next := WithGroup(val, s[i], i);
      if And(s[i], 0x80) == 0 {
        GatherEnds(s, val, sum, i);
        return Value(ToI32(next), i + 1);
      }
      GatherContinues(s, val, sum, i);
      val, sum := next, sum + Group(s[i], i);
    }
    return TooLong;
  }
}
