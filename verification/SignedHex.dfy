/** Server hashes are printed the way Java prints a `BigInteger` in base sixteen. */
module SignedHex {
  import opened Bytes

  // ---------------------------------------------------------------- the numbers bytes stand for

  function Pow256(n: nat): (p: nat)
    ensures p > 0
  {
    if n == 0 then 1 else 256 * Pow256(n - 1)
  }

  /** The big-endian value. */
  function Unsigned(bytes: seq<byte>): (v: nat)
    ensures v < Pow256(|bytes|)
  {
    if bytes == [] then 0
    else 256 * Unsigned(bytes[..|bytes| - 1]) + bytes[|bytes| - 1]
  }

  /** The big-endian two's-complement value; no bytes stand for zero. */
  function Signed(bytes: seq<byte>): int {
    if bytes != [] && bytes[0] >= 0x80 then Unsigned(bytes) - Pow256(|bytes|) else Unsigned(bytes)
  }

  /** The sum of `bytes[k] * 256^(|bytes| - 1 - k)`, from the first byte on. */
  function BigEndian(bytes: seq<byte>): nat {
    if bytes == [] then 0 else bytes[0] * Pow256(|bytes| - 1) + BigEndian(bytes[1..])
  }

  lemma {:induction false} UnsignedIsBigEndian(bytes: seq<byte>)
    ensures Unsigned(bytes) == BigEndian(bytes)
    decreases |bytes|
  {
    if bytes != [] {
      UnsignedCons(bytes[0], bytes[1..]);
      assert [bytes[0]] + bytes[1..] == bytes;
      UnsignedIsBigEndian(bytes[1..]);
    }
  }

  /** The value is congruent to the big-endian one modulo 256^n and lies in the range of n bytes, from
      minus a half of that to a half of it: so it is the two's-complement value. */
  lemma {:induction false} SignedIsTwosComplement(bytes: seq<byte>)
    ensures Signed(bytes) == BigEndian(bytes) || Signed(bytes) == BigEndian(bytes) - Pow256(|bytes|)
    ensures bytes != [] ==> 0 - Pow256(|bytes|) <= 2 * Signed(bytes) < Pow256(|bytes|)
  {
    UnsignedIsBigEndian(bytes);
    if bytes != [] {
      var p := Pow256(|bytes| - 1);
      assert Unsigned(bytes[1..]) < p;
      UnsignedCons(bytes[0], bytes[1..]);
      assert [bytes[0]] + bytes[1..] == bytes;
      HalfRange(bytes[0], p, Unsigned(bytes[1..]));
    }
  }

  lemma HalfRange(b: byte, p: nat, low: nat)
    requires low < p
    ensures b >= 0x80 <==> 2 * (b * p + low) >= 256 * p
  {
    if b >= 0x80 {
      assert (b - 0x80) * p >= 0;
    } else {
      assert (0x7f - b) * p >= 0;
    }
  }

  // ---------------------------------------------------------------- how Java prints a number

  function Digit(d: nat): char
    requires d < 16
  {
    if d < 10 then ('0' as int + d) as char else ('a' as int + d - 10) as char
  }

  lemma DigitListed(d: nat)
    requires d < 16
    ensures Digit(d) == "0123456789abcdef"[d]
  {
  }

  /** The digits of a number without leading zeros; zero has none. */
  function Digits(n: nat): string {
    if n == 0 then "" else Digits(n / 16) + [Digit(n % 16)]
  }

  /** `toString(16)`. */
  function ToHex(v: int): string {
    if v == 0 then "0" else if v < 0 then "-" + Digits(-v) else Digits(v)
  }

  // ---------------------------------------------------------------- hexadecimal of bytes

  /** `hex::encode`. */
  function HexEncode(bytes: seq<byte>): string {
    if bytes == [] then ""
    else
      var last := bytes[|bytes| - 1];
      HexEncode(bytes[..|bytes| - 1]) + [Digit(last / 16), Digit(last % 16)]
  }

  /** `trim_start_matches('0')`. */
  function TrimZeros(s: string): string {
    if s != "" && s[0] == '0' then TrimZeros(s[1..]) else s
  }

  lemma {:induction false} TrimSnoc(s: string, c: char)
    ensures TrimZeros(s + [c]) == if TrimZeros(s) == "" && c == '0' then "" else TrimZeros(s) + [c]
    decreases |s|
  {
    if s != "" {
      assert (s + [c])[1..] == s[1..] + [c];
      TrimSnoc(s[1..], c);
    }
  }

  lemma DigitsStep(n: nat, d: nat)
    requires d < 16
    ensures Digits(16 * n + d) == if n == 0 && d == 0 then "" else Digits(n) + [Digit(d)]
  {
    assert (16 * n + d) / 16 == n && (16 * n + d) % 16 == d;
  }

  lemma TrimDigit(hex: string, n: nat, d: nat)
    requires d < 16 && TrimZeros(hex) == Digits(n)
    ensures TrimZeros(hex + [Digit(d)]) == Digits(16 * n + d)
  {
    TrimSnoc(hex, Digit(d));
    DigitsStep(n, d);
    DigitsEmpty(n);
  }

  /** Trimming the hexadecimal of any bytes leaves the digits of their big-endian value. */
  lemma {:induction false} TrimmedHex(bytes: seq<byte>)
    ensures TrimZeros(HexEncode(bytes)) == Digits(Unsigned(bytes))
    decreases |bytes|
  {
    if bytes != [] {
      var init, last := bytes[..|bytes| - 1], bytes[|bytes| - 1];
      var hex, n, high, low := HexEncode(init), Unsigned(init), last / 16, last % 16;
      TrimmedHex(init);
      TrimDigit(hex, n, high);
      TrimDigit(hex + [Digit(high)], 16 * n + high, low);
      assert hex + [Digit(high), Digit(low)] == hex + [Digit(high)] + [Digit(low)];
    }
  }

  lemma {:induction false} DigitsEmpty(n: nat)
    ensures Digits(n) == "" <==> n == 0
  {
  }

  // ---------------------------------------------------------------- negating in place

  function Complement(bytes: seq<byte>): (r: seq<byte>)
    ensures |r| == |bytes|
  {
    seq(|bytes|, i requires 0 <= i < |bytes| => 255 - bytes[i])
  }

  /** One more, dropping a carry out of the first byte. */
  function Incremented(bytes: seq<byte>): (r: seq<byte>)
    ensures |r| == |bytes|
  {
    if bytes == [] then []
    else
      var init, last := bytes[..|bytes| - 1], bytes[|bytes| - 1];
      if last == 255 then Incremented(init) + [0] else init + [last + 1]
  }

  /** The carry loop: from the last byte forward, stopping at the first byte that does not wrap. */
  method Increment(a: array<byte>)
    modifies a
    ensures a[..] == Incremented(old(a[..]))
  {
    ghost var start := a[..];
    var i := a.Length;
    assert start[..i] == start && a[i..] == [];
    while i > 0
      invariant 0 <= i <= a.Length
      invariant a[..i] == start[..i]
      invariant Incremented(start) == Incremented(start[..i]) + a[i..]
    {
      i := i - 1;
      assert start[..i + 1][..i] == start[..i];
      var carry := a[i] == 255;
      ghost var tail := a[i + 1..];
      a[i] := if carry then 0 else a[i] + 1;
      assert a[i..] == [a[i]] + tail;
      if !carry {
        assert a[..] == a[..i] + a[i..];
        return;
      }
    }
    assert a[..] == a[0..];
  }

  lemma {:induction false} ComplementValue(bytes: seq<byte>)
    ensures Unsigned(Complement(bytes)) == Pow256(|bytes|) - 1 - Unsigned(bytes)
    decreases |bytes|
  {
    if bytes != [] {
      var init := bytes[..|bytes| - 1];
      ComplementValue(init);
      assert Complement(bytes)[..|bytes| - 1] == Complement(init);
    }
  }

  lemma {:induction false} IncrementedValue(bytes: seq<byte>)
    requires Unsigned(bytes) + 1 < Pow256(|bytes|)
    ensures Unsigned(Incremented(bytes)) == Unsigned(bytes) + 1
    decreases |bytes|
  {
    var init, last := bytes[..|bytes| - 1], bytes[|bytes| - 1];
    if last == 255 {
      IncrementedValue(init);
      assert (Incremented(init) + [0])[..|bytes| - 1] == Incremented(init);
    } else {
      assert (init + [last + 1 as byte])[..|bytes| - 1] == init;
    }
  }

  /** Complementing and adding one negates: the magnitude of a negative number. */
  lemma MagnitudeValue(bytes: seq<byte>)
    requires Signed(bytes) < 0
    ensures Unsigned(Incremented(Complement(bytes))) == -Signed(bytes)
  {
    ComplementValue(bytes);
    LeadingByteIsPositive(bytes);
    IncrementedValue(Complement(bytes));
  }

  lemma {:induction false} LeadingByteIsPositive(bytes: seq<byte>)
    requires bytes != [] && bytes[0] > 0
    ensures Unsigned(bytes) > 0
    decreases |bytes|
  {
    if |bytes| > 1 {
      LeadingByteIsPositive(bytes[..|bytes| - 1]);
    }
  }

  /** `signed_bytes_be_to_hex`. */
  method SignedBytesToHex(bytes: seq<byte>) returns (hex: string)
    ensures hex == ToHex(Signed(bytes))
  {
    if bytes == [] {
      return "0";
    }
    var isNegative := bytes[0] >= 0x80;
    if isNegative {
      var magnitude := new byte[|bytes|](i requires 0 <= i < |bytes| => 255 - bytes[i]);
      assert magnitude[..] == Complement(bytes);
      Increment(magnitude);
      MagnitudeValue(bytes);
      TrimmedHex(magnitude[..]);
      hex := "-" + TrimZeros(HexEncode(magnitude[..]));
    } else {
      var trimmed := TrimZeros(HexEncode(bytes));
      TrimmedHex(bytes);
      DigitsEmpty(Unsigned(bytes));
      hex := if trimmed == "" then "0" else trimmed;
    }
  }

  // ---------------------------------------------------------------- what the text denotes

  predicate IsDigit(c: char) {
    '0' <= c <= '9' || 'a' <= c <= 'f'
  }

  function DigitValue(c: char): (d: nat)
    requires IsDigit(c)
    ensures d < 16
  {
    if c <= '9' then c as int - '0' as int else c as int - 'a' as int + 10
  }

  predicate AllDigits(s: string) {
    forall i :: 0 <= i < |s| ==> IsDigit(s[i])
  }

  /** The number a string of digits denotes. */
  function NatOf(s: string): nat
    requires AllDigits(s)
  {
    if s == "" then 0 else 16 * NatOf(s[..|s| - 1]) + DigitValue(s[|s| - 1])
  }

  /** A digit string with a nonzero first digit. */
  predicate Significant(s: string) {
    s != "" && AllDigits(s) && s[0] != '0'
  }

  /** No leading zero, no minus zero, nothing else but digits. */
  predicate Canonical(s: string) {
    s == "0" || Significant(s) || (s != "" && s[0] == '-' && Significant(s[1..]))
  }

  function ValueOf(s: string): int
    requires Canonical(s)
  {
    if s[0] == '-' then 0 - NatOf(s[1..]) else NatOf(s)
  }

  lemma {:induction false} NatOfSnoc(s: string, d: nat)
    requires AllDigits(s) && d < 16
    ensures AllDigits(s + [Digit(d)]) && NatOf(s + [Digit(d)]) == 16 * NatOf(s) + d
  {
    assert (s + [Digit(d)])[..|s|] == s;
  }

  lemma {:induction false} DigitsDenote(n: nat)
    ensures AllDigits(Digits(n)) && NatOf(Digits(n)) == n
  {
    if n > 0 {
      DigitsDenote(n / 16);
      NatOfSnoc(Digits(n / 16), n % 16);
    }
  }

  lemma {:induction false} DigitsStartNonzero(n: nat)
    requires n > 0
    ensures Digits(n) != "" && Digits(n)[0] != '0'
  {
    if n >= 16 {
      DigitsStartNonzero(n / 16);
    }
  }

  /** The printed text is canonical and denotes the number. */
  lemma PrintedDenotes(v: int)
    ensures Canonical(ToHex(v)) && ValueOf(ToHex(v)) == v
  {
    var n: nat := if v < 0 then -v else v;
    DigitsDenote(n);
    if n > 0 {
      DigitsStartNonzero(n);
    }
    if v < 0 {
      assert ToHex(v)[1..] == Digits(n);
    }
  }

  lemma {:induction false} SignificantIsPrinted(s: string)
    requires Significant(s)
    ensures NatOf(s) > 0 && Digits(NatOf(s)) == s
    decreases |s|
  {
    var init, d := s[..|s| - 1], DigitValue(s[|s| - 1]);
    assert s == init + [s[|s| - 1]];
    if init != "" {
      SignificantIsPrinted(init);
    }
    DigitsStep(NatOf(init), d);
  }

  /** Conversely a canonical text is what the number it denotes prints as, so a number has
      exactly one canonical text. */
  lemma CanonicalIsPrinted(s: string)
    requires Canonical(s)
    ensures ToHex(ValueOf(s)) == s
  {
    if s[0] == '-' {
      SignificantIsPrinted(s[1..]);
      assert s == "-" + s[1..];
    } else if s == "0" {
      assert NatOf(s) == 0 by {
        assert s[..0] == "";
      }
    } else {
      SignificantIsPrinted(s);
    }
  }

  // ---------------------------------------------------------------- sign extension

  lemma {:induction false} UnsignedCons(b: byte, bytes: seq<byte>)
    ensures Unsigned([b] + bytes) == b * Pow256(|bytes|) + Unsigned(bytes)
    decreases |bytes|
  {
    if bytes == [] {
      assert ([b] + bytes)[..0] == [];
    } else {
      var init := bytes[..|bytes| - 1];
      assert ([b] + bytes)[..|bytes|] == [b] + init;
      UnsignedCons(b, init);
      assert 256 * (b * Pow256(|init|)) == b * (256 * Pow256(|init|));
    }
  }

  /** The byte that repeats the sign of a number. */
  function SignByte(bytes: seq<byte>): byte {
    if bytes != [] && bytes[0] >= 0x80 then 255 else 0
  }

  function Extended(k: nat, bytes: seq<byte>): seq<byte> {
    if k == 0 then bytes else [SignByte(bytes)] + Extended(k - 1, bytes)
  }

  /** However often the sign byte is repeated in front, the same number is meant, and so the
      same text is printed. */
  lemma {:induction false} SignExtension(k: nat, bytes: seq<byte>)
    ensures Signed(Extended(k, bytes)) == Signed(bytes)
    ensures SignByte(Extended(k, bytes)) == SignByte(bytes)
  {
    if k > 0 {
      SignExtension(k - 1, bytes);
      UnsignedCons(SignByte(bytes), Extended(k - 1, bytes));
    }
  }

  lemma {:induction false} UnsignedInjective(a: seq<byte>, b: seq<byte>)
    requires |a| == |b| && Unsigned(a) == Unsigned(b)
    ensures a == b
    decreases |a|
  {
    if a != [] {
      var n := |a| - 1;
      UnsignedInjective(a[..n], b[..n]);
      assert a == a[..n] + [a[n]] && b == b[..n] + [b[n]];
    }
  }

  lemma SignedInjective(a: seq<byte>, b: seq<byte>)
    requires |a| == |b| && Signed(a) == Signed(b)
    ensures a == b
  {
    UnsignedInjective(a, b);
  }

  /** Two byte strings print alike exactly when the longer one repeats the sign of the shorter. */
  lemma {:induction false} PrintedAlikeIff(a: seq<byte>, b: seq<byte>)
    requires |a| <= |b|
    ensures ToHex(Signed(a)) == ToHex(Signed(b)) <==> b == Extended(|b| - |a|, a)
  {
    var extended := Extended(|b| - |a|, a);
    if b == extended {
      ExtendedPrintsAlike(a, extended, |b| - |a|);
    }
    if ToHex(Signed(a)) == ToHex(Signed(b)) {
      PrintedAlikeExtends(a, b, extended);
    }
  }

  lemma {:induction false} ExtendedPrintsAlike(a: seq<byte>, extended: seq<byte>, k: nat)
    requires extended == Extended(k, a)
    ensures ToHex(Signed(a)) == ToHex(Signed(extended))
  {
    assert Signed(extended) == Signed(a) by {
      SignExtension(k, a);
    }
  }

  lemma {:induction false} PrintedAlikeExtends(a: seq<byte>, b: seq<byte>, extended: seq<byte>)
    requires |a| <= |b| && extended == Extended(|b| - |a|, a) && ToHex(Signed(a)) == ToHex(Signed(b))
    ensures b == extended
  {
    PrintedIsInjective(Signed(a), Signed(b));
    SameNumberExtends(a, b, extended);
  }

  lemma PrintedIsInjective(v: int, w: int)
    requires ToHex(v) == ToHex(w)
    ensures v == w
  {
    PrintedDenotes(v);
    PrintedDenotes(w);
  }

  lemma {:induction false} SameNumberExtends(a: seq<byte>, b: seq<byte>, extended: seq<byte>)
    requires |a| <= |b| && Signed(a) == Signed(b) && extended == Extended(|b| - |a|, a)
    ensures b == extended
  {
    assert Signed(extended) == Signed(a) by {
      SignExtension(|b| - |a|, a);
    }
    assert |extended| == |b| by {
      ExtendedLength(|b| - |a|, a);
    }
    SignedInjective(b, extended);
  }

  lemma {:induction false} ExtendedLength(k: nat, bytes: seq<byte>)
    ensures |Extended(k, bytes)| == k + |bytes|
  {
    if k > 0 {
      ExtendedLength(k - 1, bytes);
    }
  }
}
