/**
  The text codings of `library/src/core/magnet.rs`: percent-encoding (sections 2.1 and 2.3 of
  RFC 3986), hexadecimal hashes and base-32 hashes.
 */
module PercentCoding {
  import opened Wrappers
  import opened Sizes
  import opened Collections
  import opened Octets
  import opened PowersOfTwo

  type Data = seq<Octet>

  // ---------------------------------------------------------------- text and bytes

  /** UTF-8. */
  function Utf8Char(c: char): (r: Data)
    ensures c as int < 128 ==> r == [c as int]
    ensures c as int >= 128 ==> |r| > 1 && forall i :: 0 <= i < |r| ==> r[i] >= 128
  {
    var n := c as int;
    if n < 0x80 then [n]
    else if n < 0x800 then [0xC0 + n / 0x40, 0x80 + n % 0x40]
    else if n < 0x10000 then [0xE0 + n / 0x1000, 0x80 + n / 0x40 % 0x40, 0x80 + n % 0x40]
    else [0xF0 + n / 0x40000, 0x80 + n / 0x1000 % 0x40, 0x80 + n / 0x40 % 0x40, 0x80 + n % 0x40]
  }

  function Utf8(s: string): Data {
    if s == "" then [] else Utf8Char(s[0]) + Utf8(s[1..])
  }

  /** Each byte as the character with that number. */
  function Chars(d: Data): (r: string)
    ensures |r| == |d| && forall i :: 0 <= i < |d| ==> r[i] == d[i] as char
  {
    if d == [] then "" else [d[0] as char] + Chars(d[1..])
  }

  predicate Ascii(s: string) {
    forall i :: 0 <= i < |s| ==> s[i] as int < 128
  }

  predicate AsciiData(d: Data) {
    forall i :: 0 <= i < |d| ==> d[i] < 128
  }

  lemma {:induction false} Utf8OfChars(d: Data)
    requires AsciiData(d)
    ensures Utf8(Chars(d)) == d
  {
    hide Utf8Char, Chars;
    if d != [] {
      Utf8OfChars(d[1..]);
      assert Chars(d)[1..] == Chars(d[1..]);
      AsciiChar(d[0]);
      assert d == [d[0]] + d[1..];
    }
  }

  lemma {:induction false} AsciiChar(x: Octet)
    requires x < 128
    ensures Utf8Char(x as char) == [x]
  {
  }

  /** A string taken byte by byte: what remains of it after encoding and decoding. */
  function Bytewise(s: string): string {
    Chars(Utf8(s))
  }

  lemma {:induction false} Utf8Length(s: string)
    ensures |Utf8(s)| >= |s| && (|Utf8(s)| == |s| <==> Ascii(s))
  {
    if s != "" {
      Utf8Length(s[1..]);
      assert s == [s[0]] + s[1..];
    }
  }

  lemma {:induction false} AsciiUtf8(s: string)
    requires Ascii(s)
    ensures Chars(Utf8(s)) == s
  {
    if s != "" {
      AsciiUtf8(s[1..]);
      assert Chars(Utf8(s))[1..] == Chars(Utf8(s)[1..]);
      assert Utf8(s)[1..] == Utf8(s[1..]);
    }
  }

  lemma {:induction false} BytewiseExactly(s: string)
    ensures Bytewise(s) == s <==> Ascii(s)
    ensures Bytewise(s) == "" <==> s == ""
  {
    Utf8Length(s);
    if Ascii(s) {
      AsciiUtf8(s);
    }
  }

  // ---------------------------------------------------------------- hexadecimal digits

  function UpperHex(d: nat): (c: Octet)
    requires d < 16
    ensures c < 128 && ToDigit(c) == Some(d)
  {
    if d < 10 then 48 + d else 55 + d
  }

  function LowerHex(d: nat): (c: Octet)
    requires d < 16
    ensures ToDigit(c) == Some(d) && (48 <= c <= 57 || 97 <= c <= 102)
  {
    if d < 10 then 48 + d else 87 + d
  }

  /** `to_digit(16)`. */
  function ToDigit(c: Octet): (r: Option<nat>)
    ensures r.Some? ==> r.value < 16
  {
    if 48 <= c <= 57 then Some(c - 48)
    else if 65 <= c <= 70 then Some(c - 55)
    else if 97 <= c <= 102 then Some(c - 87)
    else None
  }

  /** `hex_chars_to_byte`. */
  function HexPair(h: Octet, l: Octet): Option<Octet> {
    if ToDigit(h).Some? && ToDigit(l).Some? then Some(16 * ToDigit(h).value + ToDigit(l).value) else None
  }

  // ---------------------------------------------------------------- percent-encoding

  const PERCENT: Octet := 37
  const PLUS: Octet := 43
  const SPACE: Octet := 32

  /** The unreserved characters of section 2.3 of RFC 3986. */
  predicate Unreserved(b: Octet) {
    65 <= b <= 90 || 97 <= b <= 122 || 48 <= b <= 57 || b == 45 || b == 95 || b == 46 || b == 126
  }

  function EncodeByte(b: Octet): (r: Data)
    ensures AsciiData(r) && |r| > 0
  {
    if Unreserved(b) then [b] else [PERCENT, UpperHex(b / 16), UpperHex(b % 16)]
  }

  function EncodeData(d: Data): Data {
    if d == [] then [] else EncodeByte(d[0]) + EncodeData(d[1..])
  }

  /** What one round of the decoder produces and how much it consumes; a broken escape keeps only its percent sign. */
  function DecodeOne(d: Data): (r: (Octet, nat))
    requires d != []
    ensures 0 < r.1 <= |d|
  {
    if d[0] == PERCENT then
      if |d| >= 3 && HexPair(d[1], d[2]).Some? then (HexPair(d[1], d[2]).value, 3) else (PERCENT, Min(3, |d|))
    else if d[0] == PLUS then (SPACE, 1)
    else (d[0], 1)
  }

  function DecodeData(d: Data): Data {
    if d == [] then [] else [DecodeOne(d).0] + DecodeData(d[DecodeOne(d).1..])
  }

  function PercentEncoded(s: string): string {
    Chars(EncodeData(Utf8(s)))
  }

  function PercentDecoded(s: string): string {
    Chars(DecodeData(Utf8(s)))
  }

  lemma {:induction false} DecodeEncoded(d: Data)
    ensures DecodeData(EncodeData(d)) == d
  {
    if d != [] {
      var e, rest := EncodeByte(d[0]), EncodeData(d[1..]);
      DecodeEncoded(d[1..]);
      assert DecodeOne(e + rest) == (d[0], |e|);
      assert (e + rest)[|e|..] == rest;
    }
  }

  lemma {:induction false} EncodedIsAscii(d: Data)
    ensures AsciiData(EncodeData(d)) && (EncodeData(d) == [] <==> d == [])
  {
    if d != [] {
      EncodedIsAscii(d[1..]);
    }
  }

  /** Decoding what was encoded gives the text byte by byte: the text itself exactly if it is ASCII. */
  lemma {:induction false} PercentRoundTrip(s: string)
    ensures PercentDecoded(PercentEncoded(s)) == Bytewise(s)
    ensures PercentDecoded(PercentEncoded(s)) == s <==> Ascii(s)
  {
    EncodedIsAscii(Utf8(s));
    Utf8OfChars(EncodeData(Utf8(s)));
    DecodeEncoded(Utf8(s));
    BytewiseExactly(s);
  }

  /** Encoded text contains only unreserved characters and percent escapes. */
  lemma {:induction false} EncodedCharacters(d: Data)
    ensures forall i :: 0 <= i < |EncodeData(d)| ==> Unreserved(EncodeData(d)[i]) || EncodeData(d)[i] == PERCENT
  {
    if d != [] {
      EncodedCharacters(d[1..]);
    }
  }

  lemma {:induction false} EncodeNothing(d: Data)
    requires d == []
    ensures EncodeData(d) == []
  {
  }

  lemma {:induction false} EncodeRound(out: Data, d: Data)
    requires d != []
    ensures out + EncodeData(d) == out + EncodeByte(d[0]) + EncodeData(d[1..])
  {
    hide EncodeByte;
    var rest := EncodeData(d[1..]);
    assert out + (EncodeByte(d[0]) + rest) == out + EncodeByte(d[0]) + rest;
  }

  method PercentEncode(s: string) returns (r: string)
    ensures r == PercentEncoded(s)
  {
    hide EncodeByte, EncodeData, Utf8;
    var rest := Utf8(s);
    var out: Data := [];
    while rest != []
      invariant out + EncodeData(rest) == EncodeData(Utf8(s))
    {
      EncodeRound(out, rest);
      out := out + EncodeByte(rest[0]);
      rest := rest[1..];
    }
    EncodeNothing(rest);
    r := Chars(out);
  }

  lemma {:induction false} DecodeNothing(d: Data)
    requires d == []
    ensures DecodeData(d) == []
  {
  }

  lemma {:induction false} DecodeRound(out: Data, d: Data)
    requires d != []
    ensures out + DecodeData(d) == out + [DecodeOne(d).0] + DecodeData(d[DecodeOne(d).1..])
  {
    hide DecodeOne;
    var rest := DecodeData(d[DecodeOne(d).1..]);
    assert out + ([DecodeOne(d).0] + rest) == out + [DecodeOne(d).0] + rest;
  }

  method PercentDecode(s: string) returns (r: string)
    ensures r == PercentDecoded(s)
  {
    hide DecodeOne, DecodeData, Utf8;
    var rest := Utf8(s);
    var out: Data := [];
    while rest != []
      invariant out + DecodeData(rest) == DecodeData(Utf8(s))
    {
      DecodeRound(out, rest);
      var step := DecodeOne(rest);
      out := out + [step.0];
      rest := rest[step.1..];
    }
    DecodeNothing(rest);
    r := Chars(out);
  }

  // ---------------------------------------------------------------- hexadecimal hashes

  function HexData(d: Data): Data {
    if d == [] then [] else [LowerHex(d[0] / 16), LowerHex(d[0] % 16)] + HexData(d[1..])
  }

  /** `to_hex`. */
  function Hex(d: Data): string {
    Chars(HexData(d))
  }

  function UnhexData(d: Data): Option<Data> {
    if d == [] then Some([])
    else if |d| == 1 || HexPair(d[0], d[1]).None? then None
    else
      match UnhexData(d[2..])
      case None => None
      case Some(rest) => Some([HexPair(d[0], d[1]).value] + rest)
  }

  /** `parse_hex_hash_exact`. */
  function ParseHex(s: string, length: nat): Option<Data> {
    var bytes := Utf8(s);
    if |bytes| != 2 * length then None else UnhexData(bytes)
  }

  lemma {:induction false} UnhexHex(d: Data)
    ensures AsciiData(HexData(d)) && |HexData(d)| == 2 * |d|
    ensures UnhexData(HexData(d)) == Some(d)
    ensures forall i :: 0 <= i < |HexData(d)| ==> 48 <= HexData(d)[i] <= 57 || 97 <= HexData(d)[i] <= 102
  {
    hide LowerHex, HexPair, ToDigit;
    if d != [] {
      var h, l, rest := LowerHex(d[0] / 16), LowerHex(d[0] % 16), HexData(d[1..]);
      UnhexHex(d[1..]);
      assert HexData(d) == [h, l] + rest && HexData(d)[2..] == rest;
      HexPairBack(d[0]);
      assert d == [d[0]] + d[1..];
    }
  }

  lemma {:induction false} HexPairBack(x: Octet)
    ensures HexPair(LowerHex(x / 16), LowerHex(x % 16)) == Some(x)
  {
    hide LowerHex, ToDigit;
  }

  lemma {:induction false} HexRoundTrip(d: Data)
    ensures ParseHex(Hex(d), |d|) == Some(d)
  {
    UnhexHex(d);
    Utf8OfChars(HexData(d));
  }

  method ParseHexHash(s: string, length: nat) returns (r: Option<Data>)
    ensures r == ParseHex(s, length)
  {
    hide Utf8, HexPair;
    var rest := Utf8(s);
    if |rest| != 2 * length {
      return None;
    }
    var out: Data := [];
    while rest != []
      invariant |rest| % 2 == 0
      invariant UnhexData(Utf8(s)) == After(out, UnhexData(rest))
    {
      var b := HexPair(rest[0], rest[1]);
      if b.None? {
        return None;
      }
      AfterOne(out, b.value, UnhexData(rest[2..]));
      out := out + [b.value];
      rest := rest[2..];
    }
    assert out + [] == out;
    return Some(out);
  }

  // ---------------------------------------------------------------- base-32 hashes

  function Base32Digit(c: Octet): (r: Option<nat>)
    ensures r.Some? ==> r.value < 32
  {
    if 65 <= c <= 90 then Some(c - 65)
    else if 97 <= c <= 122 then Some(c - 97)
    else if 50 <= c <= 55 then Some(c - 50 + 26)
    else None
  }

  /** Whole bytes so far, and the buffered bits of the next one, which the program keeps at its top end. */
  datatype Bits = Bits(bytes: Data, pending: nat, buffered: nat)

  ghost predicate Fitting(b: Bits) {
    b.buffered < 8 && b.pending < Pow2(b.buffered)
  }

  /** A digit fits behind the buffered bits, and a full byte in front of what stays buffered. */
  lemma {:induction false} DigitFits(pending: nat, v: nat, buffered: nat)
    requires pending < Pow2(buffered) && v < 32
    ensures 32 * pending + v < Pow2(buffered + 5)
    ensures buffered >= 3 ==> (32 * pending + v) / Pow2(buffered - 3) < 256 && (32 * pending + v) % Pow2(buffered - 3) < Pow2(buffered - 3)
  {
    assert Pow2(5) == 32;
    Pow2Add(5, buffered);
    if buffered >= 3 {
      assert Pow2(8) == 256;
      Pow2Add(8, buffered - 3);
      QuotientBelow(32 * pending + v, Pow2(buffered - 3), 256);
    }
  }

  /** One base-32 digit. */
  function AddDigit(b: Bits, v: nat): (r: Bits)
    requires Fitting(b) && v < 32
    ensures Fitting(r)
  {
    DigitFits(b.pending, v, b.buffered);
    var all := 32 * b.pending + v;
    if b.buffered >= 3 then
      Bits(b.bytes + [all / Pow2(b.buffered - 3)], all % Pow2(b.buffered - 3), b.buffered - 3)
    else
      Bits(b.bytes, all, b.buffered + 5)
  }

  /** The bits of the first n digits; `None` at a character that is no digit. */
  function Gathered(d: Data, n: nat): (r: Option<Bits>)
    requires n <= |d|
    ensures r.Some? ==> Fitting(r.value)
  {
    if n == 0 then Some(Bits([], 0, 0))
    else
      match Gathered(d, n - 1)
      case None => None
      case Some(b) => if Base32Digit(d[n - 1]).None? then None else Some(AddDigit(b, Base32Digit(d[n - 1]).value))
  }

  /** `parse_base32_hash`. */
  function Base32(s: string): Option<Data> {
    var d := Utf8(s);
    if |d| != 32 || Gathered(d, 32).None? || |Gathered(d, 32).value.bytes| != 20 then None else Some(Gathered(d, 32).value.bytes)
  }

  /** The number a byte string denotes, most significant byte first. */
  function BigEndian(d: Data): nat {
    if d == [] then 0 else 256 * BigEndian(d[..|d| - 1]) + d[|d| - 1]
  }

  /** The number the first n digits denote. */
  function Base32Value(d: Data, n: nat): nat
    requires n <= |d|
  {
    if n == 0 then 0 else 32 * Base32Value(d, n - 1) + if Base32Digit(d[n - 1]).Some? then Base32Digit(d[n - 1]).value else 0
  }

  /** The number of all bits gathered. */
  ghost function BitsValue(b: Bits): nat {
    BigEndian(b.bytes) * Pow2(b.buffered) + b.pending
  }

  /** One digit appends five bits. */
  lemma {:induction false} AddDigitValue(b: Bits, v: nat)
    requires Fitting(b) && v < 32
    ensures var r := AddDigit(b, v);
      && 8 * |r.bytes| + r.buffered == 8 * |b.bytes| + b.buffered + 5
      && BitsValue(r) == 32 * BitsValue(b) + v
  {
    hide Pow2, BigEndian, AddDigit;
    var n, p := BigEndian(b.bytes), Pow2(b.buffered);
    SmallPowers();
    if b.buffered >= 3 {
      var k := Pow2(b.buffered - 3);
      Pow2Add(3, b.buffered - 3);
      var q, rest := DigitParts(b, v);
      AppendByte(b.bytes, q);
      EightBits(n, q, k);
    } else {
      assert AddDigit(b, v) == Bits(b.bytes, 32 * b.pending + v, b.buffered + 5) by { DigitStays(b, v); }
      Pow2Add(5, b.buffered);
    }
  }

  lemma {:induction false} DigitParts(b: Bits, v: nat) returns (q: Octet, rest: nat)
    requires Fitting(b) && v < 32 && b.buffered >= 3
    ensures AddDigit(b, v) == Bits(b.bytes + [q], rest, b.buffered - 3)
    ensures 32 * b.pending + v == q * Pow2(b.buffered - 3) + rest
  {
    hide Pow2;
    DigitFits(b.pending, v, b.buffered);
    var all, k := 32 * b.pending + v, Pow2(b.buffered - 3);
    q, rest := all / k, all % k;
    DivMod(all, k);
  }

  lemma {:induction false} DivMod(x: nat, k: nat)
    requires k > 0
    ensures x == (x / k) * k + x % k
  {
  }

  lemma {:induction false} DigitStays(b: Bits, v: nat)
    requires Fitting(b) && v < 32 && b.buffered < 3
    ensures AddDigit(b, v) == Bits(b.bytes, 32 * b.pending + v, b.buffered + 5)
  {
  }

  lemma {:induction false} SmallPowers()
    ensures Pow2(3) == 8 && Pow2(5) == 32
  {
  }

  lemma {:induction false} AppendByte(d: Data, x: Octet)
    ensures BigEndian(d + [x]) == 256 * BigEndian(d) + x
  {
    assert (d + [x])[..|d|] == d;
  }

  lemma {:induction false} EightBits(n: nat, x: nat, k: nat)
    ensures (256 * n + x) * k == 32 * (n * (8 * k)) + x * k
  {
  }

  lemma {:induction false} GatheredValue(d: Data, n: nat)
    requires n <= |d| && Gathered(d, n).Some?
    ensures BitsValue(Gathered(d, n).value) == Base32Value(d, n)
    ensures 8 * |Gathered(d, n).value.bytes| + Gathered(d, n).value.buffered == 5 * n
  {
    hide AddDigit, BitsValue, Base32Digit;
    if n > 0 {
      GatheredValue(d, n - 1);
      AddDigitValue(Gathered(d, n - 1).value, Base32Digit(d[n - 1]).value);
    } else {
      assert BitsValue(Bits([], 0, 0)) == 0 by { NoBits(); }
    }
  }

  lemma {:induction false} NoBits()
    ensures BitsValue(Bits([], 0, 0)) == 0
  {
  }

  lemma {:induction false} GatheredExactly(d: Data, n: nat)
    requires n <= |d|
    ensures Gathered(d, n).Some? <==> forall i :: 0 <= i < n ==> Base32Digit(d[i]).Some?
  {
    hide AddDigit, Base32Digit;
    if n > 0 {
      GatheredExactly(d, n - 1);
    }
  }

  /** A base-32 hash is accepted exactly if it has 32 digits, and its 20 bytes denote the same number. */
  lemma {:induction false} Base32Exactly(s: string)
    ensures Base32(s).Some? <==> |Utf8(s)| == 32 && forall i :: 0 <= i < 32 ==> Base32Digit(Utf8(s)[i]).Some?
    ensures Base32(s).Some? ==> |Base32(s).value| == 20 && BigEndian(Base32(s).value) == Base32Value(Utf8(s), 32)
  {
    hide Gathered, Base32Digit, Base32Value;
    var d := Utf8(s);
    if |d| == 32 {
      GatheredExactly(d, 32);
      if Gathered(d, 32).Some? {
        GatheredValue(d, 32);
      }
    }
  }

  method ParseBase32Hash(s: string) returns (r: Option<Data>)
    ensures r == Base32(s)
  {
    hide AddDigit, Base32Digit;
    var d := Utf8(s);
    if |d| != 32 {
      return None;
    }
    ghost var b := Bits([], 0, 0);
    var bytes: Data, current, buffered := [], 0, 0;
    for i := 0 to 32
      invariant Fitting(b) && Gathered(d, i) == Some(b)
      invariant b.bytes == bytes && b.buffered == buffered < 8 && current == TopAligned(b)
    {
      var v := Base32Digit(d[i]);
      if v.None? {
        GatheredExactly(d, 32);
        return None;
      }
      ShiftedDigit(b, v.value);
      b := AddDigit(b, v.value);
      buffered := buffered + 5;
      if buffered >= 8 {
        buffered := buffered - 8;
        bytes := bytes + [current + v.value / Pow2(buffered)];
        current := v.value * Pow2(8 - buffered) % 256;
      } else {
        current := current + v.value * Pow2(8 - buffered);
      }
    }
    return if |bytes| == 20 then Some(bytes) else None;
  }

  /** The byte being filled: the pending bits at its top. */
  ghost function TopAligned(b: Bits): nat
    requires b.buffered < 8
  {
    b.pending * Pow2(8 - b.buffered)
  }

  /** Dividing past a multiple. */
  lemma {:induction false} DividePast(n: nat, x: nat, v: nat)
    requires n > 0
    ensures (n * x + v) / n == x + v / n && (n * x + v) % n == v % n
  {
    MulDistributes(n, x, v / n);
    RemainderUnique(n * x + v, n, x + v / n, v % n);
  }

  /** A byte is completed: n parts of the digit stay, m times the pending bits go before the others. */
  lemma {:induction false} ByteCompleted(p: nat, v: nat, m: nat, n: nat)
    requires n > 0 && v < 32 && m * n == 32
    ensures (32 * p + v) / n == p * m + v / n && (32 * p + v) % n == v % n && v / n < m
  {
    MulAssoc(n, m, p);
    DividePast(n, m * p, v);
    QuotientBelow(v, n, m);
  }

  lemma {:induction false} LowBitsUp(v: nat, n: nat, k: nat)
    requires n > 0 && n * k == 256
    ensures v * k % 256 == (v % n) * k
  {
    var q, r := v / n, v % n;
    assert v == n * q + r;
    MulDistributes(k, n * q, r);
    MulAssoc(k, n, q);
    MulGap(k, r, n);
    RemainderUnique(k * v, 256, q, k * r);
  }

  lemma {:induction false} PowersUpTo8(k: nat)
    requires k < 8
    ensures k >= 3 ==> Pow2(8 - k) * Pow2(k - 3) == 32 && Pow2(k - 3) * Pow2(8 - (k - 3)) == 256
    ensures k < 3 ==> 32 * Pow2(3 - k) == Pow2(8 - k)
  {
    assert Pow2(5) == 32 && Pow2(8) == 256;
    if k >= 3 {
      Pow2Add(8 - k, k - 3);
      Pow2Add(k - 3, 8 - (k - 3));
    } else {
      Pow2Add(5, 3 - k);
    }
  }

  /**
    One digit shifted into the byte being filled does what AddDigit does to the
    pending bits.  The added bits fall below those already there, so adding them
    is the bitwise or.
   */
  lemma {:induction false} ShiftedDigit(b: Bits, v: nat)
    requires Fitting(b) && v < 32
    ensures b.buffered < 8 && TopAligned(b) % Pow2(8 - b.buffered) == 0
    ensures var r := AddDigit(b, v);
      if b.buffered >= 3 then
        && r.buffered == b.buffered - 3 && v / Pow2(r.buffered) < Pow2(8 - b.buffered)
        && r.bytes == b.bytes + [TopAligned(b) + v / Pow2(r.buffered)]
        && TopAligned(r) == v * Pow2(8 - r.buffered) % 256
      else
        && r.buffered == b.buffered + 5 && v * Pow2(8 - r.buffered) < Pow2(8 - b.buffered)
        && r.bytes == b.bytes && TopAligned(r) == TopAligned(b) + v * Pow2(8 - r.buffered)
  {
    hide Pow2;
    var k, p := b.buffered, b.pending;
    PowersUpTo8(k);
    RemainderUnique(p * Pow2(8 - k), Pow2(8 - k), p, 0);
    if k >= 3 {
      ByteCompleted(p, v, Pow2(8 - k), Pow2(k - 3));
      LowBitsUp(v, Pow2(k - 3), Pow2(8 - (k - 3)));
    } else {
      DigitBelow(p, v, Pow2(3 - k));
    }
  }

  lemma {:induction false} DigitBelow(p: nat, v: nat, m: nat)
    requires v < 32 && m > 0
    ensures (32 * p + v) * m == p * (32 * m) + v * m && v * m < 32 * m
  {
    MulDistributes(m, 32 * p, v);
    MulAssoc(m, 32, p);
    MulGap(m, v, 32);
  }
}
