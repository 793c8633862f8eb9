/** UTF-8 (section 4 of RFC 3629) on byte strings, as Rust's `from_utf8` checks it. */
module Utf8 {

  predicate Continues(c: char) {
    0x80 <= c as int < 0xC0
  }

  /** The second byte after a leading byte b: no overlong forms, no surrogates, nothing above U+10FFFF. */
  predicate ContinuesAfter(b: int, c: char) {
    && Continues(c)
    && (b == 0xE0 ==> 0xA0 <= c as int)
    && (b == 0xED ==> (c as int) < 0xA0)
    && (b == 0xF0 ==> 0x90 <= c as int)
    && (b == 0xF4 ==> (c as int) < 0x90)
  }

  /** The length of the character at the head of s, or 0 if there is none. */
  function HeadLength(s: string): (n: nat)
    ensures n <= |s|
  {
    if s == "" then 0
    else
      var b := s[0] as int;
      if b < 0x80 then 1
      else if 0xC2 <= b < 0xE0 then (if |s| >= 2 && Continues(s[1]) then 2 else 0)
      else if 0xE0 <= b < 0xF0 then (if |s| >= 3 && ContinuesAfter(b, s[1]) && Continues(s[2]) then 3 else 0)
      else if 0xF0 <= b < 0xF5 then (if |s| >= 4 && ContinuesAfter(b, s[1]) && Continues(s[2]) && Continues(s[3]) then 4 else 0)
      else 0
  }

  predicate IsUtf8(s: string) {
    s == "" || (HeadLength(s) > 0 && IsUtf8(s[HeadLength(s)..]))
  }

  predicate IsAscii(c: char) {
    c as int < 0x80
  }

  /** No character reaches across an ASCII byte. */
  lemma {:induction false} HeadBeforeAscii(a: string, c: char, b: string)
    requires a != "" && IsAscii(c)
    ensures HeadLength(a + [c] + b) == HeadLength(a)
  {
    var s := a + [c] + b;
    assert s[0] == a[0] && s[|a|] == c && !Continues(c);
    assert |a| >= 2 ==> s[1] == a[1];
    assert |a| >= 3 ==> s[2] == a[2];
    assert |a| >= 4 ==> s[3] == a[3];
  }

  /** Text splits at an ASCII byte exactly into text. */
  lemma {:induction false} SplitAtAscii(a: string, c: char, b: string)
    requires IsAscii(c)
    ensures IsUtf8(a + [c] + b) <==> IsUtf8(a) && IsUtf8(b)
    decreases |a|
  {
    var s := a + [c] + b;
    if a == "" {
      assert s == [c] + b && s[1..] == b;
    } else {
      HeadBeforeAscii(a, c, b);
      hide HeadLength;
      var n := HeadLength(a);
      if n > 0 {
        assert s[n..] == a[n..] + [c] + b;
        SplitAtAscii(a[n..], c, b);
      }
    }
  }

  lemma {:induction false} AsciiIsText(s: string)
    requires forall i :: 0 <= i < |s| ==> IsAscii(s[i])
    ensures IsUtf8(s)
  {
    if s != "" {
      AsciiIsText(s[1..]);
    }
  }

  // ---------------------------------------------------------------- lossy decoding

  /** U+FFFD, the replacement character. */
  const REPLACEMENT: string := [0xEF as char, 0xBF as char, 0xBD as char]

  /** How many bytes at the head of s one replacement character stands for: the longest beginning of a character. */
  function BadLength(s: string): (n: nat)
    requires s != "" && HeadLength(s) == 0
    ensures 1 <= n <= |s|
  {
    var b := s[0] as int;
    if 0xE0 <= b < 0xF5 && |s| >= 2 && ContinuesAfter(b, s[1]) then
      if b >= 0xF0 && |s| >= 3 && Continues(s[2]) then 3 else 2
    else 1
  }

  /** Rust's `from_utf8_lossy`. */
  function Lossy(s: string): string {
    if s == "" then ""
    else if HeadLength(s) > 0 then s[..HeadLength(s)] + Lossy(s[HeadLength(s)..])
    else REPLACEMENT + Lossy(s[BadLength(s)..])
  }

  /** A character stays one whatever follows it. */
  lemma {:induction false} HeadStays(s: string, t: string)
    requires HeadLength(s) > 0
    ensures HeadLength(s[..HeadLength(s)] + t) == HeadLength(s)
  {
    var n := HeadLength(s);
    var u := s[..n] + t;
    assert u[0] == s[0];
    assert n >= 2 ==> u[1] == s[1];
    assert n >= 3 ==> u[2] == s[2];
    assert n >= 4 ==> u[3] == s[3];
  }

  /** A character in front of text gives text. */
  lemma {:induction false} TextAfterHead(s: string, t: string)
    requires HeadLength(s) > 0 && IsUtf8(t)
    ensures IsUtf8(s[..HeadLength(s)] + t)
  {
    HeadStays(s, t);
    hide HeadLength;
    var n := HeadLength(s);
    assert (s[..n] + t)[n..] == t;
  }

  /** Lossy decoding always gives text, and changes exactly what is not text. */
  lemma {:induction false} LossyExactly(s: string)
    ensures IsUtf8(Lossy(s)) && (Lossy(s) == s <==> IsUtf8(s))
  {
    LossyIsText(s);
    if IsUtf8(s) {
      LossyOfText(s);
    }
  }

  lemma {:induction false} LossyIsText(s: string)
    ensures IsUtf8(Lossy(s))
    decreases |s|
  {
    if s != "" {
      if HeadLength(s) > 0 {
        LossyIsText(s[HeadLength(s)..]);
        TextAfterHead(s, Lossy(s[HeadLength(s)..]));
      } else {
        LossyIsText(s[BadLength(s)..]);
        ReplacementIsHead();
        TextAfterHead(REPLACEMENT, Lossy(s[BadLength(s)..]));
      }
    }
  }

  lemma {:induction false} ReplacementIsHead()
    ensures HeadLength(REPLACEMENT) == 3 && REPLACEMENT[..3] == REPLACEMENT
  {
  }

  lemma {:induction false} LossyOfText(s: string)
    requires IsUtf8(s)
    ensures Lossy(s) == s
    decreases |s|
  {
    hide HeadLength;
    if s != "" {
      LossyOfText(s[HeadLength(s)..]);
    }
  }
}
