/**
 * `decodeURI` of ECMA-262, the Decode operation with the reserved set and
 * `#` kept. An escape `%XX` of a byte below 0x80 becomes that character,
 * unless the character is reserved; then its escape text is kept. A run of
 * two to four escapes that spells a well-formed UTF-8 sequence (section 4 of
 * RFC 3629) becomes the character it encodes. Anything else throws a
 * `URIError`, here `None`: a `%` that does not start two hexadecimal digits,
 * a byte that starts no sequence, a sequence cut short, or one that is not
 * well-formed (an overlong form, a surrogate, a code point above U+10FFFF).
 * Strings here are sequences of code points, so a character above U+FFFF is
 * one element where JavaScript stores two UTF-16 code units.
 */
module Uri {
  import opened Wrappers

  predicate IsHexDigit(c: char)
  {
    ('0' <= c <= '9') || ('a' <= c <= 'f') || ('A' <= c <= 'F')
  }

  function HexValue(c: char): (v: nat)
    requires IsHexDigit(c)
    ensures v < 16
  {
    if '0' <= c <= '9' then c as int - '0' as int
    else if 'a' <= c <= 'f' then c as int - 'a' as int + 10
    else c as int - 'A' as int + 10
  }

  /** The characters whose escapes `decodeURI` keeps: `;/?:@&=+$,#`. */
  predicate IsReservedForDecode(c: char)
  {
    c == ';' || c == '/' || c == '?' || c == ':' || c == '@' || c == '&'
    || c == '=' || c == '+' || c == '$' || c == ',' || c == '#'
  }

  /** A well-formed escape `%XX` starts at index `i` of `s`. */
  predicate EscapeAt(s: string, i: nat)
  {
    i + 2 < |s| && s[i] == '%' && IsHexDigit(s[i + 1]) && IsHexDigit(s[i + 2])
  }

  /** The byte the escape at index `i` stands for. */
  function EscapedByte(s: string, i: nat): (b: nat)
    requires EscapeAt(s, i)
    ensures b < 0x100
  {
    HexValue(s[i + 1]) * 16 + HexValue(s[i + 2])
  }

  /** The text an escape of a byte below 0x80 at the front of `s` decodes to. */
  function DecodedEscape(s: string): (r: string)
    requires EscapeAt(s, 0) && EscapedByte(s, 0) < 0x80
    ensures r == [EscapedByte(s, 0) as char] || r == s[..3]
  {
    var b := EscapedByte(s, 0);
    if !IsReservedForDecode(b as char) then [b as char] else s[..3]
  }

  // ---------------------------------------------------------------------
  // UTF-8 sequences of escapes

  /**
   * How many bytes the UTF-8 sequence that starts with byte `b` has: 1 for
   * ASCII, 2 to 4 for a lead byte, and 0 for a byte no sequence starts with
   * (a continuation byte, or one of C0, C1, F5 to FF).
   */
  function SequenceLength(b: nat): (n: nat)
    ensures n <= 4
    ensures n == 1 <==> b < 0x80
    ensures n == 0 <==> (0x80 <= b < 0xC2 || 0xF5 <= b)
  {
    if b < 0x80 then 1
    else if 0xC2 <= b <= 0xDF then 2
    else if 0xE0 <= b <= 0xEF then 3
    else if 0xF0 <= b <= 0xF4 then 4
    else 0
  }

  predicate IsContinuation(b: nat)
  {
    0x80 <= b <= 0xBF
  }

  /**
   * The bytes that may follow the lead byte `lead`: narrower ranges after E0
   * and F0 rule out overlong forms, after ED the surrogates, and after F4
   * the code points above U+10FFFF.
   */
  predicate SecondByteFits(lead: nat, b: nat)
  {
    if lead == 0xE0 then 0xA0 <= b <= 0xBF
    else if lead == 0xED then 0x80 <= b <= 0x9F
    else if lead == 0xF0 then 0x90 <= b <= 0xBF
    else if lead == 0xF4 then 0x80 <= b <= 0x8F
    else IsContinuation(b)
  }

  /** A well-formed UTF-8 sequence of two to four escapes starts at index `i`. */
  predicate SequenceAt(s: string, i: nat)
  {
    && EscapeAt(s, i)
    && var n := SequenceLength(EscapedByte(s, i));
    && 2 <= n
    && EscapeAt(s, i + 3) && SecondByteFits(EscapedByte(s, i), EscapedByte(s, i + 3))
    && (3 <= n ==> EscapeAt(s, i + 6) && IsContinuation(EscapedByte(s, i + 6)))
    && (n == 4 ==> EscapeAt(s, i + 9) && IsContinuation(EscapedByte(s, i + 9)))
  }

  /** The number of characters the sequence at `i` spans. */
  function SequenceChars(s: string, i: nat): (k: nat)
    requires SequenceAt(s, i)
    ensures 6 <= k <= 12 && i + k <= |s|
  {
    3 * SequenceLength(EscapedByte(s, i))
  }

  /**
   * The character the sequence at `i` encodes. It is never ASCII, and the
   * length of the sequence fits it: no overlong form is accepted.
   */
  function CodePoint(s: string, i: nat): (c: char)
    requires SequenceAt(s, i)
    ensures var n := SequenceLength(EscapedByte(s, i));
            && (n == 2 ==> 0x80 <= c as int < 0x800)
            && (n == 3 ==> 0x800 <= c as int < 0x1_0000)
            && (n == 4 ==> 0x1_0000 <= c as int)
  {
    var b0 := EscapedByte(s, i);
    var b1 := EscapedByte(s, i + 3);
    if SequenceLength(b0) == 2 then
      ((b0 - 0xC0) * 0x40 + (b1 - 0x80)) as char
    else if SequenceLength(b0) == 3 then
      var b2 := EscapedByte(s, i + 6);
      ThreeByteValue(b0, b1, b2) as char
    else
      var b2 := EscapedByte(s, i + 6);
      var b3 := EscapedByte(s, i + 9);
      ((b0 - 0xF0) * 0x4_0000 + (b1 - 0x80) * 0x1000 + (b2 - 0x80) * 0x40 + (b3 - 0x80)) as char
  }

  /** The code point of a three-byte sequence: never a surrogate. */
  function ThreeByteValue(b0: nat, b1: nat, b2: nat): (v: int)
    requires 0xE0 <= b0 <= 0xEF && SecondByteFits(b0, b1) && IsContinuation(b2)
    ensures 0x800 <= v < 0xD800 || 0xE000 <= v < 0x1_0000
  {
    (b0 - 0xE0) * 0x1000 + (b1 - 0x80) * 0x40 + (b2 - 0x80)
  }

  // ---------------------------------------------------------------------
  // decodeURI

  /** `decodeURI(s)`: `None` stands for the `URIError` it throws. */
  function DecodeURI(s: string): (r: Option<string>)
    ensures r.Some? ==> |r.value| <= |s|
    decreases |s|
  {
    if s == [] then Some([])
    else if s[0] != '%' then
      match DecodeURI(s[1..])
      case None => None
      case Some(t) => Some([s[0]] + t)
    else if !EscapeAt(s, 0) then None
    else if EscapedByte(s, 0) < 0x80 then
      match DecodeURI(s[3..])
      case None => None
      case Some(t) => Some(DecodedEscape(s) + t)
    else if !SequenceAt(s, 0) then None
    else
      match DecodeURI(s[SequenceChars(s, 0)..])
      case None => None
      case Some(t) => Some([CodePoint(s, 0)] + t)
  }

  /**
   * The escape at `i` continues a sequence that starts one, two or three
   * escapes before it, at or after index `m`.
   */
  predicate ContinuesFrom(s: string, m: nat, i: nat)
  {
    || (m + 3 <= i && SequenceAt(s, i - 3))
    || (m + 6 <= i && SequenceAt(s, i - 6) && 3 <= SequenceLength(EscapedByte(s, i - 6)))
    || (m + 9 <= i && SequenceAt(s, i - 9) && SequenceLength(EscapedByte(s, i - 9)) == 4)
  }

  /**
   * From index `m` on, every `%` starts an escape, and every escape of a
   * byte at or above 0x80 starts a well-formed UTF-8 sequence or continues
   * one that starts at or after `m`.
   */
  predicate WellEscapedFrom(s: string, m: nat)
  {
    forall i: nat :: m <= i < |s| && s[i] == '%' ==>
      && EscapeAt(s, i)
      && (EscapedByte(s, i) >= 0x80 ==> SequenceAt(s, i) || ContinuesFrom(s, m, i))
  }

  /**
   * Every `%` of `s` starts an escape, and the escapes of bytes at or above
   * 0x80 group into well-formed UTF-8 sequences.
   */
  predicate WellEscaped(s: string)
  {
    WellEscapedFrom(s, 0)
  }

  /**
   * `decodeURI` throws exactly when some `%` is not followed by two hex
   * digits, or the escaped bytes at or above 0x80 are not well-formed UTF-8.
   */
  lemma DecodeSucceedsIffWellEscaped(s: string)
    ensures DecodeURI(s).Some? <==> WellEscaped(s)
  {
    DecodeFromIff(s, 0);
    assert s[0..] == s;
  }

  /** Decoding the text from index `m` on succeeds exactly when it is well escaped from `m` on. */
  lemma {:induction false} DecodeFromIff(s: string, m: nat)
    requires m <= |s|
    ensures DecodeURI(s[m..]).Some? <==> WellEscapedFrom(s, m)
    decreases |s| - m
  {
    if m < |s| {
      HeadView(s, m);
      if s[m] != '%' {
        DecodeFromIff(s, m + 1);
        PlainStep(s, m);
      } else if !EscapeAt(s, m) {
        assert !WellEscapedFrom(s, m);
      } else if EscapedByte(s, m) < 0x80 {
        DecodeFromIff(s, m + 3);
        AsciiStep(s, m);
      } else if !SequenceAt(s, m) {
        assert !ContinuesFrom(s, m, m);
        assert !WellEscapedFrom(s, m);
      } else {
        DecodeFromIff(s, m + SequenceChars(s, m));
        SequenceStep(s, m);
      }
    }
  }

  /** One plain character: the induction step of `DecodeFromIff`. */
  lemma PlainStep(s: string, m: nat)
    requires m < |s| && s[m] != '%'
    requires DecodeURI(s[m + 1..]).Some? <==> WellEscapedFrom(s, m + 1)
    ensures DecodeURI(s[m..]).Some? <==> WellEscapedFrom(s, m)
  {
    assert s[m..][1..] == s[m + 1..];
    WellAfterPlain(s, m);
  }

  /** One escape of a byte below 0x80: the induction step of `DecodeFromIff`. */
  lemma AsciiStep(s: string, m: nat)
    requires EscapeAt(s, m) && EscapedByte(s, m) < 0x80
    requires DecodeURI(s[m + 3..]).Some? <==> WellEscapedFrom(s, m + 3)
    ensures DecodeURI(s[m..]).Some? <==> WellEscapedFrom(s, m)
  {
    HeadView(s, m);
    assert s[m..][3..] == s[m + 3..];
    WellAfterAscii(s, m);
  }

  /** One UTF-8 sequence: the induction step of `DecodeFromIff`. */
  lemma SequenceStep(s: string, m: nat)
    requires SequenceAt(s, m)
    requires DecodeURI(s[m + SequenceChars(s, m)..]).Some? <==> WellEscapedFrom(s, m + SequenceChars(s, m))
    ensures DecodeURI(s[m..]).Some? <==> WellEscapedFrom(s, m)
  {
    HeadView(s, m);
    var t := s[m..];
    var k := SequenceChars(s, m);
    assert t[SequenceChars(t, 0)..] == s[m + k..];
    assert DecodeURI(t).Some? <==> DecodeURI(s[m + k..]).Some?;
    WellAfterSequence(s, m);
  }

  /** The escape at index `i` of `s[m..]` is the one at `m + i` of `s`. */
  lemma ShiftEscape(s: string, m: nat, i: nat)
    requires m <= |s|
    ensures EscapeAt(s[m..], i) <==> EscapeAt(s, m + i)
    ensures EscapeAt(s, m + i) ==> EscapedByte(s[m..], i) == EscapedByte(s, m + i)
  {
    if m + i + 2 < |s| {
      assert s[m..][i] == s[m + i] && s[m..][i + 1] == s[m + i + 1] && s[m..][i + 2] == s[m + i + 2];
    }
  }

  /** What the decoder sees at the front of `s[m..]` is what is at `m` in `s`. */
  lemma HeadView(s: string, m: nat)
    requires m < |s|
    ensures EscapeAt(s[m..], 0) <==> EscapeAt(s, m)
    ensures EscapeAt(s, m) ==> EscapedByte(s[m..], 0) == EscapedByte(s, m)
    ensures SequenceAt(s[m..], 0) <==> SequenceAt(s, m)
    ensures SequenceAt(s, m) ==> SequenceChars(s[m..], 0) == SequenceChars(s, m)
  {
    ShiftEscape(s, m, 0);
    ShiftEscape(s, m, 3);
    ShiftEscape(s, m, 6);
    ShiftEscape(s, m, 9);
  }

  /** A plain character at `m` neither fails nor starts a sequence. */
  lemma WellAfterPlain(s: string, m: nat)
    requires m < |s| && s[m] != '%'
    ensures WellEscapedFrom(s, m) <==> WellEscapedFrom(s, m + 1)
  {
    if WellEscapedFrom(s, m) {
      forall i: nat | m + 1 <= i < |s| && s[i] == '%'
        ensures EscapedByte(s, i) >= 0x80 ==> SequenceAt(s, i) || ContinuesFrom(s, m + 1, i)
      {
        assert !SequenceAt(s, m);
      }
    }
  }

  /** An escape of a byte below 0x80 at `m` starts no sequence. */
  lemma WellAfterAscii(s: string, m: nat)
    requires EscapeAt(s, m) && EscapedByte(s, m) < 0x80
    ensures WellEscapedFrom(s, m) <==> WellEscapedFrom(s, m + 3)
  {
    assert !SequenceAt(s, m) && !SequenceAt(s, m + 1) && !SequenceAt(s, m + 2);
    assert s[m + 1] != '%' && s[m + 2] != '%';
  }

  /** Inside a sequence no other sequence starts. */
  lemma NoSequenceInside(s: string, m: nat, q: nat)
    requires SequenceAt(s, m) && m < q < m + SequenceChars(s, m)
    ensures !SequenceAt(s, q)
    ensures s[q] == '%' ==> (q - m) % 3 == 0 && EscapeAt(s, q) && IsContinuation(EscapedByte(s, q))
  {
  }

  /** A well-formed sequence at `m` is well escaped, and its continuation bytes belong to it. */
  lemma WellAfterSequence(s: string, m: nat)
    requires SequenceAt(s, m)
    ensures WellEscapedFrom(s, m) <==> WellEscapedFrom(s, m + SequenceChars(s, m))
  {
    if WellEscapedFrom(s, m) {
      WellPastSequence(s, m);
    }
    if WellEscapedFrom(s, m + SequenceChars(s, m)) {
      WellThroughSequence(s, m);
    }
  }

  /** What follows a sequence owes nothing to the sequence. */
  lemma WellPastSequence(s: string, m: nat)
    requires SequenceAt(s, m) && WellEscapedFrom(s, m)
    ensures WellEscapedFrom(s, m + SequenceChars(s, m))
  {
    var k := SequenceChars(s, m);
    forall i: nat | m + k <= i < |s| && s[i] == '%'
      ensures EscapedByte(s, i) >= 0x80 ==> SequenceAt(s, i) || ContinuesFrom(s, m + k, i)
    {
      if i - 3 < m + k && m < i - 3 { NoSequenceInside(s, m, i - 3); }
      if i - 6 < m + k && m < i - 6 { NoSequenceInside(s, m, i - 6); }
      if i - 9 < m + k && m < i - 9 { NoSequenceInside(s, m, i - 9); }
    }
  }

  /** The continuation bytes of a sequence continue it. */
  lemma WellThroughSequence(s: string, m: nat)
    requires SequenceAt(s, m) && WellEscapedFrom(s, m + SequenceChars(s, m))
    ensures WellEscapedFrom(s, m)
  {
    var k := SequenceChars(s, m);
    forall i: nat | m <= i < |s| && s[i] == '%'
      ensures EscapeAt(s, i) && (EscapedByte(s, i) >= 0x80 ==> SequenceAt(s, i) || ContinuesFrom(s, m, i))
    {
      if m < i < m + k {
        NoSequenceInside(s, m, i);
      }
    }
  }

  /** Text without `%` decodes to itself. */
  lemma {:induction false} DecodeWithoutPercent(s: string)
    requires '%' !in s
    ensures DecodeURI(s) == Some(s)
    decreases |s|
  {
    if s != [] {
      DecodeWithoutPercent(s[1..]);
      assert [s[0]] + s[1..] == s;
    }
  }

  /** A prefix without `%` passes through decoding unchanged. */
  lemma {:induction false} DecodeKeepsPlainPrefix(a: string, b: string)
    requires '%' !in a
    ensures DecodeURI(a + b) == match DecodeURI(b) case None => None case Some(t) => Some(a + t)
    decreases |a|
  {
    if a == [] {
      assert a + b == b;
      if DecodeURI(b).Some? {
        assert a + DecodeURI(b).value == DecodeURI(b).value;
      }
    } else {
      assert (a + b)[0] == a[0] && (a + b)[1..] == a[1..] + b;
      DecodeKeepsPlainPrefix(a[1..], b);
      if DecodeURI(b).Some? {
        assert [a[0]] + (a[1..] + DecodeURI(b).value) == a + DecodeURI(b).value;
      }
    }
  }

  // ---------------------------------------------------------------------
  // The inverse: `encodeURI`

  /** The ASCII characters `encodeURI` leaves as they are. */
  predicate IsUnescapedByEncode(c: char)
  {
    ('A' <= c <= 'Z') || ('a' <= c <= 'z') || ('0' <= c <= '9') || IsReservedForDecode(c)
    || c == '-' || c == '_' || c == '.' || c == '!' || c == '~' || c == '*'
    || c == '\'' || c == '(' || c == ')'
  }

  /** Upper-case hexadecimal digit, as `encodeURI` writes it. */
  function HexDigit(n: nat): (c: char)
    requires n < 16
    ensures IsHexDigit(c) && HexValue(c) == n
  {
    if n < 10 then ('0' as int + n) as char else ('A' as int + n - 10) as char
  }

  /** The escape `%XX` of byte `b`. */
  function EscapeOf(b: nat): (r: string)
    requires b < 0x100
    ensures |r| == 3 && EscapeAt(r, 0) && EscapedByte(r, 0) == b
  {
    ['%', HexDigit(b / 16), HexDigit(b % 16)]
  }

  /** The UTF-8 encoding of a character outside ASCII (section 3 of RFC 3629): a well-formed sequence. */
  function Utf8Bytes(c: char): (bs: seq<nat>)
    requires 0x80 <= c as int
    ensures 2 <= |bs| <= 4 && SequenceLength(bs[0]) == |bs|
    ensures forall k :: 0 <= k < |bs| ==> bs[k] < 0x100
    ensures SecondByteFits(bs[0], bs[1])
    ensures forall k :: 2 <= k < |bs| ==> IsContinuation(bs[k])
  {
    var v := c as int;
    var q1 := v / 0x40;
    var q2 := q1 / 0x40;
    if v < 0x800 then [0xC0 + q1, 0x80 + v % 0x40]
    else if v < 0x1_0000 then [0xE0 + q2, 0x80 + q1 % 0x40, 0x80 + v % 0x40]
    else [0xF0 + q2 / 0x40, 0x80 + q2 % 0x40, 0x80 + q1 % 0x40, 0x80 + v % 0x40]
  }

  /** The escapes of the bytes `bs`, one after another. */
  function Escapes(bs: seq<nat>): (r: string)
    requires forall k :: 0 <= k < |bs| ==> bs[k] < 0x100
    ensures |r| == 3 * |bs|
  {
    if bs == [] then [] else EscapeOf(bs[0]) + Escapes(bs[1..])
  }

  /** `encodeURI(s)`: the unescaped characters kept, every other one written as the escapes of its UTF-8 bytes. */
  function EncodeURI(s: string): (r: string)
    ensures |s| <= |r|
  {
    if s == [] then []
    else if IsUnescapedByEncode(s[0]) then [s[0]] + EncodeURI(s[1..])
    else if s[0] as int < 0x80 then EscapeOf(s[0] as int) + EncodeURI(s[1..])
    else Escapes(Utf8Bytes(s[0])) + EncodeURI(s[1..])
  }

  /** The escape of the `j`-th byte sits at `3 * j`. */
  lemma {:induction false} EscapesAt(bs: seq<nat>, tail: string, j: nat)
    requires forall k :: 0 <= k < |bs| ==> bs[k] < 0x100
    requires j < |bs|
    ensures EscapeAt(Escapes(bs) + tail, 3 * j) && EscapedByte(Escapes(bs) + tail, 3 * j) == bs[j]
    decreases j
  {
    var e := Escapes(bs) + tail;
    var x := EscapeOf(bs[0]);
    var rest := Escapes(bs[1..]) + tail;
    assert e == x + rest;
    if j == 0 {
      assert e[0] == x[0] && e[1] == x[1] && e[2] == x[2];
    } else {
      EscapesAt(bs[1..], tail, j - 1);
      var p := 3 * (j - 1);
      assert e[3 * j] == rest[p] && e[3 * j + 1] == rest[p + 1] && e[3 * j + 2] == rest[p + 2];
    }
  }

  /** Reading the UTF-8 bytes of `c` back gives `c`. */
  lemma Utf8BytesValue(c: char)
    requires 0x80 <= c as int
    ensures var bs := Utf8Bytes(c);
            && (|bs| == 2 ==> (bs[0] - 0xC0) * 0x40 + (bs[1] - 0x80) == c as int)
            && (|bs| == 3 ==> ThreeByteValue(bs[0], bs[1], bs[2]) == c as int)
            && (|bs| == 4 ==> (bs[0] - 0xF0) * 0x4_0000 + (bs[1] - 0x80) * 0x1000 + (bs[2] - 0x80) * 0x40 + (bs[3] - 0x80) == c as int)
  {
    var v := c as int;
    var q1 := v / 0x40;
    var q2 := q1 / 0x40;
    assert v == q1 * 0x40 + v % 0x40;
    assert q1 == q2 * 0x40 + q1 % 0x40;
    assert q2 == q2 / 0x40 * 0x40 + q2 % 0x40;
  }

  /** The escapes of the UTF-8 bytes of `c` form a sequence that decodes to `c`. */
  lemma EncodedCharDecodes(c: char, tail: string)
    requires 0x80 <= c as int
    ensures var e := Escapes(Utf8Bytes(c)) + tail;
            && SequenceAt(e, 0)
            && SequenceChars(e, 0) == |Escapes(Utf8Bytes(c))|
            && CodePoint(e, 0) == c
  {
    var bs := Utf8Bytes(c);
    EscapesAt(bs, tail, 0);
    EscapesAt(bs, tail, 1);
    if 3 <= |bs| { EscapesAt(bs, tail, 2); }
    if |bs| == 4 { EscapesAt(bs, tail, 3); }
    Utf8BytesValue(c);
  }

  /** `decodeURI(encodeURI(s)) == s`. */
  lemma {:induction false} DecodeEncodeRoundTrip(s: string)
    ensures DecodeURI(EncodeURI(s)) == Some(s)
    decreases |s|
  {
    if s != [] {
      DecodeEncodeRoundTrip(s[1..]);
      var e := EncodeURI(s);
      var tail := EncodeURI(s[1..]);
      if IsUnescapedByEncode(s[0]) {
        assert s[0] != '%';
        assert e[0] == s[0] && e[1..] == tail;
      } else if s[0] as int < 0x80 {
        var x := EscapeOf(s[0] as int);
        assert e[..3] == x && e[3..] == tail;
        assert e[0] == x[0] && e[1] == x[1] && e[2] == x[2];
        assert DecodedEscape(e) == [s[0]];
      } else {
        var x := Escapes(Utf8Bytes(s[0]));
        EncodedCharDecodes(s[0], tail);
        assert e[|x|..] == tail;
        assert e[0] == '%';
        assert EscapedByte(e, 0) >= 0x80;
      }
      assert [s[0]] + s[1..] == s;
    }
  }

  /**
   * Escapes that are not well-formed UTF-8 throw: a continuation byte with
   * no lead, a lead cut short or followed by an ASCII byte, an overlong form
   * and a surrogate.
   */
  lemma MalformedUtf8Throws()
    ensures DecodeURI("%80") == None
    ensures DecodeURI("%C3") == None
    ensures DecodeURI("%C3%28") == None
    ensures DecodeURI("%C0%AF") == None
    ensures DecodeURI("%ED%A0%80") == None
  {
    var e := "%ED%A0%80";
    assert EscapeAt(e, 0) && EscapedByte(e, 0) == 0xED;
    assert EscapeAt(e, 3) && EscapedByte(e, 3) == 0xA0;
  }

  /** A well-formed two-byte sequence decodes to its character. */
  lemma TwoByteDecodes()
    ensures DecodeURI("%C3%A9") == Some("\U{E9}")
  {
    var e := "%C3%A9";
    assert EscapeAt(e, 0) && EscapedByte(e, 0) == 0xC3;
    assert EscapeAt(e, 3) && EscapedByte(e, 3) == 0xA9;
    assert SequenceAt(e, 0) && SequenceChars(e, 0) == 6 && e[6..] == [];
    assert CodePoint(e, 0) == '\U{E9}';
    assert DecodeURI(e[6..]) == Some([]);
    assert e[0] == '%' && !(EscapedByte(e, 0) < 0x80);
    assert DecodeURI(e) == Some([CodePoint(e, 0)] + []);
    assert [CodePoint(e, 0)] + [] == "\U{E9}";
  }

  /** A well-formed three-byte sequence decodes to its character. */
  lemma ThreeByteDecodes()
    ensures DecodeURI("%E2%82%AC") == Some("\U{20AC}")
  {
    var f := "%E2%82%AC";
    assert EscapeAt(f, 0) && EscapedByte(f, 0) == 0xE2;
    assert EscapeAt(f, 3) && EscapedByte(f, 3) == 0x82;
    assert EscapeAt(f, 6) && EscapedByte(f, 6) == 0xAC;
    assert SequenceAt(f, 0) && SequenceChars(f, 0) == 9 && f[9..] == [];
    assert CodePoint(f, 0) == '\U{20AC}';
    assert DecodeURI(f[9..]) == Some([]);
    assert f[0] == '%' && !(EscapedByte(f, 0) < 0x80);
    assert DecodeURI(f) == Some([CodePoint(f, 0)] + []);
    assert [CodePoint(f, 0)] + [] == "\U{20AC}";
  }
}
