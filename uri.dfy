/** `encodeURIComponent`: characters outside the unreserved set become the
    percent-escaped UTF-8 bytes of their code point. A decoder (percent
    escapes back to bytes, UTF-8 back to characters) is its partner here. */
module UriEncoding {
  import opened Wrappers
  import opened Numbers

  /** Characters `encodeURIComponent` leaves as they are: ASCII letters and
      digits and `- _ . ! ~ * ' ( )`. */
  predicate IsUnreserved(c: char) {
    || ('A' <= c <= 'Z') || ('a' <= c <= 'z') || ('0' <= c <= '9')
    || c == '-' || c == '_' || c == '.' || c == '!' || c == '~' || c == '*' || c == '\'' || c == '(' || c == ')'
  }

  /** The UTF-8 bytes of one character (a Unicode scalar value). */
  function Utf8Char(c: char): (bs: seq<Byte>)
    ensures 1 <= |bs| <= 4
  {
    var v := c as int;
    if v < 0x80 then [v]
    else if v < 0x800 then [0xC0 + v / 64] + Low6(v % 64, 1)
    else if v < 0x10000 then [0xE0 + v / 4096] + Low6(v % 4096, 2)
    else [0xF0 + v / 0x40000] + Low6(v % 0x40000, 3)
  }

  /** The k continuation bytes `10xxxxxx` carrying the low 6·k bits of v, most significant first. */
  function Low6(v: nat, k: nat): (bs: seq<Byte>)
    requires v < Pow64(k)
    ensures |bs| == k && forall i :: 0 <= i < k ==> IsContinuation(bs[i])
  {
    if k == 0 then [] else Low6(v / 64, k - 1) + [0x80 + v % 64]
  }

  function Pow64(k: nat): nat {
    if k == 0 then 1 else 64 * Pow64(k - 1)
  }

  /** The value carried by continuation bytes, most significant first. */
  function ContinuationValue(bs: seq<Byte>): int {
    if bs == [] then 0 else ContinuationValue(bs[..|bs| - 1]) * 64 + (bs[|bs| - 1] as int - 0x80)
  }

  lemma {:induction false} Low6Value(v: nat, k: nat)
    requires v < Pow64(k)
    ensures ContinuationValue(Low6(v, k)) == v
  {
    if k > 0 {
      Low6Value(v / 64, k - 1);
      var bs := Low6(v, k);
      assert bs[..|bs| - 1] == Low6(v / 64, k - 1);
    }
  }

  /** The UTF-8 bytes of a string. */
  function Utf8(s: string): seq<Byte> {
    if s == [] then [] else Utf8Char(s[0]) + Utf8(s[1..])
  }

  /** Upper-case hexadecimal digit of d. */
  function HexDigit(d: nat): (c: char)
    requires d < 16
    ensures IsUnreserved(c)
  {
    if d < 10 then ('0' as int + d) as char else ('A' as int + d - 10) as char
  }

  /** `%HH` for each byte, upper-case hexadecimal. */
  function Escape(bs: seq<Byte>): (r: string)
    ensures |r| == 3 * |bs|
  {
    if bs == [] then [] else ['%', HexDigit(bs[0] / 16), HexDigit(bs[0] % 16)] + Escape(bs[1..])
  }

  /** One character of the output: itself when unreserved, else its escaped UTF-8 bytes. */
  function EncodeChar(c: char): string {
    if IsUnreserved(c) then [c] else Escape(Utf8Char(c))
  }

  /** `encodeURIComponent(s)`: every character becomes 1 to 12 characters
      (itself, or up to four escaped bytes). */
  function EncodeUriComponent(s: string): (r: string)
    ensures |s| <= |r| <= 12 * |s|
  {
    if s == [] then [] else EncodeChar(s[0]) + EncodeUriComponent(s[1..])
  }

  // ---------------------------------------------------------------- decoding

  /** Value of an upper-case hexadecimal digit. */
  function HexValue(c: char): Option<nat> {
    if '0' <= c <= '9' then Some(c as int - '0' as int)
    else if 'A' <= c <= 'F' then Some(c as int - 'A' as int + 10)
    else None
  }

  /** Bytes of a percent-encoded string: `%HH` is one byte, an unreserved
      character its ASCII byte; anything else is rejected. */
  function PercentDecode(t: string): Option<seq<Byte>>
    decreases |t|
  {
    if t == [] then Some([])
    else if t[0] == '%' then
      if |t| < 3 then None
      else match (HexValue(t[1]), HexValue(t[2]), PercentDecode(t[3..]))
        case (Some(hi), Some(lo), Some(rest)) =>
          if hi < 16 && lo < 16 then Some([hi * 16 + lo] + rest) else None
        case _ => None
    else if IsUnreserved(t[0]) then
      match PercentDecode(t[1..])
      case Some(rest) => Some([t[0] as int] + rest)
      case None => None
    else None
  }

  predicate IsContinuation(b: Byte) {
    0x80 <= b < 0xC0
  }

  /** A character from its scalar value, when it has one. */
  function ScalarChar(v: int): Option<char> {
    if 0 <= v < 0xD800 || 0xE000 <= v < 0x110000 then Some(v as char) else None
  }

  /** Length of the sequence a lead byte starts (0 for a byte that cannot lead). */
  function SequenceLength(b0: Byte): nat {
    if b0 < 0x80 then 1 else if 0xC0 <= b0 < 0xE0 then 2
    else if 0xE0 <= b0 < 0xF0 then 3 else if 0xF0 <= b0 < 0xF8 then 4 else 0
  }

  /** Payload bits of a lead byte that starts a sequence of n bytes. */
  function LeadValue(b0: Byte, n: nat): int {
    if n == 1 then b0 else if n == 2 then b0 - 0xC0 else if n == 3 then b0 - 0xE0 else b0 - 0xF0
  }

  /** The first character of a UTF-8 byte sequence, and how many bytes it takes. */
  function DecodeFirst(bs: seq<Byte>): Option<(char, nat)>
    requires bs != []
  {
    var n := SequenceLength(bs[0]);
    if n == 0 || |bs| < n || exists k :: 1 <= k < n && !IsContinuation(bs[k]) then None
    else
      match ScalarChar(LeadValue(bs[0], n) * Pow64(n - 1) + ContinuationValue(bs[1..n]))
      case Some(c) => Some((c, n))
      case None => None
  }

  /** Characters of a UTF-8 byte sequence, reading each lead byte's length. */
  function Utf8Decode(bs: seq<Byte>): Option<string>
    decreases |bs|
  {
    if bs == [] then Some([])
    else match DecodeFirst(bs)
      case None => None
      case Some((c, n)) =>
        if n == 0 || n > |bs| then None
        else match Utf8Decode(bs[n..])
          case Some(rest) => Some([c] + rest)
          case None => None
  }

  // ---------------------------------------------------------------- properties

  /** The output only holds unreserved characters and `%`: in particular no
      `&`, `=`, `#`, `?` or space that could end a query parameter. */
  lemma {:induction false} EncodedIsSafe(s: string)
    ensures forall i :: 0 <= i < |EncodeUriComponent(s)| ==>
              IsUnreserved(EncodeUriComponent(s)[i]) || EncodeUriComponent(s)[i] == '%'
  {
    if s != [] {
      EncodedIsSafe(s[1..]);
      if !IsUnreserved(s[0]) {
        EscapeIsSafe(Utf8Char(s[0]));
      }
    }
  }

  lemma {:induction false} EscapeIsSafe(bs: seq<Byte>)
    ensures forall i :: 0 <= i < |Escape(bs)| ==> IsUnreserved(Escape(bs)[i]) || Escape(bs)[i] == '%'
  {
    if bs != [] {
      EscapeIsSafe(bs[1..]);
    }
  }

  lemma HexRoundTrip(d: nat)
    requires d < 16
    ensures HexValue(HexDigit(d)) == Some(d)
  {
  }

  /** One escaped byte decodes back to the byte, whatever follows it. */
  lemma EscapedByteDecodes(b: Byte, tail: string, rest: seq<Byte>)
    requires PercentDecode(tail) == Some(rest)
    ensures PercentDecode(['%', HexDigit(b / 16), HexDigit(b % 16)] + tail) == Some([b] + rest)
  {
    var t := ['%', HexDigit(b / 16), HexDigit(b % 16)] + tail;
    HexRoundTrip(b / 16);
    HexRoundTrip(b % 16);
    assert t[1] == HexDigit(b / 16) && t[2] == HexDigit(b % 16);
    assert t[3..] == tail;
  }

  /** Escaped bytes decode back to the bytes, whatever follows them. */
  lemma {:induction false} EscapeDecodes(bs: seq<Byte>, tail: string, rest: seq<Byte>)
    requires PercentDecode(tail) == Some(rest)
    ensures PercentDecode(Escape(bs) + tail) == Some(bs + rest)
  {
    if bs != [] {
      var b := bs[0];
      EscapeDecodes(bs[1..], tail, rest);
      EscapedByteDecodes(b, Escape(bs[1..]) + tail, bs[1..] + rest);
      assert Escape(bs) + tail == ['%', HexDigit(b / 16), HexDigit(b % 16)] + (Escape(bs[1..]) + tail);
      assert bs + rest == [b] + (bs[1..] + rest);
    } else {
      assert Escape(bs) + tail == tail;
      assert bs + rest == rest;
    }
  }

  /** An unreserved character is ASCII, so its byte is its UTF-8 encoding. */
  lemma UnreservedIsAscii(c: char)
    requires IsUnreserved(c)
    ensures Utf8Char(c) == [c as int]
  {
  }

  /** Percent-decoding the encoding gives the UTF-8 bytes of the input. */
  lemma {:induction false} PercentDecodeEncode(s: string)
    ensures PercentDecode(EncodeUriComponent(s)) == Some(Utf8(s))
  {
    if s != [] {
      var c := s[0];
      var tail := EncodeUriComponent(s[1..]);
      PercentDecodeEncode(s[1..]);
      if IsUnreserved(c) {
        UnreservedIsAscii(c);
        assert EncodeUriComponent(s) == [c] + tail;
        assert (EncodeUriComponent(s))[1..] == tail;
      } else {
        EscapeDecodes(Utf8Char(c), tail, Utf8(s[1..]));
      }
    }
  }

  /** The lead byte of a character's encoding announces its length, and lead
      and continuation bytes together carry its scalar value. */
  lemma Utf8CharParts(c: char)
    ensures var bs := Utf8Char(c);
            var n := |bs|;
            && SequenceLength(bs[0]) == n
            && LeadValue(bs[0], n) * Pow64(n - 1) + ContinuationValue(bs[1..n]) == c as int
  {
    var v := c as int;
    var bs := Utf8Char(c);
    if v < 0x80 {
    } else if v < 0x800 {
      Low6Value(v % 64, 1);
      assert bs[1..2] == Low6(v % 64, 1);
    } else if v < 0x10000 {
      Low6Value(v % 4096, 2);
      assert bs[1..3] == Low6(v % 4096, 2);
    } else {
      Low6Value(v % 0x40000, 3);
      assert bs[1..4] == Low6(v % 0x40000, 3);
    }
  }

  lemma DecodeFirstChar(c: char, tail: seq<Byte>)
    ensures DecodeFirst(Utf8Char(c) + tail) == Some((c, |Utf8Char(c)|))
  {
    var e := Utf8Char(c);
    var bs := e + tail;
    var n := |e|;
    Utf8CharParts(c);
    assert bs[0] == e[0];
    assert bs[1..n] == e[1..n];
    assert forall k :: 1 <= k < n ==> bs[k] == e[k];
    assert forall k :: 1 <= k < n ==> IsContinuation(e[k]) by {
      var v := c as int;
      if v >= 0x80 {
        assert forall k :: 1 <= k < n ==> e[k] == e[1..][k - 1];
      }
    }
  }

  /** The UTF-8 bytes of one character decode back to it, whatever follows. */
  lemma Utf8CharDecodes(c: char, tail: seq<Byte>, rest: string)
    requires Utf8Decode(tail) == Some(rest)
    ensures Utf8Decode(Utf8Char(c) + tail) == Some([c] + rest)
  {
    var bs := Utf8Char(c) + tail;
    DecodeFirstChar(c, tail);
    assert bs[|Utf8Char(c)|..] == tail;
  }

  /** UTF-8 decoding undoes UTF-8 encoding. */
  lemma {:induction false} Utf8RoundTrip(s: string)
    ensures Utf8Decode(Utf8(s)) == Some(s)
  {
    if s != [] {
      Utf8RoundTrip(s[1..]);
      Utf8CharDecodes(s[0], Utf8(s[1..]), s[1..]);
      assert [s[0]] + s[1..] == s;
    }
  }

  /** `decodeURIComponent(encodeURIComponent(s)) == s`: distinct names give
      distinct encodings. */
  lemma EncodeRoundTrip(s: string)
    ensures PercentDecode(EncodeUriComponent(s)).Some?
    ensures Utf8Decode(PercentDecode(EncodeUriComponent(s)).value) == Some(s)
  {
    PercentDecodeEncode(s);
    Utf8RoundTrip(s);
  }
}
