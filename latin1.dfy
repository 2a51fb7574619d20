/** PHP's utf8_encode(): every byte of the input is read as an ISO-8859-1 code point
    (U+0000 to U+00FF) and written out as its UTF-8 form (RFC 3629, section 3). */
module Latin1 {
  import opened PhpStrings

  /** A PHP byte string: every char stands for one byte. */
  predicate IsByteString(s: string) {
    forall i :: 0 <= i < |s| ==> s[i] as int < 0x100
  }

  /** Bytes below 0x80 are kept; 0x80 to 0xFF become the two bytes 110000xx 10xxxxxx.
      Chars from 0x100 up cannot occur in a PHP string and are kept as they are. */
  function EncodeChar(c: char): string {
    if c as int < 0x80 then [c]
    else if c as int < 0x100 then [(0xC0 + c as int / 64) as char, (0x80 + c as int % 64) as char]
    else [c]
  }

  function Utf8Encode(s: string): string
    decreases |s|
  {
    if s == [] then [] else EncodeChar(s[0]) + Utf8Encode(s[1..])
  }

  /** The partner of Utf8Encode: decodes UTF-8 whose code points are all below U+0100
      back to single bytes, and fails on anything else. */
  function Utf8Decode(t: string): Option<string>
    decreases |t|
  {
    if t == [] then Some([])
    else if t[0] as int < 0x80 then
      match Utf8Decode(t[1..])
      case Some(rest) => Some([t[0]] + rest)
      case None => None
    else if |t| >= 2 && 0xC2 <= t[0] as int <= 0xC3 && 0x80 <= t[1] as int < 0xC0 then
      match Utf8Decode(t[2..])
      case Some(rest) => Some([((t[0] as int - 0xC0) * 64 + (t[1] as int - 0x80)) as char] + rest)
      case None => None
    else None
  }

  /** Decoding what utf8_encode() produced gives the original bytes back. */
  lemma {:induction false} Utf8RoundTrip(s: string)
    requires IsByteString(s)
    ensures Utf8Decode(Utf8Encode(s)) == Some(s)
    decreases |s|
  {
    if s != [] {
      Utf8RoundTrip(s[1..]);
      var c := s[0];
      var rest := Utf8Encode(s[1..]);
      assert Utf8Encode(s) == EncodeChar(c) + rest;
      if c as int < 0x80 {
        assert (EncodeChar(c) + rest)[1..] == rest;
      } else {
        var t := EncodeChar(c) + rest;
        assert t[2..] == rest;
        assert ((t[0] as int - 0xC0) * 64 + (t[1] as int - 0x80)) == c as int;
      }
      assert s == [c] + s[1..];
    }
  }

  /** utf8_encode() turns a byte string into a byte string. */
  lemma {:induction false} Utf8EncodeBytes(s: string)
    requires IsByteString(s)
    ensures IsByteString(Utf8Encode(s))
    ensures |Utf8Encode(s)| == |s| + HighBytes(s)
    decreases |s|
  {
    if s != [] {
      Utf8EncodeBytes(s[1..]);
    }
  }

  /** utf8_encode() leaves ASCII text unchanged. */
  lemma {:induction false} Utf8EncodeAscii(s: string)
    requires forall i :: 0 <= i < |s| ==> s[i] as int < 0x80
    ensures Utf8Encode(s) == s
    decreases |s|
  {
    if s != [] {
      Utf8EncodeAscii(s[1..]);
      assert s == [s[0]] + s[1..];
    }
  }

  /** Number of bytes of `s` from 0x80 up. */
  function HighBytes(s: string): nat
    decreases |s|
  {
    if s == [] then 0 else (if s[0] as int >= 0x80 then 1 else 0) + HighBytes(s[1..])
  }
}
