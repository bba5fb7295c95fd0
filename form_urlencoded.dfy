/** The `application/x-www-form-urlencoded` serializer of the WHATWG URL
    Standard (section 5.2), which `URLSearchParams.prototype.toString` uses:
    each name and value is UTF-8 encoded, every byte outside ASCII
    alphanumerics and `*-._` is percent-encoded with upper-case hex digits,
    a space becomes `+`, a name and its value are joined by `=`, and the
    pairs by `&`. Its partner here is the byte-level decoding step of the
    same standard's parser (section 5.1). */
module FormUrlencoded {
  import Strings

  newtype byte = x: int | 0 <= x < 256

  /** UTF-8 encoding of one Unicode scalar value (section 3 of RFC 3629). */
  function Utf8(c: char): (bs: seq<byte>)
    ensures 1 <= |bs| <= 4
  {
    var n := c as int;
    if n < 0x80 then [n as byte]
    else if n < 0x800 then [(0xC0 + n / 0x40) as byte, (0x80 + n % 0x40) as byte]
    else if n < 0x1_0000 then
      [(0xE0 + n / 0x1000) as byte, (0x80 + n / 0x40 % 0x40) as byte, (0x80 + n % 0x40) as byte]
    else
      [(0xF0 + n / 0x4_0000) as byte, (0x80 + n / 0x1000 % 0x40) as byte,
       (0x80 + n / 0x40 % 0x40) as byte, (0x80 + n % 0x40) as byte]
  }

  function Utf8Encode(s: string): (bs: seq<byte>)
    ensures bs == [] <==> s == []
  {
    if s == [] then [] else Utf8(s[0]) + Utf8Encode(s[1..])
  }

  /** The bytes that the serializer leaves as they are: ASCII alphanumerics
      and `*`, `-`, `.`, `_` (everything else is in the
      application/x-www-form-urlencoded percent-encode set). */
  predicate Unreserved(b: byte) {
    ('0' as byte <= b <= '9' as byte) || ('A' as byte <= b <= 'Z' as byte) ||
    ('a' as byte <= b <= 'z' as byte) ||
    b == '*' as byte || b == '-' as byte || b == '.' as byte || b == '_' as byte
  }

  /** An upper-case hex digit. */
  function HexDigit(d: int): char
    requires 0 <= d < 16
  {
    if d < 10 then ('0' as int + d) as char else ('A' as int + d - 10) as char
  }

  predicate IsAscii(s: string) {
    forall i :: 0 <= i < |s| ==> s[i] as int < 0x80
  }

  predicate IsHexDigit(c: char) {
    ('0' <= c <= '9') || ('A' <= c <= 'F') || ('a' <= c <= 'f')
  }

  function HexValue(c: char): (d: int)
    requires IsHexDigit(c)
    ensures 0 <= d < 16
  {
    if '0' <= c <= '9' then c as int - '0' as int
    else if 'A' <= c <= 'F' then c as int - 'A' as int + 10
    else c as int - 'a' as int + 10
  }

  /** One byte of output: `+` for a space, the byte itself when it is
      unreserved, `%XX` otherwise. */
  function EncodeByte(b: byte): (s: string)
    ensures 1 <= |s| <= 3
    ensures '&' !in s && '=' !in s
    ensures IsAscii(s)
  {
    if b == 0x20 then "+"
    else if Unreserved(b) then [b as int as char]
    else "%" + [HexDigit(b as int / 16), HexDigit(b as int % 16)]
  }

  function EncodeBytes(bs: seq<byte>): (s: string)
    ensures '&' !in s && '=' !in s
    ensures IsAscii(s)
    ensures s == [] <==> bs == []
  {
    if bs == [] then "" else EncodeByte(bs[0]) + EncodeBytes(bs[1..])
  }

  /** The encoding of one name or value. */
  function Encode(s: string): (e: string)
    ensures '&' !in e && '=' !in e
    ensures e == "" <==> s == ""
  {
    EncodeBytes(Utf8Encode(s))
  }

  /** The `name=value` item of one pair. */
  function Item(p: (string, string)): string {
    Encode(p.0) + "=" + Encode(p.1)
  }

  function Items(pairs: seq<(string, string)>): seq<string> {
    seq(|pairs|, i requires 0 <= i < |pairs| => Item(pairs[i]))
  }

  /** The urlencoded serializer: the items joined by `&`. */
  function Serialize(pairs: seq<(string, string)>): (query: string)
    ensures pairs == [] <==> query == ""
  {
    assert pairs != [] ==> Items(pairs)[0] == Item(pairs[0]);
    assert pairs != [] ==> |Items(pairs)| == 1 || Strings.Join(Items(pairs), '&')[|Item(pairs[0])|] == '&';
    Strings.Join(Items(pairs), '&')
  }

  /** The byte-level step of the urlencoded parser on ASCII text: `+` is a
      space, `%` with two hex digits is the byte they spell, and any other
      character is its own byte. */
  function DecodeBytes(s: string): seq<byte>
    requires IsAscii(s)
    decreases |s|
  {
    if s == [] then []
    else if s[0] == '+' then [0x20] + DecodeBytes(s[1..])
    else if s[0] == '%' && |s| >= 3 && IsHexDigit(s[1]) && IsHexDigit(s[2]) then
      [(HexValue(s[1]) * 16 + HexValue(s[2])) as byte] + DecodeBytes(s[3..])
    else [s[0] as int as byte] + DecodeBytes(s[1..])
  }

  lemma HexRoundTrip(d: int)
    requires 0 <= d < 16
    ensures IsHexDigit(HexDigit(d)) && HexValue(HexDigit(d)) == d
  {
  }

  /** Decoding the encoding of one byte, followed by anything, gives that
      byte first. */
  lemma DecodeEncodeByte(b: byte, rest: string)
    requires IsAscii(rest)
    ensures DecodeBytes(EncodeByte(b) + rest) == [b] + DecodeBytes(rest)
  {
    var s := EncodeByte(b) + rest;
    if b == 0x20 {
      assert s[1..] == rest;
    } else if Unreserved(b) {
      assert s[1..] == rest;
    } else {
      HexRoundTrip(b as int / 16);
      HexRoundTrip(b as int % 16);
      assert s[3..] == rest;
    }
  }

  /** Decoding undoes the percent-encoding of any byte string. */
  lemma {:induction false} DecodeEncodeBytes(bs: seq<byte>)
    ensures DecodeBytes(EncodeBytes(bs)) == bs
    decreases |bs|
  {
    if bs != [] {
      DecodeEncodeBytes(bs[1..]);
      DecodeEncodeByte(bs[0], EncodeBytes(bs[1..]));
      assert [bs[0]] + bs[1..] == bs;
    }
  }

  /** Reading a serialized query back: splitting it at `&` gives one item
      per pair, splitting an item at `=` gives the encoded name and value,
      and decoding those gives the UTF-8 bytes of the original name and
      value. */
  lemma SerializeParsesBack(pairs: seq<(string, string)>, i: nat)
    requires i < |pairs|
    ensures Strings.Split(Serialize(pairs), '&') == Items(pairs)
    ensures Strings.Split(Items(pairs)[i], '=') == [Encode(pairs[i].0), Encode(pairs[i].1)]
    ensures DecodeBytes(Encode(pairs[i].0)) == Utf8Encode(pairs[i].0)
    ensures DecodeBytes(Encode(pairs[i].1)) == Utf8Encode(pairs[i].1)
  {
    Strings.SplitJoin(Items(pairs), '&');
    var (k, v) := pairs[i];
    Strings.SplitAtSeparator(Encode(k), '=', Encode(v));
    Strings.SplitWithoutSeparator(Encode(v), '=');
    DecodeEncodeBytes(Utf8Encode(k));
    DecodeEncodeBytes(Utf8Encode(v));
  }
}
