/**
 * ByteArrayHelper.ConvertToHexString: each byte of the array becomes two
 * lower-case hexadecimal digits ("{0:x2}"), high nibble first, in array order.
 */
module ByteArrayHelper {
  import opened Wrappers

  /** The C# `byte`. */
  newtype byte = x: int | 0 <= x < 256

  predicate IsLowerHexDigit(c: char)
  {
    '0' <= c <= '9' || 'a' <= c <= 'f'
  }

  /** The lower-case hexadecimal digit for a nibble. */
  function HexDigit(n: int): (c: char)
    requires 0 <= n < 16
    ensures IsLowerHexDigit(c)
  {
    if n < 10 then ('0' as int + n) as char else ('a' as int + n - 10) as char
  }

  /** The value of a hexadecimal digit of either case, or None for any other character. */
  function HexValue(c: char): (v: Option<int>)
    ensures v.Some? ==> 0 <= v.value < 16
  {
    if '0' <= c <= '9' then Some(c as int - '0' as int)
    else if 'a' <= c <= 'f' then Some(c as int - 'a' as int + 10)
    else if 'A' <= c <= 'F' then Some(c as int - 'A' as int + 10)
    else None
  }

  /** The `{0:x2}` rendering of one byte. */
  function FormatX2(b: byte): (s: string)
    ensures |s| == 2 && IsLowerHexDigit(s[0]) && IsLowerHexDigit(s[1])
    ensures HexValue(s[0]) == Some(b as int / 16) && HexValue(s[1]) == Some(b as int % 16)
  {
    [HexDigit(b as int / 16), HexDigit(b as int % 16)]
  }

  /** The hexadecimal string of a byte sequence: the specification of ConvertToHexString. */
  function Hex(bytes: seq<byte>): (s: string)
    ensures |s| == 2 * |bytes|
  {
    if bytes == [] then "" else FormatX2(bytes[0]) + Hex(bytes[1..])
  }

  /** Decodes pairs of hexadecimal digits back into bytes; None if the text is not such pairs. */
  function Unhex(s: string): Option<seq<byte>>
    decreases |s|
  {
    if s == "" then Some([])
    else if |s| == 1 then None
    else
      match (HexValue(s[0]), HexValue(s[1]), Unhex(s[2..]))
      case (Some(hi), Some(lo), Some(rest)) => Some([(hi * 16 + lo) as byte] + rest)
      case _ => None
  }

  /** Characters 2i and 2i+1 are the high and the low nibble of byte i. */
  lemma {:induction false} HexAt(bytes: seq<byte>, i: int)
    requires 0 <= i < |bytes|
    ensures Hex(bytes)[2 * i] == HexDigit(bytes[i] as int / 16)
    ensures Hex(bytes)[2 * i + 1] == HexDigit(bytes[i] as int % 16)
  {
    if i > 0 {
      HexAt(bytes[1..], i - 1);
    }
  }

  /** Every character of the encoding is a lower-case hexadecimal digit. */
  lemma HexIsLowerHex(bytes: seq<byte>)
    ensures forall k :: 0 <= k < |Hex(bytes)| ==> IsLowerHexDigit(Hex(bytes)[k])
  {
    forall k | 0 <= k < |Hex(bytes)|
      ensures IsLowerHexDigit(Hex(bytes)[k])
    {
      HexAt(bytes, k / 2);
    }
  }

  /** Encoding distributes over concatenation. */
  lemma {:induction false} HexConcat(a: seq<byte>, b: seq<byte>)
    ensures Hex(a + b) == Hex(a) + Hex(b)
  {
    if a == [] {
      assert a + b == b;
    } else {
      assert (a + b)[1..] == a[1..] + b;
      HexConcat(a[1..], b);
    }
  }

  /** Decoding undoes encoding. */
  lemma {:induction false} HexRoundTrip(bytes: seq<byte>)
    ensures Unhex(Hex(bytes)) == Some(bytes)
  {
    if bytes != [] {
      var s := Hex(bytes);
      var b := bytes[0] as int;
      HexRoundTrip(bytes[1..]);
      assert s[2..] == Hex(bytes[1..]);
      assert HexValue(s[0]) == Some(b / 16);
      assert HexValue(s[1]) == Some(b % 16);
      assert [bytes[0]] + bytes[1..] == bytes;
    }
  }

  /** Distinct byte sequences have distinct encodings. */
  lemma HexInjective(a: seq<byte>, b: seq<byte>)
    requires Hex(a) == Hex(b)
    ensures a == b
  {
    HexRoundTrip(a);
    HexRoundTrip(b);
  }

  /**
   * ConvertToHexString: appends the two digits of each byte, in order, to a
   * growing string (the StringBuilder).
   */
  method ConvertToHexString(bytes: array<byte>) returns (hex: string)
    ensures hex == Hex(bytes[..])
  {
    hex := "";
    for i := 0 to bytes.Length
      invariant hex == Hex(bytes[..i])
    {
      HexConcat(bytes[..i], [bytes[i]]);
      assert bytes[..i + 1] == bytes[..i] + [bytes[i]];
      hex := hex + FormatX2(bytes[i]);
    }
    assert bytes[..bytes.Length] == bytes[..];
  }
}
