/**
 Bytes as hexadecimal text.
 */
module HexText {
  import opened Wrappers
  import opened Positional

  function HexChar(d: nat): char
    requires d < 16
  {
    if d < 10 then '0' + d as char else 'a' + (d - 10) as char
  }

  function Hex(bytes: seq<Byte>): (s: string)
    ensures |s| == 2 * |bytes|
  {
    if bytes == [] then ""
    else var b := bytes[|bytes| - 1]; Hex(bytes[..|bytes| - 1]) + [HexChar(b / 16), HexChar(b % 16)]
  }

  function HexDigit(c: char): (d: Option<nat>)
    ensures d.Some? ==> d.value < 16
  {
    if '0' <= c <= '9' then Some(c as int - '0' as int)
    else if 'a' <= c <= 'f' then Some(c as int - 'a' as int + 10)
    else if 'A' <= c <= 'F' then Some(c as int - 'A' as int + 10)
    else None
  }

  /** `binascii.a2b_hex`. */
  function Unhex(s: string): (r: Option<seq<Byte>>)
    ensures r.Some? ==> |s| == 2 * |r.value|
  {
    if s == "" then Some([])
    else if |s| == 1 then None
    else
      var n := |s|;
      match (Unhex(s[..n - 2]), HexDigit(s[n - 2]), HexDigit(s[n - 1]))
      case (Some(bytes), Some(h), Some(l)) => Some(bytes + [16 * h + l])
      case _ => None
  }

  lemma HexDigitOf(d: nat)
    requires d < 16
    ensures HexDigit(HexChar(d)) == Some(d)
  {
  }

  lemma UnhexByte(s: string, bytes: seq<Byte>, b: Byte)
    requires Unhex(s) == Some(bytes)
    ensures Unhex(s + [HexChar(b / 16), HexChar(b % 16)]) == Some(bytes + [b])
  {
    HexDigitOf(b / 16);
    HexDigitOf(b % 16);
    UnhexPair(s, bytes, HexChar(b / 16), HexChar(b % 16), b / 16, b % 16);
    assert 16 * (b / 16) + b % 16 == b;
  }

  lemma UnhexPair(s: string, bytes: seq<Byte>, c: char, d: char, h: nat, l: nat)
    requires Unhex(s) == Some(bytes) && HexDigit(c) == Some(h) && HexDigit(d) == Some(l)
    ensures 16 * h + l < 256 && Unhex(s + [c, d]) == Some(bytes + [16 * h + l])
  {
    var t := s + [c, d];
    assert t[..|t| - 2] == s;
  }

  const HEX_DIGITS: string := "0123456789abcdef"

  lemma HexCharIs(d: nat)
    requires d < 16
    ensures HexChar(d) == HEX_DIGITS[d]
  {
  }

  /** Two digits for each byte, the high one first. */
  lemma {:induction false} HexAt(bytes: seq<Byte>, i: nat)
    requires i < |bytes|
    ensures Hex(bytes)[2 * i] == HEX_DIGITS[bytes[i] / 16] && Hex(bytes)[2 * i + 1] == HEX_DIGITS[bytes[i] % 16]
  {
    var n := |bytes| - 1;
    if i == n {
      HexCharIs(bytes[n] / 16);
      HexCharIs(bytes[n] % 16);
    } else {
      HexAt(bytes[..n], i);
    }
  }

  lemma HexAppend(bytes: seq<Byte>, b: Byte)
    ensures Hex(bytes + [b]) == Hex(bytes) + [HexChar(b / 16), HexChar(b % 16)]
  {
    assert (bytes + [b])[..|bytes|] == bytes;
  }

  lemma {:induction false} UnhexHex(bytes: seq<Byte>)
    ensures Unhex(Hex(bytes)) == Some(bytes)
  {
    if bytes == [] {
    } else {
      var n := |bytes| - 1;
      UnhexHex(bytes[..n]);
      UnhexMore(bytes[..n], bytes[n]);
      assert bytes == bytes[..n] + [bytes[n]];
    }
  }

  lemma UnhexMore(front: seq<Byte>, b: Byte)
    requires Unhex(Hex(front)) == Some(front)
    ensures Unhex(Hex(front + [b])) == Some(front + [b])
  {
    HexAppend(front, b);
    UnhexByte(Hex(front), front, b);
  }
}
