/**
 UTF-8, as Python's `str.encode` and `bytes.decode` have it: a character is a Unicode scalar value, and what is
 overlong, a surrogate or out of range does not decode.
 */
module Utf8 {
  import opened Wrappers
  import opened Positional

  /** A byte that does not start a character. */
  predicate Continuation(b: Byte) {
    0x80 <= b < 0xC0
  }

  function EncodeChar(c: char): (b: seq<Byte>)
    ensures 1 <= |b| <= 4
  {
    var n := c as int;
    if n < 0x80 then [n]
    else if n < 0x800 then [0xC0 + n / 0x40, 0x80 + n % 0x40]
    else if n < 0x1_0000 then [0xE0 + n / 0x1000, 0x80 + n / 0x40 % 0x40, 0x80 + n % 0x40]
    else [0xF0 + n / 0x4_0000, 0x80 + n / 0x1000 % 0x40, 0x80 + n / 0x40 % 0x40, 0x80 + n % 0x40]
  }

  function Encode(s: string): (b: seq<Byte>) {
    if s == "" then [] else EncodeChar(s[0]) + Encode(s[1..])
  }

  /** A character and its size. */
  datatype Head = Head(c: char, size: nat)

  /** `n` as a character of `size` bytes, if it is a scalar value and needs that many. */
  function Scalar(n: nat, least: nat, size: nat): (h: Option<Head>)
    ensures h.Some? ==> h.value.size == size && h.value.c as int == n
  {
    if least <= n < 0xD800 || (least <= n && 0xE000 <= n < 0x11_0000) then Some(Head(n as char, size)) else None
  }

  /** Six bits more. */
  function Join(high: int, b: int): int {
    high * 0x40 + (b - 0x80)
  }

  /** The first character of `b`. */
  function ReadChar(b: seq<Byte>): (h: Option<Head>)
    ensures h.Some? ==> 1 <= h.value.size <= |b|
  {
    if b == [] then None
    else if b[0] < 0x80 then Scalar(b[0], 0, 1)
    else if 0xC0 <= b[0] < 0xE0 then
      if |b| >= 2 && Continuation(b[1]) then Scalar(Join(b[0] - 0xC0, b[1]), 0x80, 2) else None
    else if 0xE0 <= b[0] < 0xF0 then
      if |b| >= 3 && Continuation(b[1]) && Continuation(b[2])
      then Scalar(Join(Join(b[0] - 0xE0, b[1]), b[2]), 0x800, 3) else None
    else if 0xF0 <= b[0] < 0xF8 then
      if |b| >= 4 && Continuation(b[1]) && Continuation(b[2]) && Continuation(b[3])
      then Scalar(Join(Join(Join(b[0] - 0xF0, b[1]), b[2]), b[3]), 0x1_0000, 4) else None
    else None
  }

  function Decode(b: seq<Byte>): (s: Option<string>)
    decreases |b|
  {
    if b == [] then Some("")
    else match ReadChar(b)
      case None => None
      case Some(h) => match Decode(b[h.size..])
        case None => None
        case Some(more) => Some([h.c] + more)
  }

  // ----- one character -----

  /** The last six bits split off and joined again. */
  lemma JoinSplit(n: nat)
    ensures Join(n / 0x40, 0x80 + n % 0x40) == n
    ensures n / 0x40 / 0x40 == n / 0x1000 && n / 0x40 / 0x40 / 0x40 == n / 0x4_0000
  {
  }

  lemma SplitJoin(high: nat, b: Byte)
    requires Continuation(b)
    ensures Join(high, b) >= 0 && Join(high, b) / 0x40 == high && 0x80 + Join(high, b) % 0x40 == b
  {
  }

  lemma ReadEncoded(c: char, rest: seq<Byte>)
    ensures ReadChar(EncodeChar(c) + rest) == Some(Head(c, |EncodeChar(c)|))
  {
    if c as int < 0x800 {
      JoinSplit(c as int);
    } else {
      ReadLong(c);
    }
    ReadBytes(EncodeChar(c), rest);
  }

  lemma ReadLong(c: char)
    requires c as int >= 0x800
    ensures ReadChar(EncodeChar(c)) == Some(Head(c, |EncodeChar(c)|))
  {
    var n: nat := c as int;
    JoinSplit(n);
    JoinSplit(n / 0x40);
    if n >= 0x1_0000 {
      JoinSplit(n / 0x1000);
    }
  }

  /** What follows a character does not matter. */
  lemma ReadBytes(b: seq<Byte>, rest: seq<Byte>)
    ensures ReadChar(b).Some? ==> ReadChar(b + rest) == ReadChar(b)
  {
  }

  lemma EncodeRead(b: seq<Byte>)
    requires ReadChar(b).Some?
    ensures var h := ReadChar(b).value; b[..h.size] == EncodeChar(h.c)
  {
    if b[0] < 0x80 {
    } else if b[0] < 0xE0 {
      SplitJoin(b[0] - 0xC0, b[1]);
    } else if b[0] < 0xF0 {
      ReadThree(b);
    } else {
      ReadFour(b);
    }
  }

  lemma ReadThree(b: seq<Byte>)
    requires ReadChar(b).Some? && 0xE0 <= b[0] < 0xF0
    ensures var h := ReadChar(b).value; b[..h.size] == EncodeChar(h.c)
  {
    var m := Join(b[0] - 0xE0, b[1]);
    SplitJoin(b[0] - 0xE0, b[1]);
    SplitJoin(m, b[2]);
    JoinSplit(Join(m, b[2]));
  }

  lemma ReadFour(b: seq<Byte>)
    requires ReadChar(b).Some? && 0xF0 <= b[0]
    ensures var h := ReadChar(b).value; b[..h.size] == EncodeChar(h.c)
  {
    var m := Join(b[0] - 0xF0, b[1]);
    var l := Join(m, b[2]);
    SplitJoin(b[0] - 0xF0, b[1]);
    SplitJoin(m, b[2]);
    SplitJoin(l, b[3]);
    JoinSplit(Join(l, b[3]));
  }

  /** A character starts with a byte that is not a continuation, and goes on with continuations. */
  lemma CharShape(c: char)
    ensures var b := EncodeChar(c); !Continuation(b[0]) && forall i :: 1 <= i < |b| ==> Continuation(b[i])
  {
  }

  /** A part of a character is not a character. */
  lemma PartFails(c: char, n: nat)
    requires 0 < n < |EncodeChar(c)|
    ensures Decode(EncodeChar(c)[..n]).None?
  {
  }

  // ----- texts -----

  lemma DecodeFirst(c: char, rest: seq<Byte>)
    ensures Decode(EncodeChar(c) + rest)
         == match Decode(rest) case None => None case Some(more) => Some([c] + more)
  {
    ReadEncoded(c, rest);
    assert (EncodeChar(c) + rest)[|EncodeChar(c)|..] == rest;
  }

  lemma EncodeFirst(c: char, more: string)
    ensures Encode([c] + more) == EncodeChar(c) + Encode(more)
  {
    assert ([c] + more)[1..] == more;
  }

  lemma DecodeParts(b: seq<Byte>) returns (c: char, rest: seq<Byte>, more: string)
    requires b != [] && Decode(b).Some?
    ensures b == EncodeChar(c) + rest && |rest| < |b|
    ensures Decode(rest) == Some(more) && Decode(b) == Some([c] + more)
  {
    var h := ReadChar(b).value;
    c, rest := h.c, b[h.size..];
    more := Decode(rest).value;
    EncodeRead(b);
  }

  /** Every text comes back from its bytes. */
  lemma {:induction false} DecodeEncode(s: string)
    ensures Decode(Encode(s)) == Some(s)
  {
    if s == "" {
    } else {
      DecodeFirst(s[0], Encode(s[1..]));
      DecodeEncode(s[1..]);
      assert s == [s[0]] + s[1..];
    }
  }

  /** Bytes that decode are the bytes of their text. */
  lemma {:induction false} EncodeDecode(b: seq<Byte>)
    requires Decode(b).Some?
    ensures Encode(Decode(b).value) == b
    decreases |b|
  {
    if b == [] {
    } else {
      var c, rest, more := DecodeParts(b);
      EncodeDecode(rest);
      EncodeFirst(c, more);
    }
  }

  /** ASCII characters are one byte each. */
  lemma {:induction false} EncodeAscii(s: string, t: string)
    requires forall i :: 0 <= i < |s| ==> s[i] as int < 0x80
    ensures |Encode(s + t)| == |s| + |Encode(t)| && Encode(s + t)[|s|..] == Encode(t)
  {
    if s == "" {
      assert s + t == t;
    } else {
      EncodeAscii(s[1..], t);
      EncodeFirst(s[0], s[1..] + t);
      assert s + t == [s[0]] + (s[1..] + t);
    }
  }

  /** The byte at `n`, if there is one, starts a character. */
  predicate Boundary(b: seq<Byte>, n: nat) {
    n < |b| ==> !Continuation(b[n])
  }

  /** The bytes of a text that are cut at `n` decode exactly when no character is cut, and then to a start of the text. */
  lemma {:induction false} CutDecodes(s: string, n: nat)
    requires n <= |Encode(s)|
    ensures Decode(Encode(s)[..n]).Some? <==> Boundary(Encode(s), n)
    ensures Decode(Encode(s)[..n]).Some? ==> Decode(Encode(s)[..n]).value <= s
  {
    if s == "" {
    } else {
      var c, more := s[0], Encode(s[1..]);
      var k := |EncodeChar(c)|;
      if n < k {
        CutFirst(c, more, n);
      } else {
        CutDecodes(s[1..], n - k);
        CutLater(c, more, n - k, n);
        if Boundary(more, n - k) {
          StartMore(s, Decode(more[..n - k]).value);
        }
      }
    }
  }

  lemma StartMore(s: string, t: string)
    requires s != "" && t <= s[1..]
    ensures [s[0]] + t <= s
  {
  }

  /** A cut inside the first character, or before it. */
  lemma CutFirst(c: char, more: seq<Byte>, n: nat)
    requires n < |EncodeChar(c)|
    ensures var b := EncodeChar(c) + more;
      (Decode(b[..n]).Some? <==> Boundary(b, n)) && (Decode(b[..n]).Some? ==> Decode(b[..n]) == Some(""))
  {
    CharShape(c);
    if n > 0 {
      PartFails(c, n);
      assert (EncodeChar(c) + more)[..n] == EncodeChar(c)[..n];
    }
  }

  /** A cut after the first character. */
  lemma CutLater(c: char, more: seq<Byte>, n: nat, m: nat)
    requires n <= |more| && m == |EncodeChar(c)| + n
    ensures Boundary(EncodeChar(c) + more, m) == Boundary(more, n)
    ensures var d := Decode(more[..n]);
      Decode((EncodeChar(c) + more)[..m]) == if d.None? then None else Some([c] + d.value)
  {
    DecodeFirst(c, more[..n]);
    assert (EncodeChar(c) + more)[..m] == EncodeChar(c) + more[..n];
  }

  /** A character of each size: `a`, e with acute, the euro sign and a face. */
  lemma Examples()
    ensures EncodeChar('a') == [0x61] && EncodeChar('\U{00E9}') == [0xC3, 0xA9]
    ensures EncodeChar('\U{20AC}') == [0xE2, 0x82, 0xAC] && EncodeChar('\U{1F600}') == [0xF0, 0x9F, 0x98, 0x80]
  {
  }
}
