/**
 Bech32 and Bech32m strings.

 Letter case is ASCII's: the source calls `str.lower` and `str.upper`.
 */
module Bech32Codec {
  import opened Wrappers
  import opened Positional
  import opened Alphabet
  import opened Bech32Checksum

  const CHARSET: string := "qpzry9x8gf2tvdw0s3jn54khce6mua7l"

  datatype Decoded = Decoded(encoding: Encoding, hrp: string, data: seq<Symbol>)

  // ----- strings -----

  function LowerChar(c: char): char {
    if 'A' <= c <= 'Z' then c + 32 as char else c
  }

  function UpperChar(c: char): char {
    if 'a' <= c <= 'z' then c - 32 as char else c
  }

  function Lower(s: string): (r: string)
    ensures |r| == |s|
  {
    seq(|s|, i requires 0 <= i < |s| => LowerChar(s[i]))
  }

  function Upper(s: string): (r: string)
    ensures |r| == |s|
  {
    seq(|s|, i requires 0 <= i < |s| => UpperChar(s[i]))
  }

  /** The last position of `c`, or -1. */
  function RFind(s: string, c: char): (p: int)
    ensures -1 <= p < |s|
    ensures p >= 0 ==> s[p] == c
    ensures forall i :: p < i < |s| ==> s[i] != c
  {
    if s == [] then -1
    else if s[|s| - 1] == c then |s| - 1
    else RFind(s[..|s| - 1], c)
  }

  lemma CharsetDistinct()
    ensures Distinct(CHARSET)
  {
    CharsetFirst();
    CharsetLast();
  }

  lemma CharsetFirst()
    ensures forall j, k :: 0 <= j < k < 16 ==> CHARSET[j] != CHARSET[k]
  {
  }

  lemma CharsetLast()
    ensures forall j, k :: 0 <= j < k && 16 <= k < 32 ==> CHARSET[j] != CHARSET[k]
  {
  }

  lemma CharsetPlain()
    ensures forall d :: 0 <= d < 32 ==> ('0' <= CHARSET[d] <= '9' || 'a' <= CHARSET[d] <= 'z') && CHARSET[d] != '1'
  {
  }

  lemma SpellPlain(cs: string, ds: seq<nat>)
    requires Below(ds, |cs|)
    requires forall d :: 0 <= d < |cs| ==> ('0' <= cs[d] <= '9' || 'a' <= cs[d] <= 'z') && cs[d] != '1'
    ensures Lower(Spell(cs, ds)) == Spell(cs, ds)
    ensures '1' !in Spell(cs, ds)
  {
    forall i | 0 <= i < |ds| ensures LowerChar(Spell(cs, ds)[i]) == Spell(cs, ds)[i] != '1' {
      SpellAt(cs, ds, i);
    }
  }

  lemma TextPlain(data: seq<Symbol>)
    ensures Lower(Spell(CHARSET, data)) == Spell(CHARSET, data)
    ensures '1' !in Spell(CHARSET, data)
  {
    CharsetPlain();
    SpellPlain(CHARSET, data);
  }

  // ----- encoding and decoding -----

  function Encode(encoding: Encoding, hrp: string, data: seq<Symbol>): string {
    hrp + "1" + Spell(CHARSET, data + CreateChecksum(encoding, hrp, data))
  }

  /** The checks that are made before any symbol is read. `pos` is the last separator. */
  predicate Plausible(bech: string, pos: int, ignoreLongLength: bool)
    requires pos < |bech|
  {
    && (Lower(bech) == bech || Upper(bech) == bech)
    && 1 <= pos && pos + 7 <= |bech| && (ignoreLongLength || |bech| <= 90)
    && forall i :: 0 <= i <= pos ==> 33 as char <= bech[i] <= 126 as char
  }

  function Decode(bech: string, ignoreLongLength: bool): (r: Option<Decoded>) {
    var pos := RFind(bech, '1');
    if Plausible(bech, pos, ignoreLongLength) then ReadAt(Lower(bech), pos) else None
  }

  /** What a lower-case text with its last separator at `pos` stands for. */
  function ReadAt(low: string, pos: nat): (r: Option<Decoded>)
    requires pos + 7 <= |low|
  {
    Read(low[..pos], low[pos + 1..])
  }

  /** What a lower-case human-readable part and a symbol text stand for. */
  function Read(hrp: string, text: string): (r: Option<Decoded>)
    requires |text| >= 6
  {
    match Lookup(CHARSET, text)
    case None => None
    case Some(data) => match VerifyChecksum(hrp, data)
      case None => None
      case Some(encoding) => Some(Decoded(encoding, hrp, data[..|data| - 6]))
  }

  /** A human-readable part that is its own normal form. */
  predicate GoodHrp(hrp: string) {
    && hrp != ""
    && forall i :: 0 <= i < |hrp| ==> 33 as char <= hrp[i] <= 126 as char && !('A' <= hrp[i] <= 'Z')
  }

  lemma ReadText(encoding: Encoding, hrp: string, data: seq<Symbol>)
    ensures Read(hrp, Spell(CHARSET, data + CreateChecksum(encoding, hrp, data))) == Some(Decoded(encoding, hrp, data))
  {
    var six := CreateChecksum(encoding, hrp, data);
    CharsetDistinct();
    LookupSpell(CHARSET, data + six);
    ChecksumUnique(encoding, hrp, data, six);
    assert (data + six)[..|data|] == data;
  }

  lemma TextRead(hrp: string, text: string)
    requires |text| >= 6 && Read(hrp, text).Some?
    ensures var d := Read(hrp, text).value; Encode(d.encoding, d.hrp, d.data) == hrp + "1" + text
  {
    var data := Lookup(CHARSET, text).value;
    var d := Read(hrp, text).value;
    var six := data[|data| - 6..];
    assert data == d.data + six;
    ChecksumUnique(d.encoding, hrp, d.data, six);
    SpellLookup(CHARSET, text);
  }

  lemma LastSeparator(s: string, hrp: string, text: string)
    requires '1' !in text && s == hrp + "1" + text
    ensures RFind(s, '1') == |hrp|
    ensures s[..|hrp|] == hrp && s[|hrp|] == '1' && s[|hrp| + 1..] == text
  {
    assert s[|hrp|] == '1';
    forall i | |hrp| < i < |s| ensures s[i] != '1' {
      assert s[i] == text[i - |hrp| - 1];
    }
  }

  lemma LowerJoin(hrp: string, text: string)
    requires Lower(text) == text
    ensures Lower(hrp + "1" + text) == Lower(hrp) + "1" + text
  {
    var s := hrp + "1" + text;
    forall i | 0 <= i < |s| ensures Lower(s)[i] == (Lower(hrp) + "1" + text)[i] {
      if i > |hrp| {
        assert Lower(text)[i - |hrp| - 1] == text[i - |hrp| - 1];
      }
    }
  }

  lemma GoodLower(hrp: string)
    requires GoodHrp(hrp)
    ensures Lower(hrp) == hrp
  {
  }

  /** Decoding undoes encoding exactly for the human-readable parts and lengths that are allowed. */
  lemma DecodeEncode(encoding: Encoding, hrp: string, data: seq<Symbol>, ignoreLongLength: bool)
    ensures Decode(Encode(encoding, hrp, data), ignoreLongLength) == Some(Decoded(encoding, hrp, data))
       <==> GoodHrp(hrp) && (ignoreLongLength || |hrp| + 7 + |data| <= 90)
    ensures var r := Decode(Encode(encoding, hrp, data), ignoreLongLength);
      r.Some? && r.value.hrp == hrp ==> r.value == Decoded(encoding, hrp, data)
  {
    var combined := data + CreateChecksum(encoding, hrp, data);
    var text := Spell(CHARSET, combined);
    TextPlain(combined);
    if GoodHrp(hrp) && (ignoreLongLength || |hrp| + 7 + |data| <= 90) {
      ReadText(encoding, hrp, data);
      DecodeGood(hrp, text, ignoreLongLength);
    } else {
      var r := Decode(hrp + "1" + text, ignoreLongLength);
      if r.Some? && r.value.hrp == hrp {
        DecodeOnlyGood(hrp, text, ignoreLongLength);
      }
    }
  }

  lemma DecodeGood(hrp: string, text: string, ignoreLongLength: bool)
    requires '1' !in text && Lower(text) == text && |text| >= 6
    requires GoodHrp(hrp) && (ignoreLongLength || |hrp| + 1 + |text| <= 90)
    ensures Decode(hrp + "1" + text, ignoreLongLength) == Read(hrp, text)
  {
    var bech := hrp + "1" + text;
    LastSeparator(bech, hrp, text);
    LowerJoin(hrp, text);
    GoodLower(hrp);
    GoodPlausible(bech, hrp, text, ignoreLongLength);
  }

  lemma GoodPlausible(bech: string, hrp: string, text: string, ignoreLongLength: bool)
    requires bech == hrp + "1" + text && Lower(bech) == bech && |text| >= 6
    requires GoodHrp(hrp) && (ignoreLongLength || |hrp| + 1 + |text| <= 90)
    ensures Plausible(bech, |hrp|, ignoreLongLength)
  {
    forall i | 0 <= i <= |hrp| ensures 33 as char <= bech[i] <= 126 as char {
      assert bech[i] == if i < |hrp| then hrp[i] else '1';
    }
  }

  lemma DecodeOnlyGood(hrp: string, text: string, ignoreLongLength: bool)
    requires '1' !in text && Lower(text) == text && |text| >= 6
    requires var r := Decode(hrp + "1" + text, ignoreLongLength); r.Some? && r.value.hrp == hrp
    ensures GoodHrp(hrp) && (ignoreLongLength || |hrp| + 1 + |text| <= 90)
  {
    var bech := hrp + "1" + text;
    LastSeparator(bech, hrp, text);
    forall i | 0 <= i < |hrp| ensures 33 as char <= hrp[i] <= 126 as char && !('A' <= hrp[i] <= 'Z') {
      assert bech[i] == hrp[i] == LowerChar(bech[i]);
    }
  }

  lemma Rejoin(s: string, pos: nat)
    requires pos < |s| && s[pos] == '1'
    ensures s[..pos] + "1" + s[pos + 1..] == s
  {
  }

  lemma DecodeReads(bech: string, ignoreLongLength: bool) returns (hrp: string, text: string)
    requires Decode(bech, ignoreLongLength).Some?
    ensures |text| >= 6 && Decode(bech, ignoreLongLength) == Read(hrp, text)
    ensures Lower(bech) == hrp + "1" + text
  {
    var low, pos := Lower(bech), RFind(bech, '1');
    Rejoin(low, pos);
    hrp, text := low[..pos], low[pos + 1..];
  }

  /** Whatever is accepted re-encodes to its lower-case form. */
  lemma EncodeDecode(bech: string, ignoreLongLength: bool)
    requires Decode(bech, ignoreLongLength).Some?
    ensures var d := Decode(bech, ignoreLongLength).value; Encode(d.encoding, d.hrp, d.data) == Lower(bech)
  {
    var hrp, text := DecodeReads(bech, ignoreLongLength);
    TextRead(hrp, text);
  }

  /** What is accepted has a proper human-readable part, and its length is accounted for. */
  /** A text is accepted exactly when it is not in mixed case, its length is allowed, and it is, but for the case, what
      is written for a proper prefix. */
  lemma DecodesExactly(bech: string, d: Decoded, ignoreLongLength: bool)
    ensures Decode(bech, ignoreLongLength) == Some(d)
       <==> && (Lower(bech) == bech || Upper(bech) == bech) && (ignoreLongLength || |bech| <= 90)
            && GoodHrp(d.hrp) && Lower(bech) == Encode(d.encoding, d.hrp, d.data)
  {
    if Decode(bech, ignoreLongLength) == Some(d) {
      EncodeDecode(bech, ignoreLongLength);
      AcceptedPrefix(bech, ignoreLongLength);
    }
    if (Lower(bech) == bech || Upper(bech) == bech) && (ignoreLongLength || |bech| <= 90)
       && GoodHrp(d.hrp) && Lower(bech) == Encode(d.encoding, d.hrp, d.data) {
      DecodeEncode(d.encoding, d.hrp, d.data, ignoreLongLength);
      CaseIgnored(bech, ignoreLongLength);
    }
  }

  lemma AcceptedPrefix(bech: string, ignoreLongLength: bool)
    requires Decode(bech, ignoreLongLength).Some?
    ensures GoodHrp(Decode(bech, ignoreLongLength).value.hrp)
  {
    var pos := RFind(bech, '1');
    var hrp := Lower(bech)[..pos];
    forall i | 0 <= i < |hrp| ensures 33 as char <= hrp[i] <= 126 as char && !('A' <= hrp[i] <= 'Z') {
      assert hrp[i] == LowerChar(bech[i]);
    }
  }

  /** A text that is not in mixed case is read as its lower-case form. */
  lemma CaseIgnored(bech: string, ignoreLongLength: bool)
    requires Lower(bech) == bech || Upper(bech) == bech
    requires Decode(Lower(bech), ignoreLongLength).Some?
    ensures Decode(bech, ignoreLongLength) == Decode(Lower(bech), ignoreLongLength)
  {
    SameSeparator(bech);
    LowerTwice(bech);
    PlausibleCase(bech, RFind(bech, '1'), ignoreLongLength);
  }

  lemma PlausibleCase(bech: string, pos: int, ignoreLongLength: bool)
    requires (Lower(bech) == bech || Upper(bech) == bech) && pos < |bech|
    requires Plausible(Lower(bech), pos, ignoreLongLength)
    ensures Plausible(bech, pos, ignoreLongLength)
  {
    forall i | 0 <= i <= pos ensures 33 as char <= bech[i] <= 126 as char {
      assert Lower(bech)[i] == LowerChar(bech[i]);
    }
  }

  lemma LowerTwice(s: string)
    ensures Lower(Lower(s)) == Lower(s)
  {
  }

  lemma SameSeparator(s: string)
    ensures RFind(Lower(s), '1') == RFind(s, '1')
  {
    var p, q := RFind(Lower(s), '1'), RFind(s, '1');
    assert p >= 0 ==> s[p] == '1';
    assert q >= 0 ==> Lower(s)[q] == '1';
  }

  lemma AcceptedShape(bech: string)
    requires Decode(bech, false).Some?
    ensures var d := Decode(bech, false).value; GoodHrp(d.hrp) && |d.hrp| + 7 + |d.data| == |bech| <= 90
  {
    var low, pos := Lower(bech), RFind(bech, '1');
    var d := Decode(bech, false).value;
    forall i | 0 <= i < |d.hrp| ensures 33 as char <= d.hrp[i] <= 126 as char && !('A' <= d.hrp[i] <= 'Z') {
      assert d.hrp[i] == LowerChar(bech[i]);
    }
  }

  /** The encoding can be told from the string. */
  lemma EncodingsDiffer(e: Encoding, f: Encoding, hrp: string, data: seq<Symbol>)
    ensures Encode(e, hrp, data) == Encode(f, hrp, data) <==> e == f
  {
    if Encode(e, hrp, data) == Encode(f, hrp, data) {
      var s, t := data + CreateChecksum(e, hrp, data), data + CreateChecksum(f, hrp, data);
      TailsEqual(hrp + "1", Spell(CHARSET, s), Spell(CHARSET, t));
      ReadText(e, hrp, data);
      ReadText(f, hrp, data);
    }
  }

  lemma EncodedLower(encoding: Encoding, hrp: string, data: seq<Symbol>)
    requires GoodHrp(hrp)
    ensures Lower(Encode(encoding, hrp, data)) == Encode(encoding, hrp, data)
  {
    var text := data + CreateChecksum(encoding, hrp, data);
    TextPlain(text);
    GoodLower(hrp);
    LowerJoin(hrp, Spell(CHARSET, text));
  }

  lemma TailsEqual(pre: string, s: string, t: string)
    requires pre + s == pre + t
    ensures s == t
  {
    assert s == (pre + s)[|pre|..];
    assert t == (pre + t)[|pre|..];
  }
}
