/** from_percent_encoding of gts/algorithm.cpp, lines 268-322, and section 2.1 of RFC 3986. */
module PercentEncoding {

  type octet = bv8

  const PERCENT: octet := 0x25

  /** What the three ranges make of a character; anything else stays as it is. */
  function Nibble(c: octet): octet {
    if 0x30 <= c <= 0x39 then c - 0x30
    else if 0x61 <= c <= 0x66 then c - 0x61 + 10
    else if 0x41 <= c <= 0x46 then c - 0x41 + 10
    else c
  }

  /** (a << 4) | b, cut to a char */
  function Joined(a: octet, b: octet): octet { (Nibble(a) << 4) | Nibble(b) }

  /** The decoder on the original text: a '%' with two characters after it stands for one octet. */
  function Decode(s: seq<octet>): seq<octet> {
    if |s| == 0 then []
    else if s[0] == PERCENT && |s| > 2 then [Joined(s[1], s[2])] + Decode(s[3..])
    else [s[0]] + Decode(s[1..])
  }

  /**
   * from_percent_encoding: the write cursor is in the buffer that is being read. It never passes the
   * read cursor, so what is still to be read is still the original text.
   */
  method FromPercentEncoding(str: seq<octet>) returns (result: seq<octet>)
    ensures result == Decode(str)
  {
    hide Joined, Decode, PERCENT;
    if |str| == 0 {
      EmptyText();
      return [];
    }
    var buffer := new octet[|str|](i requires 0 <= i < |str| => str[i]);
    var i, len, outlen := 0, |str|, 0;
    assert str[0..] == str;
    while i < len
      invariant 0 <= outlen <= i <= len == buffer.Length
      invariant forall j :: i <= j < len ==> buffer[j] == str[j]
      invariant buffer[..outlen] + Decode(str[i..]) == Decode(str)
    {
      DecodeTurn(str, i);
      ghost var before := buffer[..outlen];
      var c := buffer[i];
      if c == PERCENT && i + 2 < len {
        i := i + 1;
        var a := buffer[i];
        i := i + 1;
        var b := buffer[i];
        buffer[outlen] := Joined(a, b);
      } else {
        buffer[outlen] := c;
      }
      assert buffer[..outlen + 1] == before + [buffer[outlen]];
      i := i + 1;
      outlen := outlen + 1;
    }
    EmptyText();
    assert str[i..] == [];
    result := buffer[..outlen];
  }

  lemma EmptyText()
    ensures Decode([]) == []
  {}

  lemma DecodeTurn(s: seq<octet>, i: nat)
    requires i < |s|
    ensures if s[i] == PERCENT && i + 2 < |s| then Decode(s[i..]) == [Joined(s[i + 1], s[i + 2])] + Decode(s[i + 3..])
            else Decode(s[i..]) == [s[i]] + Decode(s[i + 1..])
  {
    hide Joined, PERCENT;
    assert s[i..][1..] == s[i + 1..];
    if i + 2 < |s| {
      assert s[i..][3..] == s[i + 3..];
    }
  }

  // RFC 3986, section 2.1.

  predicate IsHexDigit(c: octet) { 0x30 <= c <= 0x39 || 0x41 <= c <= 0x46 || 0x61 <= c <= 0x66 }

  /** The value of a hexadecimal digit of either case. */
  function HexValue(c: octet): octet
    requires IsHexDigit(c)
  {
    if c <= 0x39 then c & 0x0F else (c & 0x0F) + 9
  }

  /** The triplet % hi lo for one octet. */
  predicate IsTriplet(hi: octet, lo: octet, x: octet) {
    IsHexDigit(hi) && IsHexDigit(lo) && HexValue(hi) == x >> 4 && HexValue(lo) == x & 0x0F
  }

  /** encoded is text with some octets, and every '%' among them, written as triplets. */
  ghost predicate Encodes(encoded: seq<octet>, text: seq<octet>)
    decreases |text|
  {
    if |text| == 0 then encoded == []
    else
      || (|encoded| >= 1 && encoded[0] == text[0] && text[0] != PERCENT && Encodes(encoded[1..], text[1..]))
      || (|encoded| >= 3 && encoded[0] == PERCENT && IsTriplet(encoded[1], encoded[2], text[0]) && Encodes(encoded[3..], text[1..]))
  }

  lemma TripletDecodes(hi: octet, lo: octet, x: octet)
    requires IsTriplet(hi, lo, x)
    ensures Joined(hi, lo) == x
  {}

  /** What is no hexadecimal digit goes into the octet as it is. */
  lemma MalformedDecodes(a: octet, b: octet)
    ensures Joined(a, b) == ((if IsHexDigit(a) then HexValue(a) else a) << 4) | (if IsHexDigit(b) then HexValue(b) else b)
  {}

  /** "a%41%2" is "aA%2". */
  lemma DecodeExample()
    ensures Decode([0x61, 0x25, 0x34, 0x31, 0x25, 0x32]) == [0x61, 0x41, 0x25, 0x32]
  {
    var s: seq<octet> := [0x61, 0x25, 0x34, 0x31, 0x25, 0x32];
    assert Joined(0x34, 0x31) == 0x41;
    DecodeTurn(s, 0);
    DecodeTurn(s, 1);
    DecodeTurn(s, 4);
    DecodeTurn(s, 5);
    hide Decode, Joined;
    assert s[0..] == s && s[6..] == [];
    EmptyText();
  }

  /** Decoding inverts every percent-encoding, whatever it escapes besides '%' and in whatever case. */
  lemma {:induction false} DecodeOfEncoding(encoded: seq<octet>, text: seq<octet>)
    requires Encodes(encoded, text)
    ensures Decode(encoded) == text
    decreases |text|
  {
    hide Joined, IsTriplet, PERCENT;
    if |text| > 0 {
      if |encoded| >= 1 && encoded[0] == text[0] && text[0] != PERCENT && Encodes(encoded[1..], text[1..]) {
        DecodeOfEncoding(encoded[1..], text[1..]);
      } else {
        TripletDecodes(encoded[1], encoded[2], text[0]);
        DecodeOfEncoding(encoded[3..], text[1..]);
      }
      assert text == [text[0]] + text[1..];
    }
  }

  /** An encoding exists for every text and every choice of what to leave as it is. */
  function HexDigit(v: octet, upper: bool): octet
    requires v < 16
  {
    if v < 10 then v + 0x30 else if upper then v - 10 + 0x41 else v - 10 + 0x61
  }

  function Encode(text: seq<octet>, keep: set<octet>, upper: bool): seq<octet> {
    if |text| == 0 then []
    else
      var x := text[0];
      (if x != PERCENT && x in keep then [x] else [PERCENT, HexDigit(x >> 4, upper), HexDigit(x & 0x0F, upper)])
      + Encode(text[1..], keep, upper)
  }

  lemma DigitsMakeTriplet(x: octet, upper: bool)
    ensures IsTriplet(HexDigit(x >> 4, upper), HexDigit(x & 0x0F, upper), x)
  {}

  lemma {:induction false} EncodeEncodes(text: seq<octet>, keep: set<octet>, upper: bool)
    ensures Encodes(Encode(text, keep, upper), text)
  {
    if |text| > 0 {
      var x := text[0];
      DigitsMakeTriplet(x, upper);
      hide HexDigit, IsTriplet, PERCENT;
      EncodeEncodes(text[1..], keep, upper);
      var e, rest := Encode(text, keep, upper), Encode(text[1..], keep, upper);
      if x != PERCENT && x in keep {
        assert e[1..] == rest;
      } else {
        assert e[3..] == rest;
      }
    }
  }
}
