/** The 16-bit conversions and the encoder of filesystem.hpp, lines 1422-1469, 1514-1552 and 1603-1640. */
module Utf16Convert {
  import opened Unicode
  import opened Utf8Codec
  import opened Utf8Decode

  // in_range, with unsigned wrap-around, and the surrogate tests.
  predicate InRange(c: bv32, lo: bv32, hi: bv32) { c - lo < hi - lo + 1 }

  predicate IsSurrogate(c: unit) { InRange(c as bv32, 0xd800, 0xdfff) }

  predicate IsHighSurrogate(c: unit) { c as bv32 & 0xfffffc00 == 0xd800 }

  predicate IsLowSurrogate(c: unit) { c as bv32 & 0xfffffc00 == 0xdc00 }

  /** A unit widened to 32 bits. */
  function Wide(c: unit): codepoint { c as codepoint }

  /** The expression that joins a surrogate pair. */
  function Joined(c: unit, low: unit): codepoint { (c as codepoint << 10) + low as codepoint - 0x35fdc00 }

  lemma SurrogateTests(u: unit)
    ensures IsSurrogate(u) <==> IsHigh(u) || IsLow(u)
    ensures IsHighSurrogate(u) <==> IsHigh(u)
    ensures IsLowSurrogate(u) <==> IsLow(u)
    ensures !IsSurrogate(u) ==> IsScalar(Wide(u))
  {}

  /** The packed pair arithmetic is the number of section 2.2 of RFC 2781. */
  lemma PairArithmetic(high: unit, low: unit)
    requires IsHigh(high) && IsLow(low)
    ensures Joined(high, low) == Pair(high, low)
    ensures 0x10000 <= Pair(high, low) <= 0x10FFFF
    ensures Encode16(Pair(high, low)) == [high, low]
  {
    PairBits(high, low);
    hide IsHigh, IsLow, Pair, Joined;
  }

  lemma PairBits(high: unit, low: unit)
    requires IsHigh(high) && IsLow(low)
    ensures Joined(high, low) == Pair(high, low)
    ensures 0x10000 <= Pair(high, low) <= 0x10FFFF
    ensures 0xD800 | (((Pair(high, low) - 0x10000) >> 10) as unit) == high
    ensures 0xDC00 | (((Pair(high, low) - 0x10000) & 0x3FF) as unit) == low
  {}

  // The two units that the 16-bit decoder appends.
  function HighHalf(u: codepoint): unit
    requires u <= 0xFFFFF
  {
    ((u >> 10) + 0xd800) as unit
  }

  function LowHalf(u: codepoint): unit
    requires u <= 0xFFFFF
  {
    ((u & 0x3ff) + 0xdc00) as unit
  }

  lemma Halves(u: codepoint)
    requires u <= 0xFFFFF
    ensures HighHalf(u) == 0xD800 | ((u >> 10) as unit) && IsHigh(HighHalf(u))
    ensures LowHalf(u) == 0xDC00 | ((u & 0x3FF) as unit) && IsLow(LowHalf(u))
    ensures Pair(HighHalf(u), LowHalf(u)) == u + 0x10000
  {}

  lemma SplitArithmetic(c: codepoint) returns (u: codepoint)
    requires 0x10000 <= c <= 0x10FFFF
    ensures u == c - 0x10000 && u <= 0xFFFFF && u + 0x10000 == c
    ensures Encode16(c) == [HighHalf(u), LowHalf(u)] && Pair(HighHalf(u), LowHalf(u)) == c
  {
    u := c - 0x10000;
    Halves(u);
    Offset(c, u);
    hide *;
    EncodeSplit(c, u);
  }

  lemma Offset(c: codepoint, u: codepoint)
    requires 0x10000 <= c <= 0x10FFFF && u == c - 0x10000
    ensures u <= 0xFFFFF && u + 0x10000 == c
  {}

  lemma EncodeSplit(c: codepoint, u: codepoint)
    requires 0x10000 <= c <= 0x10FFFF && u == c - 0x10000 && u <= 0xFFFFF
    ensures Encode16(c) == [HighHalf(u), LowHalf(u)]
  {
    Halves(u);
    hide HighHalf, LowHalf, IsHigh, IsLow, Pair;
  }

  /**
   * What toUtf8 makes of 16-bit units: a surrogate that does not start a pair is replaced together
   * with the unit after it.
   */
  ghost function Lossy16(u: seq<unit>): seq<codepoint> {
    if u == [] then []
    else if !IsHigh(u[0]) && !IsLow(u[0]) then [u[0] as codepoint] + Lossy16(u[1..])
    else if |u| == 1 then [REPLACEMENT]
    else if IsHigh(u[0]) && IsLow(u[1]) then [Pair(u[0], u[1])] + Lossy16(u[2..])
    else [REPLACEMENT] + Lossy16(u[2..])
  }

  /** The decoder that replaces each unpaired surrogate and nothing else. */
  ghost function Lossy16Alone(u: seq<unit>): seq<codepoint> {
    if u == [] then []
    else if !IsHigh(u[0]) && !IsLow(u[0]) then [u[0] as codepoint] + Lossy16Alone(u[1..])
    else if StartsPair(u) then [Pair(u[0], u[1])] + Lossy16Alone(u[2..])
    else [REPLACEMENT] + Lossy16Alone(u[1..])
  }

  predicate StartsPair(u: seq<unit>) { |u| > 1 && IsHigh(u[0]) && IsLow(u[1]) }

  /** Dropping the first unit never makes that decoding longer, and it stays as long only where a pair is cut. */
  lemma AloneShrinks(u: seq<unit>)
    requires u != []
    ensures |Lossy16Alone(u)| == |Lossy16Alone(u[1..])| + if StartsPair(u) then 0 else 1
  {
    hide Pair;
    if StartsPair(u) {
      SurrogateTests(u[1]);
      HighIsNotLow(u[1]);
      assert u[1..][1..] == u[2..];
      hide IsHigh, IsLow;
      assert !StartsPair(u[1..]);
    }
  }

  lemma HighIsNotLow(u: unit)
    ensures !(IsHigh(u) && IsLow(u))
  {}

  lemma {:induction false} SwallowingShortens(u: seq<unit>)
    ensures |Lossy16(u)| <= |Lossy16Alone(u)|
  {
    hide IsHigh, IsLow, Pair;
    if |u| > 0 {
      SwallowingShortens(u[1..]);
      if |u| > 1 {
        SwallowingShortens(u[2..]);
        AloneShrinks(u[1..]);
        assert u[1..][1..] == u[2..];
      }
    }
  }

  /** A broken surrogate before another unit makes a difference: a character is lost, or replaced. */
  lemma SwallowingShows(u: seq<unit>)
    requires |u| > 1 && (IsHigh(u[0]) || IsLow(u[0])) && !StartsPair(u)
    ensures Lossy16(u) != Lossy16Alone(u)
  {
    hide Pair;
    var v, w := u[1..], u[2..];
    assert v[1..] == w;
    SwallowingShortens(w);
    AloneShrinks(v);
    if StartsPair(v) {
      PairArithmetic(v[0], v[1]);
      HighIsNotLow(v[1]);
      assert w[0] == v[1];
      hide IsHigh, IsLow;
      assert Lossy16(w)[0] == REPLACEMENT;
      assert Lossy16Alone(v)[0] == Pair(v[0], v[1]);
    }
    hide IsHigh, IsLow;
    assert Lossy16(u) == [REPLACEMENT] + Lossy16(w);
    assert Lossy16Alone(u) == [REPLACEMENT] + Lossy16Alone(v);
    assert Lossy16(w) != Lossy16Alone(v);
    assert Lossy16(u)[1..] == Lossy16(w) && Lossy16Alone(u)[1..] == Lossy16Alone(v);
  }

  predicate BrokenAtEnd(u: seq<unit>) { u != [] && (IsHigh(u[|u| - 1]) || IsLow(u[|u| - 1])) }

  /**
   * Nothing but unpaired surrogates is lost if and only if the units are well paired, perhaps with one
   * surrogate after them.
   */
  lemma {:induction false} LosesOnlySurrogates(u: seq<unit>)
    ensures Lossy16(u) == Lossy16Alone(u) <==>
      WellFormed16(u) || (BrokenAtEnd(u) && WellFormed16(u[..|u| - 1]))
    decreases |u|
  {
    if u == [] {
    } else if !IsHigh(u[0]) && !IsLow(u[0]) {
      LosesOnlySurrogates(u[1..]);
      hide IsHigh, IsLow;
      FrontPlain(u);
    } else if StartsPair(u) {
      HighIsNotLow(u[0]);
      LosesOnlySurrogates(u[2..]);
      hide IsHigh, IsLow, Pair;
      FrontPaired(u);
    } else if |u| == 1 {
      assert u[..0] == [];
    } else {
      SwallowingShows(u);
      HighIsNotLow(u[0]);
      hide IsHigh, IsLow, Pair;
      assert u[..|u| - 1][0] == u[0];
      assert |u| > 2 ==> u[..|u| - 1][1] == u[1];
    }
  }

  lemma FrontPlain(u: seq<unit>)
    requires u != [] && !IsHigh(u[0]) && !IsLow(u[0])
    ensures Lossy16(u) == Lossy16Alone(u) <==> Lossy16(u[1..]) == Lossy16Alone(u[1..])
    ensures WellFormed16(u) == WellFormed16(u[1..])
    ensures BrokenAtEnd(u) == BrokenAtEnd(u[1..])
    ensures BrokenAtEnd(u) ==> WellFormed16(u[..|u| - 1]) == WellFormed16(u[1..][..|u| - 2])
  {
    FrontPlainDecoded(u);
    hide IsHigh, IsLow, Lossy16, Lossy16Alone;
    if BrokenAtEnd(u) {
      assert u[..|u| - 1][1..] == u[1..][..|u| - 2];
    }
  }

  lemma FrontPlainDecoded(u: seq<unit>)
    requires u != [] && !IsHigh(u[0]) && !IsLow(u[0])
    ensures Lossy16(u) == Lossy16Alone(u) <==> Lossy16(u[1..]) == Lossy16Alone(u[1..])
  {
    var a, b := Lossy16(u[1..]), Lossy16Alone(u[1..]);
    assert Lossy16(u) == [Wide(u[0])] + a && Lossy16Alone(u) == [Wide(u[0])] + b;
    hide *;
    FrontEqual(Wide(u[0]), a, b);
  }

  lemma FrontEqual(c: codepoint, a: seq<codepoint>, b: seq<codepoint>)
    ensures [c] + a == [c] + b <==> a == b
  {
    assert ([c] + a)[1..] == a && ([c] + b)[1..] == b;
  }

  lemma FrontPaired(u: seq<unit>)
    requires StartsPair(u) && !IsLow(u[0])
    ensures Lossy16(u) == Lossy16Alone(u) <==> Lossy16(u[2..]) == Lossy16Alone(u[2..])
    ensures WellFormed16(u) == WellFormed16(u[2..])
    ensures |u| == 2 ==> !WellFormed16(u[..1]) && !BrokenAtEnd(u[2..])
    ensures |u| > 2 ==> BrokenAtEnd(u) == BrokenAtEnd(u[2..])
    ensures |u| > 2 ==> WellFormed16(u[..|u| - 1]) == WellFormed16(u[2..][..|u| - 3])
  {
    FrontPairedDecoded(u);
    hide IsHigh, IsLow, Pair, Lossy16, Lossy16Alone;
    if |u| > 2 {
      assert u[..|u| - 1][2..] == u[2..][..|u| - 3];
    }
  }

  lemma FrontPairedDecoded(u: seq<unit>)
    requires StartsPair(u)
    ensures Lossy16(u) == Lossy16Alone(u) <==> Lossy16(u[2..]) == Lossy16Alone(u[2..])
  {
    hide IsHigh, IsLow, Pair;
    var a, b := Lossy16(u[2..]), Lossy16Alone(u[2..]);
    assert Lossy16(u) == [Pair(u[0], u[1])] + a && Lossy16Alone(u) == [Pair(u[0], u[1])] + b;
    hide *;
    FrontEqual(Pair(u[0], u[1]), a, b);
  }

  lemma {:induction false} Lossy16EmitsScalars(u: seq<unit>)
    ensures AllScalars(Lossy16(u))
  {
    hide IsHigh, IsLow, Pair;
    if |u| > 0 {
      SurrogateTests(u[0]);
      if |u| > 1 {
        if IsHigh(u[0]) && IsLow(u[1]) {
          PairArithmetic(u[0], u[1]);
        }
        Lossy16EmitsScalars(u[2..]);
      }
      Lossy16EmitsScalars(u[1..]);
    }
  }

  lemma Encode16AllFront(c: codepoint, cs: seq<codepoint>)
    requires IsScalar(c) && AllScalars(cs)
    ensures AllScalars([c] + cs) && Encode16All([c] + cs) == Encode16(c) + Encode16All(cs)
  {
    hide Encode16;
    assert ([c] + cs)[1..] == cs;
  }

  lemma {:induction false} Encode16AllBack(cs: seq<codepoint>, c: codepoint)
    requires IsScalar(c) && AllScalars(cs)
    ensures AllScalars(cs + [c]) && Encode16All(cs + [c]) == Encode16All(cs) + Encode16(c)
  {
    hide Encode16;
    if cs != [] {
      assert (cs + [c])[1..] == cs[1..] + [c];
      Encode16AllBack(cs[1..], c);
    }
  }

  lemma {:induction false} EncodeAllBack(cs: seq<codepoint>, c: codepoint)
    requires IsScalar(c) && AllScalars(cs)
    ensures AllScalars(cs + [c]) && EncodeAll(cs + [c]) == EncodeAll(cs) + Encode(c)
  {
    hide Encode;
    if cs != [] {
      assert (cs + [c])[1..] == cs[1..] + [c];
      EncodeAllBack(cs[1..], c);
    }
  }

  lemma OneUnit(c: codepoint)
    requires IsScalar(c) && c < 0x10000
    ensures Encode16(c) == [c as unit]
    ensures (c as unit) as codepoint == c
    ensures !IsHigh(c as unit) && !IsLow(c as unit)
  {
    OneUnitBits(c);
    hide IsScalar, IsHigh, IsLow;
  }

  lemma OneUnitBits(c: codepoint)
    requires IsScalar(c) && c < 0x10000
    ensures (c as unit) as codepoint == c
    ensures !IsHigh(c as unit) && !IsLow(c as unit)
  {}

  lemma FrontUnit(w: unit, rest: seq<unit>)
    requires !IsHigh(w) && !IsLow(w)
    ensures Lossy16([w] + rest) == [Wide(w)] + Lossy16(rest)
    ensures WellFormed16([w] + rest) == WellFormed16(rest)
  {
    hide IsHigh, IsLow, Pair;
    assert ([w] + rest)[1..] == rest;
  }

  lemma FrontPair(high: unit, low: unit, rest: seq<unit>)
    requires IsHigh(high) && IsLow(low)
    ensures Lossy16([high, low] + rest) == [Pair(high, low)] + Lossy16(rest)
    ensures WellFormed16([high, low] + rest) == WellFormed16(rest)
  {
    hide IsHigh, IsLow, Pair;
    assert ([high, low] + rest)[2..] == rest;
  }

  lemma FrontUnits(c: codepoint, rest: seq<unit>)
    requires IsScalar(c)
    ensures Lossy16(Encode16(c) + rest) == [c] + Lossy16(rest)
    ensures WellFormed16(Encode16(c) + rest) == WellFormed16(rest)
  {
    if c < 0x10000 {
      OneUnit(c);
      hide *;
      FrontUnit(c as unit, rest);
    } else {
      var u := SplitArithmetic(c);
      Halves(u);
      hide *;
      FrontSplit(c, u, rest);
    }
  }

  lemma FrontSplit(c: codepoint, u: codepoint, rest: seq<unit>)
    requires IsScalar(c) && u <= 0xFFFFF && Encode16(c) == [HighHalf(u), LowHalf(u)]
    requires IsHigh(HighHalf(u)) && IsLow(LowHalf(u)) && Pair(HighHalf(u), LowHalf(u)) == c
    ensures Lossy16(Encode16(c) + rest) == [c] + Lossy16(rest)
    ensures WellFormed16(Encode16(c) + rest) == WellFormed16(rest)
  {
    hide *;
    FrontPair(HighHalf(u), LowHalf(u), rest);
  }

  /** 16-bit round trip from scalar values. */
  lemma {:induction false} Decode16OfEncode16(cs: seq<codepoint>)
    requires AllScalars(cs)
    ensures Lossy16(Encode16All(cs)) == cs && WellFormed16(Encode16All(cs))
  {
    hide Encode16;
    if cs != [] {
      Decode16OfEncode16(cs[1..]);
      FrontUnits(cs[0], Encode16All(cs[1..]));
    }
  }

  /** 16-bit round trip from units: exactly the well-formed sequences survive. */
  lemma Encode16OfDecode16(u: seq<unit>)
    ensures AllScalars(Lossy16(u))
    ensures Encode16All(Lossy16(u)) == u <==> WellFormed16(u)
  {
    Lossy16EmitsScalars(u);
    Decode16OfEncode16(Lossy16(u));
    if WellFormed16(u) {
      Encode16OfWellFormed(u);
    }
  }

  lemma {:induction false} Encode16OfWellFormed(u: seq<unit>)
    requires WellFormed16(u) && AllScalars(Lossy16(u))
    ensures Encode16All(Lossy16(u)) == u
  {
    if u == [] {
    } else if IsHigh(u[0]) {
      PairArithmetic(u[0], u[1]);
      SurrogateTests(u[0]);
      hide IsHigh, IsLow, Pair, Encode16;
      Lossy16EmitsScalars(u[2..]);
      Encode16OfWellFormed(u[2..]);
      Encode16AllFront(Pair(u[0], u[1]), Lossy16(u[2..]));
      assert u == [u[0], u[1]] + u[2..];
    } else {
      SurrogateTests(u[0]);
      hide IsHigh, IsLow, Pair;
      Lossy16EmitsScalars(u[1..]);
      Encode16OfWellFormed(u[1..]);
      Encode16AllFront(u[0] as codepoint, Lossy16(u[1..]));
      assert u == [u[0]] + u[1..];
    }
  }

  // The routines.

  /** What appendUTF8 appends. */
  function EncodeLossy(c: codepoint): seq<octet> { Encode(if IsScalar(c) then c else REPLACEMENT) }

  // The octets that the arms of appendUTF8 push: k is the shift, m the mask below the lead octet.
  function Lead2(c: codepoint): octet
    requires c <= 0x7ff
  {
    ((c >> 6) + 192) as octet
  }

  function Lead3(c: codepoint): octet
    requires c <= 0xffff
  {
    ((c >> 12) + 224) as octet
  }

  function Lead4(c: codepoint): octet
    requires c <= 0x10ffff
  {
    ((c >> 18) + 240) as octet
  }

  function Third(c: codepoint): octet { (((c & 0x3ffff) >> 12) + 128) as octet }

  function Second(c: codepoint): octet { (((c & 0xfff) >> 6) + 128) as octet }

  function First(c: codepoint): octet { ((c & 0x3f) + 128) as octet }

  /** Sums of masked shifts are the bit distribution of RFC 3629. */
  lemma Tails(c: codepoint)
    ensures First(c) == Low(c, 0) && Second(c) == Low(c, 6) && Third(c) == Low(c, 12)
  {}

  lemma Leads(c: codepoint)
    ensures c <= 0x7ff ==> (0xC0 | (c >> 6)) <= 0xff && Lead2(c) == (0xC0 | (c >> 6)) as octet
    ensures c <= 0xffff ==> (0xE0 | (c >> 12)) <= 0xff && Lead3(c) == (0xE0 | (c >> 12)) as octet
    ensures c <= 0x10ffff ==> (0xF0 | (c >> 18)) <= 0xff && Lead4(c) == (0xF0 | (c >> 18)) as octet
  {}

  lemma Arms(c: codepoint)
    requires IsScalar(c)
    ensures c <= 0x7f ==> Encode(c) == [c as octet]
    ensures 0x80 <= c <= 0x7ff ==> Encode(c) == [Lead2(c), First(c)]
    ensures 0x800 <= c <= 0xffff ==> Encode(c) == [Lead3(c), Second(c), First(c)]
    ensures 0x10000 <= c <= 0x10ffff ==> Encode(c) == [Lead4(c), Third(c), Second(c), First(c)]
  {
    Tails(c);
    Leads(c);
    hide Lead2, Lead3, Lead4, First, Second, Third, Low;
  }

  lemma EncodeLossyCases(c: codepoint)
    ensures IsScalar(c) ==> EncodeLossy(c) == Encode(c)
    ensures !IsScalar(c) ==> EncodeLossy(c) == Encode(REPLACEMENT)
  {
    hide Encode, IsScalar;
  }

  lemma EncodeLossyReplacement()
    ensures IsScalar(REPLACEMENT) && EncodeLossy(REPLACEMENT) == Encode(REPLACEMENT)
  {
    hide Encode;
  }

  /** appendUTF8: one number, or the replacement for a number that is no scalar value. */
  method AppendUtf8(str: seq<octet>, c: codepoint) returns (str': seq<octet>)
    ensures str' == str + EncodeLossy(c)
    decreases !IsScalar(c)
  {
    EncodeLossyCases(c);
    if IsScalar(c) {
      Arms(c);
    }
    EncodeLossyReplacement();
    hide Encode, EncodeLossy, Lead2, Lead3, Lead4, First, Second, Third, REPLACEMENT;
    if c <= 0x7f {
      str' := str + [c as octet];
    } else if c >= 0x80 && c <= 0x7ff {
      str' := str + [Lead2(c)] + [First(c)];
    } else if (c >= 0x800 && c <= 0xd7ff) || (c >= 0xe000 && c <= 0xffff) {
      str' := str + [Lead3(c)] + [Second(c)] + [First(c)];
    } else if c >= 0x10000 && c <= 0x10ffff {
      str' := str + [Lead4(c)] + [Third(c)] + [Second(c)] + [First(c)];
    } else {
      str' := AppendUtf8(str, REPLACEMENT);
    }
  }

  /** The list with every number that is no scalar value replaced. */
  ghost function Repaired(cs: seq<codepoint>): (r: seq<codepoint>)
    ensures AllScalars(r) && |r| == |cs|
    ensures AllScalars(cs) ==> r == cs
  {
    seq(|cs|, i requires 0 <= i < |cs| => if IsScalar(cs[i]) then cs[i] else REPLACEMENT)
  }

  /** toUtf8 with a 32-bit argument */
  method ToUtf8(cs: seq<codepoint>) returns (result: seq<octet>)
    ensures result == EncodeAll(Repaired(cs))
  {
    hide Encode, IsScalar;
    result := [];
    ghost var all := Repaired(cs);
    for i := 0 to |cs|
      invariant result == EncodeAll(all[..i])
    {
      assert all[..i + 1] == all[..i] + [all[i]];
      EncodeAllBack(all[..i], all[i]);
      result := AppendUtf8(result, cs[i]);
    }
    assert all[..|cs|] == all;
  }

  // What one turn of the loop adds, in terms of the tests that it makes.

  lemma UnitStep(w: unit, rest: seq<unit>)
    requires !IsSurrogate(w)
    ensures IsScalar(Wide(w))
    ensures Lossy16([w] + rest) == [Wide(w)] + Lossy16(rest)
  {
    SurrogateTests(w);
    FrontUnit(w, rest);
    hide *;
  }

  lemma PairStep(high: unit, low: unit, rest: seq<unit>)
    requires IsHighSurrogate(high) && IsLowSurrogate(low)
    ensures IsScalar(Joined(high, low))
    ensures Lossy16([high, low] + rest) == [Joined(high, low)] + Lossy16(rest)
  {
    SurrogateTests(high);
    SurrogateTests(low);
    JoinedIsPair(high, low);
    FrontPair(high, low, rest);
    hide *;
  }

  lemma JoinedIsPair(high: unit, low: unit)
    requires IsHigh(high) && IsLow(low)
    ensures Joined(high, low) == Pair(high, low) && IsScalar(Pair(high, low))
  {
    PairArithmetic(high, low);
    hide Pair, Encode16;
  }

  lemma ReplacedStep(high: unit, low: unit, rest: seq<unit>)
    requires IsSurrogate(high) && !(IsHighSurrogate(high) && IsLowSurrogate(low))
    ensures Lossy16([high, low] + rest) == [REPLACEMENT] + Lossy16(rest)
  {
    SurrogateTests(high);
    SurrogateTests(low);
    assert ([high, low] + rest)[2..] == rest;
    hide IsSurrogate, IsHighSurrogate, IsLowSurrogate, IsHigh, IsLow, Pair, REPLACEMENT;
  }

  lemma LoneStep(high: unit)
    requires IsSurrogate(high)
    ensures Lossy16([high]) == [REPLACEMENT]
  {
    SurrogateTests(high);
    hide IsSurrogate, IsHigh, IsLow, Pair, REPLACEMENT;
  }

  /** The octets so far encode done, and done and the unread units make up the whole decoding. */
  ghost predicate Encoding(u: seq<unit>, iter: nat, done: seq<codepoint>, result: seq<octet>) {
    && iter <= |u| && AllScalars(done) && result == EncodeAll(done)
    && done + Lossy16(u[iter..]) == Lossy16(u)
  }

  lemma EncodeOne(u: seq<unit>, iter: nat, done: seq<codepoint>, result: seq<octet>, c: codepoint, k: nat)
    requires Encoding(u, iter, done, result) && iter + k <= |u|
    requires Lossy16(u[iter..]) == [if IsScalar(c) then c else REPLACEMENT] + Lossy16(u[iter + k..])
    ensures Encoding(u, iter + k, done + [if IsScalar(c) then c else REPLACEMENT], result + EncodeLossy(c))
  {
    EncodeLossyReplacement();
    hide Encode, IsScalar, REPLACEMENT, Lossy16, EncodeAll, AllScalars;
    var v := if IsScalar(c) then c else REPLACEMENT;
    EncodeAllBack(done, v);
    assert done + ([v] + Lossy16(u[iter + k..])) == (done + [v]) + Lossy16(u[iter + k..]);
  }

  /** toUtf8 with a 16-bit argument */
  method ToUtf8From16(u: seq<unit>) returns (result: seq<octet>)
    ensures AllScalars(Lossy16(u)) && result == EncodeAll(Lossy16(u))
  {
    EncodingStarts(u);
    hide *;
    result := [];
    ghost var done: seq<codepoint> := [];
    var iter := 0;
    while iter != |u|
      invariant 0 <= iter <= |u| && Encoding(u, iter, done, result)
    {
      var c := u[iter];
      if IsSurrogate(c) {
        iter := iter + 1;
        if iter != |u| && IsHighSurrogate(c) && IsLowSurrogate(u[iter]) {
          TurnPair(u, iter - 1, done, result);
          done := done + [Joined(c, u[iter])];
          result := AppendUtf8(result, Joined(c, u[iter]));
        } else {
          if iter == |u| {
            TurnLone(u, iter - 1, done, result);
          } else {
            TurnReplaced(u, iter - 1, done, result);
          }
          done := done + [REPLACEMENT];
          result := AppendUtf8(result, REPLACEMENT);
          if iter == |u| {
            break;
          }
        }
      } else {
        TurnUnit(u, iter, done, result);
        done := done + [Wide(c)];
        result := AppendUtf8(result, Wide(c));
      }
      iter := iter + 1;
    }
    EncodingEnds(u, done, result);
  }

  // The turns of the loop.

  lemma EncodingStarts(u: seq<unit>)
    ensures Encoding(u, 0, [], [])
  {
    hide Lossy16;
    assert u[0..] == u;
  }

  lemma EncodingEnds(u: seq<unit>, done: seq<codepoint>, result: seq<octet>)
    requires Encoding(u, |u|, done, result)
    ensures AllScalars(Lossy16(u)) && result == EncodeAll(Lossy16(u))
  {
    assert Lossy16(u[|u|..]) == [];
    hide Lossy16, EncodeAll, AllScalars;
    assert done == Lossy16(u);
  }

  lemma TurnUnit(u: seq<unit>, iter: nat, done: seq<codepoint>, result: seq<octet>)
    requires Encoding(u, iter, done, result) && iter < |u| && !IsSurrogate(u[iter])
    ensures Encoding(u, iter + 1, done + [Wide(u[iter])], result + EncodeLossy(Wide(u[iter])))
  {
    hide *;
    UnitStep(u[iter], u[iter + 1..]);
    assert [u[iter]] + u[iter + 1..] == u[iter..];
    EncodeOne(u, iter, done, result, Wide(u[iter]), 1);
  }

  lemma TurnPair(u: seq<unit>, iter: nat, done: seq<codepoint>, result: seq<octet>)
    requires Encoding(u, iter, done, result) && iter + 1 < |u|
    requires IsHighSurrogate(u[iter]) && IsLowSurrogate(u[iter + 1])
    ensures var v := Joined(u[iter], u[iter + 1]);
            Encoding(u, iter + 2, done + [v], result + EncodeLossy(v))
  {
    hide *;
    PairStep(u[iter], u[iter + 1], u[iter + 2..]);
    assert [u[iter], u[iter + 1]] + u[iter + 2..] == u[iter..];
    EncodeOne(u, iter, done, result, Joined(u[iter], u[iter + 1]), 2);
  }

  lemma TurnReplaced(u: seq<unit>, iter: nat, done: seq<codepoint>, result: seq<octet>)
    requires Encoding(u, iter, done, result) && iter + 1 < |u| && IsSurrogate(u[iter])
    requires !(IsHighSurrogate(u[iter]) && IsLowSurrogate(u[iter + 1]))
    ensures Encoding(u, iter + 2, done + [REPLACEMENT], result + EncodeLossy(REPLACEMENT))
  {
    EncodeLossyReplacement();
    hide *;
    ReplacedStep(u[iter], u[iter + 1], u[iter + 2..]);
    assert [u[iter], u[iter + 1]] + u[iter + 2..] == u[iter..];
    EncodeOne(u, iter, done, result, REPLACEMENT, 2);
  }

  lemma TurnLone(u: seq<unit>, iter: nat, done: seq<codepoint>, result: seq<octet>)
    requires Encoding(u, iter, done, result) && iter + 1 == |u| && IsSurrogate(u[iter])
    ensures Encoding(u, iter + 1, done + [REPLACEMENT], result + EncodeLossy(REPLACEMENT))
  {
    EncodeLossyReplacement();
    assert Lossy16([]) == [];
    hide *;
    LoneStep(u[iter]);
    assert u[iter..] == [u[iter]] && u[iter + 1..] == [];
    EncodeOne(u, iter, done, result, REPLACEMENT, 1);
  }

  /** The units so far encode what has been decoded. */
  ghost predicate Decoding(s: seq<octet>, iter: nat, state: bv32, code: codepoint, done: seq<codepoint>, result: seq<unit>) {
    Pending(s, iter, state, code, done) && AllScalars(done) && result == Encode16All(done)
  }

  lemma DecodingStarts(s: seq<octet>)
    ensures Decoding(s, 0, S_STRT, 0, [], [])
  {
    hide Pending;
    PendingStarts(s);
  }

  lemma EmittedIsScalar(s: seq<octet>, done: seq<codepoint>, c: codepoint, rest: seq<codepoint>)
    requires done + [c] + rest == Lossy(s)
    ensures IsScalar(c)
  {
    LossyEmitsScalars(s);
    hide Lossy;
    assert Lossy(s)[|done|] == c;
  }

  lemma PendingIsPrefix(s: seq<octet>, iter: nat, state: bv32, code: codepoint, done: seq<codepoint>)
    requires Pending(s, iter, state, code, done)
    ensures exists rest :: done + rest == Lossy(s)
  {
    hide Lossy, DecodeFrom;
  }

  lemma Emit(s: seq<octet>, iter: nat, done: seq<codepoint>, result: seq<unit>, c: codepoint)
    requires AllScalars(done) && result == Encode16All(done)
    requires Pending(s, iter, S_STRT, 0, done + [c])
    ensures IsScalar(c) && Decoding(s, iter, S_STRT, 0, done + [c], result + Encode16(c))
  {
    PendingIsPrefix(s, iter, S_STRT, 0, done + [c]);
    hide Lossy, Pending, IsScalar, Encode16, Encode16All, AllScalars;
    var rest :| done + [c] + rest == Lossy(s);
    EmittedIsScalar(s, done, c, rest);
    Encode16AllBack(done, c);
  }

  lemma TurnDecode(s: seq<octet>, iter: nat, state: bv32, code: codepoint, done: seq<codepoint>, result: seq<unit>)
    requires Decoding(s, iter, state, code, done, result) && iter < |s|
    ensures state < 8
    ensures var next := NextState(state, s[iter]);
            var code' := NextCode(state, s[iter], code);
            if next == S_STRT then
              IsScalar(code') && Decoding(s, iter + 1, S_STRT, 0, done + [code'], result + Encode16(code'))
            else if next == S_RJCT then
              IsScalar(REPLACEMENT)
              && Decoding(s, iter + 1, S_STRT, 0, done + [REPLACEMENT], result + Encode16(REPLACEMENT))
            else
              Decoding(s, iter + 1, next, code', done, result)
  {
    hide NextState, NextCode, Encode16, Encode16All, IsScalar, Pending, REPLACEMENT, AllScalars;
    PendingTurn(s, iter, state, code, done);
    var next := NextState(state, s[iter]);
    if next == S_STRT {
      Emit(s, iter + 1, done, result, NextCode(state, s[iter], code));
    } else if next == S_RJCT {
      Emit(s, iter + 1, done, result, REPLACEMENT);
    }
  }

  lemma DecodingEnds(s: seq<octet>, state: bv32, code: codepoint, done: seq<codepoint>, result: seq<unit>)
    requires Decoding(s, |s|, state, code, done, result)
    ensures AllScalars(Lossy(s))
    ensures if state != S_STRT then IsScalar(REPLACEMENT) && result + Encode16(REPLACEMENT) == Encode16All(Lossy(s))
            else result == Encode16All(Lossy(s))
  {
    PendingEnds(s, state, code, done);
    LossyEmitsScalars(s);
    EncodeLossyReplacement();
    hide Lossy, Encode16, Encode16All, IsScalar, Pending, REPLACEMENT, AllScalars;
    Encode16AllBack(done, REPLACEMENT);
  }

  /** fromUtf8 with a 16-bit result */
  method FromUtf8To16(s: seq<octet>) returns (result: seq<unit>)
    ensures AllScalars(Lossy(s)) && result == Encode16All(Lossy(s))
  {
    hide *;
    DecodingStarts(s);
    result := [];
    ghost var done: seq<codepoint> := [];
    var iter, state, code: codepoint := 0, S_STRT, 0;
    while iter < |s|
      invariant 0 <= iter <= |s| && Decoding(s, iter, state, code, done, result)
    {
      TurnDecode(s, iter, state, code, done, result);
      code := NextCode(state, s[iter], code);
      state := NextState(state, s[iter]);
      iter := iter + 1;
      if state == S_STRT {
        done := done + [code];
        result := AppendUnits(result, code);
        code := 0;
      } else if state == S_RJCT {
        done := done + [REPLACEMENT];
        result := AppendUnits(result, REPLACEMENT);
        state := S_STRT;
        code := 0;
      }
    }
    DecodingEnds(s, state, code, done, result);
    if state != S_STRT {
      result := AppendUnits(result, REPLACEMENT);
    }
  }

  // One unit, or the two halves of a number above 0xffff.
  method AppendUnits(result: seq<unit>, code: codepoint) returns (result': seq<unit>)
    requires IsScalar(code)
    ensures result' == result + Encode16(code)
  {
    if code <= 0xffff {
      result' := result + [code as unit];
    } else {
      var u := code - 0x10000;
      ghost var v := SplitArithmetic(code);
      hide *;
      result' := result + [HighHalf(u)] + [LowHalf(u)];
    }
  }

  /** Through UTF-16 and back, valid UTF-8 and nothing else survives. */
  method ThroughUtf16(s: seq<octet>) returns (units: seq<unit>, back: seq<octet>)
    ensures WellFormed16(units)
    ensures back == s <==> Utf8Octets(s)
  {
    units := FromUtf8To16(s);
    Decode16OfEncode16(Lossy(s));
    EncodeOfDecode(s);
    back := ToUtf8From16(units);
  }

  /** Through UTF-8 and back, well-formed UTF-16 and nothing else survives. */
  method ThroughUtf8(u: seq<unit>) returns (octets: seq<octet>, back: seq<unit>)
    ensures Utf8Octets(octets)
    ensures back == u <==> WellFormed16(u)
  {
    octets := ToUtf8From16(u);
    DecodeOfEncode(Lossy16(u));
    Encode16OfDecode16(u);
    back := FromUtf8To16(octets);
  }
}
