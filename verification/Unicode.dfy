/** UTF-8 and UTF-16 as RFC 3629 (sections 3 and 4) and RFC 2781 (sections 2.1 and 2.2) define them. */
module Unicode {
  type octet = bv8
  type unit = bv16
  type codepoint = bv32

  const REPLACEMENT: codepoint := 0xFFFD

  predicate IsScalar(c: codepoint) { c <= 0xD7FF || 0xE000 <= c <= 0x10FFFF }

  ghost predicate AllScalars(cs: seq<codepoint>) { forall i :: 0 <= i < |cs| ==> IsScalar(cs[i]) }

  // RFC 3629, section 4: the grammar.

  predicate IsTail(b: octet) { 0x80 <= b <= 0xBF }

  predicate IsChar1(a: octet) { a <= 0x7F }

  predicate IsChar2(a: octet, b: octet) { 0xC2 <= a <= 0xDF && IsTail(b) }

  predicate IsChar3(a: octet, b: octet, c: octet) {
    || (a == 0xE0 && 0xA0 <= b <= 0xBF && IsTail(c))
    || (0xE1 <= a <= 0xEC && IsTail(b) && IsTail(c))
    || (a == 0xED && 0x80 <= b <= 0x9F && IsTail(c))
    || (0xEE <= a <= 0xEF && IsTail(b) && IsTail(c))
  }

  predicate IsChar4(a: octet, b: octet, c: octet, d: octet) {
    || (a == 0xF0 && 0x90 <= b <= 0xBF && IsTail(c) && IsTail(d))
    || (0xF1 <= a <= 0xF3 && IsTail(b) && IsTail(c) && IsTail(d))
    || (a == 0xF4 && 0x80 <= b <= 0x8F && IsTail(c) && IsTail(d))
  }

  predicate IsUtf8Char(s: seq<octet>) {
    if |s| == 1 then IsChar1(s[0])
    else if |s| == 2 then IsChar2(s[0], s[1])
    else if |s| == 3 then IsChar3(s[0], s[1], s[2])
    else |s| == 4 && IsChar4(s[0], s[1], s[2], s[3])
  }

  /** UTF8-octets = *( UTF8-char ) */
  ghost predicate Utf8Octets(s: seq<octet>) {
    s == [] || exists n :: 0 < n <= |s| && IsUtf8Char(s[..n]) && Utf8Octets(s[n..])
  }

  // RFC 3629, section 3: the number that a character carries, and back.

  function Value2(a: octet, b: octet): codepoint {
    ((a as codepoint & 0x1F) << 6) | (b as codepoint & 0x3F)
  }

  function Value3(a: octet, b: octet, c: octet): codepoint {
    ((a as codepoint & 0x0F) << 12) | ((b as codepoint & 0x3F) << 6) | (c as codepoint & 0x3F)
  }

  function Value4(a: octet, b: octet, c: octet, d: octet): codepoint {
    ((a as codepoint & 0x07) << 18) | ((b as codepoint & 0x3F) << 12) | ((c as codepoint & 0x3F) << 6)
    | (d as codepoint & 0x3F)
  }

  function Value(s: seq<octet>): codepoint
    requires IsUtf8Char(s)
  {
    if |s| == 1 then s[0] as codepoint
    else if |s| == 2 then Value2(s[0], s[1])
    else if |s| == 3 then Value3(s[0], s[1], s[2])
    else Value4(s[0], s[1], s[2], s[3])
  }

  /** Low is the continuation octet that carries the six bits of c from bit position k on. */
  function Low(c: codepoint, k: bv6): octet
    requires k <= 18
  {
    (0x80 | ((c >> k) & 0x3F)) as octet
  }

  function Encode(c: codepoint): seq<octet>
    requires IsScalar(c)
  {
    if c <= 0x7F then [c as octet]
    else if c <= 0x7FF then [(0xC0 | (c >> 6)) as octet, Low(c, 0)]
    else if c <= 0xFFFF then [(0xE0 | (c >> 12)) as octet, Low(c, 6), Low(c, 0)]
    else [(0xF0 | (c >> 18)) as octet, Low(c, 12), Low(c, 6), Low(c, 0)]
  }

  ghost function EncodeAll(cs: seq<codepoint>): seq<octet>
    requires AllScalars(cs)
  {
    if cs == [] then [] else Encode(cs[0]) + EncodeAll(cs[1..])
  }

  // RFC 2781.

  predicate IsHigh(u: unit) { 0xD800 <= u <= 0xDBFF }

  predicate IsLow(u: unit) { 0xDC00 <= u <= 0xDFFF }

  /** Section 2.1. */
  function Encode16(c: codepoint): seq<unit>
    requires IsScalar(c)
  {
    if c < 0x10000 then [c as unit]
    else
      var u := c - 0x10000;
      [0xD800 | ((u >> 10) as unit), 0xDC00 | ((u & 0x3FF) as unit)]
  }

  ghost function Encode16All(cs: seq<codepoint>): seq<unit>
    requires AllScalars(cs)
  {
    if cs == [] then [] else Encode16(cs[0]) + Encode16All(cs[1..])
  }

  /** Section 2.2: the number of a surrogate pair. */
  function Pair(high: unit, low: unit): codepoint {
    (((high as codepoint & 0x3FF) << 10) | (low as codepoint & 0x3FF)) + 0x10000
  }

  ghost predicate WellFormed16(u: seq<unit>) {
    if u == [] then true
    else if IsHigh(u[0]) then |u| > 1 && IsLow(u[1]) && WellFormed16(u[2..])
    else !IsLow(u[0]) && WellFormed16(u[1..])
  }

  // Encoding and reading one character are inverse.

  lemma Inverse2(a: octet, b: octet)
    requires IsChar2(a, b)
    ensures 0x80 <= Value2(a, b) <= 0x7FF
    ensures (0xC0 | (Value2(a, b) >> 6)) == a as codepoint && Low(Value2(a, b), 0) == b
  {}

  lemma Inverse3(a: octet, b: octet, c: octet)
    requires IsChar3(a, b, c)
    ensures 0x800 <= Value3(a, b, c) <= 0xFFFF && IsScalar(Value3(a, b, c))
    ensures (0xE0 | (Value3(a, b, c) >> 12)) == a as codepoint
    ensures Low(Value3(a, b, c), 6) == b && Low(Value3(a, b, c), 0) == c
  {}

  lemma Inverse4(a: octet, b: octet, c: octet, d: octet)
    requires IsChar4(a, b, c, d)
    ensures 0x10000 <= Value4(a, b, c, d) <= 0x10FFFF
    ensures (0xF0 | (Value4(a, b, c, d) >> 18)) == a as codepoint && Low(Value4(a, b, c, d), 12) == b
    ensures Low(Value4(a, b, c, d), 6) == c && Low(Value4(a, b, c, d), 0) == d
  {}

  lemma Forward2(v: codepoint)
    requires 0x80 <= v <= 0x7FF
    ensures var a := (0xC0 | (v >> 6)) as octet; IsChar2(a, Low(v, 0)) && Value2(a, Low(v, 0)) == v
  {}

  lemma Forward3(v: codepoint)
    requires 0x800 <= v <= 0xFFFF && IsScalar(v)
    ensures var a := (0xE0 | (v >> 12)) as octet;
            IsChar3(a, Low(v, 6), Low(v, 0)) && Value3(a, Low(v, 6), Low(v, 0)) == v
  {}

  lemma Forward4(v: codepoint)
    requires 0x10000 <= v <= 0x10FFFF
    ensures var a := (0xF0 | (v >> 18)) as octet;
            IsChar4(a, Low(v, 12), Low(v, 6), Low(v, 0)) && Value4(a, Low(v, 12), Low(v, 6), Low(v, 0)) == v
  {}

  lemma EncodeIsChar(v: codepoint)
    requires IsScalar(v)
    ensures IsUtf8Char(Encode(v)) && Value(Encode(v)) == v
  {
    hide IsChar2, IsChar3, IsChar4, Value2, Value3, Value4, Low;
    if v <= 0x7F {
    } else if v <= 0x7FF {
      Forward2(v);
    } else if v <= 0xFFFF {
      Forward3(v);
    } else {
      Forward4(v);
    }
  }

  lemma CharIsEncode(s: seq<octet>)
    requires IsUtf8Char(s)
    ensures IsScalar(Value(s)) && Encode(Value(s)) == s
  {
    hide IsChar2, IsChar3, IsChar4, Value2, Value3, Value4, Low;
    if |s| == 1 {
    } else if |s| == 2 {
      Inverse2(s[0], s[1]);
    } else if |s| == 3 {
      Inverse3(s[0], s[1], s[2]);
    } else {
      Inverse4(s[0], s[1], s[2], s[3]);
    }
  }
}
