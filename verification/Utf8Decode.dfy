/** Decoding, encoding and conversion on top of the automaton: filesystem.hpp, lines 1442-1640. */
module Utf8Decode {
  import opened Unicode
  import opened Utf8Codec

  /**
   * What a lossy UTF-8 decoder means: take the longest prefix that begins a character and one octet
   * more; either that is a character, or it is replaced as a whole.
   */
  ghost function Lossy(s: seq<octet>): seq<codepoint>
    decreases |s|
  {
    if s == [] then []
    else
      var k := ViableLength(s, 0);
      if k == |s| then [REPLACEMENT]
      else if IsUtf8Char(s[..k + 1]) then [Value(s[..k + 1])] + Lossy(s[k + 1..])
      else [REPLACEMENT] + Lossy(s[k + 1..])
  }

  /** The codepoint accumulator after a run over p from the start state. */
  ghost function CodeRun(p: seq<octet>): codepoint {
    if p == [] then 0
    else NextCode(Run(0, p[..|p| - 1]), p[|p| - 1], CodeRun(p[..|p| - 1]))
  }

  lemma CodeRunShort(p: seq<octet>)
    ensures |p| == 1 ==> CodeRun(p) == NextCode(0, p[0], 0)
    ensures |p| == 2 ==> CodeRun(p) == NextCode(Goto(0, p[0]), p[1], NextCode(0, p[0], 0))
    ensures |p| == 3 ==> CodeRun(p) == NextCode(Goto2(p[0], p[1]), p[2], NextCode(Goto(0, p[0]), p[1], NextCode(0, p[0], 0)))
    ensures |p| == 4 ==> CodeRun(p) == NextCode(Goto3(p[0], p[1], p[2]), p[3],
      NextCode(Goto2(p[0], p[1]), p[2], NextCode(Goto(0, p[0]), p[1], NextCode(0, p[0], 0))))
  {
    hide Goto, NextCode;
    if |p| >= 1 {
      InsideShape(p[..|p| - 1]);
      CodeRunShort(p[..|p| - 1]);
      RunEmpty(0);
    }
  }

  lemma Lead(a: octet)
    ensures a <= 0x7F ==> NextCode(0, a, 0) == a as codepoint
    ensures 0xC2 <= a <= 0xDF ==> NextCode(0, a, 0) == a as codepoint & 0x1F
    ensures 0xE0 <= a <= 0xEF ==> NextCode(0, a, 0) == a as codepoint & 0x0F
    ensures 0xF0 <= a <= 0xF4 ==> NextCode(0, a, 0) == a as codepoint & 0x07
  {
    CategoryMeaning(a);
    hide Category;
  }

  /** The accumulator takes in the six payload bits of a continuation octet. */
  function Push(code: codepoint, b: octet): codepoint { (code << 6) | (b as codepoint & 0x3f) }

  lemma Follow(state: bv32, b: octet, code: codepoint)
    requires Within(state)
    ensures NextCode(state, b, code) == Push(code, b)
  {}

  lemma Bits2(a: octet, b: octet)
    ensures Push(a as codepoint & 0x1F, b) == Value2(a, b)
  {}

  lemma Bits3(a: octet, b: octet, c: octet)
    ensures Push(Push(a as codepoint & 0x0F, b), c) == Value3(a, b, c)
  {}

  lemma Bits4(a: octet, b: octet, c: octet, d: octet)
    ensures Push(Push(Push(a as codepoint & 0x07, b), c), d) == Value4(a, b, c, d)
  {}

  lemma Leading(q: seq<octet>)
    requires IsUtf8Char(q)
    ensures |q| == 1 ==> q[0] <= 0x7F
    ensures |q| == 2 ==> 0xC2 <= q[0] <= 0xDF
    ensures |q| == 3 ==> 0xE0 <= q[0] <= 0xEF
    ensures |q| == 4 ==> 0xF0 <= q[0] <= 0xF4
  {}

  lemma CodeOfChar(q: seq<octet>)
    requires IsUtf8Char(q)
    ensures CodeRun(q) == Value(q)
  {
    Lead(q[0]);
    Leading(q);
    hide Goto, NextCode, Value2, Value3, Value4, IsChar1, IsChar2, IsChar3, IsChar4, Push;
    CodeRunShort(q);
    if |q| == 2 {
      Char2Within(q[0], q[1]);
      Follow(Goto(0, q[0]), q[1], NextCode(0, q[0], 0));
      Bits2(q[0], q[1]);
    } else if |q| == 3 {
      Char3Within(q[0], q[1], q[2]);
      Follow(Goto(0, q[0]), q[1], NextCode(0, q[0], 0));
      Follow(Goto2(q[0], q[1]), q[2], Push(NextCode(0, q[0], 0), q[1]));
      Bits3(q[0], q[1], q[2]);
    } else if |q| == 4 {
      Char4Within(q[0], q[1], q[2], q[3]);
      Follow(Goto(0, q[0]), q[1], NextCode(0, q[0], 0));
      Follow(Goto2(q[0], q[1]), q[2], Push(NextCode(0, q[0], 0), q[1]));
      Follow(Goto3(q[0], q[1], q[2]), q[3], Push(Push(NextCode(0, q[0], 0), q[1]), q[2]));
      Bits4(q[0], q[1], q[2], q[3]);
    }
  }

  /** What the loop of fromUtf8 still has to emit, from its state, its codepoint and the unread octets. */
  ghost function DecodeFrom(state: bv32, code: codepoint, s: seq<octet>): seq<codepoint>
    requires state < 8
    decreases |s|
  {
    if s == [] then if state != 0 then [REPLACEMENT] else []
    else
      var next := Goto(state, s[0]);
      var code' := NextCode(state, s[0], code);
      if next == 0 then [code'] + DecodeFrom(0, 0, s[1..])
      else if next == 8 then [REPLACEMENT] + DecodeFrom(0, 0, s[1..])
      else DecodeFrom(next, code', s[1..])
  }

  lemma {:induction false} DecodesLossy(p: seq<octet>, s: seq<octet>)
    requires p == [] || Inside(p)
    ensures Run(0, p) < 8 && DecodeFrom(Run(0, p), CodeRun(p), s) == Lossy(p + s)
    decreases |s|
  {
    hide Goto, NextCode, IsUtf8Char, Value, Viable;
    var all := p + s;
    assert all[..|p|] == p;
    ViableLengthSkips(all, |p|);
    if s == [] {
      if p != [] {
        InsideRun(p);
      }
    } else {
      var q := p + [s[0]];
      assert q[..|p|] == p && q + s[1..] == all && all[..|q|] == q && all[|q|..] == s[1..];
      InsideNext(p, s[0]);
      InsideIsViable(q);
      if Inside(q) {
        DecodesLossy(q, s[1..]);
        InsideRun(q);
      } else {
        AfterViable(p, s[0]);
        DecodesLossy([], s[1..]);
        RunEmpty(0);
        assert [] + s[1..] == s[1..];
        if IsUtf8Char(q) {
          CodeOfChar(q);
        }
      }
    }
  }

  // The laws of the codec.

  lemma {:induction false} LossyEmitsScalars(s: seq<octet>)
    ensures AllScalars(Lossy(s)) && |Lossy(s)| <= |s|
    decreases |s|
  {
    hide Value, IsUtf8Char, Viable;
    if s != [] {
      var k := ViableLength(s, 0);
      if k < |s| {
        LossyEmitsScalars(s[k + 1..]);
        if IsUtf8Char(s[..k + 1]) {
          CharIsEncode(s[..k + 1]);
        }
      }
    }
  }

  lemma LossyOfChar(q: seq<octet>, rest: seq<octet>)
    requires IsUtf8Char(q)
    ensures Lossy(q + rest) == [Value(q)] + Lossy(rest)
  {
    assert q != [];
    hide Value, IsUtf8Char;
    assert (q + rest)[..|q|] == q && (q + rest)[|q|..] == rest;
    CharLength(q + rest, |q|);
  }

  /** Decoding what was encoded returns the scalar values, and the encoding is valid UTF-8. */
  lemma {:induction false} DecodeOfEncode(cs: seq<codepoint>)
    requires AllScalars(cs)
    ensures Lossy(EncodeAll(cs)) == cs
    ensures Utf8Octets(EncodeAll(cs))
  {
    if cs != [] {
      var q, rest := Encode(cs[0]), EncodeAll(cs[1..]);
      EncodeIsChar(cs[0]);
      assert |q| > 0;
      hide IsUtf8Char, Value, Encode;
      DecodeOfEncode(cs[1..]);
      LossyOfChar(q, rest);
      assert (q + rest)[..|q|] == q && (q + rest)[|q|..] == rest;
    }
  }

  /** Encoding what was decoded returns the octets, for valid UTF-8 and for nothing else. */
  lemma EncodeOfDecode(s: seq<octet>)
    ensures AllScalars(Lossy(s))
    ensures EncodeAll(Lossy(s)) == s <==> Utf8Octets(s)
  {
    LossyEmitsScalars(s);
    if Utf8Octets(s) {
      EncodeOfValid(s);
    }
    DecodeOfEncode(Lossy(s));
  }

  lemma EncodeAllFront(c: codepoint, cs: seq<codepoint>)
    requires IsScalar(c) && AllScalars(cs)
    ensures AllScalars([c] + cs) && EncodeAll([c] + cs) == Encode(c) + EncodeAll(cs)
  {
    hide Encode;
    assert ([c] + cs)[1..] == cs;
  }

  lemma EmptyText()
    ensures Lossy([]) == [] && EncodeAll([]) == []
  {}

  lemma {:induction false} EncodeOfValid(s: seq<octet>)
    requires Utf8Octets(s) && AllScalars(Lossy(s))
    ensures EncodeAll(Lossy(s)) == s
    decreases |s|
  {
    hide IsUtf8Char, Value, Encode, Lossy, EncodeAll, AllScalars, IsScalar;
    if s == [] {
      EmptyText();
    } else {
      var n :| 0 < n <= |s| && IsUtf8Char(s[..n]) && Utf8Octets(s[n..]);
      hide *;
      var q, rest := s[..n], s[n..];
      CharIsEncode(q);
      LossyOfChar(q, rest);
      LossyEmitsScalars(rest);
      assert s == q + rest;
      EncodeOfValid(rest);
      EncodeAllFront(Value(q), Lossy(rest));
    }
  }

  // The routines.

  /** validUtf8 */
  method ValidUtf8(s: seq<octet>) returns (valid: bool)
    ensures valid <==> Utf8Octets(s)
  {
    hide StateInfo, Category, Goto, NextState, Utf8Octets;
    AcceptsGrammar(s);
    RunEmpty(0);
    var iter, state := 0, S_STRT;
    while iter < |s|
      invariant iter <= |s| && state == Run(0, s[..iter]) && state != 8
    {
      TableMeaning(state, s[iter]);
      assert s[..iter + 1][..iter] == s[..iter];
      state := NextState(state, s[iter]);
      iter := iter + 1;
      if state == S_RJCT {
        RunConcat(0, s[..iter], s[iter..]);
        assert s[..iter] + s[iter..] == s;
        return false;
      }
    }
    assert s[..iter] == s;
    return state == 0;
  }

  /** What one turn of the decoding loop emits. */
  lemma DecodeStep(state: bv32, code: codepoint, s: seq<octet>, iter: nat)
    requires state < 8 && iter < |s|
    ensures var next := NextState(state, s[iter]);
            var code' := NextCode(state, s[iter], code);
            next <= 8 && DecodeFrom(state, code, s[iter..]) ==
              if next == S_STRT then [code'] + DecodeFrom(S_STRT, 0, s[iter + 1..])
              else if next == S_RJCT then [REPLACEMENT] + DecodeFrom(S_STRT, 0, s[iter + 1..])
              else DecodeFrom(next, code', s[iter + 1..])
  {
    TableMeaning(state, s[iter]);
    hide StateInfo, Category, Goto, NextState, NextCode, REPLACEMENT;
    assert s[iter..][1..] == s[iter + 1..];
  }

  /** done has been emitted, and done with what is still to come is the whole decoding. */
  ghost predicate Pending(s: seq<octet>, iter: nat, state: bv32, code: codepoint, done: seq<codepoint>) {
    iter <= |s| && state < 8 && done + DecodeFrom(state, code, s[iter..]) == Lossy(s)
  }

  lemma PendingStarts(s: seq<octet>)
    ensures Pending(s, 0, S_STRT, 0, [])
  {
    hide Lossy, NextCode, Goto;
    DecodesLossy([], s);
    RunEmpty(0);
    assert [] + s == s && s[0..] == s;
  }

  lemma PendingTurn(s: seq<octet>, iter: nat, state: bv32, code: codepoint, done: seq<codepoint>)
    requires Pending(s, iter, state, code, done) && iter < |s|
    ensures state < 8
    ensures var next := NextState(state, s[iter]);
            var code' := NextCode(state, s[iter], code);
            if next == S_STRT then Pending(s, iter + 1, S_STRT, 0, done + [code'])
            else if next == S_RJCT then Pending(s, iter + 1, S_STRT, 0, done + [REPLACEMENT])
            else Pending(s, iter + 1, next, code', done)
  {
    hide NextState, NextCode, Lossy, DecodeFrom, REPLACEMENT;
    DecodeStep(state, code, s, iter);
    var rest := DecodeFrom(S_STRT, 0, s[iter + 1..]);
    var code' := NextCode(state, s[iter], code);
    assert done + ([code'] + rest) == (done + [code']) + rest;
    assert done + ([REPLACEMENT] + rest) == (done + [REPLACEMENT]) + rest;
  }

  lemma PendingEnds(s: seq<octet>, state: bv32, code: codepoint, done: seq<codepoint>)
    requires Pending(s, |s|, state, code, done)
    ensures Lossy(s) == if state != S_STRT then done + [REPLACEMENT] else done
  {
    hide Lossy, REPLACEMENT;
    assert s[|s|..] == [];
  }

  /** fromUtf8 with a 32-bit result */
  method FromUtf8(s: seq<octet>) returns (result: seq<codepoint>)
    ensures result == Lossy(s)
  {
    hide *;
    PendingStarts(s);
    result := [];
    var iter, state, code: codepoint := 0, S_STRT, 0;
    while iter < |s|
      invariant 0 <= iter <= |s| && Pending(s, iter, state, code, result)
    {
      PendingTurn(s, iter, state, code, result);
      code := NextCode(state, s[iter], code);
      state := NextState(state, s[iter]);
      iter := iter + 1;
      if state == S_STRT {
        result := result + [code];
        code := 0;
      } else if state == S_RJCT {
        result := result + [REPLACEMENT];
        state := S_STRT;
        code := 0;
      }
    }
    PendingEnds(s, state, code, result);
    if state != S_STRT {
      result := result + [REPLACEMENT];
    }
  }
}
