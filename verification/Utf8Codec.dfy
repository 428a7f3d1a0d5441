/** The UTF-8 routines of 3rd_party/filesystem/filesystem.hpp, lines 1420-1640. */
module Utf8Codec {
  import opened Unicode

  const S_STRT: bv32 := 0
  const S_RJCT: bv32 := 8

  /** The array utf8_state_info. */
  function StateInfo(i: bv32): bv32 {
    if i == 0 then 0x11111111 else if i == 1 then 0x11111111 else
    if i == 2 then 0x77777777 else if i == 3 then 0x77777777 else
    if i == 4 then 0x88888888 else if i == 5 then 0x88888888 else
    if i == 6 then 0x88888888 else if i == 7 then 0x88888888 else
    if i == 8 then 0x22222299 else if i == 9 then 0x22222222 else
    if i == 10 then 0x22222222 else if i == 11 then 0x22222222 else
    if i == 12 then 0x3333333a else if i == 13 then 0x33433333 else
    if i == 14 then 0x9995666b else if i == 15 then 0x99999999 else
    if i == 16 then 0x88888880 else if i == 17 then 0x22818108 else
    if i == 18 then 0x88888881 else if i == 19 then 0x88888882 else
    if i == 20 then 0x88888884 else if i == 21 then 0x88888887 else
    if i == 22 then 0x88888886 else if i == 23 then 0x82218108 else
    if i == 24 then 0x82281108 else if i == 25 then 0x88888888 else
    if i == 26 then 0x88888883 else if i == 27 then 0x88888885 else
    0
  }

  function Category(fragment: octet): (r: bv32)
    ensures r < 16
  {
    if fragment < 128 then 0
    else (StateInfo(((fragment >> 3) & 0xf) as bv32) >> (((fragment & 7) << 2) as bv32)) & 0xf
  }

  /** consumeUtf8Fragment: the new state. */
  function NextState(state: bv32, fragment: octet): bv32
    requires state <= 8
  {
    if state == S_RJCT then S_RJCT
    else (StateInfo(Category(fragment) + 16) >> (state << 2)) & 0xf
  }

  /** consumeUtf8Fragment: the new codepoint. */
  function NextCode(state: bv32, fragment: octet, code: codepoint): codepoint {
    if state != 0 then (code << 6) | (fragment as codepoint & 0x3f)
    else (0xff >> Category(fragment)) & fragment as codepoint
  }

  // What the packed table says.

  function CategoryByRange(b: octet): bv32 {
    if b <= 0x7F then 0
    else if b <= 0x8F then 1
    else if b <= 0x9F then 7
    else if b <= 0xBF then 8
    else if b <= 0xC1 then 9
    else if b <= 0xDF then 2
    else if b == 0xE0 then 10
    else if b == 0xED then 4
    else if b <= 0xEF then 3
    else if b == 0xF0 then 11
    else if b <= 0xF3 then 6
    else if b == 0xF4 then 5
    else 9
  }

  lemma CategoryMeaning(b: octet)
    ensures Category(b) == CategoryByRange(b)
  {}

  /** The transition relation as octet ranges; state 8 rejects. */
  function Goto(state: bv32, b: octet): (next: bv32)
    ensures next <= 8
  {
    if state == 0 then
      if b <= 0x7F then 0
      else if 0xC2 <= b <= 0xDF then 1
      else if b == 0xE0 then 3
      else if b == 0xED then 4
      else if 0xE1 <= b <= 0xEF then 2
      else if b == 0xF0 then 5
      else if 0xF1 <= b <= 0xF3 then 6
      else if b == 0xF4 then 7
      else 8
    else if state == 1 && IsTail(b) then 0
    else if state == 2 && IsTail(b) then 1
    else if state == 3 && 0xA0 <= b <= 0xBF then 1
    else if state == 4 && 0x80 <= b <= 0x9F then 1
    else if state == 5 && 0x90 <= b <= 0xBF then 2
    else if state == 6 && IsTail(b) then 2
    else if state == 7 && 0x80 <= b <= 0x8F then 2
    else 8
  }

  lemma RowMeaning(state: bv32, b: octet, c: bv32)
    requires state < 8 && c == CategoryByRange(b)
    ensures (StateInfo(c + 16) >> (state << 2)) & 0xf == Goto(state, b)
  {
    var row := StateInfo(c + 16);
    assert row & 0xf == Goto(0, b);
    assert (row >> 4) & 0xf == Goto(1, b);
    assert (row >> 8) & 0xf == Goto(2, b);
    assert (row >> 12) & 0xf == Goto(3, b);
    assert (row >> 16) & 0xf == Goto(4, b);
    assert (row >> 20) & 0xf == Goto(5, b);
    assert (row >> 24) & 0xf == Goto(6, b);
    assert (row >> 28) & 0xf == Goto(7, b);
  }

  lemma TableMeaning(state: bv32, b: octet)
    requires state <= 8
    ensures NextState(state, b) == Goto(state, b)
  {
    CategoryMeaning(b);
    if state < 8 {
      RowMeaning(state, b, CategoryByRange(b));
    }
    hide Category, CategoryByRange, StateInfo, Goto;
  }

  /** The state after a run over s. */
  function Run(state: bv32, s: seq<octet>): (last: bv32)
    requires state <= 8
    ensures last <= 8
  {
    if s == [] then state else Goto(Run(state, s[..|s| - 1]), s[|s| - 1])
  }

  lemma {:induction false} RunConcat(state: bv32, s: seq<octet>, t: seq<octet>)
    requires state <= 8
    ensures Run(state, s + t) == Run(Run(state, s), t)
    ensures Run(state, s) == 8 ==> Run(state, s + t) == 8
  {
    hide Goto;
    if t == [] {
      assert s + t == s;
    } else {
      var t' := t[..|t| - 1];
      RunConcat(state, s, t');
      assert (s + t)[..|s + t| - 1] == s + t';
      assert Goto(8, t[|t| - 1]) == 8 by { Stuck(t[|t| - 1]); }
    }
  }

  lemma Stuck(b: octet)
    ensures Goto(8, b) == 8
  {}

  /** p is the beginning of a character, but not all of it. */
  ghost predicate Viable(p: seq<octet>) { exists t :: t != [] && IsUtf8Char(p + t) }

  /** The automaton has been inside a character since the first octet of p. */
  predicate Inside(p: seq<octet>) {
    p != [] && (|p| == 1 || Inside(p[..|p| - 1])) && 1 <= Run(0, p) <= 7
  }

  // The automaton against the productions of the grammar, production by production.

  function Goto2(a: octet, b: octet): bv32 { Goto(Goto(0, a), b) }

  function Goto3(a: octet, b: octet, c: octet): bv32 { Goto(Goto2(a, b), c) }

  function Goto4(a: octet, b: octet, c: octet, d: octet): bv32 { Goto(Goto3(a, b, c), d) }

  predicate Within(state: bv32) { 1 <= state <= 7 }

  lemma Production2(a: octet, b: octet)
    requires Within(Goto(0, a))
    ensures Goto2(a, b) == 0 <==> IsChar2(a, b)
  {}

  lemma Production3(a: octet, b: octet, c: octet)
    requires Within(Goto(0, a)) && Within(Goto2(a, b))
    ensures Goto3(a, b, c) == 0 <==> IsChar3(a, b, c)
  {}

  lemma Production4(a: octet, b: octet, c: octet, d: octet)
    requires Within(Goto(0, a)) && Within(Goto2(a, b)) && Within(Goto3(a, b, c))
    ensures Goto4(a, b, c, d) == 0 <==> IsChar4(a, b, c, d)
    ensures !Within(Goto4(a, b, c, d))
  {}

  // Every octet of a character but the last keeps the automaton inside.
  lemma Char2Within(a: octet, b: octet)
    requires IsChar2(a, b)
    ensures Within(Goto(0, a))
  {}

  lemma Char3Within(a: octet, b: octet, c: octet)
    requires IsChar3(a, b, c)
    ensures Within(Goto(0, a)) && Within(Goto2(a, b))
  {}

  lemma Char4Within(a: octet, b: octet, c: octet, d: octet)
    requires IsChar4(a, b, c, d)
    ensures Within(Goto(0, a)) && Within(Goto2(a, b)) && Within(Goto3(a, b, c))
  {}

  lemma InsideShape(p: seq<octet>)
    ensures |p| == 1 ==> Run(0, p) == Goto(0, p[0]) && (Inside(p) <==> Within(Goto(0, p[0])))
    ensures |p| == 2 ==> Run(0, p) == Goto2(p[0], p[1])
    ensures |p| == 2 ==> (Inside(p) <==> Within(Goto(0, p[0])) && Within(Goto2(p[0], p[1])))
    ensures |p| == 3 ==> Run(0, p) == Goto3(p[0], p[1], p[2])
    ensures |p| == 3 ==> (Inside(p) <==>
      Within(Goto(0, p[0])) && Within(Goto2(p[0], p[1])) && Within(Goto3(p[0], p[1], p[2])))
    ensures Inside(p) ==> |p| <= 3
  {
    hide Goto;
    if |p| == 1 {
      assert p[..0] == [];
    } else if |p| > 1 {
      InsideShape(p[..|p| - 1]);
      if |p| == 4 && Inside(p[..3]) {
        Production4(p[0], p[1], p[2], p[3]);
      }
    }
  }

  /** One octet completes a character exactly when the automaton returns to its start state. */
  lemma Completes(p: seq<octet>, b: octet)
    requires p == [] || Inside(p)
    ensures Goto(Run(0, p), b) == 0 <==> IsUtf8Char(p + [b])
  {
    InsideShape(p);
    if |p| == 0 {
    } else {
      hide Goto, IsChar2, IsChar3, IsChar4;
      if |p| == 1 {
        Production2(p[0], b);
      } else if |p| == 2 {
        Production3(p[0], p[1], b);
      } else {
        Production4(p[0], p[1], p[2], b);
      }
    }
  }

  lemma CharPrefixInside(q: seq<octet>, k: nat)
    requires IsUtf8Char(q) && 0 < k < |q|
    ensures Inside(q[..k])
  {
    hide Goto, IsChar2, IsChar3, IsChar4;
    InsideShape(q[..k]);
    if |q| == 2 {
      Char2Within(q[0], q[1]);
    } else if |q| == 3 {
      Char3Within(q[0], q[1], q[2]);
    } else {
      Char4Within(q[0], q[1], q[2], q[3]);
    }
  }

  lemma InsideNext(p: seq<octet>, b: octet)
    requires p == [] || Inside(p)
    ensures Inside(p + [b]) <==> Within(Goto(Run(0, p), b))
    ensures Run(0, p + [b]) == Goto(Run(0, p), b)
  {
    hide Goto;
    assert (p + [b])[..|p|] == p;
  }

  /** Octets that complete a character from an inner state. */
  function Finish(state: bv32): seq<octet> {
    if state == 1 then [0x80]
    else if state == 2 || state == 4 then [0x80, 0x80]
    else if state == 3 then [0xA0, 0x80]
    else if state == 5 then [0x90, 0x80, 0x80]
    else [0x80, 0x80, 0x80]
  }

  lemma FinishStep(state: bv32)
    requires Within(state)
    ensures |Finish(state)| > 0
    ensures var next := Goto(state, Finish(state)[0]);
            if |Finish(state)| == 1 then next == 0
            else Within(next) && Finish(next) == Finish(state)[1..]
  {}

  lemma {:induction false} FinishWorks(p: seq<octet>)
    requires Inside(p)
    ensures IsUtf8Char(p + Finish(Run(0, p)))
    decreases |Finish(Run(0, p))|
  {
    hide Goto, Finish, IsUtf8Char;
    var state := Run(0, p);
    var f := Finish(state);
    FinishStep(state);
    if |f| == 1 {
      Completes(p, f[0]);
      assert f == [f[0]];
    } else {
      InsideNext(p, f[0]);
      FinishWorks(p + [f[0]]);
      assert p + f == p + [f[0]] + f[1..];
    }
  }

  /** The automaton is inside a character exactly while some continuation completes one. */
  lemma InsideIsViable(p: seq<octet>)
    requires p != []
    ensures Inside(p) <==> Viable(p)
  {
    hide Goto, IsUtf8Char, Inside;
    if Inside(p) {
      FinishWorks(p);
      assert Finish(Run(0, p)) != [];
    }
    if Viable(p) {
      var t :| t != [] && IsUtf8Char(p + t);
      CharPrefixInside(p + t, |p|);
      assert (p + t)[..|p|] == p;
    }
  }

  /** The length of the longest prefix of s that begins a character without completing it. */
  ghost function ViableLength(s: seq<octet>, k: nat): (n: nat)
    requires k <= |s|
    ensures k <= n <= |s|
    decreases |s| - k
  {
    if k < |s| && Viable(s[..k + 1]) then ViableLength(s, k + 1) else k
  }

  lemma {:induction false} ViableLengthStops(s: seq<octet>, k: nat)
    requires k <= |s| && (k == 0 || Inside(s[..k]))
    ensures var n := ViableLength(s, k); (n == 0 || Inside(s[..n])) && (n < |s| ==> !Inside(s[..n + 1]))
    decreases |s| - k
  {
    hide Inside, Viable;
    if k < |s| {
      InsideIsViable(s[..k + 1]);
      if Viable(s[..k + 1]) {
        ViableLengthStops(s, k + 1);
      }
    }
  }

  lemma {:induction false} ViableLengthSkips(s: seq<octet>, k: nat)
    requires k <= |s| && (k == 0 || Inside(s[..k]))
    ensures ViableLength(s, 0) == ViableLength(s, k)
  {
    hide Viable, Run;
    if k > 0 {
      assert s[..k][..k - 1] == s[..k - 1];
      ViableLengthSkips(s, k - 1);
      InsideIsViable(s[..k]);
    }
  }

  lemma CharIsNotInside(q: seq<octet>)
    requires IsUtf8Char(q)
    ensures Run(0, q) == 0 && !Inside(q)
  {
    assert |q| > 0;
    hide Goto, IsUtf8Char;
    var p := q[..|q| - 1];
    if p != [] {
      CharPrefixInside(q, |p|);
    }
    Completes(p, q[|q| - 1]);
    assert q == p + [q[|q| - 1]];
  }

  /** A character at the front of s is its longest viable prefix and one octet. */
  lemma CharLength(s: seq<octet>, n: nat)
    requires 0 < n <= |s| && IsUtf8Char(s[..n])
    ensures ViableLength(s, 0) == n - 1
  {
    hide Goto, IsUtf8Char, Inside, Viable;
    if n > 1 {
      CharPrefixInside(s[..n], n - 1);
      assert s[..n][..n - 1] == s[..n - 1];
    }
    ViableLengthSkips(s, n - 1);
    CharIsNotInside(s[..n]);
    InsideIsViable(s[..n]);
  }

  /** The automaton accepts exactly the language of the RFC 3629 grammar. */
  lemma {:induction false} AcceptsGrammar(s: seq<octet>)
    ensures Run(0, s) == 0 <==> Utf8Octets(s)
    decreases |s|
  {
    hide Goto, IsUtf8Char, Inside, Viable, Run;
    if s == [] {
      assert Run(0, s) == 0 by { RunEmpty(0); }
    } else {
      var k := ViableLength(s, 0);
      ViableLengthStops(s, 0);
      if k < |s| {
        var p, q, rest := s[..k], s[..k + 1], s[k + 1..];
        assert q == p + [s[k]] && s == q + rest;
        RunConcat(0, q, rest);
        AfterViable(p, s[k]);
        AcceptsGrammar(rest);
      } else {
        assert s[..k] == s;
        InsideRun(s);
      }
      if Utf8Octets(s) {
        var n :| 0 < n <= |s| && IsUtf8Char(s[..n]) && Utf8Octets(s[n..]);
        CharLength(s, n);
      }
    }
  }

  lemma RunEmpty(state: bv32)
    requires state <= 8
    ensures Run(state, []) == state
  {}

  lemma InsideRun(p: seq<octet>)
    requires Inside(p)
    ensures Run(0, p) != 0 && Run(0, p) != 8
  {}

  /** The octet after the longest viable prefix completes a character or is rejected. */
  lemma AfterViable(p: seq<octet>, b: octet)
    requires p == [] || Inside(p)
    requires !Inside(p + [b])
    ensures Run(0, p + [b]) == if IsUtf8Char(p + [b]) then 0 else 8
  {
    hide Goto, IsUtf8Char, Inside;
    Completes(p, b);
    InsideNext(p, b);
  }
}
