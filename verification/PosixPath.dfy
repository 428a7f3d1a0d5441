/**
 * POSIX paths of 3rd_party/filesystem/filesystem.hpp: the text a path keeps, its decomposition, and
 * the two position functions behind its iterator. _prefixLength is 0 on POSIX.
 */
module PosixPath {

  const SEP: char := '/'

  /** std::isprint in the C locale. */
  predicate IsPrint(c: char) { ' ' <= c <= '~' }

  /** std::find for the separator: the first one at or after from, or the end. */
  function FindSep(p: string, from: nat): (k: nat)
    requires from <= |p|
    ensures from <= k <= |p|
    ensures forall j :: from <= j < k ==> p[j] != SEP
    ensures k < |p| ==> p[k] == SEP
    decreases |p| - from
  {
    if from == |p| || p[from] == SEP then from else FindSep(p, from + 1)
  }

  /** std::find backwards from i: the position just after the last separator before i, or 0. */
  function AfterSepBefore(p: string, i: nat): (k: nat)
    requires i <= |p|
    ensures k <= i
    ensures forall j :: k <= j < i ==> p[j] != SEP
    ensures k > 0 ==> p[k - 1] == SEP
  {
    if i == 0 || p[i - 1] == SEP then i else AfterSepBefore(p, i - 1)
  }

  /** Two separators followed by something else: the start of a network name. */
  predicate StartsNetwork(p: string) { |p| > 2 && p[0] == SEP && p[1] == SEP && p[2] != SEP }

  /** No adjacent separators, except the two in front of a network name. */
  predicate Collapsed(p: string) {
    forall i {:trigger p[i]} :: 0 < i < |p| && p[i - 1] == SEP && p[i] == SEP ==> i == 1 && StartsNetwork(p)
  }

  /** std::unique on separators: a separator is dropped when the last kept character is one. */
  function Squeeze(s: string): string {
    if s == "" then ""
    else
      var kept, c := Squeeze(s[..|s| - 1]), s[|s| - 1];
      if c == SEP && kept != "" && kept[|kept| - 1] == SEP then kept else kept + [c]
  }

  /** postprocess_path_with_format */
  function Postprocess(p: string): string {
    if StartsNetwork(p) then p[..2] + Squeeze(p[2..]) else Squeeze(p)
  }

  /** root_name_length */
  function RootNameLength(p: string): (n: nat)
    ensures n <= |p|
  {
    if StartsNetwork(p) && IsPrint(p[2]) then FindSep(p, 3) else 0
  }

  predicate HasRootDirectory(p: string) {
    |p| > RootNameLength(p) && p[RootNameLength(p)] == SEP
  }

  /** The position _root of an iterator. */
  function Root(p: string): (n: nat)
    ensures n <= |p|
  {
    if HasRootDirectory(p) then RootNameLength(p) else |p|
  }

  /** iterator::increment */
  function Increment(p: string, pos: nat): (i: nat)
    requires pos <= |p|
    ensures pos <= i <= |p| && (pos < |p| ==> pos < i)
  {
    if pos == |p| then pos
    else
      var fromStart := pos == 0;
      var i := pos + 1;
      if p[pos] == SEP then
        if i != |p| && p[i] == SEP then
          if fromStart && !(i + 1 != |p| && p[i + 1] == SEP) then FindSep(p, i + 1)
          else SkipSeps(p, i)
        else i
      else if fromStart && i != |p| && p[i] == ':' then i + 1
      else FindSep(p, i)
  }

  function SkipSeps(p: string, from: nat): (k: nat)
    requires from <= |p|
    ensures from <= k <= |p|
    decreases |p| - from
  {
    if from != |p| && p[from] == SEP then SkipSeps(p, from + 1) else from
  }

  /** iterator::decrement */
  function Decrement(p: string, pos: nat): (i: nat)
    requires pos <= |p|
    ensures i <= pos && (pos > 0 ==> i < pos)
  {
    if pos == 0 then 0
    else
      var i := pos - 1;
      if i != Root(p) && (pos != |p| || p[i] != SEP) then
        var k := AfterSepBefore(p, i);
        if k == 2 && p[0] == SEP && p[1] == SEP then 0 else k
      else i
  }

  /** operator++ */
  function Next(p: string, pos: nat): (i: nat)
    requires pos <= |p|
    ensures pos <= i <= |p| && (pos < |p| ==> pos < i)
  {
    Settle(p, Increment(p, pos))
  }

  /** The loop of operator++: step over a separator that is neither root nor trailing. */
  function Settle(p: string, pos: nat): (i: nat)
    requires pos <= |p|
    ensures pos <= i <= |p|
    decreases |p| - pos
  {
    if pos != |p| && pos != Root(p) && p[pos] == SEP && pos + 1 != |p| then Settle(p, pos + 1) else pos
  }

  /** updateCurrent: the text at a position. */
  function Element(p: string, pos: nat): string
    requires pos <= |p|
  {
    if pos == |p| || (pos != 0 && p[pos] == SEP && pos != Root(p) && pos + 1 == |p|) then ""
    else Postprocess(p[pos..Increment(p, pos)])
  }

  // What the constructor does to a text.

  lemma {:induction false} SqueezeIsCollapsed(s: string)
    ensures forall i {:trigger Squeeze(s)[i]} ::
      0 < i < |Squeeze(s)| ==> !(Squeeze(s)[i - 1] == SEP && Squeeze(s)[i] == SEP)
    ensures s != "" ==> Squeeze(s) != "" && Squeeze(s)[0] == s[0]
  {
    if s != "" {
      SqueezeIsCollapsed(s[..|s| - 1]);
    }
  }

  lemma {:induction false} SqueezeKeeps(s: string)
    requires forall i {:trigger s[i]} :: 0 < i < |s| ==> !(s[i - 1] == SEP && s[i] == SEP)
    ensures Squeeze(s) == s
  {
    if s != "" {
      var t := s[..|s| - 1];
      SqueezeKeeps(t);
      assert t + [s[|s| - 1]] == s;
    }
  }

  /** The names between separators; a last "" stands for a trailing separator. */
  function Words(s: string): (w: seq<string>)
    ensures |w| > 0
  {
    if s == "" then [""]
    else
      WithChar(Words(s[..|s| - 1]), s[|s| - 1])
  }

  function WithChar(w: seq<string>, c: char): (w': seq<string>)
    requires |w| > 0
    ensures |w'| > 0
  {
    var last := |w| - 1;
    if c != SEP then w[..last] + [w[last] + [c]] else if w[last] == "" then w else w + [""]
  }

  lemma WordsBack(t: string, c: char)
    ensures Words(t + [c]) == WithChar(Words(t), c)
  {
    assert (t + [c])[..|t|] == t;
  }

  lemma WordsAfterSep(t: string)
    requires t != "" && t[|t| - 1] == SEP
    ensures WithChar(Words(t), SEP) == Words(t)
  {
    hide Words;
    var front := t[..|t| - 1];
    WordsBack(front, SEP);
    assert t == front + [SEP];
  }

  lemma SqueezeBack(t: string, c: char)
    ensures Squeeze(t + [c]) == var kept := Squeeze(t);
      if c == SEP && kept != "" && kept[|kept| - 1] == SEP then kept else kept + [c]
  {
    assert (t + [c])[..|t|] == t;
  }

  lemma SqueezeEmpty()
    ensures Squeeze("") == ""
  {}

  /** Collapsing changes no name, and neither the first nor the last character. */
  lemma {:induction false} SqueezeKeepsWords(s: string)
    ensures Words(Squeeze(s)) == Words(s)
    ensures s != "" ==> Squeeze(s) != "" && Squeeze(s)[0] == s[0] && Squeeze(s)[|Squeeze(s)| - 1] == s[|s| - 1]
  {
    hide Squeeze, Words, WithChar;
    SqueezeEmpty();
    if s != "" {
      var t, c := s[..|s| - 1], s[|s| - 1];
      assert s == t + [c];
      SqueezeKeepsWords(t);
      SqueezeBack(t, c);
      WordsBack(t, c);
      var kept := Squeeze(t);
      if c == SEP && kept != "" && kept[|kept| - 1] == SEP {
        WordsAfterSep(kept);
      } else {
        WordsBack(kept, c);
      }
    }
  }

  /** A constructed path has the names of its text, and two separators in front of a host if the text has them. */
  lemma PostprocessKeepsNames(p: string)
    ensures |p| > 2 && p[..2] == "//" && p[2] != '/' ==>
      Postprocess(p)[..2] == "//" && Words(Postprocess(p)[2..]) == Words(p[2..])
    ensures !(|p| > 2 && p[..2] == "//" && p[2] != '/') ==> Words(Postprocess(p)) == Words(p)
  {
    NetworkText(p);
    PostprocessParts(p);
    hide *;
    if StartsNetwork(p) {
      SqueezeKeepsWords(p[2..]);
    } else {
      SqueezeKeepsWords(p);
    }
  }

  lemma NetworkText(p: string)
    ensures StartsNetwork(p) <==> |p| > 2 && p[..2] == "//" && p[2] != '/'
  {
    if |p| > 2 {
      assert p[..2] == [p[0], p[1]];
    }
  }

  lemma PostprocessParts(p: string)
    ensures StartsNetwork(p) ==> |p| > 2 && Postprocess(p)[..2] == p[..2] && Postprocess(p)[2..] == Squeeze(p[2..])
    ensures !StartsNetwork(p) ==> Postprocess(p) == Squeeze(p)
  {
    hide Squeeze;
  }

  /** Every path is collapsed, and a collapsed text is kept as it is. */
  lemma PostprocessCollapses(p: string)
    ensures Collapsed(Postprocess(p))
    ensures Postprocess(p) == p <==> Collapsed(p)
  {
    if StartsNetwork(p) {
      SqueezeIsCollapsed(p[2..]);
      var q := Postprocess(p);
      assert q[0] == SEP && q[1] == SEP && q[2] == p[2];
      if Collapsed(p) {
        forall i {:trigger p[2..][i]} | 0 < i < |p[2..]| ensures !(p[2..][i - 1] == SEP && p[2..][i] == SEP) {
          assert p[2..][i] == p[i + 2] && p[2..][i - 1] == p[i + 1];
        }
        SqueezeKeeps(p[2..]);
        assert p == p[..2] + p[2..];
      }
    } else {
      SqueezeIsCollapsed(p);
      if Collapsed(p) {
        SqueezeKeeps(p);
      }
    }
  }

  predicate NoSep(f: string) { forall i :: 0 <= i < |f| ==> f[i] != SEP }

  /** A text without separators is kept, and has no root. */
  lemma NoSepIsKept(f: string)
    requires NoSep(f)
    ensures Postprocess(f) == f && RootNameLength(f) == 0 && !HasRootDirectory(f)
  {
    PostprocessCollapses(f);
  }
}
