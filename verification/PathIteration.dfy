/** Walking over a path: filesystem.hpp, lines 3213-3370. */
module PathIteration {
  import opened PosixPath

  /** The only shape at which the iterator also splits after a ':'. */
  predicate DriveLike(p: string) { |p| > 2 && p[0] != SEP && p[1] == ':' && p[2] != SEP }

  /**
   * Where the elements of a collapsed path begin: at the front, at the root directory, after a
   * separator that is not part of the network prefix, and at a trailing separator.
   */
  predicate Starts(p: string, k: nat)
    requires k < |p|
  {
    || k == 0
    || k == Root(p)
    || (p[k - 1] == SEP && p[k] != SEP && !(k == 2 && StartsNetwork(p)))
    || (k == |p| - 1 && p[k] == SEP)
  }

  /** A place an iterator can stand: an element or the end. */
  predicate Stop(p: string, k: nat) { k == |p| || (k < |p| && Starts(p, k)) }

  /** The iterator's ++ goes to the next element. */
  lemma NextIsSuccessor(p: string, i: nat)
    requires Collapsed(p) && i < |p| && Starts(p, i) && !DriveLike(p)
    ensures Stop(p, Next(p, i))
    ensures forall k :: i < k < Next(p, i) ==> !Starts(p, k)
  {
    var j := Increment(p, i);
    SettleOnce(p, i, j);
    if i == 0 && StartsNetwork(p) {
      assert j == FindSep(p, 2);
    } else if p[i] == SEP {
      assert i + 1 < |p| ==> p[i + 1] != SEP;
      assert j == i + 1;
    } else if i == 0 && |p| > 1 && p[1] == ':' {
      assert j == 2;
    } else {
      assert j == FindSep(p, i + 1);
    }
  }

  lemma SettleOnce(p: string, i: nat, j: nat)
    requires Collapsed(p) && i < j <= |p|
    ensures Settle(p, j) ==
      if j != |p| && j != Root(p) && p[j] == SEP && j + 1 != |p| then j + 1 else j
  {
    if j != |p| && j != Root(p) && p[j] == SEP && j + 1 != |p| {
      assert p[j + 1] != SEP;
    }
  }

  /** The iterator's -- goes to the previous element. */
  lemma DecrementIsPredecessor(p: string, i: nat)
    requires Collapsed(p) && 0 < i <= |p| && Stop(p, i)
    ensures Starts(p, Decrement(p, i))
    ensures forall k :: Decrement(p, i) < k < i ==> !Starts(p, k)
  {
  }

  lemma IncrementOverName(p: string, k: nat)
    requires Collapsed(p) && !DriveLike(p) && k < |p| && Starts(p, k) && p[k] != SEP
    ensures Increment(p, k) == FindSep(p, k + 1)
  {
    if k == 0 && |p| > 2 && p[1] == ':' {
      assert p[2] == SEP;
      assert FindSep(p, 1) == 2;
    }
  }

  /** An element that does not begin with a separator is the whole name that begins there. */
  lemma ElementIsName(p: string, k: nat)
    requires Collapsed(p) && !DriveLike(p) && k < |p| && Starts(p, k) && p[k] != SEP
    ensures var e := Element(p, k);
            && k + |e| <= |p| && e == p[k..k + |e|] && NoSep(e)
            && (k + |e| == |p| || p[k + |e|] == SEP)
  {
    hide *;
    var i := FindSep(p, k + 1);
    IncrementOverName(p, k);
    ElementAt(p, k);
    NameText(p, k, i);
    NoSepIsKept(p[k..i]);
  }

  lemma ElementAt(p: string, k: nat)
    requires k < |p| && p[k] != SEP
    ensures Element(p, k) == Postprocess(p[k..Increment(p, k)])
  {
    hide Postprocess, Increment;
  }

  lemma NameText(p: string, k: nat, i: nat)
    requires k < i <= |p| && p[k] != SEP && forall j :: k < j < i ==> p[j] != SEP
    ensures NoSep(p[k..i])
  {}

  /** An element that begins with a separator is the network name, the root directory or a trailing separator. */
  lemma ElementIsRoot(p: string, k: nat)
    requires Collapsed(p) && k < |p| && Starts(p, k) && p[k] == SEP
    ensures Element(p, k) == if k == 0 && StartsNetwork(p) then p[..FindSep(p, 2)]
                             else if k == Root(p) then [SEP] else ""
    ensures k != 0 && k != Root(p) ==> k == |p| - 1
  {
    if k == 0 && StartsNetwork(p) {
      var e := p[..FindSep(p, 2)];
      assert p[0..Increment(p, 0)] == e;
      assert Collapsed(e) by {
        assert forall j :: 0 <= j < |e| ==> e[j] == p[j];
      }
      PostprocessCollapses(e);
    } else if k == Root(p) {
      assert p[k..Increment(p, k)] == [SEP];
      PostprocessCollapses([SEP]);
    }
  }

  // Runs of the iterator.

  /** The positions that ++ visits from i to the end. */
  function Forward(p: string, i: nat): seq<nat>
    requires i <= |p|
    decreases |p| - i
  {
    if i == |p| then [] else [i] + Forward(p, Next(p, i))
  }

  /** The positions that -- visits from i to the front. */
  function Backward(p: string, i: nat): seq<nat>
    requires i <= |p|
    decreases i
  {
    if i == 0 then [] else [Decrement(p, i)] + Backward(p, Decrement(p, i))
  }

  function Reversed<T>(s: seq<T>): seq<T> {
    if |s| == 0 then [] else Reversed(s[1..]) + [s[0]]
  }

  /** -- undoes ++ from every element. */
  lemma DecrementUndoesNext(p: string, i: nat)
    requires Collapsed(p) && i < |p| && Starts(p, i) && !DriveLike(p)
    ensures Decrement(p, Next(p, i)) == i
  {
    NextIsSuccessor(p, i);
    DecrementIsPredecessor(p, Next(p, i));
  }

  /** ++ undoes -- from every stop. */
  lemma NextUndoesDecrement(p: string, i: nat)
    requires Collapsed(p) && 0 < i <= |p| && Stop(p, i) && !DriveLike(p)
    ensures Next(p, Decrement(p, i)) == i
  {
    DecrementIsPredecessor(p, i);
    NextIsSuccessor(p, Decrement(p, i));
  }

  lemma {:induction false} BackwardReverses(p: string, i: nat)
    requires Collapsed(p) && !DriveLike(p) && Stop(p, i)
    ensures Backward(p, |p|) == Reversed(Forward(p, i)) + Backward(p, i)
    decreases |p| - i
  {
    hide Next, Decrement, Starts;
    if i < |p| {
      var n := Next(p, i);
      assert Stop(p, n) by { NextIsSuccessor(p, i); }
      DecrementUndoesNext(p, i);
      BackwardReverses(p, n);
      assert ([i] + Forward(p, n))[1..] == Forward(p, n);
    }
  }

  /** On a drive-like path ++ stops after the ':' and -- never does. */
  lemma DriveLikeSplits(p: string)
    requires Collapsed(p) && DriveLike(p)
    ensures Next(p, 0) == 2
    ensures forall i :: 0 < i <= |p| ==> Decrement(p, i) != 2
  {
    assert Root(p) == |p|;
  }

  lemma {:induction false} InReversed<T>(s: seq<T>, x: T)
    ensures x in Reversed(s) <==> x in s
  {
    if |s| > 0 {
      InReversed(s[1..], x);
      assert s == [s[0]] + s[1..];
    }
  }

  lemma {:induction false} BackwardAvoids(p: string, i: nat, x: nat)
    requires i <= |p| && forall k :: 0 < k <= |p| ==> Decrement(p, k) != x
    ensures x !in Backward(p, i)
    decreases i
  {
    if i > 0 {
      BackwardAvoids(p, Decrement(p, i), x);
    }
  }

  /** The backward walk is the forward walk reversed, for every path that is not drive-like and for no other. */
  lemma WalksAgree(p: string)
    requires Collapsed(p)
    ensures Backward(p, |p|) == Reversed(Forward(p, 0)) <==> !DriveLike(p)
  {
    if DriveLike(p) {
      DriveLikeSplits(p);
      BackwardAvoids(p, |p|, 2);
      InReversed(Forward(p, 0), 2);
      assert Forward(p, 0) == [0] + ([2] + Forward(p, Next(p, 2)));
      assert 2 in Forward(p, 0);
    } else {
      BackwardReverses(p, 0);
      assert Reversed(Forward(p, 0)) + [] == Reversed(Forward(p, 0));
    }
  }

  /** The forward walk of a path that is not drive-like visits every element once, in order. */
  lemma {:induction false} ForwardVisits(p: string, i: nat, k: nat)
    requires Collapsed(p) && !DriveLike(p) && Stop(p, i)
    ensures k in Forward(p, i) <==> i <= k < |p| && Starts(p, k)
    decreases |p| - i
  {
    if i < |p| {
      NextIsSuccessor(p, i);
      hide Next, Starts;
      ForwardVisits(p, Next(p, i), k);
    }
  }

  lemma AfterNext(p: string, i: nat)
    requires i <= |p|
    ensures Collapsed(p) && !DriveLike(p) && i < |p| && Starts(p, i) ==>
      Stop(p, Next(p, i)) && forall k :: i < k < Next(p, i) ==> !Starts(p, k)
  {
    if Collapsed(p) && !DriveLike(p) && i < |p| && Starts(p, i) {
      NextIsSuccessor(p, i);
    }
  }

  lemma BeforeDecrement(p: string, i: nat)
    requires i <= |p|
    ensures Collapsed(p) && 0 < i && Stop(p, i) ==>
      Starts(p, Decrement(p, i)) && forall k :: Decrement(p, i) < k < i ==> !Starts(p, k)
  {
    if Collapsed(p) && 0 < i && Stop(p, i) {
      DecrementIsPredecessor(p, i);
    }
  }

  /** path::iterator: a position and the text of the element there. */
  class PathIterator {
    const path: string
    var iter: nat
    var current: string

    predicate Valid()
      reads this
    {
      iter <= |path| && current == Element(path, iter)
    }

    constructor (path: string, pos: nat)
      requires pos <= |path|
      ensures Valid() && this.path == path && iter == pos
    {
      this.path, iter := path, pos;
      current := if pos != |path| then Element(path, pos) else "";
    }

    method Increase()
      requires Valid()
      modifies this
      ensures Valid() && iter == Next(path, old(iter))
      ensures Collapsed(path) && !DriveLike(path) && old(iter) < |path| && Starts(path, old(iter)) ==>
        Stop(path, iter) && old(iter) < iter && forall k :: old(iter) < k < iter ==> !Starts(path, k)
    {
      AfterNext(path, iter);
      hide Starts, Stop, Next, DriveLike, Collapsed;
      iter := Increment(path, iter);
      ghost var start := iter;
      while iter != |path| && iter != Root(path) && path[iter] == SEP && iter + 1 != |path|
        invariant start <= iter <= |path| && Settle(path, start) == Settle(path, iter)
      {
        iter := iter + 1;
      }
      current := Element(path, iter);
    }

    method Decrease()
      requires Valid()
      modifies this
      ensures Valid() && iter == Decrement(path, old(iter))
      ensures Collapsed(path) && 0 < old(iter) && Stop(path, old(iter)) ==>
        iter < old(iter) && Starts(path, iter) && forall k :: iter < k < old(iter) ==> !Starts(path, k)
    {
      BeforeDecrement(path, iter);
      hide Starts, Stop, Decrement, Collapsed;
      iter := Decrement(path, iter);
      current := Element(path, iter);
    }
  }

  /** The element texts at a list of positions. */
  function Texts(p: string, positions: seq<nat>): seq<string> {
    if |positions| == 0 then []
    else [if positions[0] <= |p| then Element(p, positions[0]) else ""] + Texts(p, positions[1..])
  }

  lemma {:induction false} TextsConcat(p: string, a: seq<nat>, b: seq<nat>)
    ensures Texts(p, a + b) == Texts(p, a) + Texts(p, b)
  {
    hide Element;
    if |a| == 0 {
      assert a + b == b;
    } else {
      TextsConcat(p, a[1..], b);
      TextsFront(p, a);
      TextsFront(p, a + b);
      assert (a + b)[1..] == a[1..] + b;
      hide Texts;
    }
  }

  lemma {:induction false} TextsFront(p: string, a: seq<nat>)
    requires |a| > 0
    ensures Texts(p, a) == Texts(p, [a[0]]) + Texts(p, a[1..])
  {
    hide Element;
    assert [a[0]][1..] == [];
  }

  lemma {:induction false} TextsReversed(p: string, a: seq<nat>)
    ensures Texts(p, Reversed(a)) == Reversed(Texts(p, a))
  {
    hide Element;
    if |a| > 0 {
      TextsReversed(p, a[1..]);
      TextsConcat(p, Reversed(a[1..]), [a[0]]);
      assert Texts(p, [a[0]]) == [Texts(p, a)[0]];
    }
  }

  /** Collect the elements with ++ from begin to end, and again with -- from end to begin. */
  method Walk(p: string) returns (there: seq<string>, back: seq<string>)
    ensures there == Texts(p, Forward(p, 0)) && back == Texts(p, Backward(p, |p|))
    ensures Collapsed(p) && !DriveLike(p) ==> back == Reversed(there)
  {
    hide Element, Next, Decrement;
    var it := new PathIterator(p, 0);
    there := [];
    while it.iter != |p|
      invariant it.Valid() && it.path == p && fresh(it)
      invariant there + Texts(p, Forward(p, it.iter)) == Texts(p, Forward(p, 0))
      decreases |p| - it.iter
    {
      there := there + [it.current];
      it.Increase();
    }
    it := new PathIterator(p, |p|);
    back := [];
    while it.iter != 0
      invariant it.Valid() && it.path == p && fresh(it)
      invariant back + Texts(p, Backward(p, it.iter)) == Texts(p, Backward(p, |p|))
      decreases it.iter
    {
      it.Decrease();
      back := back + [it.current];
    }
    if Collapsed(p) {
      WalksAgree(p);
      TextsReversed(p, Forward(p, 0));
    }
  }
}
