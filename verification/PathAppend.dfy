/** Taking a path apart and putting it together: filesystem.hpp, lines 2491-2524, 2867-2905 and 2973-3022. */
module PathAppend {
  import opened PosixPath
  import opened PathIteration

  /** root_name */
  function RootName(p: string): string { Postprocess(p[..RootNameLength(p)]) }

  function RootPathLength(p: string): nat { RootNameLength(p) + if HasRootDirectory(p) then 1 else 0 }

  predicate HasRelativePath(p: string) { RootPathLength(p) < |p| }

  /** compare(p) == 0; the root names are compared over the shorter length on one side only. */
  predicate SamePath(a: string, b: string) {
    var n, m := RootNameLength(a), RootNameLength(b);
    && a[..n] == b[..if n < m then n else m]
    && (HasRootDirectory(a) <==> HasRootDirectory(b))
    && a[RootPathLength(a)..] == b[RootPathLength(b)..]
  }

  /** The comparison is equality unless the left root name is shorter than the right one. */
  lemma SamePathMeaning(a: string, b: string)
    requires RootNameLength(a) >= RootNameLength(b)
    ensures SamePath(a, b) <==> a == b
  {
    var n, k := RootNameLength(a), RootPathLength(a);
    if SamePath(a, b) {
      assert n == RootNameLength(b);
      RootParts(a);
      RootParts(b);
      hide RootNameLength, StartsNetwork;
      assert a[..n] == b[..n];
      assert a == a[..k] + a[k..] && b == b[..k] + b[k..];
    }
  }

  lemma RootParts(p: string)
    ensures RootPathLength(p) <= |p|
    ensures p[..RootPathLength(p)] == p[..RootNameLength(p)] + if HasRootDirectory(p) then [SEP] else []
  {
    hide RootNameLength;
  }

  /** The paths that compare equal to no other path. */
  predicate ComparesExactly(a: string) {
    RootNameLength(a) == 0 && a != "" && (a[0] != SEP || StartsNetwork(a))
  }

  lemma ExactFromLeft(a: string, b: string)
    requires Collapsed(a) && Collapsed(b) && ComparesExactly(a)
    ensures SamePath(a, b) <==> a == b
  {
    if RootNameLength(b) == 0 {
      SamePathMeaning(a, b);
    } else if StartsNetwork(a) {
      RootDirectoryText(a, b);
    } else {
      assert a[0..] == a;
    }
  }

  /** Behind a root directory no path goes on with a separator. */
  lemma RootDirectoryText(a: string, b: string)
    requires Collapsed(a) && Collapsed(b) && StartsNetwork(a) && RootNameLength(a) == 0 && RootNameLength(b) > 0
    ensures !SamePath(a, b)
  {
    var m := RootNameLength(b);
    assert a[1..][0] == SEP;
    if HasRootDirectory(b) && m + 1 < |b| {
      assert b[m + 1..][0] == b[m + 1];
      assert b[m] == SEP && b[m + 1] != SEP;
    }
  }

  /** Every other path compares equal to one with a longer root name. */
  lemma ComparesEqualToAnother(a: string) returns (b: string)
    requires Collapsed(a) && !ComparesExactly(a)
    ensures Collapsed(b) && SamePath(a, b) && a != b
  {
    var n := RootNameLength(a);
    if n == 0 {
      b := "//h" + a;
      HostAdded(a, b);
    } else {
      b := a[..n] + "x" + a[n..];
      NameExtended(a, b);
    }
  }

  lemma HostAdded(a: string, b: string)
    requires Collapsed(a) && RootNameLength(a) == 0 && (a == "" || (a[0] == SEP && !StartsNetwork(a)))
    requires b == "//h" + a
    ensures Collapsed(b) && SamePath(a, b)
  {
    assert b[0] == SEP && b[1] == SEP && b[2] == 'h';
    assert forall k :: 3 <= k < |b| ==> b[k] == a[k - 3];
    forall i {:trigger b[i]} | 0 < i < |b| && b[i - 1] == SEP && b[i] == SEP ensures i == 1 && StartsNetwork(b) {}
    assert FindSep(b, 3) == 3;
    assert b[3..] == a;
    assert a != "" ==> b[4..] == a[1..];
  }

  lemma NameExtended(a: string, b: string)
    requires Collapsed(a) && RootNameLength(a) > 0
    requires b == a[..RootNameLength(a)] + "x" + a[RootNameLength(a)..]
    ensures Collapsed(b) && SamePath(a, b)
  {
    var n := RootNameLength(a);
    assert b[..n] == a[..n] && b[n + 1..] == a[n..];
    assert n < |a| ==> b[n + 2..] == a[n + 1..];
    LongerRootName(a, b, n);
    hide RootNameLength, StartsNetwork, Collapsed;
  }

  lemma LongerRootName(a: string, b: string, n: nat)
    requires Collapsed(a) && RootNameLength(a) == n > 0
    requires n < |b| && b[..n] == a[..n] && b[n] == 'x' && b[n + 1..] == a[n..]
    ensures Collapsed(b) && RootNameLength(b) == n + 1
  {
    assert forall k :: 0 <= k < n ==> b[k] == a[k] by {
      assert forall k :: 0 <= k < n ==> b[..n][k] == a[..n][k];
    }
    forall k | n < k < |b| ensures b[k] == a[k - 1] {
      assert b[n + 1..][k - n - 1] == a[n..][k - n - 1];
    }
    forall i {:trigger b[i]} | 0 < i < |b| && b[i - 1] == SEP && b[i] == SEP ensures i == 1 && StartsNetwork(b) {}
    NoSepUpTo(b, 3, n + 1);
  }

  lemma NoSepUpTo(p: string, from: nat, k: nat)
    requires from <= k <= |p| && (forall j :: from <= j < k ==> p[j] != SEP) && (k < |p| ==> p[k] == SEP)
    ensures FindSep(p, from) == k
  {}

  /** Comparing equal is being equal for all right-hand sides if and only if the left path is of that kind. */
  lemma SamePathExact(a: string)
    requires Collapsed(a)
    ensures (forall b :: Collapsed(b) ==> (SamePath(a, b) <==> a == b)) <==>
      RootNameLength(a) == 0 && a != "" && (a[0] != SEP || StartsNetwork(a))
  {
    hide SamePath, Collapsed, RootNameLength, StartsNetwork;
    if ComparesExactly(a) {
      forall b | Collapsed(b) ensures SamePath(a, b) <==> a == b {
        ExactFromLeft(a, b);
      }
    } else {
      var b := ComparesEqualToAnother(a);
    }
  }

  /** filename */
  function Filename(p: string): string {
    if HasRelativePath(p) then Element(p, Decrement(p, |p|)) else ""
  }

  /** parent_path */
  function ParentPath(p: string): string {
    if HasRelativePath(p) then
      var iter := Decrement(p, |p|);
      Postprocess(p[..if iter > RootPathLength(p) && p[iter] != SEP then iter - 1 else iter])
    else p
  }

  /** The loop of operator/=: append the elements of p from pos on, separated. */
  function AppendElements(path: string, p: string, pos: nat, first: bool): string
    requires pos <= |p|
    decreases |p| - pos
  {
    if pos == |p| then path
    else
      var path' := if !first && !(path != "" && path[|path| - 1] == SEP) then path + [SEP] else path;
      AppendElements(path' + Element(p, pos), p, Next(p, pos), false)
  }

  /** operator/= */
  function Divided(path: string, p: string): string {
    if p == "" then
      if path != "" && path[|path| - 1] != SEP && path[|path| - 1] != ':' then path + [SEP] else path
    else if (HasRootDirectory(p) && (path != RootName(path) || p != "/"))
            || (RootNameLength(p) > 0 && !SamePath(RootName(p), RootName(path))) then p
    else
      var path' :=
        if HasRootDirectory(p) then RootName(path)
        else if (!HasRootDirectory(path) && HasRootDirectory(path)) || (HasRelativePath(path) && Filename(path) != "") then path + [SEP]
        else path;
      AppendElements(path', p, if RootNameLength(p) > 0 then Next(p, 0) else 0, true)
  }

  // The quotient as one text.

  /** path, with the separator that /= puts after a file name. */
  function Base(path: string): string { if HasRelativePath(path) && Filename(path) != "" then path + [SEP] else path }

  /** base and a relative text, which gets a separator after a drive-like front. */
  function Appended(base: string, f: string): string {
    if DriveLike(f) then base + f[..2] + [SEP] + f[2..] else base + f
  }

  /** What path / p is, without a walk over the elements of p. */
  function Quotient(path: string, p: string): string {
    if p == "" then
      if path != "" && path[|path| - 1] != SEP && path[|path| - 1] != ':' then path + [SEP] else path
    else if HasRootDirectory(p) then
      if p == "/" && path == RootName(path) then path + "/" else p
    else if RootNameLength(p) > 0 then
      if SamePath(p, RootName(path)) then Base(path) else p
    else Appended(Base(path), p)
  }

  predicate Relative(p: string) { p != "" && RootNameLength(p) == 0 && !HasRootDirectory(p) }

  lemma AppendTurn(path: string, p: string, pos: nat, first: bool)
    requires pos < |p|
    ensures AppendElements(path, p, pos, first) ==
      AppendElements((if first || (path != "" && path[|path| - 1] == SEP) then path else path + [SEP]) + Element(p, pos),
                     p, Next(p, pos), false)
  {
    hide Element, Next;
  }

  lemma AppendEnd(path: string, p: string, first: bool)
    ensures AppendElements(path, p, |p|, first) == path
  {}

  /** After a name the loop appends the rest of the text. */
  lemma {:induction false} AppendRest(acc: string, p: string, j: nat)
    requires Collapsed(p) && Relative(p) && 0 < j <= |p| && p[j - 1] != SEP && (j < |p| ==> p[j] == SEP)
    requires acc != "" && acc[|acc| - 1] != SEP
    ensures AppendElements(acc, p, if j + 1 < |p| then j + 1 else j, false) == acc + p[j..]
    decreases |p| - j, 0
  {
    hide AppendElements, Element, Next, Collapsed, Relative;
    if j == |p| {
      AppendEnd(acc, p, false);
      assert p[j..] == "";
    } else if j + 1 == |p| {
      TrailingElement(p);
      AppendTurn(acc, p, j, false);
      AppendEnd(acc + [SEP] + "", p, false);
      assert p[j..] == [SEP];
    } else {
      assert p[j + 1] != SEP by { NoPairInside(p, j); }
      AppendFrom(acc, p, j + 1);
      assert p[j..] == [SEP] + p[j + 1..];
    }
  }

  /** At a name the loop appends a separator and the rest of the text. */
  lemma {:induction false} AppendFrom(acc: string, p: string, i: nat)
    requires Collapsed(p) && Relative(p) && 0 < i < |p| && p[i] != SEP
    requires acc != "" && acc[|acc| - 1] != SEP
    ensures AppendElements(acc, p, i, false) == acc + [SEP] + p[i..]
    decreases |p| - i, 1
  {
    hide AppendElements, Element, Next, Collapsed, Relative;
    var j := FindSep(p, i + 1);
    NameAt(p, i);
    AppendTurn(acc, p, i, false);
    assert (acc + [SEP] + p[i..j])[|acc| + 1 + (j - i) - 1] == p[i..j][j - i - 1] == p[j - 1];
    AppendRest(acc + [SEP] + p[i..j], p, j);
    assert p[i..] == p[i..j] + p[j..];
  }

  lemma TrailingElement(p: string)
    requires Relative(p) && |p| > 1 && p[|p| - 1] == SEP
    ensures Element(p, |p| - 1) == "" && Next(p, |p| - 1) == |p|
  {}

  lemma NoPairInside(p: string, j: nat)
    requires Collapsed(p) && Relative(p) && j + 1 < |p| && p[j] == SEP
    ensures p[j + 1] != SEP
  {}

  lemma NameAt(p: string, i: nat)
    requires Collapsed(p) && Relative(p) && i < |p| && p[i] != SEP && (i == 0 ==> !DriveLike(p))
    ensures var j := FindSep(p, i + 1);
      Element(p, i) == p[i..j] && p[j - 1] != SEP && Next(p, i) == (if j + 1 < |p| then j + 1 else j)
  {
    hide *;
    var j := FindSep(p, i + 1);
    NameIncrement(p, i);
    ElementAt(p, i);
    NameText(p, i, j);
    NoSepIsKept(p[i..j]);
    NameNext(p, i, j);
  }

  lemma NameIncrement(p: string, i: nat)
    requires i < |p| && p[i] != SEP && (i == 0 ==> !DriveLike(p))
    ensures Increment(p, i) == FindSep(p, i + 1)
  {
    if i == 0 && |p| > 1 && p[1] == ':' {
      assert |p| > 2 ==> p[2] == SEP && FindSep(p, 2) == 2;
    }
  }

  lemma NameNext(p: string, i: nat, j: nat)
    requires Collapsed(p) && Relative(p) && i < j <= |p| && j == Increment(p, i) && (j < |p| ==> p[j] == SEP)
    ensures Next(p, i) == if j + 1 < |p| then j + 1 else j
  {
    SettleOnce(p, i, j);
    hide Increment, Collapsed, Settle, RootNameLength;
  }

  lemma DriveLikeElement(p: string)
    requires DriveLike(p) && Relative(p)
    ensures Element(p, 0) == p[..2] && Next(p, 0) == 2
  {
    assert Increment(p, 0) == 2 && p[0..2] == p[..2];
    assert NoSep(p[..2]);
    NoSepIsKept(p[..2]);
  }

  lemma AppendDriveLike(base: string, p: string)
    requires Collapsed(p) && Relative(p) && DriveLike(p)
    ensures AppendElements(base, p, 0, true) == base + p[..2] + [SEP] + p[2..]
  {
    DriveLikeElement(p);
    hide AppendElements, Element, Next, Collapsed, Relative;
    AppendTurn(base, p, 0, true);
    assert (base + p[..2])[|base| + 1] == p[..2][1] == ':';
    AppendFrom(base + p[..2], p, 2);
  }

  lemma RelativeStart(p: string)
    requires Relative(p)
    ensures p != "" && p[0] != SEP
  {
    hide RootNameLength;
  }

  lemma FirstName(p: string) returns (j: nat)
    requires Collapsed(p) && Relative(p) && !DriveLike(p)
    ensures 0 < j <= |p| && p[j - 1] != SEP && (j < |p| ==> p[j] == SEP)
    ensures Element(p, 0) == p[..j] && Next(p, 0) == if j + 1 < |p| then j + 1 else j
  {
    hide *;
    RelativeStart(p);
    j := FindSep(p, 1);
    NameAt(p, 0);
    assert p[0..j] == p[..j];
  }

  lemma Halves(base: string, p: string, j: nat)
    requires 0 < j <= |p|
    ensures (base + p[..j]) + p[j..] == base + p
    ensures (base + p[..j])[|base| + j - 1] == p[j - 1]
  {}

  lemma AppendPlain(base: string, p: string)
    requires Collapsed(p) && Relative(p) && !DriveLike(p)
    ensures AppendElements(base, p, 0, true) == base + p
  {
    assert p != "";
    hide *;
    var j := FirstName(p);
    AppendTurn(base, p, 0, true);
    Halves(base, p, j);
    AppendRest(base + p[..j], p, j);
  }

  /** Appending the elements of a relative path one by one is appending its text. */
  lemma AppendWhole(base: string, p: string)
    requires Collapsed(p) && Relative(p)
    ensures AppendElements(base, p, 0, true) == Appended(base, p)
  {
    hide AppendElements, Collapsed, Relative;
    if DriveLike(p) {
      AppendDriveLike(base, p);
    } else {
      AppendPlain(base, p);
    }
  }

  /** operator/= as a whole: the loop over elements is one concatenation, in every branch. */
  lemma QuotientMeaning(path: string, p: string)
    requires Collapsed(p)
    ensures Divided(path, p) == Quotient(path, p)
  {
    if Relative(p) {
      AppendWhole(Base(path), p);
      hide RootName, SamePath, AppendElements, HasRelativePath, Filename, Appended;
    } else if p == "" {
    } else if HasRootDirectory(p) {
      if p == "/" && path == RootName(path) {
        RootElement();
        hide RootName, SamePath;
      }
    } else {
      assert RootNameLength(p) == |p|;
      assert Next(p, 0) == |p|;
      PostprocessCollapses(p);
      assert p[..|p|] == p;
      hide SamePath, HasRelativePath, Filename;
    }
  }

  lemma RootElement()
    ensures RootNameLength("/") == 0 && Element("/", 0) == "/" && Next("/", 0) == 1
  {
    PostprocessCollapses("/");
  }

  predicate NoPairs(s: string) { forall i {:trigger s[i]} :: 0 < i < |s| ==> !(s[i - 1] == SEP && s[i] == SEP) }

  lemma JoinCollapsed(a: string, b: string)
    requires Collapsed(a) && NoPairs(b) && (a != "" && b != "" ==> a[|a| - 1] != SEP || b[0] != SEP)
    ensures Collapsed(a + b)
  {
    var s := a + b;
    assert forall k :: |a| <= k < |s| ==> s[k] == b[k - |a|];
    forall i {:trigger s[i]} | 0 < i < |s| && s[i - 1] == SEP && s[i] == SEP ensures i == 1 && StartsNetwork(s) {
      if i < |a| {
        assert a[i - 1] == SEP && a[i] == SEP;
      }
    }
  }

  lemma TrailingFilename(p: string)
    requires HasRelativePath(p)
    ensures p[|p| - 1] == SEP ==> Filename(p) == ""
  {
    assert p[|p| - 1] == SEP ==> Decrement(p, |p|) == |p| - 1;
  }

  lemma BaseCollapsed(path: string)
    requires Collapsed(path)
    ensures Collapsed(Base(path))
  {
    if HasRelativePath(path) && Filename(path) != "" {
      TrailingFilename(path);
      JoinCollapsed(path, [SEP]);
    }
  }

  lemma AppendedCollapsed(base: string, p: string)
    requires Collapsed(base) && Collapsed(p) && Relative(p)
    ensures Collapsed(Appended(base, p))
  {
    assert p[0] != SEP;
    if DriveLike(p) {
      assert NoPairs(p[..2]) && p[..2][0] == p[0] && p[..2][1] == ':';
      JoinCollapsed(base, p[..2]);
      var front := base + p[..2];
      assert front[|front| - 1] == ':';
      JoinCollapsed(front, [SEP]);
      forall i {:trigger p[2..][i]} | 0 < i < |p[2..]| ensures !(p[2..][i - 1] == SEP && p[2..][i] == SEP) {
        assert p[2..][i] == p[i + 2] && p[2..][i - 1] == p[i + 1];
      }
      assert p[2..][0] == p[2];
      JoinCollapsed(front + [SEP], p[2..]);
    } else {
      JoinCollapsed(base, p);
    }
  }

  /** Dividing keeps a path collapsed, so it needs no second pass over the text. */
  lemma QuotientCollapsed(path: string, p: string)
    requires Collapsed(path) && Collapsed(p)
    ensures Collapsed(Quotient(path, p))
  {
    BaseCollapsed(path);
    if p == "" {
      if path != "" && path[|path| - 1] != SEP {
        JoinCollapsed(path, [SEP]);
      }
    } else if HasRootDirectory(p) {
      if p == "/" && path == RootName(path) && path != "" {
        RootNameEnds(path);
        JoinCollapsed(path, "/");
      }
    } else if RootNameLength(p) == 0 {
      AppendedCollapsed(Base(path), p);
    }
  }

  lemma RootNameEnds(path: string)
    requires path == RootName(path) && path != ""
    ensures path[|path| - 1] != SEP
  {
    var name := path[..RootNameLength(path)];
    assert !StartsNetwork(path) ==> name == "";
    assert Squeeze("") == "";
    SqueezeKeepsWords(name[2..]);
    assert Postprocess(name)[2..] == Squeeze(name[2..]);
  }

  /** Without a root directory a network name swallows what it is divided by. */
  lemma NetworkNameGlued(name: string, f: string)
    requires Collapsed(name) && RootNameLength(name) == |name| > 0
    requires f != "" && NoSep(f) && !DriveLike(f)
    ensures Divided(name, f) == name + f && RootNameLength(name + f) == |name + f|
  {
    NoSepIsKept(f);
    PostprocessCollapses(f);
    QuotientMeaning(name, f);
    var whole := name + f;
    forall j | 3 <= j < |whole| ensures whole[j] != SEP {
      assert FindSep(name, 3) == |name|;
      assert whole[j] == if j < |name| then name[j] else f[j - |name|];
    }
  }

  /** What stands before the appended name ends in a separator, unless it is empty or a bare network name. */
  lemma BaseEnds(path: string)
    requires Collapsed(path) && !(RootNameLength(path) == |path| > 0)
    ensures Base(path) == "" || Base(path)[|Base(path)| - 1] == SEP
    ensures Collapsed(Base(path)) && Base(path) != "//"
  {
    BaseCollapsed(path);
    if path != "" && path[|path| - 1] != SEP {
      hide Filename;
      FilenameNotEmpty(path);
    }
  }

  lemma NameIsLast(base: string, f: string)
    requires Collapsed(base) && base != "//" && (base == "" || base[|base| - 1] == SEP)
    requires f != "" && NoSep(f)
    ensures Collapsed(base + f) && HasRelativePath(base + f) && Decrement(base + f, |base + f|) == |base|
  {
    var w := base + f;
    assert forall k :: |base| <= k < |w| ==> w[k] == f[k - |base|];
    JoinCollapsed(base, f);
    LastSeparator(w, |w| - 1, |base|);
  }

  lemma LastSeparator(p: string, i: nat, k: nat)
    requires k <= i <= |p| && (k == 0 || p[k - 1] == SEP) && forall j :: k <= j < i ==> p[j] != SEP
    ensures AfterSepBefore(p, i) == k
  {}

  lemma LastOfDriveLike(base: string, f: string)
    requires Collapsed(base) && NoSep(f) && DriveLike(f)
    ensures Filename(Appended(base, f)) == f[2..]
  {
    var front, whole := base + f[..2] + [SEP], Appended(base, f);
    var k := |front|;
    NoSepIsKept(f);
    PostprocessCollapses(f);
    AppendedCollapsed(base, f);
    PrefixCollapsed(whole, k);
    PostprocessCollapses(front);
    assert whole[..k] == front && whole[k..] == f[2..] && front[k - 1] == SEP && front[k - 2] == ':';
    assert NoSep(f[2..]);
    NameIsLast(front, f[2..]);
    assert whole == front + f[2..];
    hide RootNameLength, Base, Decrement, Collapsed, Filename, HasRelativePath, Appended;
    PlainFilename(whole, k);
  }

  /** The name that a path is divided by is its last element, unless the path is a bare network name or the name is drive-like. */
  lemma FilenameOfDivided(path: string, f: string)
    requires Collapsed(path) && f != "" && NoSep(f)
    ensures Filename(Divided(path, f)) == f <==> !(RootNameLength(path) == |path| > 0) && !DriveLike(f)
  {
    if DriveLike(f) {
      DividedByPlain(path, f);
      BaseCollapsed(path);
      LastOfDriveLike(Base(path), f);
    } else if RootNameLength(path) == |path| > 0 {
      NetworkNameGlued(path, f);
      assert !HasRelativePath(path + f);
    } else {
      DividedByPlain(path, f);
      BaseEnds(path);
      NameIsLast(Base(path), f);
      var whole := Base(path) + f;
      assert whole[|Base(path)|..] == f;
      assert whole[0..] == whole;
      hide RootNameLength, Base, Decrement, Collapsed, Filename, HasRelativePath;
      PlainFilename(whole, |Base(path)|);
    }
  }

  // When a path is its parent path divided by its file name.

  /** The text of the last element, as it stands in the path. */
  function LastComponent(p: string): string { p[Decrement(p, |p|)..] }

  predicate Recombines(p: string) { Divided(ParentPath(p), Filename(p)) == p }

  lemma PrefixCollapsed(p: string, k: nat)
    requires Collapsed(p) && k <= |p| && (StartsNetwork(p) ==> k != 2)
    ensures Postprocess(p[..k]) == p[..k]
  {
    var q := p[..k];
    forall i {:trigger q[i]} | 0 < i < |q| && q[i - 1] == SEP && q[i] == SEP
      ensures i == 1 && StartsNetwork(q)
    {
      assert p[i - 1] == SEP && p[i] == SEP;
    }
    PostprocessCollapses(q);
  }

  lemma RootOfPrefix(p: string, k: nat)
    requires RootPathLength(p) <= k <= |p| && (StartsNetwork(p) ==> k != 2)
    requires HasRelativePath(p)
    ensures RootPathLength(p[..k]) == RootPathLength(p)
  {
    var q := p[..k];
    if StartsNetwork(p) && IsPrint(p[2]) {
      var n := FindSep(p, 3);
      assert p[n] == SEP;
      assert q[n] == SEP;
      assert FindSep(q, 3) == n;
    }
  }

  lemma FilenameNotEmpty(q: string)
    requires Collapsed(q) && HasRelativePath(q) && q[|q| - 1] != SEP
    ensures Filename(q) != ""
  {
    var d := Decrement(q, |q|);
    DecrementIsPredecessor(q, |q|);
    var t := q[d..Increment(q, d)];
    assert t != "";
    if StartsNetwork(t) {
      assert Postprocess(t)[..2] == t[..2];
    } else {
      SqueezeIsCollapsed(t);
    }
  }

  lemma TrailingSeparator(p: string)
    requires Collapsed(p) && HasRelativePath(p) && p[|p| - 1] == SEP
    ensures Recombines(p) <==> p[|p| - 2] != ':'
    ensures LastComponent(p) == [SEP]
  {
    var d := |p| - 1;
    assert Decrement(p, |p|) == d;
    assert Filename(p) == "";
    PrefixCollapsed(p, d);
    assert p == p[..d] + [SEP];
    assert p[d - 1] != SEP;
  }

  lemma NetworkComponent(p: string)
    requires Collapsed(p) && HasRelativePath(p) && StartsNetwork(p) && Decrement(p, |p|) == 0
    ensures Recombines(p)
  {
    DecrementIsPredecessor(p, |p|);
    assert Increment(p, 0) == FindSep(p, 2) == |p|;
    assert p[0..|p|] == p;
    PostprocessCollapses(p);
    assert ParentPath(p) == "";
  }

  lemma DividedByPlain(q: string, f: string)
    requires f != "" && NoSep(f)
    ensures Divided(q, f) == Appended(Base(q), f)
  {
    NoSepIsKept(f);
    PostprocessCollapses(f);
    QuotientMeaning(q, f);
    hide Divided, Base, Appended;
  }

  /** The parent path is everything before the last component, less a separator outside the root. */
  lemma ParentText(p: string, d: nat)
    requires Collapsed(p) && HasRelativePath(p) && p[|p| - 1] != SEP
    requires d == Decrement(p, |p|) && !(StartsNetwork(p) && d == 0)
    ensures d <= |p|
    ensures d > RootPathLength(p) ==> d > 0 && ParentPath(p) == p[..d - 1] && p[..d - 1] + [SEP] == p[..d]
    ensures d <= RootPathLength(p) ==> ParentPath(p) == p[..d]
  {
    LastStart(p, d);
    var k := if d > RootPathLength(p) then d - 1 else d;
    PrefixCollapsed(p, k);
    hide Postprocess, RootNameLength, StartsNetwork, Decrement;
  }

  lemma ParentShape(p: string, d: nat)
    requires Collapsed(p) && HasRelativePath(p) && p[|p| - 1] != SEP
    requires d == Decrement(p, |p|) && !(StartsNetwork(p) && d == 0)
    ensures d <= |p|
    ensures d > RootPathLength(p) ==> d > 0 && HasRelativePath(p[..d - 1]) && Filename(p[..d - 1]) != ""
    ensures d <= RootPathLength(p) ==> !HasRelativePath(p[..d])
  {
    LastStart(p, d);
    var k := if d > RootPathLength(p) then d - 1 else d;
    RootOfPrefix(p, k);
    if d > RootPathLength(p) {
      PrefixCollapsed(p, k);
      PostprocessCollapses(p[..k]);
      assert p[..k][k - 1] == p[d - 2];
      hide Postprocess, RootNameLength, Filename, StartsNetwork, Decrement;
      FilenameNotEmpty(p[..k]);
    }
  }

  /** Dividing what is before the last component by anything plain puts it in the component's place. */
  lemma DividedAt(p: string, d: nat, f: string)
    requires Collapsed(p) && HasRelativePath(p) && p[|p| - 1] != SEP
    requires d == Decrement(p, |p|) && !(StartsNetwork(p) && d == 0)
    requires f != "" && NoSep(f)
    ensures Divided(ParentPath(p), f) == Appended(p[..d], f)
  {
    ParentText(p, d);
    ParentShape(p, d);
    DividedByPlain(ParentPath(p), f);
    hide Divided, Appended, ParentPath, HasRelativePath, Filename, Collapsed, StartsNetwork, Decrement, NoSep;
  }

  lemma LastStart(p: string, d: nat)
    requires Collapsed(p) && HasRelativePath(p) && p[|p| - 1] != SEP
    requires d == Decrement(p, |p|) && !(StartsNetwork(p) && d == 0)
    ensures RootPathLength(p) <= d < |p| && NoSep(p[d..])
    ensures StartsNetwork(p) ==> d > 3
    ensures d > RootPathLength(p) ==> p[d - 1] == SEP && d - 1 > RootPathLength(p) && p[d - 2] != SEP
  {
    DecrementIsPredecessor(p, |p|);
  }

  /**
   * parent_path() / filename() is the path again exactly when: with a relative part, the path does
   * not end in ":/" and its last component is not drive-like; without one, it is empty or ends in a
   * separator or a ':'.
   */
  lemma Recombination(p: string)
    requires Collapsed(p)
    ensures Recombines(p) <==>
      if HasRelativePath(p) then !DriveLike(LastComponent(p)) && !(|p| > 1 && p[|p| - 2] == ':' && p[|p| - 1] == SEP)
      else p == "" || p[|p| - 1] == SEP || p[|p| - 1] == ':'
  {
    if !HasRelativePath(p) {
      assert ParentPath(p) == p && Filename(p) == "";
    } else if p[|p| - 1] == SEP {
      TrailingSeparator(p);
    } else {
      var d := Decrement(p, |p|);
      if StartsNetwork(p) && d == 0 {
        NetworkComponent(p);
      } else {
        OrdinaryComponent(p, d);
      }
    }
  }

  lemma LastIncrement(p: string, d: nat)
    requires d < |p| && NoSep(p[d..]) && !(d == 0 && DriveLike(p))
    ensures Increment(p, d) == |p|
  {
    forall j | d <= j < |p| ensures p[j] != SEP {
      assert p[d..][j - d] == p[j];
    }
  }

  lemma PlainFilename(p: string, d: nat)
    requires Collapsed(p) && HasRelativePath(p) && d == Decrement(p, |p|) && d < |p|
    requires NoSep(p[d..]) && !(d == 0 && DriveLike(p))
    ensures Filename(p) == p[d..] && p[d..] != ""
  {
    LastIncrement(p, d);
    NoSepIsKept(p[d..]);
    assert p[d..|p|] == p[d..];
    assert p[d] == p[d..][0];
  }

  lemma OrdinaryComponent(p: string, d: nat)
    requires Collapsed(p) && HasRelativePath(p) && p[|p| - 1] != SEP
    requires d == Decrement(p, |p|) && !(StartsNetwork(p) && d == 0)
    ensures Recombines(p) <==> !DriveLike(p[d..])
  {
    LastStart(p, d);
    if d == 0 && DriveLike(p) {
      hide *;
      DriveLikeFront(p);
      assert p[0..] == p;
    } else {
      hide *;
      LaterComponent(p, d, p[..d], p[d..]);
    }
  }

  lemma DriveLikeFront(p: string)
    requires Collapsed(p) && HasRelativePath(p) && p[|p| - 1] != SEP
    requires Decrement(p, |p|) == 0 && DriveLike(p)
    ensures !Recombines(p)
  {
    var f := p[0..2];
    assert !StartsNetwork(p);
    hide *;
    DriveLikeFilename(p);
    DividedAt(p, 0, f);
    assert Appended(p[..0], f) == f by { AppendedLength(p[..0], f); }
    RecombinesIf(p, f);
  }

  lemma LaterComponent(p: string, d: nat, front: string, f: string)
    requires Collapsed(p) && HasRelativePath(p) && p[|p| - 1] != SEP
    requires d == Decrement(p, |p|) && d < |p| && !(StartsNetwork(p) && d == 0) && !(d == 0 && DriveLike(p))
    requires front == p[..d] && f == p[d..] && NoSep(f)
    ensures Recombines(p) <==> !DriveLike(f)
  {
    assert p == front + f;
    hide *;
    PlainFilename(p, d);
    DividedAt(p, d, f);
    RecombinesIf(p, Appended(front, f));
    AppendedLength(front, f);
  }

  lemma AppendedLength(base: string, f: string)
    ensures |Appended(base, f)| == |base| + |f| + if DriveLike(f) then 1 else 0
    ensures !DriveLike(f) ==> Appended(base, f) == base + f
  {}

  lemma RecombinesIf(p: string, whole: string)
    requires Divided(ParentPath(p), Filename(p)) == whole
    ensures Recombines(p) <==> whole == p
  {
    hide Divided, ParentPath, Filename;
  }

  lemma DriveLikeFilename(p: string)
    requires Collapsed(p) && HasRelativePath(p) && DriveLike(p) && Decrement(p, |p|) == 0
    ensures Filename(p) == p[0..2] && NoSep(p[0..2]) && !DriveLike(p[0..2]) && p[0..2] != p
  {
    assert Increment(p, 0) == 2;
    NoSepIsKept(p[0..2]);
  }

  /** A path object: the text it keeps is always collapsed. */
  class Path {
    var path: string

    predicate Valid()
      reads this
    {
      Collapsed(path)
    }

    /** path(source), with std::unique and erase written out. */
    constructor (source: string)
      ensures Valid() && path == Postprocess(source)
    {
      var start := if StartsNetwork(source) then 2 else 0;
      var kept := "";
      ghost var tail := source[start..];
      for i := start to |source|
        invariant kept == Squeeze(tail[..i - start])
      {
        assert tail[..i + 1 - start][..i - start] == tail[..i - start];
        if !(kept != "" && kept[|kept| - 1] == SEP && source[i] == SEP) {
          kept := kept + [source[i]];
        }
      }
      assert tail[..|tail|] == tail;
      PostprocessCollapses(source);
      assert start == 0 ==> source[..start] + kept == kept;
      path := source[..start] + kept;
    }

    /** operator/= with the text of another path */
    method Divide(p: string)
      requires Valid() && Collapsed(p)
      modifies this
      ensures Valid() && path == Quotient(old(path), p)
    {
      hide Quotient, Collapsed, SamePath, RootName, Element, Next, Filename, HasRelativePath, HasRootDirectory,
        RootNameLength, AppendElements, RootPathLength, StartsNetwork, FindSep, Postprocess;
      QuotientMeaning(path, p);
      QuotientCollapsed(path, p);
      if p == "" {
        if path != "" && path[|path| - 1] != SEP && path[|path| - 1] != ':' {
          path := path + [SEP];
        }
        return;
      }
      if (HasRootDirectory(p) && (path != RootName(path) || p != "/"))
         || (RootNameLength(p) > 0 && !SamePath(RootName(p), RootName(path))) {
        path := p;
        return;
      }
      if HasRootDirectory(p) {
        path := RootName(path);
      } else if (!HasRootDirectory(path) && HasRootDirectory(path)) || (HasRelativePath(path) && Filename(path) != "") {
        path := path + [SEP];
      }
      var iter, first := 0, true;
      if RootNameLength(p) > 0 {
        iter := Next(p, iter);
      }
      while iter != |p|
        invariant iter <= |p| && AppendElements(path, p, iter, first) == Divided(old(path), p)
        decreases |p| - iter
      {
        AppendTurn(path, p, iter, first);
        if !first && !(path != "" && path[|path| - 1] == SEP) {
          path := path + [SEP];
        }
        first := false;
        path := path + Element(p, iter);
        iter := Next(p, iter);
      }
      AppendEnd(path, p, first);
    }
  }
}
