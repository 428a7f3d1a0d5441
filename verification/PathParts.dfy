/**
 * Paths from their parts, as one would write them: filesystem.hpp, lines 2491-2524, 2954-3022 and 3213-3323. What an
 * iterator visits are the parts.
 */
module PathParts {
  import opened PosixPath
  import opened PathIteration
  import opened PathAppend

  /** A path is a host or none, a root directory or none, names, and perhaps a separator at the end. */
  datatype Parts = Parts(host: string, root: bool, names: seq<string>, trailing: bool)

  predicate IsName(s: string) { s != "" && '/' !in s }

  ghost predicate Sensible(p: Parts) {
    && (forall name :: name in p.names ==> IsName(name))
    && (p.host == "" || (IsName(p.host) && 32 <= p.host[0] as int <= 126))
    && (p.trailing ==> |p.names| > 0)
    && (p.host != "" && |p.names| > 0 ==> p.root)
    && (p.host == "" && !p.root && |p.names| > 0 ==> !Colon(p.names[0]))
  }

  /** A name that is taken for a drive letter: a ':' after its first character and more behind it. */
  predicate Colon(name: string) { |name| > 2 && name[1] == ':' }

  function RootText(host: string, root: bool): string {
    (if host == "" then "" else "//" + host) + (if root then "/" else "")
  }

  function NamesText(names: seq<string>, trailing: bool): string {
    if |names| == 0 then ""
    else if |names| == 1 then names[0] + if trailing then "/" else ""
    else names[0] + "/" + NamesText(names[1..], trailing)
  }

  function Render(p: Parts): string { RootText(p.host, p.root) + NamesText(p.names, p.trailing) }

  function Elements(p: Parts): seq<string> {
    (if p.host == "" then [] else ["//" + p.host]) + (if p.root then ["/"] else []) + p.names
    + (if p.trailing then [""] else [])
  }

  ghost predicate AllNames(names: seq<string>) { forall name :: name in names ==> IsName(name) }

  // The text of the names.

  /** A text of names begins like a name, ends like one unless a separator trails, and has no pair of separators. */
  lemma {:induction false} NamesShape(names: seq<string>, trailing: bool)
    requires AllNames(names) && |names| > 0
    ensures var t := NamesText(names, trailing);
      && t != "" && t[0] != SEP && NoPairs(t) && (t[|t| - 1] == SEP <==> trailing)
  {
    var first := names[0];
    var rest := if |names| > 1 then "/" + NamesText(names[1..], trailing) else if trailing then "/" else "";
    var t := first + rest;
    assert IsName(first) && NamesText(names, trailing) == t;
    if |names| > 1 {
      NamesShape(names[1..], trailing);
    }
    assert NoPairs(rest);
    NameThenRest(first, rest);
    assert rest != "" ==> t[|t| - 1] == rest[|rest| - 1];
    assert rest == "" ==> t[|t| - 1] == first[|first| - 1];
  }

  lemma NameThenRest(first: string, rest: string)
    requires IsName(first) && NoPairs(rest)
    ensures NoPairs(first + rest) && (first + rest)[0] != SEP && first[|first| - 1] != SEP
  {
    var t := first + rest;
    assert forall k :: 0 <= k < |first| ==> t[k] == first[k];
    assert forall k :: |first| <= k < |t| ==> t[k] == rest[k - |first|];
  }

  lemma RootShape(host: string, root: bool)
    requires host == "" || (IsName(host) && 32 <= host[0] as int <= 126)
    ensures var t := RootText(host, root);
      && Collapsed(t) && t != "//" && (host != "" ==> StartsNetwork(t)) && (t != "" ==> (t[|t| - 1] == SEP <==> root))
      && RootNameLength(t) == (if host == "" then 0 else 2 + |host|) && (HasRootDirectory(t) <==> root)
  {
    var t := RootText(host, root);
    if host != "" {
      assert forall k :: 0 <= k < |host| ==> t[k + 2] == host[k];
      assert forall k :: 2 <= k < |host| + 2 ==> t[k] == host[k - 2];
      assert root ==> t[|host| + 2] == SEP;
      NoSepUpTo(t, 3, 2 + |host|);
    }
  }

  /** What begins like a host, but with a character that does not print, is none. */
  lemma HostMustPrint(t: string)
    requires |t| > 2 && t[..2] == "//" && t[2] != '/' && !(32 <= t[2] as int <= 126)
    ensures RootNameLength(t) == 0 && HasRootDirectory(t)
  {
    assert t[0] == t[..2][0];
  }

  /** What the path functions see of a path made of parts. */
  lemma RenderShape(p: Parts)
    requires Sensible(p)
    ensures var t := Render(p);
      && Collapsed(t) && RootNameLength(t) == (if p.host == "" then 0 else 2 + |p.host|) && (HasRootDirectory(t) <==> p.root)
      && RootPathLength(t) == |RootText(p.host, p.root)| && (HasRelativePath(t) <==> |p.names| > 0)
      && (t != "" ==> (t[|t| - 1] == SEP <==> p.trailing || (|p.names| == 0 && p.root)))
  {
    var root, names := RootText(p.host, p.root), NamesText(p.names, p.trailing);
    RootShape(p.host, p.root);
    if |p.names| > 0 {
      NamesShape(p.names, p.trailing);
      RootThenNames(root, names);
    } else {
      assert root + names == root;
    }
    hide Collapsed;
  }

  lemma RootThenNames(root: string, names: string)
    requires Collapsed(root) && root != "//" && NoPairs(names) && names != "" && names[0] != SEP
    requires root == "" || (root[|root| - 1] == SEP && HasRootDirectory(root) && |root| == RootPathLength(root))
    ensures var t := root + names;
      && Collapsed(t) && RootNameLength(t) == RootNameLength(root) && (HasRootDirectory(t) <==> HasRootDirectory(root))
      && t[|t| - 1] == names[|names| - 1]
  {
    var t := root + names;
    JoinCollapsed(root, names);
    assert forall k :: 0 <= k < |root| ==> t[k] == root[k];
    assert t[|root|] == names[0];
    if StartsNetwork(root) && IsPrint(root[2]) {
      NoSepUpTo(t, 3, |root| - 1);
    } else {
      assert |root| <= 1;
    }
  }

  // The walk over the parts.

  lemma NotDriveLike(p: Parts)
    requires Sensible(p)
    ensures !DriveLike(Render(p))
  {
    var t := Render(p);
    if p.host == "" && !p.root && |p.names| > 0 {
      var first := p.names[0];
      var rest := t[|first|..];
      assert IsName(first) && !Colon(first);
      assert t == first + rest;
      assert rest != "" ==> rest[0] == SEP;
      assert forall k :: 0 <= k < |first| ==> t[k] == first[k];
    }
  }

  /** One name: the element is the name, and the next one is behind the separator, or the separator itself at the end. */
  lemma WalkName(t: string, i: nat, name: string)
    requires Collapsed(t) && !DriveLike(t) && IsName(name) && i + |name| <= |t| && t[i..i + |name|] == name
    requires i + |name| == |t| || t[i + |name|] == SEP
    requires Root(t) <= i || Root(t) == |t|
    ensures Element(t, i) == name
    ensures var j := i + |name|; Next(t, i) == if j + 1 < |t| then j + 1 else j
  {
    var j := i + |name|;
    forall k | i <= k < j ensures t[k] != SEP {
      assert t[k] == t[i..j][k - i];
    }
    NameIncrement(t, i);
    NoSepUpTo(t, i + 1, j);
    ElementAt(t, i);
    NameText(t, i, j);
    NoSepIsKept(name);
    SettleOnce(t, i, j);
    hide Increment, Collapsed, Settle, Element, FindSep, Postprocess;
  }

  lemma WalkTrailing(t: string)
    requires |t| > 1 && t[|t| - 1] == SEP && Root(t) != |t| - 1
    ensures Element(t, |t| - 1) == "" && Next(t, |t| - 1) == |t|
  {}

  lemma {:induction false} WalkNames(t: string, i: nat, names: seq<string>, trailing: bool)
    requires Collapsed(t) && !DriveLike(t) && AllNames(names) && |names| > 0
    requires i <= |t| && t[i..] == NamesText(names, trailing) && (Root(t) <= i || Root(t) == |t|)
    ensures Texts(t, Forward(t, i)) == names + if trailing then [""] else []
    decreases |names|
  {
    hide *;
    var j := WalkFirst(t, i, names, trailing);
    if |names| > 1 {
      WalkNames(t, j + 1, names[1..], trailing);
      assert names == [names[0]] + names[1..];
    } else {
      WalkEnd(t, j, trailing);
      assert names == [names[0]];
    }
  }

  lemma WalkFirst(t: string, i: nat, names: seq<string>, trailing: bool) returns (j: nat)
    requires Collapsed(t) && !DriveLike(t) && AllNames(names) && |names| > 0
    requires i <= |t| && t[i..] == NamesText(names, trailing) && (Root(t) <= i || Root(t) == |t|)
    ensures i < j <= |t| && AllNames(names[1..])
    ensures |names| > 1 ==> j + 1 < |t| && t[j + 1..] == NamesText(names[1..], trailing)
    ensures |names| > 1 ==> Texts(t, Forward(t, i)) == [names[0]] + Texts(t, Forward(t, j + 1))
    ensures |names| == 1 ==> |t| == (if trailing then j + 1 else j) && (trailing ==> t[j] == SEP)
    ensures |names| == 1 ==> Texts(t, Forward(t, i)) == [names[0]] + Texts(t, Forward(t, j))
  {
    hide *;
    NamesFront(names);
    FrontName(t, i, names, trailing);
    WalkName(t, i, names[0]);
    ForwardTexts(t, i);
    j := i + |names[0]|;
    if |names| > 1 {
      NamesShape(names[1..], trailing);
    }
  }

  lemma NamesFront(names: seq<string>)
    requires AllNames(names) && |names| > 0
    ensures IsName(names[0]) && names[0] != "" && AllNames(names[1..])
  {}

  lemma WalkEnd(t: string, j: nat, trailing: bool)
    requires 0 < j <= |t| && |t| == (if trailing then j + 1 else j) && (trailing ==> t[j] == SEP && Root(t) != j)
    ensures Texts(t, Forward(t, j)) == if trailing then [""] else []
  {
    hide *;
    ForwardEnd(t);
    if trailing {
      WalkTrailing(t);
      ForwardTexts(t, j);
    }
  }

  lemma FrontName(t: string, i: nat, names: seq<string>, trailing: bool)
    requires |names| > 0 && i <= |t| && t[i..] == NamesText(names, trailing)
    ensures var j := i + |names[0]|;
      && j <= |t| && t[i..j] == names[0] && (j == |t| || t[j] == SEP)
      && (|names| > 1 ==> j + 1 <= |t| && t[j + 1..] == NamesText(names[1..], trailing))
      && (|names| == 1 ==> |t| == j + if trailing then 1 else 0)
      && (j == |t| <==> |names| == 1 && !trailing)
  {
    var n := |names[0]|;
    var u := t[i..];
    assert u[..n] == names[0];
    assert t[i..i + n] == u[..n];
    assert i + n < |t| ==> t[i + n] == u[n];
    if |names| > 1 {
      assert u[n + 1..] == NamesText(names[1..], trailing);
      assert t[i + n + 1..] == u[n + 1..];
    }
  }

  lemma ForwardTexts(t: string, i: nat)
    requires i < |t|
    ensures Texts(t, Forward(t, i)) == [Element(t, i)] + Texts(t, Forward(t, Next(t, i)))
  {
    hide Element, Next;
    assert ([i] + Forward(t, Next(t, i)))[1..] == Forward(t, Next(t, i));
  }

  lemma ForwardEnd(t: string)
    ensures Texts(t, Forward(t, |t|)) == []
  {}

  lemma WalkRoot(t: string, h: nat)
    requires Collapsed(t) && h < |t| && Root(t) == h && t[h] == SEP && (h == 0 ==> !StartsNetwork(t))
    ensures Element(t, h) == "/" && Next(t, h) == h + 1
  {
    assert h + 1 < |t| ==> t[h + 1] != SEP;
    assert Increment(t, h) == h + 1;
    assert t[h..h + 1] == "/";
    PostprocessCollapses("/");
    SettleOnce(t, h, h + 1);
  }

  lemma WalkHost(t: string, h: nat)
    requires Collapsed(t) && StartsNetwork(t) && IsPrint(t[2]) && h == RootNameLength(t)
    ensures h <= |t| && Element(t, 0) == t[..h] && Next(t, 0) == h
  {
    assert FindSep(t, 2) == FindSep(t, 3) == h;
    assert Increment(t, 0) == h && t[0..h] == t[..h];
    var e := t[..h];
    assert Collapsed(e) by {
      assert forall j :: 0 <= j < |e| ==> e[j] == t[j];
    }
    PostprocessCollapses(e);
    SettleOnce(t, 0, h);
  }

  /** Going through a path with ++ gives its parts: the host, the root directory, the names, and "" for a last separator. */
  lemma ElementsAreParts(p: Parts)
    requires Sensible(p)
    ensures Texts(Render(p), Forward(Render(p), 0)) == Elements(p)
  {
    var h := if p.host == "" then 0 else 2 + |p.host|;
    var n := h + if p.root then 1 else 0;
    Places(p, h, n);
    hide *;
    var t := Render(p);
    RenderShape(p);
    NotDriveLike(p);
    WalkPartsNames(p, n);
    WalkPartsRoot(p, h, n);
    if p.host != "" {
      HostOfRender(p);
      WalkHost(t, h);
      ForwardTexts(t, 0);
    }
    PartsOf(p);
  }

  lemma PartsOf(p: Parts)
    ensures Elements(p) == (if p.host == "" then [] else ["//" + p.host]) +
      ((if p.root then ["/"] else []) + (p.names + if p.trailing then [""] else []))
  {}

  /** Where the host and the root directory end. */
  lemma Places(p: Parts, h: nat, n: nat)
    requires Sensible(p) && h == (if p.host == "" then 0 else 2 + |p.host|) && n == h + if p.root then 1 else 0
    ensures var t := Render(p);
      && n <= |t| && t[n..] == NamesText(p.names, p.trailing) && (p.root ==> t[h] == SEP && Root(t) == h)
      && (!p.root ==> Root(t) == |t|) && (p.host != "" ==> RootNameLength(t) == h) && (h > 0 ==> h < |t| || n == h == |t|)
  {
    RenderShape(p);
    var t := Render(p);
    assert |RootText(p.host, p.root)| == n;
    assert t[n..] == NamesText(p.names, p.trailing);
    if p.root {
      assert RootText(p.host, p.root)[h] == SEP;
    }
    hide Collapsed, RootNameLength, NamesText;
  }

  lemma WalkPartsNames(p: Parts, n: nat)
    requires Sensible(p) && Collapsed(Render(p)) && !DriveLike(Render(p)) && n <= |Render(p)|
    requires Render(p)[n..] == NamesText(p.names, p.trailing) && (Root(Render(p)) <= n || Root(Render(p)) == |Render(p)|)
    ensures Texts(Render(p), Forward(Render(p), n)) == p.names + if p.trailing then [""] else []
  {
    if |p.names| > 0 {
      assert AllNames(p.names);
      hide *;
      WalkNames(Render(p), n, p.names, p.trailing);
    } else {
      assert n == |Render(p)| && !p.trailing;
      hide *;
      ForwardEnd(Render(p));
    }
  }

  lemma WalkPartsRoot(p: Parts, h: nat, n: nat)
    requires Sensible(p) && Collapsed(Render(p)) && n == h + (if p.root then 1 else 0) && n <= |Render(p)|
    requires p.root ==> Render(p)[h] == SEP && Root(Render(p)) == h
    requires h == 0 ==> p.host == ""
    ensures Texts(Render(p), Forward(Render(p), h)) == (if p.root then ["/"] else []) + Texts(Render(p), Forward(Render(p), n))
  {
    hide *;
    if p.root {
      RootIsNoHost(p);
      WalkRoot(Render(p), h);
      ForwardTexts(Render(p), h);
    }
  }

  lemma RootIsNoHost(p: Parts)
    requires Sensible(p) && p.root
    ensures p.host == "" ==> !StartsNetwork(Render(p))
  {
    if p.host == "" && |p.names| > 0 {
      NamesShape(p.names, p.trailing);
      assert Render(p)[1] == NamesText(p.names, p.trailing)[0];
    }
  }

  lemma HostOfRender(p: Parts)
    requires Sensible(p) && p.host != ""
    ensures var t := Render(p); StartsNetwork(t) && IsPrint(t[2]) && t[..2 + |p.host|] == "//" + p.host
  {
    var t := Render(p);
    assert t == ("//" + p.host) + t[2 + |p.host|..];
    assert t[2] == p.host[0];
  }

  // Taking the last part off.

  lemma {:induction false} SplitLast(names: seq<string>)
    requires |names| > 0
    ensures var init := names[..|names| - 1];
      && NamesText(names, true) == NamesText(names, false) + "/"
      && NamesText(names, false) == (if |init| == 0 then "" else NamesText(init, true)) + names[|names| - 1]
  {
    if |names| > 1 {
      SplitLast(names[1..]);
      assert names[1..][..|names| - 2] == names[..|names| - 1][1..];
    }
  }

  /** The path before the last name, with its separator, and the last name. */
  lemma LastName(p: Parts) returns (base: string)
    requires Sensible(p) && |p.names| > 0 && !p.trailing
    ensures var init, last := p.names[..|p.names| - 1], p.names[|p.names| - 1];
      && Render(p) == base + last && last != "" && NoSep(last) && Collapsed(base) && base != "//"
      && (base == "" || base[|base| - 1] == SEP)
      && base == Render(p.(names := init)) + (if |init| > 0 then "/" else "")
      && (|base| > |RootText(p.host, p.root)| <==> |init| > 0)
  {
    var before := p.(names := p.names[..|p.names| - 1], trailing := |p.names| > 1);
    BeforeIsSensible(p, before);
    hide *;
    base := Render(before);
    BeforeText(p, before);
    BeforeShape(before);
  }

  lemma BeforeText(p: Parts, before: Parts)
    requires |p.names| > 0 && !p.trailing
    requires before == p.(names := p.names[..|p.names| - 1], trailing := |p.names| > 1)
    ensures Render(p) == Render(before) + p.names[|p.names| - 1]
    ensures Render(before) == Render(p.(names := before.names)) + (if |before.names| > 0 then "/" else "")
    ensures |Render(before)| > |RootText(p.host, p.root)| <==> |before.names| > 0
  {
    SplitLast(p.names);
    if |before.names| > 0 {
      SplitLast(before.names);
    }
    hide RootText;
  }

  lemma BeforeShape(before: Parts)
    requires Sensible(before) && (before.trailing <==> |before.names| > 0) && (before.host != "" ==> before.root)
    ensures var base := Render(before);
      Collapsed(base) && base != "//" && (base == "" || base[|base| - 1] == SEP)
  {
    RenderShape(before);
    TwoSeparators();
    NothingRenders(before);
    hide Collapsed, NamesText, RootNameLength, Render, RootText;
  }

  lemma TwoSeparators()
    ensures !Collapsed("//")
  {
    assert "//"[0] == SEP && "//"[1] == SEP;
  }

  lemma NothingRenders(p: Parts)
    ensures p.host == "" && !p.root && |p.names| == 0 ==> Render(p) == ""
  {}

  lemma BeforeIsSensible(p: Parts, before: Parts)
    requires Sensible(p) && |p.names| > 0
    requires before == p.(names := p.names[..|p.names| - 1], trailing := |p.names| > 1)
    ensures Sensible(before) && (before.host != "" ==> before.root)
    ensures p.names[|p.names| - 1] != "" && NoSep(p.names[|p.names| - 1])
  {
    assert IsName(p.names[|p.names| - 1]);
  }

  lemma PlacesOfLast(p: Parts, base: string)
    requires Sensible(p) && |p.names| > 0 && !p.trailing && base != "//" && Collapsed(base)
    requires base == "" || base[|base| - 1] == SEP
    requires var last := p.names[|p.names| - 1]; Render(p) == base + last && last != "" && NoSep(last)
    ensures var t, d := Render(p), |base|;
      && Collapsed(t) && HasRelativePath(t) && t[|t| - 1] != SEP && d == Decrement(t, |t|) && d < |t| && NoSep(t[d..])
      && !(StartsNetwork(t) && d == 0) && t[d..] == p.names[|p.names| - 1] && t[..d] == base
      && !(d == 0 && DriveLike(t)) && RootPathLength(t) == |RootText(p.host, p.root)|
  {
    var last := p.names[|p.names| - 1];
    BaseAndName(base, last);
    hide *;
    RenderShape(p);
    NotDriveLike(p);
    NameIsLast(base, last);
  }

  lemma BaseAndName(base: string, last: string)
    requires last != "" && NoSep(last)
    ensures var t := base + last;
      && t[|base|..] == last && t[..|base|] == base && t[|t| - 1] == last[|last| - 1] != SEP && NoSep(t[|base|..])
      && (|base| == 0 ==> t == last && !StartsNetwork(t))
  {
    assert base == "" ==> base + last == last;
  }

  /** filename and parent_path are the last name, or "" for a trailing separator, and the path without it. */
  lemma LastPart(p: Parts)
    requires Sensible(p)
    ensures Filename(Render(p)) == if |p.names| == 0 || p.trailing then "" else p.names[|p.names| - 1]
    ensures ParentPath(Render(p)) ==
      if |p.names| == 0 then Render(p)
      else if p.trailing then Render(p.(trailing := false))
      else Render(p.(names := p.names[..|p.names| - 1]))
  {
    if |p.names| == 0 {
      RenderShape(p);
      hide *;
      NoLastPart(Render(p));
    } else if p.trailing {
      TrailingPart(p);
    } else {
      hide *;
      var base := LastName(p);
      PlacesOfLast(p, base);
      PlainFilename(Render(p), |base|);
      ParentText(Render(p), |base|);
      EndsInSep(p, base);
    }
  }

  lemma EndsInSep(p: Parts, base: string)
    requires |p.names| > 0 && base == Render(p.(names := p.names[..|p.names| - 1])) + (if |p.names| > 1 then "/" else "")
    ensures |p.names| == 1 ==> base == Render(p.(names := p.names[..|p.names| - 1]))
    ensures |p.names| > 1 ==> |base| > 0 && base[..|base| - 1] == Render(p.(names := p.names[..|p.names| - 1]))
  {
    hide Render;
    assert |p.names| == 1 ==> base == Render(p.(names := p.names[..|p.names| - 1])) + "";
  }

  lemma NoLastPart(t: string)
    requires !HasRelativePath(t)
    ensures Filename(t) == "" && ParentPath(t) == t
  {}

  lemma TrailingPart(p: Parts)
    requires Sensible(p) && |p.names| > 0 && p.trailing
    ensures Filename(Render(p)) == "" && ParentPath(Render(p)) == Render(p.(trailing := false))
  {
    var t, u := Render(p), Render(p.(trailing := false));
    SplitLast(p.names);
    assert t == u + "/";
    RenderShape(p);
    assert Sensible(p.(trailing := false));
    RenderShape(p.(trailing := false));
    TrailingFilename(t);
    PostprocessCollapses(u);
    assert t[..|t| - 1] == u;
    assert Decrement(t, |t|) == |t| - 1;
    hide Postprocess, Collapsed, Filename;
  }

  // Putting paths together.

  /** What /= puts in front of the operand: a separator is added behind a name, and only there. */
  lemma BaseOfParts(p: Parts)
    requires Sensible(p)
    ensures Base(Render(p)) == Render(p) + (if |p.names| > 0 && !p.trailing then "/" else "")
    ensures |p.names| > 0 && !p.trailing ==> Render(p) + "/" == Render(p.(trailing := true))
  {
    if |p.names| > 0 {
      TrailingText(p);
      assert IsName(p.names[|p.names| - 1]);
    }
    hide *;
    RenderShape(p);
    LastPart(p);
    BaseByCases(Render(p), if |p.names| == 0 || p.trailing then "" else p.names[|p.names| - 1]);
  }

  lemma BaseByCases(t: string, last: string)
    requires Filename(t) == last
    ensures Base(t) == t + if HasRelativePath(t) && last != "" then "/" else ""
  {
    hide Filename, HasRelativePath;
  }

  lemma TrailingText(p: Parts)
    requires |p.names| > 0
    ensures Render(p.(trailing := true)) == Render(p.(trailing := false)) + "/"
    ensures !p.trailing ==> p.(trailing := false) == p
  {
    SplitLast(p.names);
    hide RootText, NamesText;
  }

  /** Dividing by names appends them, but to a bare host; a trailing separator is not doubled. */
  lemma DividedByNames(p: Parts, q: Parts)
    requires Sensible(p) && Sensible(q) && q.host == "" && !q.root && |q.names| > 0
    requires p.host == "" || p.root
    ensures Divided(Render(p), Render(q)) == Render(Parts(p.host, p.root, p.names + q.names, q.trailing))
  {
    RelativeParts(q);
    hide *;
    QuotientMeaning(Render(p), Render(q));
    RelativeQuotient(Render(p), Render(q));
    BaseOfParts(p);
    JoinedParts(p, q);
  }

  lemma RelativeParts(q: Parts)
    requires Sensible(q) && q.host == "" && !q.root && |q.names| > 0
    ensures Collapsed(Render(q)) && Relative(Render(q)) && !DriveLike(Render(q))
  {
    RenderShape(q);
    NotDriveLike(q);
    NamesShape(q.names, q.trailing);
    hide Collapsed, DriveLike, RootNameLength;
  }

  lemma RelativeQuotient(a: string, b: string)
    requires Relative(b) && !DriveLike(b)
    ensures Quotient(a, b) == Base(a) + b
  {
    hide Base, DriveLike, RootNameLength;
  }

  lemma JoinedParts(p: Parts, q: Parts)
    requires |q.names| > 0 && q.host == "" && !q.root && (p.trailing ==> |p.names| > 0)
    ensures Render(p) + (if |p.names| > 0 && !p.trailing then "/" else "") + Render(q) ==
      Render(Parts(p.host, p.root, p.names + q.names, q.trailing))
  {
    JoinedNames(p.names, q.names, p.trailing, q.trailing);
    var root, a, b := RootText(p.host, p.root), NamesText(p.names, p.trailing), NamesText(q.names, q.trailing);
    assert Render(p) == root + a && Render(q) == "" + "" + b;
    assert |p.names| == 0 ==> a == "";
    hide *;
    WholeText(Parts(p.host, p.root, p.names + q.names, q.trailing));
    Regroup(root, a, if |p.names| > 0 && !p.trailing then "/" else "", b);
  }

  lemma Regroup(root: string, a: string, sep: string, b: string)
    ensures (root + a) + sep + (("" + "") + b) == root + (a + sep + b)
    ensures a == "" && sep == "" ==> a + sep + b == b
  {}

  lemma WholeText(p: Parts)
    ensures Render(p) == RootText(p.host, p.root) + NamesText(p.names, p.trailing)
  {}

  lemma NamesFrontText(first: string, rest: seq<string>, trailing: bool)
    ensures |rest| == 0 ==> NamesText([first] + rest, trailing) == first + if trailing then "/" else ""
    ensures |rest| > 0 ==> NamesText([first] + rest, trailing) == first + "/" + NamesText(rest, trailing)
  {
    assert ([first] + rest)[1..] == rest;
  }

  lemma {:induction false} JoinedNames(a: seq<string>, b: seq<string>, trailing: bool, trailing': bool)
    requires |b| > 0
    ensures |a| == 0 ==> NamesText(a + b, trailing') == NamesText(b, trailing')
    ensures |a| > 0 ==>
      NamesText(a + b, trailing') == NamesText(a, trailing) + (if trailing then "" else "/") + NamesText(b, trailing')
  {
    hide NamesText;
    if |a| == 0 {
      assert a + b == b;
    } else {
      JoinedNames(a[1..], b, trailing, trailing');
      NamesFrontText(a[0], a[1..], trailing);
      NamesFrontText(a[0], a[1..] + b, trailing');
      assert a == [a[0]] + a[1..] && a + b == [a[0]] + (a[1..] + b);
      if |a| == 1 {
        assert a[1..] + b == b;
      }
    }
  }

  /** A path with a root directory takes the place of any other, but "/" keeps a bare host, or makes the root of nothing. */
  lemma DividedByRoot(p: Parts, q: Parts)
    requires Sensible(p) && Sensible(q) && q.root
    ensures Divided(Render(p), Render(q)) ==
      if q.host == "" && |q.names| == 0 && !p.root && |p.names| == 0 then Render(p.(root := true)) else Render(q)
  {
    var a, b := Render(p), Render(q);
    RenderShape(p);
    RenderShape(q);
    QuotientMeaning(a, b);
    NameOfRender(p);
    RootAlone(q);
    assert RootText(p.host, p.root) == RootText(p.host, false) + if p.root then "/" else "";
    hide Divided, RootNameLength, HasRootDirectory, HasRelativePath, NamesText, Collapsed, SamePath, RootName;
    if q.host == "" && |q.names| == 0 {
      OnlyHost(p);
    }
  }

  lemma RootAlone(q: Parts)
    requires Sensible(q) && q.root
    ensures Render(q) != "" && (Render(q) == "/" <==> q.host == "" && |q.names| == 0)
  {
    if |q.names| > 0 {
      NamesShape(q.names, q.trailing);
    }
  }

  lemma NameOfRender(p: Parts)
    requires Sensible(p)
    ensures RootName(Render(p)) == RootText(p.host, false)
  {
    HostIsFront(p);
    HostIsCollapsed(p);
    hide *;
    RenderShape(p);
    RootNameIs(Render(p), RootText(p.host, false));
  }

  lemma HostIsFront(p: Parts)
    ensures var h := if p.host == "" then 0 else 2 + |p.host|;
      h <= |Render(p)| && |RootText(p.host, false)| == h && Render(p)[..h] == RootText(p.host, false)
  {
    var host := RootText(p.host, false);
    assert Render(p) == host + ((if p.root then "/" else "") + NamesText(p.names, p.trailing));
    hide NamesText;
  }

  lemma HostIsCollapsed(p: Parts)
    requires Sensible(p)
    ensures Collapsed(RootText(p.host, false))
  {
    RootShape(p.host, false);
    hide Collapsed, RootNameLength;
  }

  lemma RootNameIs(t: string, name: string)
    requires |name| == RootNameLength(t) && t[..|name|] == name && Collapsed(name)
    ensures RootName(t) == name
  {
    PostprocessCollapses(name);
    hide RootNameLength, Collapsed, Postprocess;
  }

  lemma OnlyHost(p: Parts)
    requires Sensible(p)
    ensures Render(p) == RootText(p.host, false) <==> !p.root && |p.names| == 0
    ensures !p.root && |p.names| == 0 ==> Render(p.(root := true)) == RootText(p.host, false) + "/"
  {
    if |p.names| > 0 {
      NamesShape(p.names, p.trailing);
    }
  }

  /** A bare host takes the place of a path, unless that path's host begins with it. */
  lemma DividedByHost(p: Parts, q: Parts)
    requires Sensible(p) && Sensible(q) && q.host != "" && !q.root
    ensures Divided(Render(p), Render(q)) ==
      if p.host != "" && q.host <= p.host then Render(p.(trailing := |p.names| > 0)) else Render(q)
  {
    RenderShape(q);
    NameOfRender(p);
    hide *;
    QuotientMeaning(Render(p), Render(q));
    SameHosts(p, q);
    BaseOfParts(p);
    HostQuotient(Render(p), Render(q));
    TrailingSet(p);
  }

  lemma TrailingSet(p: Parts)
    requires Sensible(p)
    ensures p.trailing || |p.names| == 0 ==> p.(trailing := |p.names| > 0) == p
    ensures Render(p) + "" == Render(p)
  {
    hide Render;
  }

  lemma HostQuotient(a: string, b: string)
    requires b != "" && !HasRootDirectory(b) && RootNameLength(b) > 0
    ensures Quotient(a, b) == if SamePath(b, RootName(a)) then Base(a) else b
  {
    hide Base, RootNameLength, SamePath, RootName;
  }

  lemma SameHosts(p: Parts, q: Parts)
    requires Sensible(p) && Sensible(q) && q.host != "" && !q.root
    ensures SamePath(Render(q), RootText(p.host, false)) <==> p.host != "" && q.host <= p.host
  {
    RenderShape(q);
    RootShape(p.host, false);
    var a, b := Render(q), RootText(p.host, false);
    assert a == "//" + q.host;
    var n := |a|;
    assert a[..n] == a && a[n..] == "" && b[|b|..] == "" && b[..|b|] == b;
    if p.host != "" && |q.host| <= |p.host| {
      assert b[..n] == "//" + p.host[..|q.host|];
      assert ("//" + p.host[..|q.host|])[2..] == p.host[..|q.host|] && a[2..] == q.host;
    }
    hide RootNameLength, Collapsed;
  }

  /** A name with a ':' after its first character is two elements forwards, and backwards its second half is lost. */
  lemma ColonIsSplit(a: char, name: string)
    requires a != '/' && IsName(name)
    ensures var t := [a, ':'] + name; Texts(t, Forward(t, 0)) == [[a, ':'], name] && Texts(t, Backward(t, |t|)) == [[a, ':']]
  {
    var t := [a, ':'] + name;
    assert NoSep(t) && t[..2] == [a, ':'] && t[2..] == name;
    NoSepIsKept(t);
    PostprocessCollapses(t);
    assert DriveLike(t) && Relative(t);
    DriveLikeElement(t);
    WalkSecond(t, name);
    ForwardTexts(t, 0);
    ForwardTexts(t, 2);
    ForwardEnd(t);
    LastSeparator(t, |t| - 1, 0);
    assert Decrement(t, |t|) == 0;
    assert Element(t, 0) == [a, ':'];
  }

  lemma WalkSecond(t: string, name: string)
    requires Relative(t) && |t| > 2 && t[2..] == name && IsName(name)
    ensures Element(t, 2) == name && Next(t, 2) == |t|
  {
    assert forall k :: 2 <= k < |t| ==> t[k] == name[k - 2];
    NoSepUpTo(t, 3, |t|);
    assert Increment(t, 2) == |t|;
    assert t[2..|t|] == name;
    NoSepIsKept(name);
  }
}
