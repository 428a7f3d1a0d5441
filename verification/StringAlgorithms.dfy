/** Splitting, joining and replacing: gts/algorithm.cpp, lines 116-150 and 208-219. */
module StringAlgorithms {

  predicate OccursAt(s: string, sub: string, k: nat) { k + |sub| <= |s| && s[k..k + |sub|] == sub }

  /** std::string::find from a position, with -1 for npos. */
  function Find(s: string, sub: string, from: nat): (k: int)
    ensures k >= 0 ==> from <= k && OccursAt(s, sub, k)
    ensures k >= -1
    ensures forall j :: from <= j && (k < 0 || j < k) ==> !OccursAt(s, sub, j)
    decreases |s| - from
  {
    if from + |sub| > |s| then -1
    else if OccursAt(s, sub, from) then from
    else Find(s, sub, from + 1)
  }

  lemma {:induction false} FindIs(s: string, sub: string, from: nat, k: nat)
    requires from <= k && OccursAt(s, sub, k) && forall j :: from <= j < k ==> !OccursAt(s, sub, j)
    ensures Find(s, sub, from) == k
    decreases k - from
  {
    if from < k {
      FindIs(s, sub, from + 1, k);
    }
  }

  /** The texts before each of the separators that a left-to-right scan of t meets. */
  function Pieces(t: string, sep: string): seq<string>
    requires sep != ""
    decreases |t|
  {
    var pos := Find(t, sep, 0);
    if pos < 0 then [] else [t[..pos]] + Pieces(t[pos + |sep|..], sep)
  }

  function NonEmpty(list: seq<string>): seq<string> {
    if |list| == 0 then [] else (if list[0] == "" then [] else [list[0]]) + NonEmpty(list[1..])
  }

  /** str_split */
  function Split(s: string, sep: string, ignoreEmpty: bool): seq<string>
    requires sep != ""
  {
    if s == "" then []
    else if ignoreEmpty then NonEmpty(Pieces(s + sep, sep))
    else Pieces(s + sep, sep)
  }

  /** str_list_join */
  function Join(list: seq<string>, sep: string): string {
    if |list| == 0 then "" else if |list| == 1 then list[0] else list[0] + sep + Join(list[1..], sep)
  }

  /** str_replace: the scan goes on after what it has put in. */
  function Replace(s: string, old_: string, new_: string): string
    requires old_ != ""
    decreases |s|
  {
    var pos := Find(s, old_, 0);
    if pos < 0 then s else s[..pos] + new_ + Replace(s[pos + |old_|..], old_, new_)
  }

  /** How many occurrences are replaced. */
  function Replacements(s: string, old_: string): nat
    requires old_ != ""
    decreases |s|
  {
    var pos := Find(s, old_, 0);
    if pos < 0 then 0 else 1 + Replacements(s[pos + |old_|..], old_)
  }

  // The routines.

  /** Only a non-empty separator lets the loop end, unless there is nothing to split. */
  method StrSplit(str: string, splits: string, ignoreEmpty: bool) returns (result: seq<string>)
    requires str == "" || splits != ""
    ensures result == if str == "" then [] else Split(str, splits, ignoreEmpty)
  {
    hide Find, NonEmpty, Pieces, OccursAt;
    result := [];
    if str == "" {
      return;
    }
    assert NonEmpty([]) == [] by { NoTexts(); }
    var strs := str + splits;
    var pos := Find(strs, splits, 0);
    var step := |splits|;
    ghost var all := Pieces(strs, splits);
    ghost var done: seq<string> := [];
    while pos >= 0
      invariant pos == Find(strs, splits, 0)
      invariant all == done + Pieces(strs, splits)
      invariant result == if ignoreEmpty then NonEmpty(done) else done
      decreases |strs|
    {
      PiecesUnfold(strs, splits, pos);
      var tmp := strs[..pos];
      NonEmptyBack(done, tmp);
      done := done + [tmp];
      if tmp != "" || !ignoreEmpty {
        result := result + [tmp];
      }
      strs := strs[pos + step..];
      pos := Find(strs, splits, 0);
    }
    PiecesEnd(strs, splits);
    assert done == all;
  }

  lemma PiecesEnd(t: string, sep: string)
    requires sep != "" && Find(t, sep, 0) < 0
    ensures Pieces(t, sep) == []
  {}

  lemma NoTexts()
    ensures NonEmpty([]) == []
  {}

  lemma {:induction false} NonEmptyBack(list: seq<string>, last: string)
    ensures NonEmpty(list + [last]) == NonEmpty(list) + if last == "" then [] else [last]
  {
    if |list| > 0 {
      assert (list + [last])[1..] == list[1..] + [last];
      NonEmptyBack(list[1..], last);
    } else {
      assert list + [last] == [last];
    }
  }

  method StrListJoin(list: seq<string>, splits: string) returns (result: string)
    ensures result == Join(list, splits)
  {
    result := "";
    if |list| == 0 {
      return;
    }
    var i := 0;
    while i < |list| - 1
      invariant 0 <= i < |list|
      invariant result + Join(list[i..], splits) == Join(list, splits)
    {
      assert list[i..][1..] == list[i + 1..];
      result := result + (list[i] + splits);
      i := i + 1;
    }
    result := result + list[i];
  }

  /** Ends also when the replacement contains what it replaces: the unread rest gets shorter. */
  method StrReplace(s: string, old_: string, new_: string) returns (str: string, sum: nat)
    requires old_ != ""
    ensures str == Replace(s, old_, new_)
    ensures sum == 0 && (sum == Replacements(s, old_) <==> Find(s, old_, 0) < 0)
  {
    str, sum := s, 0;
    var oldPos := 0;
    assert str[0..] == s;
    while Find(str, old_, oldPos) >= 0
      invariant 0 <= oldPos <= |str|
      invariant str[..oldPos] + Replace(str[oldPos..], old_, new_) == Replace(s, old_, new_)
      decreases |str| - oldPos
    {
      var start := Find(str, old_, oldPos);
      ReplaceTurn(str, old_, new_, oldPos, start);
      str := str[..start] + new_ + str[start + |old_|..];
      oldPos := start + |new_|;
    }
    FindShift(str, old_, oldPos, 0);
    assert str[..oldPos] + str[oldPos..] == str;
  }

  lemma {:induction false} ReplaceTurn(str: string, old_: string, new_: string, oldPos: nat, start: nat)
    requires old_ != "" && oldPos <= |str| && start == Find(str, old_, oldPos)
    ensures start + |old_| <= |str|
    ensures var next := str[..start] + new_ + str[start + |old_|..];
            next[..start + |new_|] + Replace(next[start + |new_|..], old_, new_)
            == str[..oldPos] + Replace(str[oldPos..], old_, new_)
  {
    FindShift(str, old_, oldPos, 0);
    var rest, k := str[oldPos..], start - oldPos;
    ReplaceUnfold(rest, old_, new_, k);
    hide *;
    Reassemble(str[..oldPos], rest[..k], new_, rest[k + |old_|..], Replace(rest[k + |old_|..], old_, new_));
    assert str[..start] == str[..oldPos] + rest[..k];
    assert str[start + |old_|..] == rest[k + |old_|..];
  }

  lemma Reassemble(a: string, b: string, c: string, d: string, e: string)
    ensures ((a + b) + c + d)[..|a| + |b| + |c|] == (a + b) + c
    ensures ((a + b) + c + d)[|a| + |b| + |c|..] == d
    ensures ((a + b) + c) + e == a + (b + c + e)
  {}

  lemma {:induction false} ReplaceUnfold(s: string, old_: string, new_: string, k: nat)
    requires old_ != "" && Find(s, old_, 0) == k
    ensures k + |old_| <= |s|
    ensures Replace(s, old_, new_) == s[..k] + new_ + Replace(s[k + |old_|..], old_, new_)
  {}

  lemma OccursShift(s: string, sub: string, from: nat, j: nat)
    requires from <= |s|
    ensures OccursAt(s[from..], sub, j) <==> OccursAt(s, sub, from + j)
  {
    if from + j + |sub| <= |s| {
      assert s[from..][j..j + |sub|] == s[from + j..from + j + |sub|];
    }
  }

  lemma {:induction false} FindShift(s: string, sub: string, from: nat, k: nat)
    requires from <= |s|
    ensures Find(s[from..], sub, k) == if Find(s, sub, from + k) < 0 then -1 else Find(s, sub, from + k) - from
    decreases |s| - k
  {
    OccursShift(s, sub, from, k);
    if from + k + |sub| <= |s| && !OccursAt(s, sub, from + k) {
      FindShift(s, sub, from, k + 1);
    }
  }

  // Borders.

  /** No proper prefix of sep is also its suffix, so two occurrences never overlap. */
  ghost predicate Unbordered(sep: string) {
    forall b :: 0 < b < |sep| ==> sep[..b] != sep[|sep| - b..]
  }

  /** An occurrence that runs into the appended separator shows a border. */
  lemma OverlapIsBorder(s: string, sep: string, k: nat)
    requires k < |s| && OccursAt(s + sep, sep, k) && k + |sep| > |s|
    ensures var b := k + |sep| - |s|; 0 < b < |sep| && sep[..b] == sep[|sep| - b..]
  {
    var t, b := s + sep, k + |sep| - |s|;
    assert t[k..k + |sep|][|sep| - b..] == t[|s|..|s| + b] == sep[..b];
  }

  lemma NoStraddle(s: string, sep: string, k: nat)
    requires Unbordered(sep) && k < |s| && OccursAt(s + sep, sep, k)
    ensures OccursAt(s, sep, k)
  {
    if k + |sep| > |s| {
      OverlapIsBorder(s, sep, k);
    } else {
      assert (s + sep)[k..k + |sep|] == s[k..k + |sep|];
    }
  }

  /** Scanning s + sep is scanning s, and then stopping at the appended separator. */
  lemma ScanAppended(s: string, sep: string)
    requires sep != "" && Unbordered(sep)
    ensures var k := Find(s, sep, 0);
            if k < 0 then Find(s + sep, sep, 0) == |s|
            else Find(s + sep, sep, 0) == k && (s + sep)[k + |sep|..] == s[k + |sep|..] + sep
  {
    var k, t := Find(s, sep, 0), s + sep;
    forall j: nat | j < |s| && OccursAt(t, sep, j) ensures OccursAt(s, sep, j) {
      NoStraddle(s, sep, j);
    }
    if k < 0 {
      assert t[|s|..|s| + |sep|] == sep;
      FindIs(t, sep, 0, |s|);
    } else {
      assert t[k..k + |sep|] == s[k..k + |sep|];
      FindIs(t, sep, 0, k);
    }
  }

  /** Splitting and joining with another text is replacing. */
  lemma {:induction false} JoinIsReplace(s: string, sep: string, new_: string)
    requires sep != "" && Unbordered(sep)
    ensures |Pieces(s + sep, sep)| > 0
    ensures Join(Pieces(s + sep, sep), new_) == Replace(s, sep, new_)
    decreases |s|
  {
    var k, t := Find(s, sep, 0), s + sep;
    ScanAppended(s, sep);
    if k < 0 {
      PiecesUnfold(t, sep, |s|);
      assert t[..|s|] == s && t[|s| + |sep|..] == "";
    } else {
      var rest := s[k + |sep|..];
      PiecesUnfold(t, sep, k);
      ReplaceUnfold(s, sep, new_, k);
      hide Find, OccursAt, Unbordered, Pieces, Replace;
      JoinIsReplace(rest, sep, new_);
      assert t[..k] == s[..k];
      JoinFront(s[..k], Pieces(rest + sep, sep), new_);
    }
  }

  lemma {:induction false} PiecesUnfold(t: string, sep: string, k: nat)
    requires sep != "" && Find(t, sep, 0) == k
    ensures k + |sep| <= |t|
    ensures Pieces(t, sep) == [t[..k]] + Pieces(t[k + |sep|..], sep)
    ensures Pieces("", sep) == []
  {}

  lemma JoinFront(first: string, rest: seq<string>, sep: string)
    requires |rest| > 0
    ensures Join([first] + rest, sep) == first + sep + Join(rest, sep)
  {
    assert ([first] + rest)[1..] == rest;
  }

  lemma {:induction false} ReplaceBySame(s: string, sep: string)
    requires sep != ""
    ensures Replace(s, sep, sep) == s
    decreases |s|
  {
    var k := Find(s, sep, 0);
    if k >= 0 {
      ReplaceBySame(s[k + |sep|..], sep);
      assert s == s[..k] + s[k..k + |sep|] + s[k + |sep|..];
    }
  }

  /** A border of the separator gives a text that splitting and joining does not give back. */
  lemma BorderLoses(sep: string, b: nat)
    requires 0 < b < |sep| && sep[..b] == sep[|sep| - b..]
    ensures Join(Split(sep[..|sep| - b], sep, false), sep) != sep[..|sep| - b]
  {
    var s := sep[..|sep| - b];
    var t := s + sep;
    assert t[0..|sep|] == s + sep[..b] == sep;
    FindIs(t, sep, 0, 0);
    assert t[..0] == "";
    assert Find(t[|sep|..], sep, 0) < 0;
    assert Pieces(t, sep) == [""];
  }

  /** Joining what was split gives the text back, for every text, exactly when the separator has no border. */
  lemma SplitJoin(sep: string)
    requires sep != ""
    ensures (forall s :: Join(Split(s, sep, false), sep) == s) <==> Unbordered(sep)
  {
    if Unbordered(sep) {
      forall s ensures Join(Split(s, sep, false), sep) == s {
        JoinIsReplace(s, sep, sep);
        ReplaceBySame(s, sep);
      }
    } else {
      var b :| 0 < b < |sep| && sep[..b] == sep[|sep| - b..];
      BorderLoses(sep, b);
    }
  }

  /** Replacing is splitting and joining, for every text, exactly when what is replaced has no border. */
  lemma ReplaceIsSplitJoin(sep: string)
    requires sep != ""
    ensures (forall s, new_ :: Join(Split(s, sep, false), new_) == Replace(s, sep, new_)) <==> Unbordered(sep)
  {
    if Unbordered(sep) {
      forall s, new_ ensures Join(Split(s, sep, false), new_) == Replace(s, sep, new_) {
        JoinIsReplace(s, sep, new_);
      }
    } else {
      var b :| 0 < b < |sep| && sep[..b] == sep[|sep| - b..];
      BorderLoses(sep, b);
      ReplaceBySame(sep[..|sep| - b], sep);
    }
  }

  // Empty pieces, and joining before splitting.

  /** NonEmpty takes the empty texts out and nothing else. */
  lemma {:induction false} NonEmptyMeaning(a: seq<string>, b: seq<string>)
    ensures "" !in NonEmpty(a)
    ensures "" !in a ==> NonEmpty(a) == a
    ensures NonEmpty(a + [""] + b) == NonEmpty(a) + NonEmpty(b)
  {
    hide NonEmpty;
    NoTexts();
    if |a| == 0 {
      NonEmptyFront("", b);
      assert a + [""] + b == [""] + b;
    } else {
      NonEmptyMeaning(a[1..], b);
      NonEmptyFront(a[0], a[1..]);
      NonEmptyFront(a[0], a[1..] + [""] + b);
      assert a + [""] + b == [a[0]] + (a[1..] + [""] + b);
      assert a == [a[0]] + a[1..];
    }
  }

  lemma NonEmptyFront(first: string, rest: seq<string>)
    ensures NonEmpty([first] + rest) == if first == "" then NonEmpty(rest) else [first] + NonEmpty(rest)
  {
    assert ([first] + rest)[1..] == rest;
  }

  /** Splitting without the empty pieces is splitting, and then leaving them out. */
  lemma SplitIgnoring(s: string, sep: string)
    requires sep != ""
    ensures Split(s, sep, true) == NonEmpty(Split(s, sep, false))
  {}

  lemma FindSingle(a: string, c: char, b: string)
    requires c !in a
    ensures Find(a + [c] + b, [c], 0) == |a|
  {
    var t := a + [c] + b;
    assert t[|a|..|a| + 1] == [c];
    forall j: nat | j < |a| ensures !OccursAt(t, [c], j) {
      assert t[j..j + 1][0] == a[j];
    }
    FindIs(t, [c], 0, |a|);
  }

  lemma PiecesOfEmpty(sep: string)
    requires sep != ""
    ensures Pieces("", sep) == []
  {}

  lemma {:induction false} PiecesOfJoin(list: seq<string>, c: char)
    requires |list| > 0 && forall item :: item in list ==> c !in item
    ensures Pieces(Join(list, [c]) + [c], [c]) == list
  {
    var t := Join(list, [c]) + [c];
    hide Pieces, Find;
    if |list| == 1 {
      FindSingle(list[0], c, "");
      assert t == list[0] + [c] + "" && t[..|list[0]|] == list[0] && t[|list[0]| + 1..] == "";
      PiecesUnfold(t, [c], |list[0]|);
      PiecesOfEmpty([c]);
    } else {
      var rest := Join(list[1..], [c]) + [c];
      FindSingle(list[0], c, rest);
      assert t == list[0] + [c] + rest;
      PiecesUnfold(t, [c], |list[0]|);
      PiecesOfJoin(list[1..], c);
      assert t[..|list[0]|] == list[0] && t[|list[0]| + 1..] == rest;
      assert list == [list[0]] + list[1..];
    }
  }

  /**
   * Items without the separator, one character, are what splitting their join gives: all of them, but for the
   * list of one empty item, or the non-empty ones.
   */
  lemma SplitOfJoin(list: seq<string>, c: char)
    requires forall item :: item in list ==> c !in item
    ensures Split(Join(list, [c]), [c], false) == if list == [""] then [] else list
    ensures Split(Join(list, [c]), [c], true) == NonEmpty(list)
  {
    SplitIgnoring(Join(list, [c]), [c]);
    NonEmptyMeaning([], []);
    if |list| > 0 {
      PiecesOfJoin(list, c);
      JoinIsEmpty(list, c);
      hide Pieces, Join, Find;
      assert list == [""] ==> NonEmpty(list) == [] by { NonEmptyMeaning([], []); assert [] + [""] + [] == [""]; }
    }
  }

  lemma JoinIsEmpty(list: seq<string>, c: char)
    requires |list| > 0
    ensures Join(list, [c]) == "" <==> list == [""]
  {}

  // Trimming.

  /** Characters 1 to 32. */
  predicate IsBlank(c: char) { 1 <= c as int <= 32 }

  /** The blank and every control character but the zero. */
  lemma Blanks(c: char)
    ensures IsBlank(c) <==> c != '\0' && c <= ' '
  {}

  /** str_trimmed: what is left when blanks are taken from both ends. */
  function TrimBlanks(s: string): string {
    if s != "" && IsBlank(s[0]) then TrimBlanks(s[1..])
    else if s != "" && IsBlank(s[|s| - 1]) then TrimBlanks(s[..|s| - 1])
    else s
  }

  /** Only blanks are taken, from the ends, and as many as there are. */
  lemma {:induction false} TrimBlanksMeaning(s: string) returns (i: nat, j: nat)
    ensures i <= j <= |s| && TrimBlanks(s) == s[i..j]
    ensures forall k :: 0 <= k < i || j <= k < |s| ==> IsBlank(s[k])
    ensures i < j ==> !IsBlank(s[i]) && !IsBlank(s[j - 1])
  {
    if s != "" && IsBlank(s[0]) {
      var t := s[1..];
      i, j := TrimBlanksMeaning(t);
      assert forall k :: 0 <= k < |t| ==> t[k] == s[k + 1];
      assert t[i..j] == s[i + 1..j + 1];
      i, j := i + 1, j + 1;
      assert forall k :: 1 <= k < |s| ==> s[k] == t[k - 1];
    } else if s != "" && IsBlank(s[|s| - 1]) {
      var t := s[..|s| - 1];
      i, j := TrimBlanksMeaning(t);
      assert forall k :: 0 <= k < |t| ==> t[k] == s[k];
      assert t[i..j] == s[i..j];
    } else {
      i, j := 0, |s|;
    }
  }

  lemma TrimBack(s: string, left: nat, right: nat)
    requires left < right < |s| && !IsBlank(s[left]) && IsBlank(s[right])
    ensures TrimBlanks(s[left..right + 1]) == TrimBlanks(s[left..right])
  {
    var part := s[left..right + 1];
    assert part[0] == s[left] && part[|part| - 1] == s[right];
    assert part[..|part| - 1] == s[left..right];
  }

  method StrTrimmed(str: string) returns (result: string)
    ensures result == TrimBlanks(str)
  {
    var left := 0;
    assert str[0..] == str;
    while left < |str| && IsBlank(str[left])
      invariant 0 <= left <= |str| && TrimBlanks(str[left..]) == TrimBlanks(str)
    {
      assert str[left..][1..] == str[left + 1..];
      left := left + 1;
    }
    if left >= |str| {
      return "";
    }
    var right := |str| - 1;
    assert str[left..right + 1] == str[left..];
    while right >= 0 && IsBlank(str[right])
      invariant left <= right < |str| && TrimBlanks(str[left..right + 1]) == TrimBlanks(str)
    {
      TrimBack(str, left, right);
      right := right - 1;
    }
    result := str[..right + 1];
    result := result[left..];
  }
}
