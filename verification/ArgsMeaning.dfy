/** What a command line means: gts/args_parser.cpp, lines 219-394, and the spellings of args_parser.h, lines 52-61. */
module ArgsMeaning {
  import opened ArgsParser
  import opened Numbers
  import opened Options

  /** What a caller may put on a command line. */
  datatype Item =
    | Spaced(name: string, value: string)            // name value
    | Assigned(name: string, value: string)          // name=value
    | Flag(name: string)                             // name
    | Positional(text: string)                       // text
    | Cluster(letters: string)                       // -abc
    | ClusterWith(letters: string, value: string)    // -abc value, the last letter a group option

  function Render(item: Item): seq<string> {
    match item
    case Spaced(name, value) => [name, value]
    case Assigned(name, value) => [name + "=" + value]
    case Flag(name) => [name]
    case Positional(text) => [text]
    case Cluster(letters) => ["-" + letters]
    case ClusterWith(letters, value) => ["-" + letters, value]
  }

  /** Tokens that are looked up like any other, whatever the number of arguments. */
  predicate Ordinary(r: Rules, arg: string) {
    && arg !in {"-", "--", "--version", "--help"}
    && (arg == "-v" ==> r.v == "") && (arg == "-h" ==> !r.h)
  }

  predicate Unregistered(r: Rules, arg: string) { Ordinary(r, arg) && !Registered(r, arg) }

  /** A token that is kept as it is. */
  predicate IsPositional(r: Rules, arg: string) {
    && Unregistered(r, arg)
    && (|arg| <= 2
        || ('=' in arg && arg[..Position(arg, '=')] !in r.groups)
        || ('=' !in arg && (arg[0] != '-' || !AllLetters(arg[1..]))))
  }

  predicate IsFlagLetter(r: Rules, c: char) { IsLetter(c) && Letter(c) in r.flags }

  predicate Wellformed(r: Rules, item: Item) {
    match item
    case Spaced(name, value) => Ordinary(r, name) && name in r.groups && !Registered(r, value)
    case Assigned(name, value) =>
      var arg := name + "=" + value;
      Unregistered(r, arg) && |arg| > 2 && '=' !in name && name in r.groups
    case Flag(name) => Ordinary(r, name) && name !in r.groups && name in r.flags
    case Positional(text) => IsPositional(r, text)
    case Cluster(letters) =>
      |letters| >= 2 && Unregistered(r, "-" + letters) && forall i :: 0 <= i < |letters| ==> IsFlagLetter(r, letters[i])
    case ClusterWith(letters, value) =>
      && |letters| >= 2 && Unregistered(r, "-" + letters) && AllLetters(letters) && !Registered(r, value)
      && (forall i :: 0 <= i < |letters| - 1 ==> IsFlagLetter(r, letters[i]))
      && var last := Letter(letters[|letters| - 1]); last in r.groups && last !in r.flags
  }

  function FlagEffects(r: Rules, letters: string): seq<Effect> {
    if letters == "" then [] else [LetterEffect(r, "", letters[0])] + FlagEffects(r, letters[1..])
  }

  /** What an item records. */
  function Effects(r: Rules, item: Item): seq<Effect>
    requires Wellformed(r, item)
  {
    match item
    case Spaced(name, value) => [GroupEffect(r, name, value)]
    case Assigned(name, value) => [GroupEffect(r, name, value)]
    case Flag(name) => [FlagEffect(r, name)]
    case Positional(text) => [Keep(text, text)]
    case Cluster(letters) => FlagEffects(r, letters)
    case ClusterWith(letters, value) =>
      FlagEffects(r, letters[..|letters| - 1]) + [GroupEffect(r, Letter(letters[|letters| - 1]), value)]
  }

  function ApplyAll(st: State, es: seq<Effect>): Option<State>
    decreases |es|
  {
    if |es| == 0 then Some(st)
    else match Apply(st, es[0]) {
      case None => None
      case Some(st') => ApplyAll(st', es[1..])
    }
  }

  lemma {:induction false} ApplyAllConcat(st: State, a: seq<Effect>, b: seq<Effect>)
    ensures ApplyAll(st, a + b) == match ApplyAll(st, a) { case None => None case Some(st') => ApplyAll(st', b) }
    decreases |a|
  {
    hide Apply;
    if |a| == 0 {
      assert a + b == b;
    } else {
      assert (a + b)[0] == a[0] && (a + b)[1..] == a[1..] + b;
      match Apply(st, a[0]) {
        case None =>
        case Some(st') => ApplyAllConcat(st', a[1..], b);
      }
    }
  }

  lemma OrdinaryIsNotSpecial(r: Rules, argc: nat, arg: string)
    requires Ordinary(r, arg)
    ensures Special(r, argc, arg) == None
  {}

  lemma {:induction false} PositionIn(s: string, c: char)
    ensures c in s <==> Position(s, c) < |s|
  {
    if s != "" {
      PositionIn(s[1..], c);
      assert s == [s[0]] + s[1..];
    }
  }

  lemma PositionOf(a: string, c: char, b: string)
    requires c !in a
    ensures Position(a + [c] + b, c) == |a|
  {
    var s := a + [c] + b;
    assert s[|a|] == c;
    forall j | 0 <= j < |a| ensures s[j] != c {
      assert s[j] == a[j];
    }
  }

  /** The letters of a cluster, applied one by one, are their effects. */
  lemma {:induction false} LettersAreEffects(r: Rules, arg: string, letters: string, st: State)
    requires forall i :: 0 <= i < |letters| ==> IsFlagLetter(r, letters[i])
    ensures Letters(r, arg, letters, st) == ApplyAll(st, FlagEffects(r, letters))
  {
    hide Apply;
    if letters != "" {
      assert LetterEffect(r, arg, letters[0]) == LetterEffect(r, "", letters[0]);
      match Apply(st, LetterEffect(r, "", letters[0])) {
        case None =>
        case Some(st') => LettersAreEffects(r, arg, letters[1..], st');
      }
    }
  }

  lemma PlainOfItem(r: Rules, item: Item)
    requires Wellformed(r, item)
    ensures item.Positional? ==> PlainEffect(r, item.text) == Some(Keep(item.text, item.text))
    ensures item.Assigned? ==> PlainEffect(r, item.name + "=" + item.value) == Some(GroupEffect(r, item.name, item.value))
    ensures item.Cluster? || item.ClusterWith? ==> PlainEffect(r, "-" + item.letters) == None
  {
    match item
    case Positional(text) => PositionIn(text, '=');
    case Assigned(name, value) =>
      PositionOf(name, '=', value);
      var arg := name + "=" + value;
      assert arg == name + ['='] + value;
      assert arg[..|name|] == name && arg[|name| + 1..] == value;
    case Cluster(letters) => ClusterIsNotPlain(r, letters);
    case ClusterWith(letters, value) => ClusterIsNotPlain(r, letters);
    case _ =>
  }

  lemma ClusterIsNotPlain(r: Rules, letters: string)
    requires |letters| >= 2 && AllLetters(letters)
    ensures PlainEffect(r, "-" + letters) == None
  {
    var arg := "-" + letters;
    assert arg[1..] == letters;
    forall j | 0 <= j < |arg| ensures arg[j] != '=' {
      if j > 0 {
        assert arg[j] == letters[j - 1];
      }
    }
  }

  lemma ApplyOne(st: State, e: Effect)
    ensures ApplyAll(st, [e]) == Apply(st, e)
  {
    hide Apply;
  }

  /** What follows an effect, in one line. */
  function After(r: Rules, argc: nat, rest: seq<string>, applied: Option<State>): Outcome {
    match applied
    case None => TooManyParameters
    case Some(st) => Parse(r, argc, rest, st)
  }

  /** The lookups of a token that ends nothing by itself. */
  lemma ParseToken(r: Rules, argc: nat, args: seq<string>, st: State)
    requires |args| > 0 && Ordinary(r, args[0])
    ensures Parse(r, argc, args, st) ==
      var arg := args[0];
      if arg in r.groups then ParseGroup(r, argc, args, arg, st)
      else if arg in r.flags then After(r, argc, args[1..], Apply(st, FlagEffect(r, arg)))
      else match PlainEffect(r, arg) {
        case Some(e) => After(r, argc, args[1..], Apply(st, e))
        case None =>
          match Letters(r, arg, arg[1..|arg| - 1], st) {
            case None => TooManyParameters
            case Some(st') => ParseLast(r, argc, args, Letter(arg[|arg| - 1]), st')
          }
      }
  {
    OrdinaryIsNotSpecial(r, argc, args[0]);
    hide Special, PlainEffect, Letters, Apply, Ordinary;
  }

  lemma ParseValue(r: Rules, argc: nat, args: seq<string>, name: string, st: State)
    requires |args| > 1 && name in r.groups && !Registered(r, args[1])
    ensures ParseGroup(r, argc, args, name, st) == After(r, argc, args[2..], Apply(st, GroupEffect(r, name, args[1])))
  {
    hide Apply, Parse;
  }

  lemma ParseLetters(r: Rules, argc: nat, letters: string, tail: seq<string>, st: State)
    requires |letters| >= 2 && Unregistered(r, "-" + letters) && AllLetters(letters)
    requires forall i :: 0 <= i < |letters| - 1 ==> IsFlagLetter(r, letters[i])
    ensures Parse(r, argc, ["-" + letters] + tail, st) ==
      match ApplyAll(st, FlagEffects(r, letters[..|letters| - 1])) {
        case None => TooManyParameters
        case Some(st') => ParseLast(r, argc, ["-" + letters] + tail, Letter(letters[|letters| - 1]), st')
      }
  {
    var arg := "-" + letters;
    ClusterIsNotPlain(r, letters);
    assert arg[1..|arg| - 1] == letters[..|letters| - 1];
    LettersAreEffects(r, arg, letters[..|letters| - 1], st);
    hide Letters, FlagEffects, ParseLast, PlainEffect, IsFlagLetter;
    ParseToken(r, argc, [arg] + tail, st);
  }

  /** One item, in any state and before any other tokens, does what its effects say. */
  lemma ParseItem(r: Rules, argc: nat, item: Item, rest: seq<string>, st: State)
    requires Wellformed(r, item)
    ensures Parse(r, argc, Render(item) + rest, st) == After(r, argc, rest, ApplyAll(st, Effects(r, item)))
  {
    hide Apply, ApplyAll, Parse, Letters, PlainEffect, ParseGroup;
    var args := Render(item) + rest;
    assert args[1..] == Render(item)[1..] + rest;
    if !item.Cluster? && !item.ClusterWith? {
      PlainOfItem(r, item);
      ParseToken(r, argc, args, st);
      ApplyOne(st, Effects(r, item)[0]);
      assert Effects(r, item) == [Effects(r, item)[0]];
      if item.Spaced? {
        assert args[2..] == rest;
        ParseValue(r, argc, args, item.name, st);
      } else {
        assert args[1..] == rest;
      }
    } else {
      ParseCluster(r, argc, item, rest, st);
    }
  }

  lemma ParseCluster(r: Rules, argc: nat, item: Item, rest: seq<string>, st: State)
    requires Wellformed(r, item) && (item.Cluster? || item.ClusterWith?)
    ensures Parse(r, argc, Render(item) + rest, st) == After(r, argc, rest, ApplyAll(st, Effects(r, item)))
  {
    hide Apply, ApplyAll, Parse, Letters, IsPositional, PlainEffect, ParseGroup, FlagEffects;
    var letters := item.letters;
    var front, last := letters[..|letters| - 1], Letter(letters[|letters| - 1]);
    var args := Render(item) + rest;
    var tail := args[1..];
    assert args == ["-" + letters] + tail;
    ParseLetters(r, argc, letters, tail, st);
    if item.Cluster? {
      assert tail == rest;
      var e := FlagEffect(r, last);
      FlagEffectsBack(r, letters);
      ApplyAllConcat(st, FlagEffects(r, front), [e]);
      match ApplyAll(st, FlagEffects(r, front)) {
        case None =>
        case Some(st') =>
          ApplyOne(st', e);
          LastFlag(r, argc, args, last, st');
      }
    } else {
      assert args[1] == item.value && args[2..] == rest;
      var e := GroupEffect(r, last, item.value);
      ApplyAllConcat(st, FlagEffects(r, front), [e]);
      match ApplyAll(st, FlagEffects(r, front)) {
        case None =>
        case Some(st') =>
          ApplyOne(st', e);
          ParseValue(r, argc, args, last, st');
      }
    }
  }

  lemma LastFlag(r: Rules, argc: nat, args: seq<string>, last: string, st: State)
    requires |args| > 0 && last in r.flags
    ensures ParseLast(r, argc, args, last, st) == After(r, argc, args[1..], Apply(st, FlagEffect(r, last)))
  {
    hide Apply, Parse;
  }

  lemma {:induction false} FlagEffectsBack(r: Rules, letters: string)
    requires letters != "" && forall i :: 0 <= i < |letters| ==> IsFlagLetter(r, letters[i])
    ensures Letter(letters[|letters| - 1]) in r.flags
    ensures FlagEffects(r, letters)
         == FlagEffects(r, letters[..|letters| - 1]) + [FlagEffect(r, Letter(letters[|letters| - 1]))]
  {
    if |letters| > 1 {
      FlagEffectsBack(r, letters[1..]);
      assert letters[1..][..|letters| - 2] == letters[..|letters| - 1][1..];
    }
  }

  // Whole command lines.

  function RenderAll(items: seq<Item>): seq<string> {
    if |items| == 0 then [] else Render(items[0]) + RenderAll(items[1..])
  }

  ghost predicate AllWellformed(r: Rules, items: seq<Item>) {
    forall i :: 0 <= i < |items| ==> Wellformed(r, items[i])
  }

  function EffectsAll(r: Rules, items: seq<Item>): seq<Effect>
    requires AllWellformed(r, items)
  {
    if |items| == 0 then [] else Effects(r, items[0]) + EffectsAll(r, items[1..])
  }

  lemma {:induction false} ParseItems(r: Rules, argc: nat, items: seq<Item>, rest: seq<string>, st: State)
    requires AllWellformed(r, items)
    ensures Parse(r, argc, RenderAll(items) + rest, st) == After(r, argc, rest, ApplyAll(st, EffectsAll(r, items)))
    decreases |items|
  {
    hide Parse, Apply, Wellformed, Effects, Render;
    if |items| == 0 {
      assert RenderAll(items) + rest == rest;
    } else {
      var es, tail := Effects(r, items[0]), RenderAll(items[1..]) + rest;
      assert RenderAll(items) + rest == Render(items[0]) + tail;
      ParseItem(r, argc, items[0], tail, st);
      ApplyAllConcat(st, es, EffectsAll(r, items[1..]));
      match ApplyAll(st, es) {
        case None =>
        case Some(st') => ParseItems(r, argc, items[1..], rest, st');
      }
    }
  }

  // What a list of effects adds up to.

  ghost predicate DistinctKeys(es: seq<Effect>) {
    forall i, j :: 0 <= i < j < |es| ==> es[i].key != es[j].key
  }

  /** The kept texts, in order. */
  function Texts(es: seq<Effect>): seq<string> {
    if |es| == 0 then [] else (if es[0].Keep? then [es[0].text] else []) + Texts(es[1..])
  }

  function Assignments(m: map<string, string>, es: seq<Effect>): map<string, string>
    decreases |es|
  {
    if |es| == 0 then m
    else Assignments(if es[0].Assign? then Emplace(m, es[0].iden, es[0].value) else m, es[1..])
  }

  /** A list goes through exactly when it claims no cache entry twice, and none that is taken. */
  lemma {:induction false} ApplyAllMeaning(st: State, es: seq<Effect>)
    ensures ApplyAll(st, es).Some? <==> DistinctKeys(es) && forall i :: 0 <= i < |es| ==> es[i].key !in st.cache
    ensures ApplyAll(st, es).Some? ==>
      && ApplyAll(st, es).value.result == Assignments(st.result, es)
      && ApplyAll(st, es).value.other == st.other + Texts(es)
    decreases |es|
  {
    hide Emplace;
    if |es| > 0 && es[0].key !in st.cache {
      var st' := Apply(st, es[0]).value;
      ApplyAllMeaning(st', es[1..]);
      assert forall i :: 0 <= i < |es| - 1 ==> es[1..][i] == es[i + 1];
      if DistinctKeys(es) && forall i :: 0 <= i < |es| ==> es[i].key !in st.cache {
        assert forall i :: 0 <= i < |es[1..]| ==> es[1..][i].key !in st'.cache;
      }
      if ApplyAll(st', es[1..]).Some? {
        forall i, j | 0 <= i < j < |es| ensures es[i].key != es[j].key {
          assert es[j] == es[1..][j - 1];
          if i > 0 {
            assert es[i] == es[1..][i - 1];
          }
        }
        forall i | 0 <= i < |es| ensures es[i].key !in st.cache {
          if i > 0 {
            assert es[i] == es[1..][i - 1];
          }
        }
      }
    }
  }

  /**
   * A command line of well-formed items is accepted exactly when no two of them claim the same cache
   * entry; then it yields their assignments and the positionals in order.
   */
  lemma CommandLine(r: Rules, argc: nat, items: seq<Item>)
    requires AllWellformed(r, items)
    ensures Parse(r, argc, RenderAll(items), START) ==
      var es := EffectsAll(r, items);
      if DistinctKeys(es) then Parsed(Assignments(map[], es), Texts(es)) else TooManyParameters
  {
    hide Wellformed, DistinctKeys, Texts, Assignments, ApplyAll, EffectsAll, RenderAll;
    ParseItems(r, argc, items, [], START);
    assert RenderAll(items) + [] == RenderAll(items);
    ApplyAllMeaning(START, EffectsAll(r, items));
  }

  /** No identification is assigned by two different effects. */
  ghost predicate DistinctIdens(es: seq<Effect>) {
    forall i, j :: 0 <= i < j < |es| && es[i].Assign? && es[j].Assign? ==> es[i].iden != es[j].iden
  }

  lemma {:induction false} AssignmentsExact(m: map<string, string>, es: seq<Effect>, k: string, v: string)
    requires DistinctIdens(es) && forall i :: 0 <= i < |es| && es[i].Assign? ==> es[i].iden !in m
    ensures (k in Assignments(m, es) && Assignments(m, es)[k] == v) <==>
      (k in m && m[k] == v) || exists i :: 0 <= i < |es| && es[i].Assign? && es[i].iden == k && es[i].value == v
    decreases |es|
  {
    if |es| > 0 {
      var m' := if es[0].Assign? then Emplace(m, es[0].iden, es[0].value) else m;
      var rest := es[1..];
      assert forall i :: 0 <= i < |rest| ==> rest[i] == es[i + 1];
      AssignmentsExact(m', rest, k, v);
      if i :| 0 <= i < |es| && es[i].Assign? && es[i].iden == k && es[i].value == v {
        if i > 0 {
          assert rest[i - 1] == es[i];
        }
      }
      if j :| 0 <= j < |rest| && rest[j].Assign? && rest[j].iden == k && rest[j].value == v {
        assert es[j + 1] == rest[j];
      }
    }
  }

  /** With one identification for each rule the result is the assignment that was written, entry by entry. */
  lemma ResultIsAssignment(r: Rules, argc: nat, items: seq<Item>, k: string, v: string)
    requires AllWellformed(r, items)
    requires DistinctKeys(EffectsAll(r, items)) && DistinctIdens(EffectsAll(r, items))
    ensures Parse(r, argc, RenderAll(items), START).Parsed?
    ensures var result := Parse(r, argc, RenderAll(items), START).result;
      var es := EffectsAll(r, items);
      (k in result && result[k] == v) <==>
      exists i :: 0 <= i < |es| && es[i].Assign? && es[i].iden == k && es[i].value == v
  {
    hide Wellformed, DistinctKeys, Texts, Assignments, EffectsAll, RenderAll, DistinctIdens, Parse;
    CommandLine(r, argc, items);
    AssignmentsExact(map[], EffectsAll(r, items), k, v);
  }

  // Command lines that go wrong, and tokens that are no option.

  /** A group option at the end, or before another registered name, ends the run. */
  lemma MissingValue(r: Rules, argc: nat, items: seq<Item>, name: string, rest: seq<string>)
    requires AllWellformed(r, items) && Ordinary(r, name) && name in r.groups
    requires |rest| == 0 || Registered(r, rest[0])
    ensures Parse(r, argc, RenderAll(items) + ([name] + rest), START) ==
      if DistinctKeys(EffectsAll(r, items)) then InvalidArguments else TooManyParameters
  {
    hide Wellformed, DistinctKeys, ApplyAll, EffectsAll, RenderAll, Ordinary;
    var args := [name] + rest;
    ParseItems(r, argc, items, args, START);
    ApplyAllMeaning(START, EffectsAll(r, items));
    if ApplyAll(START, EffectsAll(r, items)).Some? {
      ParseToken(r, argc, args, ApplyAll(START, EffectsAll(r, items)).value);
      assert |args| > 1 ==> args[1] == rest[0];
      hide Parse;
    }
  }

  /**
   * A token of letters none of which is registered is not kept like other unknown tokens: with two
   * letters it is kept twice, with more it is rejected as a repetition of itself.
   */
  lemma UnknownLetters(r: Rules, argc: nat, letters: string, rest: seq<string>, st: State)
    requires |letters| >= 2 && Unregistered(r, "-" + letters) && AllLetters(letters)
    requires forall i :: 0 <= i < |letters| ==> !Registered(r, Letter(letters[i]))
    ensures var arg := "-" + letters;
      Parse(r, argc, [arg] + rest, st) ==
      if |letters| > 2 || arg in st.cache then TooManyParameters
      else Parse(r, argc, rest, State(st.result, st.cache + {arg}, st.other + [arg, arg]))
  {
    var arg := "-" + letters;
    var front, last := letters[..|letters| - 1], Letter(letters[|letters| - 1]);
    ClusterIsNotPlain(r, letters);
    assert arg[1..|arg| - 1] == front;
    UnknownFront(r, arg, front, st);
    hide Letters, PlainEffect, AllLetters, Unregistered;
    assert Ordinary(r, arg) && !Registered(r, arg) by { UnregisteredParts(r, arg); }
    hide Ordinary;
    ParseToken(r, argc, [arg] + rest, st);
    var st' := State(st.result, st.cache + {arg}, st.other + [arg]);
    assert (st.other + [arg]) + [arg] == st.other + [arg, arg];
    UnknownLast(r, argc, [arg] + rest, last, st');
    assert ([arg] + rest)[1..] == rest;
  }

  lemma UnregisteredParts(r: Rules, arg: string)
    requires Unregistered(r, arg)
    ensures Ordinary(r, arg) && !Registered(r, arg)
  {}

  lemma UnknownLast(r: Rules, argc: nat, args: seq<string>, last: string, st: State)
    requires |args| > 0 && !Registered(r, last)
    ensures ParseLast(r, argc, args, last, st) == Parse(r, argc, args[1..], st.(other := st.other + [args[0]]))
  {
    hide Parse;
  }

  lemma UnknownFront(r: Rules, arg: string, letters: string, st: State)
    requires letters != "" && forall i :: 0 <= i < |letters| ==> Letter(letters[i]) !in r.flags
    ensures Letters(r, arg, letters, st) ==
      if |letters| > 1 || arg in st.cache then None else Some(State(st.result, st.cache + {arg}, st.other + [arg]))
  {
    assert LetterEffect(r, arg, letters[0]) == Keep(arg, arg);
    assert |letters| > 1 ==> LetterEffect(r, arg, letters[1]) == Keep(arg, arg) && letters[1..][0] == letters[1];
  }

  /** A letter that is a flag leaves its mark in the result. */
  lemma {:induction false} KnownLetterMarks(r: Rules, arg: string, letters: string, st: State)
    requires st.result != map[] || exists i :: 0 <= i < |letters| && Letter(letters[i]) in r.flags
    ensures var st' := Letters(r, arg, letters, st); st'.Some? ==> st'.value.result != map[]
    decreases |letters|
  {
    if letters != "" {
      var applied := Apply(st, LetterEffect(r, arg, letters[0]));
      if applied.Some? {
        if st.result == map[] && Letter(letters[0]) !in r.flags {
          var i :| 0 <= i < |letters| && Letter(letters[i]) in r.flags;
          assert letters[1..][i - 1] == letters[i];
        } else {
          EffectMarks(st, LetterEffect(r, arg, letters[0]));
        }
        hide Apply, LetterEffect;
        KnownLetterMarks(r, arg, letters[1..], applied.value);
      }
    }
  }

  lemma EffectMarks(st: State, e: Effect)
    requires st.result != map[] || e.Assign?
    ensures Apply(st, e).Some? ==> Apply(st, e).value.result != map[]
  {
    if e.Assign? {
      assert e.iden in Emplace(st.result, e.iden, e.value);
    }
  }

  /** The end of a command line that ends in a cluster. */
  lemma LastLetter(r: Rules, argc: nat, arg: string, last: string, st: State)
    ensures var outcome := ParseLast(r, argc, [arg], last, st);
      if last in r.flags then outcome.Parsed? ==> outcome.result != map[]
      else if last in r.groups then outcome == InvalidArguments
      else outcome == Parsed(st.result, st.other + [arg])
  {
    assert [arg][1..] == [];
    if last in r.flags {
      LastFlag(r, argc, [arg], last, st);
      EffectMarks(st, FlagEffect(r, last));
      hide Apply;
    } else if last !in r.groups {
      UnknownLast(r, argc, [arg], last, st);
    }
  }

  /** A token of letters is never kept once and nothing else. */
  lemma LettersNotKept(r: Rules, argc: nat, arg: string)
    requires Unregistered(r, arg) && |arg| > 2 && arg[0] == '-' && AllLetters(arg[1..])
    ensures Parse(r, argc, [arg], START) != Parsed(map[], [arg])
  {
    var front, last := arg[1..|arg| - 1], Letter(arg[|arg| - 1]);
    assert arg == "-" + arg[1..];
    ClusterIsNotPlain(r, arg[1..]);
    UnregisteredParts(r, arg);
    hide Unregistered, PlainEffect, AllLetters, Ordinary, Letters, ParseLast;
    ParseToken(r, argc, [arg], START);
    var st := Letters(r, arg, front, START);
    if st.Some? {
      LastLetter(r, argc, arg, last, st.value);
      if i :| 0 <= i < |front| && Letter(front[i]) in r.flags {
        KnownLetterMarks(r, arg, front, START);
      } else {
        UnknownFront(r, arg, front, START);
      }
    }
  }

  /**
   * An unregistered token that assigns no value is kept, once, if and only if it is a positional: short, or
   * with an equals sign, or not a '-' with letters.
   */
  lemma KeptOnce(r: Rules, argc: nat, arg: string)
    requires Unregistered(r, arg)
    requires !(|arg| > 2 && '=' in arg && arg[..Position(arg, '=')] in r.groups)
    ensures Parse(r, argc, [arg], START) == Parsed(map[], [arg]) <==> IsPositional(r, arg)
  {
    if IsPositional(r, arg) {
      hide IsPositional, Unregistered;
      ParseItem(r, argc, Positional(arg), [], START);
      ApplyOne(START, Keep(arg, arg));
      assert Render(Positional(arg)) + [] == [arg];
    } else {
      LettersNotKept(r, argc, arg);
    }
  }

  // The same in every state.

  /** What an unregistered token of letters does when its last letter asks for no value. */
  function ClusterResult(r: Rules, arg: string, st: State): Option<State>
    requires |arg| > 2
  {
    match Letters(r, arg, arg[1..|arg| - 1], st)
    case None => None
    case Some(st') =>
      var last := Letter(arg[|arg| - 1]);
      if last in r.flags then Apply(st', FlagEffect(r, last)) else Some(st'.(other := st'.other + [arg]))
  }

  /** What any unregistered token does that asks for no value. */
  function TokenResult(r: Rules, arg: string, st: State): Option<State> {
    match PlainEffect(r, arg)
    case Some(e) => Apply(st, e)
    case None => ClusterResult(r, arg, st)
  }

  /** The last letter of a token of letters is a group option and no flag. */
  predicate AsksForValue(r: Rules, arg: string) {
    && PlainEffect(r, arg) == None
    && var last := Letter(arg[|arg| - 1]); last in r.groups && last !in r.flags
  }

  lemma TokenStep(r: Rules, argc: nat, arg: string, rest: seq<string>, st: State)
    requires Unregistered(r, arg) && !AsksForValue(r, arg)
    ensures Parse(r, argc, [arg] + rest, st) == After(r, argc, rest, TokenResult(r, arg, st))
  {
    var args := [arg] + rest;
    UnregisteredParts(r, arg);
    hide PlainEffect, Letters, Apply, Ordinary, Unregistered, ParseLast;
    ParseToken(r, argc, args, st);
    assert args[1..] == rest;
    if PlainEffect(r, arg) == None {
      var last := Letter(arg[|arg| - 1]);
      var front := Letters(r, arg, arg[1..|arg| - 1], st);
      if front.Some? {
        if last in r.flags {
          LastFlag(r, argc, args, last, front.value);
        } else {
          UnknownLast(r, argc, args, last, front.value);
        }
      }
      hide Parse;
    }
  }

  /** A token of letters whose last one is a group option takes the next token as its value, and is not kept. */
  lemma TokenWithValue(r: Rules, argc: nat, arg: string, rest: seq<string>, st: State)
    requires Unregistered(r, arg) && AsksForValue(r, arg)
    ensures Parse(r, argc, [arg] + rest, st) == match Letters(r, arg, arg[1..|arg| - 1], st) {
      case None => TooManyParameters
      case Some(st') =>
        if |rest| == 0 || Registered(r, rest[0]) then InvalidArguments
        else After(r, argc, rest[1..], Apply(st', GroupEffect(r, Letter(arg[|arg| - 1]), rest[0])))
    }
  {
    var args, last := [arg] + rest, Letter(arg[|arg| - 1]);
    UnregisteredParts(r, arg);
    hide PlainEffect, Letters, Apply, Ordinary, Unregistered, Registered;
    ParseToken(r, argc, args, st);
    assert |rest| > 0 ==> args[1] == rest[0] && args[2..] == rest[1..];
    match Letters(r, arg, arg[1..|arg| - 1], st) {
      case None =>
      case Some(st') =>
        if |rest| > 0 && !Registered(r, rest[0]) {
          ParseValue(r, argc, args, last, st');
        }
        hide Parse, Apply;
    }
  }

  /** A key that a rule can have. */
  predicate IsNumber(key: string) { key != "" && '0' <= key[0] <= '9' }

  /** Letters only add to the cache; a flag letter adds the number of its rule. */
  lemma {:induction false} LettersClaim(r: Rules, arg: string, letters: string, st: State)
    ensures var st' := Letters(r, arg, letters, st); st'.Some? ==> st.cache <= st'.value.cache
    ensures var st' := Letters(r, arg, letters, st);
      st'.Some? ==> forall i :: 0 <= i < |letters| && Letter(letters[i]) in r.flags ==>
        r.flags[Letter(letters[i])].group in st'.value.cache && r.flags[Letter(letters[i])].group !in st.cache
  {
    if letters != "" {
      var e := LetterEffect(r, arg, letters[0]);
      EffectClaims(st, e);
      var applied := Apply(st, e);
      if applied.Some? {
        hide Apply;
        LettersClaim(r, arg, letters[1..], applied.value);
        assert forall i :: 1 <= i < |letters| ==> letters[i] == letters[1..][i - 1];
      }
    }
  }

  lemma EffectClaims(st: State, e: Effect)
    ensures Apply(st, e).Some? ==> e.key !in st.cache && Apply(st, e).value.cache == st.cache + {e.key}
  {}

  lemma FlagNumbers(r: Rules, bound: nat, name: string)
    requires NumbersBelow(r.flags, bound) && name in r.flags
    ensures IsNumber(r.flags[name].group)
  {
    var n :| 0 <= n < bound && r.flags[name].group == NatText(n);
    NatTextDigits(n);
    hide NatText;
    assert NatText(n)[0] in NatText(n);
  }

  lemma ClusterNotKept(r: Rules, bound: nat, arg: string, st: State)
    requires NumbersBelow(r.flags, bound)
    requires |arg| > 2 && arg[0] == '-' && arg !in st.cache
    ensures ClusterResult(r, arg, st) != Apply(st, Keep(arg, arg))
  {
    var front, last := arg[1..|arg| - 1], Letter(arg[|arg| - 1]);
    var st' := Letters(r, arg, front, st);
    EffectClaims(st, Keep(arg, arg));
    if st'.Some? {
      LettersClaim(r, arg, front, st);
      hide Letters;
      if i :| 0 <= i < |front| && Letter(front[i]) in r.flags {
        FlagNumbers(r, bound, Letter(front[i]));
        var key := r.flags[Letter(front[i])].group;
        if last in r.flags {
          EffectClaims(st'.value, FlagEffect(r, last));
        }
        hide Apply;
        assert key != arg && key in st'.value.cache && key !in st.cache;
      } else {
        UnknownFront(r, arg, front, st);
        if last in r.flags {
          FlagNumbers(r, bound, last);
          EffectClaims(st'.value, FlagEffect(r, last));
          hide Apply;
        }
      }
    }
  }

  /**
   * For registered rules, in every state in which the token was not kept before, and before any other tokens: an
   * unregistered token that assigns or asks for no value has a result of its own, and that is the result of
   * keeping it if and only if it is a positional. A token of letters always leaves another state or is rejected.
   */
  lemma KeptExactly(r: Rules, bound: nat, argc: nat, arg: string, rest: seq<string>, st: State)
    requires NumbersBelow(r.flags, bound) && Unregistered(r, arg) && arg !in st.cache
    requires !(|arg| > 2 && '=' in arg && arg[..Position(arg, '=')] in r.groups) && !AsksForValue(r, arg)
    ensures Parse(r, argc, [arg] + rest, st) == After(r, argc, rest, TokenResult(r, arg, st))
    ensures TokenResult(r, arg, st) == Apply(st, Keep(arg, arg)) <==> IsPositional(r, arg)
  {
    TokenStep(r, argc, arg, rest, st);
    if IsPositional(r, arg) {
      PlainOfItem(r, Positional(arg));
    } else {
      assert arg == "-" + arg[1..];
      ClusterIsNotPlain(r, arg[1..]);
      ClusterNotKept(r, bound, arg, st);
    }
    hide Parse, PlainEffect, IsPositional;
  }

  /** The line can still look as if it had been kept, when what its letters assign was assigned before. */
  lemma KeptInAppearance()
    ensures var r := Rules(map["-f" := ArgInfo("0", "x")], map["-a" := ArgInfo("1", "x")], "", "", "", false);
      && !IsPositional(r, "-ab")
      && Parse(r, 4, ["-f", "v", "-ab"], START) == Parsed(map["x" := "v"], ["-ab"])
  {
    var r := Rules(map["-f" := ArgInfo("0", "x")], map["-a" := ArgInfo("1", "x")], "", "", "", false);
    var st := State(map["x" := "v"], {"0"}, []);
    AfterSpaced(r, st);
    AfterLetters(r, st);
  }

  lemma AfterSpaced(r: Rules, st: State)
    requires r == Rules(map["-f" := ArgInfo("0", "x")], map["-a" := ArgInfo("1", "x")], "", "", "", false)
    requires st == State(map["x" := "v"], {"0"}, [])
    ensures Parse(r, 4, ["-f", "v", "-ab"], START) == Parse(r, 4, ["-ab"], st)
  {
    assert |"v"| == 1 && |"-f"| == 2;
    assert Render(Spaced("-f", "v")) + ["-ab"] == ["-f", "v", "-ab"];
    ApplyOne(START, GroupEffect(r, "-f", "v"));
    assert Effects(r, Spaced("-f", "v")) == [GroupEffect(r, "-f", "v")];
    assert Emplace(map[], "x", "v") == map["x" := "v"];
    assert GroupEffect(r, "-f", "v") == Assign("0", "x", "v");
    assert START.cache + {"0"} == {"0"};
    assert Apply(START, GroupEffect(r, "-f", "v")) == Some(st);
    hide Parse, ApplyAll, Apply;
    ParseItem(r, 4, Spaced("-f", "v"), ["-ab"], START);
  }

  lemma AfterLetters(r: Rules, st: State)
    requires r == Rules(map["-f" := ArgInfo("0", "x")], map["-a" := ArgInfo("1", "x")], "", "", "", false)
    requires st == State(map["x" := "v"], {"0"}, [])
    ensures !IsPositional(r, "-ab") && Parse(r, 4, ["-ab"], st) == Parsed(map["x" := "v"], ["-ab"])
  {
    var arg := "-ab";
    var st' := State(map["x" := "v"], {"0", "1"}, [arg]);
    assert arg == "-" + "ab" && arg[1..] == "ab" && arg[2] == 'b' && |arg| == 3;
    assert Letter('b') == "-b" && "-b"[1] != "-a"[1] && "-b"[1] != "-f"[1];
    assert forall j :: 0 <= j < |arg| ==> arg[j] != '=';
    ClusterIsNotPlain(r, "ab");
    LettersOfCluster(r, st);
    assert [] + [arg] == [arg] && arg[1..|arg| - 1] == "a";
    assert Unregistered(r, arg) && !IsPositional(r, arg);
    hide Letters, PlainEffect, IsPositional, Unregistered;
    assert TokenResult(r, arg, st) == Some(st');
    assert Parse(r, 4, [], st') == Parsed(map["x" := "v"], [arg]);
    assert [arg] + [] == [arg];
    hide Parse;
    TokenStep(r, 4, arg, [], st);
  }

  lemma LettersOfCluster(r: Rules, st: State)
    requires r == Rules(map["-f" := ArgInfo("0", "x")], map["-a" := ArgInfo("1", "x")], "", "", "", false)
    requires st == State(map["x" := "v"], {"0"}, [])
    ensures Letters(r, "-ab", "a", st) == Some(State(map["x" := "v"], {"0", "1"}, []))
  {
    var st' := State(map["x" := "v"], {"0", "1"}, []);
    assert Letter('a') == "-a" && "0"[0] != "1"[0] && "a"[1..] == "";
    assert Letters(r, "-ab", "", st') == Some(st');
    assert LetterEffect(r, "-ab", 'a') == Assign("1", "x", "x");
    assert Emplace(st.result, "x", "x") == st.result && st.cache + {"1"} == {"0", "1"};
    assert Apply(st, LetterEffect(r, "-ab", 'a')) == Some(st');
  }

  // Spellings.

  /** Two items with the same effects can stand for each other anywhere. */
  lemma SameEffects(r: Rules, argc: nat, a: Item, b: Item, rest: seq<string>, st: State)
    requires Wellformed(r, a) && Wellformed(r, b) && Effects(r, a) == Effects(r, b)
    ensures Parse(r, argc, Render(a) + rest, st) == Parse(r, argc, Render(b) + rest, st)
  {
    hide Wellformed, Effects, Render, Parse, ApplyAll;
    ParseItem(r, argc, a, rest, st);
    ParseItem(r, argc, b, rest, st);
  }

  /** "-f file" and "--file=file": two names of one rule, separate or with an equals sign. */
  lemma SpellingsAgree(r: Rules, argc: nat, name: string, name': string, value: string, rest: seq<string>, st: State)
    requires Wellformed(r, Spaced(name, value)) && Wellformed(r, Assigned(name', value))
    requires r.groups[name] == r.groups[name']
    ensures Parse(r, argc, [name, value] + rest, st) == Parse(r, argc, [name' + "=" + value] + rest, st)
  {
    hide Parse, Unregistered, Ordinary;
    SameEffects(r, argc, Spaced(name, value), Assigned(name', value), rest, st);
  }

  /** The number of arguments matters only to tokens that are still to come, and only up to 2. */
  lemma {:induction false} ArgcIrrelevant(r: Rules, argc: nat, argc': nat, args: seq<string>, st: State)
    requires |args| == 0 || (argc > 2 && argc' > 2)
    ensures Parse(r, argc, args, st) == Parse(r, argc', args, st)
    decreases |args|, 1, 0
  {
    if |args| > 0 {
      var arg := args[0];
      assert Special(r, argc, arg) == Special(r, argc', arg);
      hide Special, PlainEffect, Letters, Apply, Parse;
      ParseUnfold(r, argc, args, st);
      ParseUnfold(r, argc', args, st);
      if arg in r.groups {
        ArgcGroup(r, argc, argc', args, arg, st);
      } else if arg in r.flags {
        ArgcEffect(r, argc, argc', args[1..], FlagEffect(r, arg), st);
      } else {
        match PlainEffect(r, arg) {
          case Some(e) => ArgcEffect(r, argc, argc', args[1..], e, st);
          case None =>
            var st' := Letters(r, arg, arg[1..|arg| - 1], st);
            if st'.Some? {
              ArgcLast(r, argc, argc', args, Letter(arg[|arg| - 1]), st'.value);
            }
        }
      }
    }
  }

  lemma ParseUnfold(r: Rules, argc: nat, args: seq<string>, st: State)
    requires |args| > 0
    ensures Parse(r, argc, args, st) ==
      var arg := args[0];
      match Special(r, argc, arg) {
        case Some(outcome) => outcome
        case None =>
          if arg in r.groups then ParseGroup(r, argc, args, arg, st)
          else if arg in r.flags then ParseEffect(r, argc, args[1..], FlagEffect(r, arg), st)
          else match PlainEffect(r, arg) {
            case Some(e) => ParseEffect(r, argc, args[1..], e, st)
            case None =>
              match Letters(r, arg, arg[1..|arg| - 1], st) {
                case None => TooManyParameters
                case Some(st') => ParseLast(r, argc, args, Letter(arg[|arg| - 1]), st')
              }
          }
      }
  {
    hide Special, PlainEffect, Letters, Apply, ParseGroup, ParseEffect, ParseLast;
  }

  lemma {:induction false} ArgcEffect(r: Rules, argc: nat, argc': nat, rest: seq<string>, e: Effect, st: State)
    requires |rest| == 0 || (argc > 2 && argc' > 2)
    ensures ParseEffect(r, argc, rest, e, st) == ParseEffect(r, argc', rest, e, st)
    decreases |rest|, 2, 0
  {
    hide Parse, Apply;
    match Apply(st, e) {
      case None =>
      case Some(st') => ArgcIrrelevant(r, argc, argc', rest, st');
    }
  }

  lemma {:induction false} ArgcGroup(r: Rules, argc: nat, argc': nat, args: seq<string>, name: string, st: State)
    requires |args| > 0 && name in r.groups && argc > 2 && argc' > 2
    ensures ParseGroup(r, argc, args, name, st) == ParseGroup(r, argc', args, name, st)
    decreases |args|, 0, 0
  {
    hide ParseEffect;
    if |args| > 1 && !Registered(r, args[1]) {
      ArgcEffect(r, argc, argc', args[2..], GroupEffect(r, name, args[1]), st);
    }
  }

  lemma {:induction false} ArgcLast(r: Rules, argc: nat, argc': nat, args: seq<string>, last: string, st: State)
    requires |args| > 0 && argc > 2 && argc' > 2
    ensures ParseLast(r, argc, args, last, st) == ParseLast(r, argc', args, last, st)
    decreases |args|, 0, 1
  {
    hide Parse, ParseEffect, ParseGroup;
    if last in r.flags {
      ArgcEffect(r, argc, argc', args[1..], FlagEffect(r, last), st);
    } else if last in r.groups {
      ArgcGroup(r, argc, argc', args, last, st);
    } else {
      ArgcIrrelevant(r, argc, argc', args[1..], st.(other := st.other + [args[0]]));
    }
  }

  /** The letters of a cluster as separate tokens. */
  function Separate(letters: string): seq<Item> {
    if letters == "" then [] else [Flag(Letter(letters[0]))] + Separate(letters[1..])
  }

  /** A letter that means the same flag in a cluster and on its own. */
  predicate IsPlainFlag(r: Rules, c: char) { IsFlagLetter(r, c) && Wellformed(r, Flag(Letter(c))) }

  lemma {:induction false} SeparateEffects(r: Rules, letters: string)
    requires forall i :: 0 <= i < |letters| ==> IsPlainFlag(r, letters[i])
    ensures AllWellformed(r, Separate(letters)) && EffectsAll(r, Separate(letters)) == FlagEffects(r, letters)
  {
    if letters != "" {
      SeparateEffects(r, letters[1..]);
      assert Separate(letters)[1..] == Separate(letters[1..]);
      forall i | 0 <= i < |Separate(letters)| ensures Wellformed(r, Separate(letters)[i]) {
        if i > 0 {
          assert Separate(letters)[i] == Separate(letters[1..])[i - 1];
        }
      }
    }
  }

  /** "-abc" is "-a -b -c": from any state, before any other tokens, accepted or not. */
  lemma Clustering(r: Rules, argc: nat, argc': nat, letters: string, rest: seq<string>, st: State)
    requires Wellformed(r, Cluster(letters)) && forall i :: 0 <= i < |letters| ==> IsPlainFlag(r, letters[i])
    requires |rest| == 0 || (argc > 2 && argc' > 2)
    ensures Parse(r, argc, ["-" + letters] + rest, st) == Parse(r, argc', RenderAll(Separate(letters)) + rest, st)
  {
    SeparateEffects(r, letters);
    hide Parse, Wellformed, IsPlainFlag, RenderAll, EffectsAll, AllWellformed;
    ParseItem(r, argc, Cluster(letters), rest, st);
    ParseItems(r, argc', Separate(letters), rest, st);
    AfterIrrelevant(r, argc, argc', rest, ApplyAll(st, FlagEffects(r, letters)));
  }

  lemma AfterIrrelevant(r: Rules, argc: nat, argc': nat, rest: seq<string>, applied: Option<State>)
    requires |rest| == 0 || (argc > 2 && argc' > 2)
    ensures After(r, argc, rest, applied) == After(r, argc', rest, applied)
  {
    hide Parse;
    if applied.Some? {
      ArgcIrrelevant(r, argc, argc', rest, applied.value);
    }
  }

  /** "-abf file" is "-a -b -f file". */
  lemma ClusteringWithValue(r: Rules, argc: nat, argc': nat, letters: string, value: string, rest: seq<string>, st: State)
    requires Wellformed(r, ClusterWith(letters, value))
    requires forall i :: 0 <= i < |letters| - 1 ==> IsPlainFlag(r, letters[i])
    requires Wellformed(r, Spaced(Letter(letters[|letters| - 1]), value))
    requires |rest| == 0 || (argc > 2 && argc' > 2)
    ensures Parse(r, argc, ["-" + letters, value] + rest, st) ==
      Parse(r, argc', RenderAll(Separate(letters[..|letters| - 1])) + ([Letter(letters[|letters| - 1]), value] + rest), st)
  {
    var front, last := letters[..|letters| - 1], Letter(letters[|letters| - 1]);
    var tail := [last, value] + rest;
    assert Effects(r, ClusterWith(letters, value)) == FlagEffects(r, front) + [GroupEffect(r, last, value)];
    assert Effects(r, Spaced(last, value)) == [GroupEffect(r, last, value)];
    SeparateEffects(r, front);
    hide Parse, Wellformed, IsPlainFlag, RenderAll, EffectsAll, AllWellformed, Effects, ApplyAll;
    ParseItem(r, argc, ClusterWith(letters, value), rest, st);
    ParseItems(r, argc', Separate(front), tail, st);
    ApplyAllConcat(st, FlagEffects(r, front), [GroupEffect(r, last, value)]);
    match ApplyAll(st, FlagEffects(r, front)) {
      case None =>
      case Some(st') =>
        ParseItem(r, argc', Spaced(last, value), rest, st');
        AfterIrrelevant(r, argc, argc', rest, ApplyAll(st', [GroupEffect(r, last, value)]));
    }
  }

  /**
   * Rule numbers and kept texts share one cache: a positional that is the number of a used rule is
   * taken for a repetition.
   */
  lemma NumberCollision()
    ensures var r := Rules(map[], map["-a" := ArgInfo("0", "-a")], "", "", "", false);
      Parse(r, 3, ["-a", "0"], START) == TooManyParameters && Parse(r, 3, ["-a", "1"], START).Parsed?
  {
    var r := Rules(map[], map["-a" := ArgInfo("0", "-a")], "", "", "", false);
    NumberCase(r, "0");
    NumberCase(r, "1");
  }

  lemma NumberCase(r: Rules, text: string)
    requires r == Rules(map[], map["-a" := ArgInfo("0", "-a")], "", "", "", false) && text in {"0", "1"}
    ensures Parse(r, 3, ["-a", text], START) ==
      if text == "0" then TooManyParameters else Parsed(map["-a" := "-a"], [text])
  {
    var items := [Flag("-a"), Positional(text)];
    var es := [Assign("0", "-a", "-a"), Keep(text, text)];
    assert |text| == 1 && text != "-" && text != "-a";
    assert Wellformed(r, items[0]) && Wellformed(r, items[1]);
    assert RenderAll(items[1..]) == [text] && RenderAll(items) == ["-a", text];
    assert EffectsAll(r, items[1..]) == [Keep(text, text)] && EffectsAll(r, items) == es;
    hide Parse, Wellformed, RenderAll, EffectsAll;
    CommandLine(r, 3, items);
    assert es[0].key == "0" && es[1].key == text;
    assert es[1..] == [Keep(text, text)];
    assert Texts(es[1..]) == [text];
  }
}
