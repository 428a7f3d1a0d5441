/**
 * A parser from its rules to its result: gts/args_parser.cpp, lines 96-117 and 219-407. What a caller sees are
 * the calls of add_group and add_flag and the items of the command line.
 */
module ArgsRun {
  import opened Numbers
  import opened Options
  import opened ArgsParser
  import opened ArgsMeaning

  ghost predicate NoRepeats<T>(s: seq<T>) { forall i, j :: 0 <= i < j < |s| ==> s[i] != s[j] }

  lemma NoRepeatsFront<T>(x: T, s: seq<T>)
    ensures NoRepeats([x] + s) <==> NoRepeats(s) && x !in s
  {
    var t := [x] + s;
    if NoRepeats(t) {
      forall i, j | 0 <= i < j < |s| ensures s[i] != s[j] {
        assert t[i + 1] != t[j + 1];
      }
      forall j | 0 <= j < |s| ensures s[j] != x {
        assert t[0] != t[j + 1];
      }
    }
  }

  // Acceptance in terms of rule numbers and positionals.

  /** The cache entries that assignments claim. */
  function AssignKeys(es: seq<Effect>): seq<string> {
    if |es| == 0 then [] else (if es[0].Assign? then [es[0].key] else []) + AssignKeys(es[1..])
  }

  /** What is assigned, in order. */
  function Pairs(es: seq<Effect>): seq<(string, string)> {
    if |es| == 0 then [] else (if es[0].Assign? then [(es[0].iden, es[0].value)] else []) + Pairs(es[1..])
  }

  ghost predicate KeepsItself(es: seq<Effect>) { forall i :: 0 <= i < |es| && es[i].Keep? ==> es[i].key == es[i].text }

  lemma {:induction false} KeyIn(es: seq<Effect>, key: string)
    requires KeepsItself(es)
    ensures (exists i :: 0 <= i < |es| && es[i].key == key) <==> key in AssignKeys(es) || key in Texts(es)
  {
    if |es| > 0 {
      var rest := es[1..];
      assert forall i :: 0 <= i < |rest| ==> rest[i] == es[i + 1];
      KeyIn(rest, key);
      if i :| 0 <= i < |es| && es[i].key == key {
        assert i > 0 ==> rest[i - 1].key == key;
      }
      if j :| 0 <= j < |rest| && rest[j].key == key {
        assert es[j + 1].key == key;
      }
    }
  }

  ghost predicate Disjoint(a: seq<string>, b: seq<string>) { forall x :: x in a ==> x !in b }

  /** Claims are distinct when the rules are, the positionals are, and no positional is taken for a rule number. */
  lemma {:induction false} DistinctKeysMeaning(es: seq<Effect>)
    requires KeepsItself(es)
    ensures DistinctKeys(es) <==> NoRepeats(AssignKeys(es)) && NoRepeats(Texts(es)) && Disjoint(AssignKeys(es), Texts(es))
  {
    if |es| > 0 {
      var e, rest := es[0], es[1..];
      assert forall i :: 0 <= i < |rest| ==> rest[i] == es[i + 1];
      DistinctKeysMeaning(rest);
      KeyIn(rest, e.key);
      DistinctFront(e, rest);
      assert es == [e] + rest;
      hide DistinctKeys, NoRepeats, Disjoint;
      if e.Assign? {
        NoRepeatsFront(e.key, AssignKeys(rest));
        DisjointFront(e.key, AssignKeys(rest), Texts(rest));
        assert Texts(es) == Texts(rest);
      } else {
        NoRepeatsFront(e.text, Texts(rest));
        DisjointFront(e.text, Texts(rest), AssignKeys(rest));
        assert AssignKeys(es) == AssignKeys(rest) && e.key == e.text;
      }
    }
  }

  lemma DisjointFront(x: string, a: seq<string>, b: seq<string>)
    ensures Disjoint([x] + a, b) <==> Disjoint(a, b) && x !in b
    ensures Disjoint(b, [x] + a) <==> Disjoint(b, a) && x !in b
  {
    assert forall y :: y in [x] + a <==> y == x || y in a;
  }

  lemma DistinctFront(e: Effect, rest: seq<Effect>)
    ensures DistinctKeys([e] + rest) <==>
      DistinctKeys(rest) && !exists i :: 0 <= i < |rest| && rest[i].key == e.key
  {
    var es := [e] + rest;
    if DistinctKeys(es) {
      forall i, j | 0 <= i < j < |rest| ensures rest[i].key != rest[j].key {
        assert es[i + 1].key != es[j + 1].key;
      }
      forall i | 0 <= i < |rest| ensures rest[i].key != e.key {
        assert es[0].key != es[i + 1].key;
      }
    }
  }

  // What the items say, in the caller's terms.

  /** The positions of the calls whose names the letters are. */
  ghost function LetterOwners(calls: seq<Call>, letters: string): seq<nat> {
    if letters == "" then [] else [Owner(calls, false, Letter(letters[0]))] + LetterOwners(calls, letters[1..])
  }

  /** The positions of the calls whose rules an item uses. */
  ghost function Used(calls: seq<Call>, item: Item): seq<nat> {
    match item
    case Spaced(name, value) => [Owner(calls, true, name)]
    case Assigned(name, value) => [Owner(calls, true, name)]
    case Flag(name) => [Owner(calls, false, name)]
    case Positional(text) => []
    case Cluster(letters) => LetterOwners(calls, letters)
    case ClusterWith(letters, value) =>
      if letters == "" then []
      else LetterOwners(calls, letters[..|letters| - 1]) + [Owner(calls, true, Letter(letters[|letters| - 1]))]
  }

  ghost function UsedAll(calls: seq<Call>, items: seq<Item>): seq<nat> {
    if |items| == 0 then [] else Used(calls, items[0]) + UsedAll(calls, items[1..])
  }

  function Positionals(items: seq<Item>): seq<string> {
    if |items| == 0 then [] else (if items[0].Positional? then [items[0].text] else []) + Positionals(items[1..])
  }

  /** The identification of a name. */
  ghost function Iden(calls: seq<Call>, isGroup: bool, name: string): string {
    var k := Owner(calls, isGroup, name);
    if k < |calls| then IdenOf(calls[k], name) else ""
  }

  ghost function FlagPair(calls: seq<Call>, name: string): (string, string) {
    (Iden(calls, false, name), Iden(calls, false, name))
  }

  ghost function LetterPairs(calls: seq<Call>, letters: string): seq<(string, string)> {
    if letters == "" then [] else [FlagPair(calls, Letter(letters[0]))] + LetterPairs(calls, letters[1..])
  }

  /** The assignments that an item writes: a group its value, a flag its own identification. */
  ghost function Written(calls: seq<Call>, item: Item): seq<(string, string)> {
    match item
    case Spaced(name, value) => [(Iden(calls, true, name), value)]
    case Assigned(name, value) => [(Iden(calls, true, name), value)]
    case Flag(name) => [FlagPair(calls, name)]
    case Positional(text) => []
    case Cluster(letters) => LetterPairs(calls, letters)
    case ClusterWith(letters, value) =>
      if letters == "" then []
      else LetterPairs(calls, letters[..|letters| - 1]) + [(Iden(calls, true, Letter(letters[|letters| - 1])), value)]
  }

  ghost function WrittenAll(calls: seq<Call>, items: seq<Item>): seq<(string, string)> {
    if |items| == 0 then [] else Written(calls, items[0]) + WrittenAll(calls, items[1..])
  }

  /** r has the rules that the calls registered. */
  ghost predicate BuiltBy(r: Rules, calls: seq<Call>, bound: nat) {
    Ascending(calls, bound) && r.groups == Registry(calls, true) && r.flags == Registry(calls, false)
  }

  /** The text of the number of a call. */
  function NumberOf(calls: seq<Call>, k: nat): string { if k < |calls| then NatText(calls[k].number) else "" }

  function NumbersOf(calls: seq<Call>, ks: seq<nat>): seq<string> {
    if |ks| == 0 then [] else [NumberOf(calls, ks[0])] + NumbersOf(calls, ks[1..])
  }

  /** The effects es are the ones of calls ks, in order, and write pairs; what is kept is texts. */
  ghost predicate Agrees(calls: seq<Call>, es: seq<Effect>, ks: seq<nat>, pairs: seq<(string, string)>, texts: seq<string>) {
    && AssignKeys(es) == NumbersOf(calls, ks) && Pairs(es) == pairs && Texts(es) == texts
    && KeepsItself(es) && forall i :: 0 <= i < |ks| ==> ks[i] < |calls|
  }

  lemma {:induction false} AssignKeysConcat(a: seq<Effect>, b: seq<Effect>)
    ensures AssignKeys(a + b) == AssignKeys(a) + AssignKeys(b)
  {
    if |a| == 0 {
      assert a + b == b;
    } else {
      assert (a + b)[0] == a[0] && (a + b)[1..] == a[1..] + b;
      AssignKeysConcat(a[1..], b);
    }
  }

  lemma {:induction false} PairsConcat(a: seq<Effect>, b: seq<Effect>)
    ensures Pairs(a + b) == Pairs(a) + Pairs(b)
  {
    if |a| == 0 {
      assert a + b == b;
    } else {
      assert (a + b)[0] == a[0] && (a + b)[1..] == a[1..] + b;
      PairsConcat(a[1..], b);
    }
  }

  lemma {:induction false} TextsConcat(a: seq<Effect>, b: seq<Effect>)
    ensures Texts(a + b) == Texts(a) + Texts(b)
  {
    if |a| == 0 {
      assert a + b == b;
    } else {
      assert (a + b)[0] == a[0] && (a + b)[1..] == a[1..] + b;
      TextsConcat(a[1..], b);
    }
  }

  lemma {:induction false} NumbersConcat(calls: seq<Call>, a: seq<nat>, b: seq<nat>)
    ensures NumbersOf(calls, a + b) == NumbersOf(calls, a) + NumbersOf(calls, b)
  {
    hide NumberOf;
    if |a| == 0 {
      assert a + b == b;
    } else {
      assert (a + b)[0] == a[0] && (a + b)[1..] == a[1..] + b;
      NumbersConcat(calls, a[1..], b);
    }
  }

  lemma AgreesConcat(calls: seq<Call>, es: seq<Effect>, ks: seq<nat>, ps: seq<(string, string)>, ts: seq<string>,
                     es': seq<Effect>, ks': seq<nat>, ps': seq<(string, string)>, ts': seq<string>)
    requires Agrees(calls, es, ks, ps, ts) && Agrees(calls, es', ks', ps', ts')
    ensures Agrees(calls, es + es', ks + ks', ps + ps', ts + ts')
  {
    AssignKeysConcat(es, es');
    PairsConcat(es, es');
    TextsConcat(es, es');
    NumbersConcat(calls, ks, ks');
    hide AssignKeys, Pairs, Texts, NumbersOf;
  }

  lemma OptionAgrees(r: Rules, calls: seq<Call>, bound: nat, name: string, value: string)
    requires BuiltBy(r, calls, bound)
    ensures name in r.groups ==>
      Agrees(calls, [GroupEffect(r, name, value)], [Owner(calls, true, name)], [(Iden(calls, true, name), value)], [])
    ensures name in r.flags ==>
      Agrees(calls, [FlagEffect(r, name)], [Owner(calls, false, name)], [FlagPair(calls, name)], [])
  {
    RegistryMeaning(calls, true, name);
    RegistryMeaning(calls, false, name);
    hide Registry, Owner, NatText, IdenOf, Ascending;
    if name in r.groups {
      AgreesOne(calls, GroupEffect(r, name, value), Owner(calls, true, name));
    }
    if name in r.flags {
      AgreesOne(calls, FlagEffect(r, name), Owner(calls, false, name));
    }
  }

  lemma AgreesOne(calls: seq<Call>, e: Effect, k: nat)
    requires e.Assign? && k < |calls| && e.key == NumberOf(calls, k)
    ensures Agrees(calls, [e], [k], [(e.iden, e.value)], [])
  {
    hide NumberOf;
    assert [e][1..] == [] && [k][1..] == [];
    assert AssignKeys([e]) == [e.key] + AssignKeys([]) == [e.key];
    assert Pairs([e]) == [(e.iden, e.value)] + Pairs([]) == [(e.iden, e.value)];
    assert Texts([e]) == [] + Texts([]) == [];
    assert NumbersOf(calls, [k]) == [NumberOf(calls, k)] + NumbersOf(calls, []) == [NumberOf(calls, k)];
  }

  lemma NothingAgrees(calls: seq<Call>)
    ensures Agrees(calls, [], [], [], [])
  {}

  lemma PositionalAgrees(calls: seq<Call>, text: string)
    ensures Agrees(calls, [Keep(text, text)], [], [], [text])
  {
    assert [Keep(text, text)][1..] == [];
  }

  lemma {:induction false} LettersAgree(r: Rules, calls: seq<Call>, bound: nat, letters: string)
    requires BuiltBy(r, calls, bound) && forall i :: 0 <= i < |letters| ==> IsFlagLetter(r, letters[i])
    ensures Agrees(calls, FlagEffects(r, letters), LetterOwners(calls, letters), LetterPairs(calls, letters), [])
  {
    hide Agrees, BuiltBy, Owner, FlagPair;
    assert TextsOf(Cluster(letters)) + [] == [];
    if letters == "" {
      NothingAgrees(calls);
    } else {
      LettersAgree(r, calls, bound, letters[1..]);
      OptionAgrees(r, calls, bound, Letter(letters[0]), "");
      AgreesConcat(calls, [LetterEffect(r, "", letters[0])], [Owner(calls, false, Letter(letters[0]))],
                   [FlagPair(calls, Letter(letters[0]))], [],
                   FlagEffects(r, letters[1..]), LetterOwners(calls, letters[1..]), LetterPairs(calls, letters[1..]), []);
    }
  }

  function TextsOf(item: Item): seq<string> { if item.Positional? then [item.text] else [] }

  lemma ItemAgrees(r: Rules, calls: seq<Call>, bound: nat, item: Item)
    requires BuiltBy(r, calls, bound) && Wellformed(r, item)
    ensures Agrees(calls, Effects(r, item), Used(calls, item), Written(calls, item), TextsOf(item))
  {
    hide Agrees, BuiltBy, Owner, Iden, FlagPair, LetterOwners, LetterPairs, FlagEffects, GroupEffect, FlagEffect, IsPositional;
    match item
    case Spaced(name, value) => OptionAgrees(r, calls, bound, name, value);
    case Assigned(name, value) => OptionAgrees(r, calls, bound, name, value);
    case Flag(name) => OptionAgrees(r, calls, bound, name, "");
    case Positional(text) => PositionalAgrees(calls, text);
    case Cluster(letters) => LettersAgree(r, calls, bound, letters);
    case ClusterWith(letters, value) =>
      var front, last := letters[..|letters| - 1], Letter(letters[|letters| - 1]);
      LettersAgree(r, calls, bound, front);
      OptionAgrees(r, calls, bound, last, value);
      assert TextsOf(Cluster(letters)) + [] == TextsOf(item);
      AgreesConcat(calls, FlagEffects(r, front), LetterOwners(calls, front), LetterPairs(calls, front), [],
                   [GroupEffect(r, last, value)], [Owner(calls, true, last)], [(Iden(calls, true, last), value)], []);
  }

  lemma {:induction false} ItemsAgree(r: Rules, calls: seq<Call>, bound: nat, items: seq<Item>)
    requires BuiltBy(r, calls, bound) && AllWellformed(r, items)
    ensures Agrees(calls, EffectsAll(r, items), UsedAll(calls, items), WrittenAll(calls, items), Positionals(items))
    decreases |items|
  {
    hide Agrees, BuiltBy, Wellformed, Effects, Used, Written;
    if |items| == 0 {
      NothingAgrees(calls);
    } else {
      ItemAgrees(r, calls, bound, items[0]);
      ItemsAgree(r, calls, bound, items[1..]);
      AgreesConcat(calls, Effects(r, items[0]), Used(calls, items[0]), Written(calls, items[0]), TextsOf(items[0]),
                   EffectsAll(r, items[1..]), UsedAll(calls, items[1..]), WrittenAll(calls, items[1..]), Positionals(items[1..]));
    }
  }

  lemma {:induction false} NumbersDistinct(calls: seq<Call>, bound: nat, ks: seq<nat>)
    requires Ascending(calls, bound) && forall i :: 0 <= i < |ks| ==> ks[i] < |calls|
    ensures NoRepeats(NumbersOf(calls, ks)) <==> NoRepeats(ks)
    ensures forall k: nat :: k < |calls| ==> (NumberOf(calls, k) in NumbersOf(calls, ks) <==> k in ks)
  {
    hide NumberOf;
    if |ks| > 0 {
      NumbersDistinct(calls, bound, ks[1..]);
      assert ks == [ks[0]] + ks[1..];
      NoRepeatsFront(ks[0], ks[1..]);
      NoRepeatsFront(NumberOf(calls, ks[0]), NumbersOf(calls, ks[1..]));
      forall k: nat | k < |calls| ensures NumberOf(calls, k) == NumberOf(calls, ks[0]) <==> k == ks[0] {
        NumberInjective(calls, bound, k, ks[0]);
      }
      hide NoRepeats;
    }
  }

  lemma NumberInjective(calls: seq<Call>, bound: nat, i: nat, j: nat)
    requires Ascending(calls, bound) && i < |calls| && j < |calls|
    ensures NumberOf(calls, i) == NumberOf(calls, j) <==> i == j
  {
    hide NatText;
    if NatText(calls[i].number) == NatText(calls[j].number) {
      NatTextInjective(calls[i].number, calls[j].number);
    }
  }

  // The result of first-wins assignment.

  function FirstWins(m: map<string, string>, pairs: seq<(string, string)>): map<string, string>
    decreases |pairs|
  {
    if |pairs| == 0 then m else FirstWins(Emplace(m, pairs[0].0, pairs[0].1), pairs[1..])
  }

  lemma {:induction false} AssignmentsArePairs(m: map<string, string>, es: seq<Effect>)
    ensures Assignments(m, es) == FirstWins(m, Pairs(es))
    decreases |es|
  {
    hide Emplace;
    if |es| > 0 {
      var m' := if es[0].Assign? then Emplace(m, es[0].iden, es[0].value) else m;
      AssignmentsArePairs(m', es[1..]);
      if es[0].Assign? {
        assert Pairs(es)[1..] == Pairs(es[1..]);
      } else {
        assert Pairs(es) == Pairs(es[1..]);
      }
    }
  }

  /** The value of k is that of the first pair for k. */
  lemma {:induction false} FirstWinsMeaning(m: map<string, string>, pairs: seq<(string, string)>, k: string, v: string)
    ensures (k in FirstWins(m, pairs) && FirstWins(m, pairs)[k] == v) <==>
      if k in m then m[k] == v
      else exists i :: 0 <= i < |pairs| && pairs[i] == (k, v) && forall j :: 0 <= j < i ==> pairs[j].0 != k
    decreases |pairs|
  {
    if |pairs| > 0 {
      var m', rest := Emplace(m, pairs[0].0, pairs[0].1), pairs[1..];
      assert forall i :: 0 <= i < |rest| ==> rest[i] == pairs[i + 1];
      FirstWinsMeaning(m', rest, k, v);
      if k !in m && k != pairs[0].0 {
        if i :| 0 <= i < |pairs| && pairs[i] == (k, v) && forall j :: 0 <= j < i ==> pairs[j].0 != k {
          assert rest[i - 1] == (k, v) && forall j :: 0 <= j < i - 1 ==> rest[j].0 != k;
        }
        if i :| 0 <= i < |rest| && rest[i] == (k, v) && forall j :: 0 <= j < i ==> rest[j].0 != k {
          assert pairs[i + 1] == (k, v);
          assert forall j :: 1 <= j < i + 1 ==> pairs[j] == rest[j - 1];
        }
      } else if k !in m {
        assert pairs[0] == (k, pairs[0].1);
      }
    }
  }

  // The theorem.

  /** The line uses no rule twice, repeats no positional, and has no positional that is the number of a rule it uses. */
  ghost predicate Consistent(calls: seq<Call>, items: seq<Item>) {
    && NoRepeats(UsedAll(calls, items)) && NoRepeats(Positionals(items))
    && Disjoint(NumbersOf(calls, UsedAll(calls, items)), Positionals(items))
  }

  /**
   * For rules that any calls of add_group and add_flag have registered: a command line of well-formed items is
   * accepted if and only if it is consistent, and then gives what it writes, and the positionals in order.
   */
  lemma EndToEnd(r: Rules, calls: seq<Call>, bound: nat, argc: nat, items: seq<Item>)
    requires BuiltBy(r, calls, bound) && AllWellformed(r, items)
    ensures Parse(r, argc, RenderAll(items), START) ==
      if Consistent(calls, items) then Parsed(FirstWins(map[], WrittenAll(calls, items)), Positionals(items))
      else TooManyParameters
  {
    var es := EffectsAll(r, items);
    ItemsAgree(r, calls, bound, items);
    NumbersDistinct(calls, bound, UsedAll(calls, items));
    DistinctKeysMeaning(es);
    AssignmentsArePairs(map[], es);
    hide Parse, Wellformed, AllWellformed, EffectsAll, DistinctKeys, NoRepeats, Disjoint, Texts, Assignments, FirstWins,
      UsedAll, WrittenAll, Positionals, NumbersOf, AssignKeys, Pairs, RenderAll, Registry;
    CommandLine(r, argc, items);
  }

  /**
   * With distinct rules and distinct positionals, what is left to go wrong is a positional that spells a rule's number;
   * NumberCollision is such a line.
   */
  lemma NumbersCollide(r: Rules, calls: seq<Call>, bound: nat, argc: nat, items: seq<Item>)
    requires BuiltBy(r, calls, bound) && AllWellformed(r, items)
    requires NoRepeats(UsedAll(calls, items)) && NoRepeats(Positionals(items))
    ensures Parse(r, argc, RenderAll(items), START).Parsed? <==>
      forall k :: k in UsedAll(calls, items) ==> NumberOf(calls, k) !in Positionals(items)
    ensures !Parse(r, argc, RenderAll(items), START).Parsed? ==>
      Parse(r, argc, RenderAll(items), START) == TooManyParameters
  {
    var ks := UsedAll(calls, items);
    EndToEnd(r, calls, bound, argc, items);
    InNumbers(calls, ks);
    hide Parse, NumbersOf, UsedAll, Positionals, NumberOf, AllWellformed, BuiltBy;
  }

  lemma {:induction false} InNumbers(calls: seq<Call>, ks: seq<nat>)
    ensures forall x :: x in NumbersOf(calls, ks) <==> exists k :: k in ks && NumberOf(calls, k) == x
  {
    hide NumberOf;
    if |ks| > 0 {
      InNumbers(calls, ks[1..]);
      assert ks == [ks[0]] + ks[1..];
    }
  }

  /** The identifications that are written. */
  function Idens(pairs: seq<(string, string)>): seq<string> {
    if |pairs| == 0 then [] else [pairs[0].0] + Idens(pairs[1..])
  }

  lemma {:induction false} IdensAt(pairs: seq<(string, string)>)
    ensures |Idens(pairs)| == |pairs| && forall i :: 0 <= i < |pairs| ==> Idens(pairs)[i] == pairs[i].0
  {
    if |pairs| > 0 {
      IdensAt(pairs[1..]);
      assert forall i :: 1 <= i < |pairs| ==> pairs[i] == pairs[1..][i - 1];
    }
  }

  lemma ExactWhenDistinct(pairs: seq<(string, string)>, k: string, v: string)
    requires NoRepeats(Idens(pairs))
    ensures (k in FirstWins(map[], pairs) && FirstWins(map[], pairs)[k] == v) <==> (k, v) in pairs
  {
    FirstWinsMeaning(map[], pairs, k, v);
    IdensAt(pairs);
    hide FirstWins, Idens;
    if (k, v) in pairs {
      var i :| 0 <= i < |pairs| && pairs[i] == (k, v);
      forall j | 0 <= j < i ensures pairs[j].0 != k {
        assert Idens(pairs)[j] != Idens(pairs)[i];
      }
    }
  }

  /**
   * For a parser after any calls of add_group and add_flag, beside any other parsers: items of distinct rules with
   * distinct identifications, and distinct positionals none of which spells a number that was given out so far, are
   * accepted with exactly their assignment, whatever their order and spelling.
   */
  lemma Accepted(p: ArgsParser, argc: nat, items: seq<Item>)
    requires p.Valid() && AllWellformed(p.rules, items)
    requires NoRepeats(UsedAll(p.calls, items)) && NoRepeats(Idens(WrittenAll(p.calls, items)))
    requires NoRepeats(Positionals(items)) && forall n: nat :: n < p.source.next ==> NatText(n) !in Positionals(items)
    ensures var outcome := Parse(p.rules, argc, RenderAll(items), START);
      && outcome.Parsed? && outcome.other == Positionals(items)
      && forall k, v :: (k in outcome.result && outcome.result[k] == v) <==> (k, v) in WrittenAll(p.calls, items)
  {
    var pairs := WrittenAll(p.calls, items);
    var ks := UsedAll(p.calls, items);
    ItemsAgree(p.rules, p.calls, p.source.next, items);
    EndToEnd(p.rules, p.calls, p.source.next, argc, items);
    InNumbers(p.calls, ks);
    hide Parse, NumbersOf, UsedAll, Positionals, AllWellformed, WrittenAll, FirstWins, Registry, NatText, Idens, RenderAll;
    forall k, v ensures (k in FirstWins(map[], pairs) && FirstWins(map[], pairs)[k] == v) <==> (k, v) in pairs {
      ExactWhenDistinct(pairs, k, v);
    }
    assert Disjoint(NumbersOf(p.calls, ks), Positionals(items));
  }

  // A parser that a program builds and runs.

  /** A call as the program writes it. */
  datatype Rule = Rule(isGroup: bool, rule: string, description: string, iden: string)

  /** The calls with the numbers that a counter gives them. */
  function Calls(rules: seq<Rule>, first: nat): seq<Call> {
    seq(|rules|, k requires 0 <= k < |rules| => Call(rules[k].isGroup, rules[k].rule, rules[k].iden, first + k))
  }

  function HelpOf(rules: seq<Rule>): string {
    if |rules| == 0 then ""
    else HelpOf(rules[..|rules| - 1]) + HelpText(rules[|rules| - 1].rule, rules[|rules| - 1].description)
  }

  function RulesOf(rules: seq<Rule>, first: nat): Rules {
    Rules(Registry(Calls(rules, first), true), Registry(Calls(rules, first), false), "", "", HelpOf(rules), false)
  }

  lemma RulesNext(rules: seq<Rule>, n: nat, first: nat)
    requires n < |rules|
    ensures Calls(rules[..n + 1], first) ==
      Calls(rules[..n], first) + [Call(rules[n].isGroup, rules[n].rule, rules[n].iden, first + n)]
    ensures HelpOf(rules[..n + 1]) == HelpOf(rules[..n]) + HelpText(rules[n].rule, rules[n].description)
  {
    hide HelpText;
    assert rules[..n + 1][..n] == rules[..n];
  }

  /** A parser with any rules. */
  method Build(source: IdSource, rules: seq<Rule>) returns (p: ArgsParser)
    modifies source
    ensures fresh(p) && p.source == source && p.Valid()
    ensures p.calls == Calls(rules, old(source.next)) && p.rules == RulesOf(rules, old(source.next))
  {
    hide Registry, HelpOf, HelpText, Calls, Register;
    ghost var first := source.next;
    p := new ArgsParser(source);
    NoRules(first);
    for n := 0 to |rules|
      invariant p.Valid() && p.source == source && fresh(p) && source.next == first + n
      invariant p.calls == Calls(rules[..n], first) && p.rules.help == HelpOf(rules[..n])
      invariant p.rules.v == p.rules.version == "" && !p.rules.h
    {
      RulesNext(rules, n, first);
      if rules[n].isGroup {
        p.AddGroup(rules[n].rule, rules[n].description, rules[n].iden);
      } else {
        p.AddFlag(rules[n].rule, rules[n].description, rules[n].iden);
      }
    }
    assert rules[..|rules|] == rules;
  }

  lemma NoRules(first: nat)
    ensures Calls([], first) == [] && HelpOf([]) == "" && forall rules: seq<Rule> :: rules[..0] == []
  {}

  /**
   * Register any rules and parse any line of well-formed items. No item using a rule that another uses, no
   * positional twice and none that spells the number of a rule in use: that is when the line is accepted; the
   * k-th rule has the number first + k. Each identification then has the value that is first written for it.
   */
  method Run(source: IdSource, rules: seq<Rule>, program: string, items: seq<Item>) returns (outcome: Outcome)
    requires AllWellformed(RulesOf(rules, source.next), items)
    modifies source
    ensures var calls := Calls(rules, old(source.next));
      outcome == if Consistent(calls, items) then Parsed(FirstWins(map[], WrittenAll(calls, items)), Positionals(items))
                 else TooManyParameters
  {
    hide Registry, HelpOf, Calls, Consistent, AllWellformed, Wellformed, Parse;
    var p := Build(source, rules);
    var argv := [program] + RenderAll(items);
    EndToEnd(p.rules, p.calls, source.next, |argv|, items);
    outcome := p.Parsing(argv);
    assert argv[1..] == RenderAll(items);
  }

  // The built-in tokens.

  lemma RenderedItems(items: seq<Item>)
    ensures |RenderAll(items)| == 0 <==> |items| == 0
  {}

  /** After accepted items a line goes on with the tokens that follow them; other items end it. */
  lemma AfterItems(r: Rules, argc: nat, items: seq<Item>, args: seq<string>) returns (st: State)
    requires AllWellformed(r, items)
    ensures DistinctKeys(EffectsAll(r, items)) ==> ApplyAll(START, EffectsAll(r, items)) == Some(st)
    ensures Parse(r, argc, RenderAll(items) + args, START) ==
      if DistinctKeys(EffectsAll(r, items)) then Parse(r, argc, args, st) else TooManyParameters
  {
    hide Parse, Wellformed, AllWellformed, EffectsAll, DistinctKeys, ApplyAll, RenderAll;
    ParseItems(r, argc, items, args, START);
    ApplyAllMeaning(START, EffectsAll(r, items));
    var applied := ApplyAll(START, EffectsAll(r, items));
    st := if applied.Some? then applied.value else START;
  }

  /** The line of these items, the token and more tokens, and what a program that gets it does. */
  function Line(items: seq<Item>, token: string, rest: seq<string>): seq<string> { RenderAll(items) + ([token] + rest) }

  function Answer(r: Rules, line: seq<string>): Outcome { Parse(r, |line| + 1, line, START) }

  /** A single dash or two end the line as invalid, wherever they stand after accepted items. */
  lemma DashesAreInvalid(r: Rules, items: seq<Item>, token: string, rest: seq<string>)
    requires AllWellformed(r, items) && (token == "-" || token == "--")
    ensures Answer(r, Line(items, token, rest)) ==
      if DistinctKeys(EffectsAll(r, items)) then InvalidArguments else TooManyParameters
  {
    var args, argc := [token] + rest, |Line(items, token, rest)| + 1;
    hide Wellformed, AllWellformed, EffectsAll, DistinctKeys, ApplyAll, RenderAll;
    var st := AfterItems(r, argc, items, args);
    assert Parse(r, argc, args, st) == InvalidArguments;
  }

  /** The version is printed for the token alone, the long one before the short one; any company is too much. */
  lemma VersionAnswer(r: Rules, items: seq<Item>, rest: seq<string>)
    requires AllWellformed(r, items)
    ensures Answer(r, Line(items, "--version", rest)) ==
      if |items| > 0 || |rest| > 0 then TooManyParameters
      else if r.version != "" then PrintVersion else if r.v != "" then PrintV else InvalidArguments
  {
    var args, argc := ["--version"] + rest, |Line(items, "--version", rest)| + 1;
    RenderedItems(items);
    assert |items| == 0 ==> DistinctKeys(EffectsAll(r, items));
    hide Wellformed, AllWellformed, EffectsAll, DistinctKeys, ApplyAll, RenderAll;
    var st := AfterItems(r, argc, items, args);
    assert Parse(r, argc, args, st) == if argc > 2 then TooManyParameters
      else if r.version != "" then PrintVersion else if r.v != "" then PrintV else InvalidArguments;
  }

  /** The help is printed for the token alone, when there is any. */
  lemma HelpAnswer(r: Rules, items: seq<Item>, rest: seq<string>)
    requires AllWellformed(r, items)
    ensures Answer(r, Line(items, "--help", rest)) ==
      if |items| > 0 || |rest| > 0 then TooManyParameters else if r.help != "" then PrintHelp else InvalidArguments
  {
    var args, argc := ["--help"] + rest, |Line(items, "--help", rest)| + 1;
    RenderedItems(items);
    assert |items| == 0 ==> DistinctKeys(EffectsAll(r, items));
    hide Wellformed, AllWellformed, EffectsAll, DistinctKeys, ApplyAll, RenderAll;
    var st := AfterItems(r, argc, items, args);
    assert Parse(r, argc, args, st) ==
      if argc > 2 then TooManyParameters else if r.help != "" then PrintHelp else InvalidArguments;
  }

  predicate Enabled(r: Rules, token: string) { (token == "-v" && r.v != "") || (token == "-h" && r.h) }

  /** The short tokens print when they are enabled, alone, and are kept like any other token when they are not. */
  lemma ShortAnswer(r: Rules, items: seq<Item>, token: string, rest: seq<string>)
    requires AllWellformed(r, items) && (token == "-v" || token == "-h")
    ensures var outcome := Answer(r, Line(items, token, rest));
      if Enabled(r, token) then
        outcome == if |items| > 0 || |rest| > 0 then TooManyParameters else if token == "-v" then PrintV else PrintHelp
      else if !Registered(r, token) then
        outcome == After(r, |Line(items, token, rest)| + 1, rest, ApplyAll(START, EffectsAll(r, items) + [Keep(token, token)]))
      else true
  {
    var args, argc := [token] + rest, |Line(items, token, rest)| + 1;
    RenderedItems(items);
    assert |items| == 0 ==> DistinctKeys(EffectsAll(r, items));
    assert |token| == 2;
    hide Wellformed, AllWellformed, EffectsAll, DistinctKeys, RenderAll;
    var st := AfterItems(r, argc, items, args);
    if Enabled(r, token) {
      assert Parse(r, argc, args, st) ==
        if argc > 2 then TooManyParameters else if token == "-v" then PrintV else PrintHelp;
    } else if !Registered(r, token) {
      KeptShort(r, argc, token, rest, st);
      hide Parse, Apply;
      ApplyAllConcat(START, EffectsAll(r, items), [Keep(token, token)]);
      ApplyAllMeaning(START, EffectsAll(r, items));
      ApplyOne(st, Keep(token, token));
    }
  }

  lemma KeptShort(r: Rules, argc: nat, token: string, rest: seq<string>, st: State)
    requires |token| == 2 && Ordinary(r, token) && !Registered(r, token)
    ensures Parse(r, argc, [token] + rest, st) == After(r, argc, rest, Apply(st, Keep(token, token)))
  {
    hide Ordinary, Apply, Letters;
    ParseToken(r, argc, [token] + rest, st);
    assert ([token] + rest)[1..] == rest;
    hide Parse;
  }

  /** A parser that a program builds, without setting a version: the help is there when there are rules. */
  method Ask(source: IdSource, rules: seq<Rule>, program: string) returns (help: Outcome, version: Outcome)
    modifies source
    ensures help == (if |rules| > 0 then PrintHelp else InvalidArguments) && version == InvalidArguments
  {
    hide Registry, HelpOf, Calls, Parse, Special;
    var p := Build(source, rules);
    HelpIsThere(rules);
    NoItems(p.rules);
    HelpAnswer(p.rules, [], []);
    VersionAnswer(p.rules, [], []);
    assert [program, "--help"][1..] == Line([], "--help", []) && [program, "--version"][1..] == Line([], "--version", []);
    help := p.Parsing([program, "--help"]);
    version := p.Parsing([program, "--version"]);
  }

  lemma HelpIsThere(rules: seq<Rule>)
    ensures HelpOf(rules) == "" <==> |rules| == 0
  {
    hide HelpText;
    if |rules| > 0 {
      assert HelpText(rules[|rules| - 1].rule, rules[|rules| - 1].description) != "" by {
        HelpTextIsThere(rules[|rules| - 1].rule, rules[|rules| - 1].description);
      }
    }
  }

  lemma HelpTextIsThere(r: string, d: string)
    ensures HelpText(r, d) != ""
  {}

  lemma NoItems(r: Rules)
    ensures AllWellformed(r, [])
  {}
}
