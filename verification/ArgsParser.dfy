/** gts::cmdline::args_parser: gts/args_parser.cpp, lines 77-119 and 210-407. Exits are outcomes. */
module ArgsParser {
  import opened Numbers
  import opened Options
  import opened StringAlgorithms

  /** group is the text of the rule's number; every spelling of one rule has the same one. */
  datatype ArgInfo = ArgInfo(group: string, iden: string)

  datatype Rules = Rules(groups: map<string, ArgInfo>, flags: map<string, ArgInfo>,
                         version: string, v: string, help: string, h: bool)

  datatype Outcome = Parsed(result: map<string, string>, other: seq<string>)
    | TooManyParameters | InvalidArguments | PrintVersion | PrintV | PrintHelp

  /** result, cache and other of one run. */
  datatype State = State(result: map<string, string>, cache: set<string>, other: seq<string>)

  const START := State(map[], {}, [])

  // One entry of the duplicate cache, and what is recorded with it.

  datatype Effect = Assign(key: string, iden: string, value: string) | Keep(key: string, text: string)

  /** unordered_map::emplace: the first value stays. */
  function Emplace(m: map<string, string>, k: string, v: string): map<string, string> {
    if k in m then m else m[k := v]
  }

  /** group_check_duplication and then the record, or None for a duplicate. */
  function Apply(st: State, e: Effect): Option<State> {
    if e.key in st.cache then None
    else match e {
      case Assign(key, iden, value) => Some(State(Emplace(st.result, iden, value), st.cache + {key}, st.other))
      case Keep(key, text) => Some(State(st.result, st.cache + {key}, st.other + [text]))
    }
  }

  predicate Registered(r: Rules, arg: string) { arg in r.groups || arg in r.flags }

  /** The tokens that end the run before any rule is looked at. */
  function Special(r: Rules, argc: nat, arg: string): Option<Outcome> {
    if arg == "-" || arg == "--" then Some(InvalidArguments)
    else if arg == "--version" then
      Some(if argc > 2 then TooManyParameters
           else if r.version != "" then PrintVersion
           else if r.v != "" then PrintV
           else InvalidArguments)
    else if arg == "-v" && r.v != "" then Some(if argc > 2 then TooManyParameters else PrintV)
    else if arg == "--help" then
      Some(if argc > 2 then TooManyParameters else if r.help != "" then PrintHelp else InvalidArguments)
    else if arg == "-h" && r.h then Some(if argc > 2 then TooManyParameters else PrintHelp)
    else None
  }

  predicate IsLetter(c: char) { 'A' <= c <= 'Z' || 'a' <= c <= 'z' }

  predicate AllLetters(s: string) { forall i :: 0 <= i < |s| ==> IsLetter(s[i]) }

  /** The position of the first c, or the length. */
  function Position(s: string, c: char): (k: nat)
    ensures k <= |s| && (forall j :: 0 <= j < k ==> s[j] != c) && (k < |s| ==> s[k] == c)
  {
    if s == "" || s[0] == c then 0 else Position(s[1..], c) + 1
  }

  function Letter(c: char): string { ['-', c] }

  function FlagEffect(r: Rules, name: string): Effect
    requires name in r.flags
  {
    Assign(r.flags[name].group, r.flags[name].iden, r.flags[name].iden)
  }

  function GroupEffect(r: Rules, name: string, value: string): Effect
    requires name in r.groups
  {
    Assign(r.groups[name].group, r.groups[name].iden, value)
  }

  /** What a letter of a cluster that is not the last one does. */
  function LetterEffect(r: Rules, arg: string, c: char): Effect {
    if Letter(c) in r.flags then FlagEffect(r, Letter(c)) else Keep(arg, arg)
  }

  /** The effect of a token that is no option and no cluster. */
  function PlainEffect(r: Rules, arg: string): (e: Option<Effect>)
    ensures e.None? ==> |arg| > 2
  {
    if |arg| <= 2 then Some(Keep(arg, arg))
    else
      var pos := Position(arg, '=');
      if pos < |arg| then
        if arg[..pos] in r.groups then Some(GroupEffect(r, arg[..pos], arg[pos + 1..])) else Some(Keep(arg, arg))
      else if arg[0] != '-' || !AllLetters(arg[1..]) then Some(Keep(arg, arg))
      else None
  }

  /** The loop over the letters of a cluster but the last. */
  function Letters(r: Rules, arg: string, letters: string, st: State): Option<State> {
    if letters == "" then Some(st)
    else match Apply(st, LetterEffect(r, arg, letters[0])) {
      case None => None
      case Some(st') => Letters(r, arg, letters[1..], st')
    }
  }

  /** parsing, from some state on, with args the tokens still to be read. */
  function Parse(r: Rules, argc: nat, args: seq<string>, st: State): Outcome
    decreases |args|, 1, 0
  {
    if |args| == 0 then Parsed(st.result, st.other)
    else
      var arg := args[0];
      match Special(r, argc, arg) {
        case Some(outcome) => outcome
        case None =>
          if arg in r.groups then ParseGroup(r, argc, args, arg, st)
          else if arg in r.flags then ParseEffect(r, argc, args[1..], FlagEffect(r, arg), st)
          else match PlainEffect(r, arg) {
            case Some(e) => ParseEffect(r, argc, args[1..], e, st)
            case None =>
              match Letters(r, arg, arg[1..|arg| - 1], st) {
                case None => TooManyParameters
                case Some(st') => ParseLast(r, argc, args, Letter(arg[|arg| - 1]), st')
              }
          }
      }
  }

  /** The last letter of a cluster. */
  function ParseLast(r: Rules, argc: nat, args: seq<string>, last: string, st: State): Outcome
    requires |args| > 0
    decreases |args|, 0, 1
  {
    if last in r.flags then ParseEffect(r, argc, args[1..], FlagEffect(r, last), st)
    else if last in r.groups then ParseGroup(r, argc, args, last, st)
    else Parse(r, argc, args[1..], st.(other := st.other + [args[0]]))
  }

  function ParseEffect(r: Rules, argc: nat, rest: seq<string>, e: Effect, st: State): Outcome
    decreases |rest|, 2, 0
  {
    match Apply(st, e)
    case None => TooManyParameters
    case Some(st') => Parse(r, argc, rest, st')
  }

  /** A group option takes the next token, unless there is none or it is an option itself. */
  function ParseGroup(r: Rules, argc: nat, args: seq<string>, name: string, st: State): Outcome
    requires |args| > 0 && name in r.groups
    decreases |args|, 0, 0
  {
    if |args| == 1 || Registered(r, args[1]) then InvalidArguments
    else ParseEffect(r, argc, args[2..], GroupEffect(r, name, args[1]), st)
  }

  // One turn for an option, spelt out.

  lemma GroupTurn(r: Rules, argc: nat, args: seq<string>, name: string, st: State)
    requires |args| > 0 && name in r.groups
    ensures ParseGroup(r, argc, args, name, st) ==
      if |args| == 1 || args[1] in r.groups || args[1] in r.flags then InvalidArguments
      else if r.groups[name].group in st.cache then TooManyParameters
      else Parse(r, argc, args[2..], State(Emplace(st.result, r.groups[name].iden, args[1]), st.cache + {r.groups[name].group}, st.other))
  {
    hide Parse, Emplace;
  }

  lemma FlagTurn(r: Rules, argc: nat, rest: seq<string>, name: string, st: State)
    requires name in r.flags
    ensures ParseEffect(r, argc, rest, FlagEffect(r, name), st) ==
      if r.flags[name].group in st.cache then TooManyParameters
      else Parse(r, argc, rest, State(Emplace(st.result, r.flags[name].iden, r.flags[name].iden), st.cache + {r.flags[name].group}, st.other))
  {
    hide Parse, Emplace;
  }

  // Registration.

  /** check: only the characters between the first and the last are looked at. */
  predicate Checked(s: string) {
    s != "" && forall i :: 1 <= i < |s| - 1 ==> '!' <= s[i] <= '~' && s[i] != '=' && s[i] != '\\'
  }

  predicate Acceptable(name: string) { Checked(name) && name != "--" && name != "-" }

  /** The names that one rule text adds, in order. */
  function Register(cache: map<string, ArgInfo>, names: seq<string>, id: string, iden: string): map<string, ArgInfo>
    decreases |names|
  {
    if |names| == 0 then cache
    else
      var name := TrimBlanks(names[0]);
      var cache' := if Acceptable(name) && name !in cache then cache[name := ArgInfo(id, if iden == "" then name else iden)] else cache;
      Register(cache', names[1..], id, iden)
  }

  /** A name is registered when it was, or when an acceptable piece of the rule text spells it; what was registered stays. */
  lemma {:induction false} RegisterMeaning(cache: map<string, ArgInfo>, names: seq<string>, id: string, iden: string, name: string)
    ensures var cache' := Register(cache, names, id, iden);
      && (name in cache' <==> name in cache || (Acceptable(name) && exists k :: 0 <= k < |names| && TrimBlanks(names[k]) == name))
      && (name in cache ==> cache'[name] == cache[name])
      && (name in cache' && name !in cache ==> cache'[name] == ArgInfo(id, if iden == "" then name else iden))
    decreases |names|
  {
    hide Checked, TrimBlanks;
    if |names| > 0 {
      var first := TrimBlanks(names[0]);
      var more := if Acceptable(first) && first !in cache then cache[first := ArgInfo(id, if iden == "" then first else iden)] else cache;
      RegisterMeaning(more, names[1..], id, iden, name);
      assert forall k :: 1 <= k < |names| ==> names[k] == names[1..][k - 1];
      assert forall k :: 0 <= k < |names| - 1 ==> names[1..][k] == names[k + 1];
    }
  }

  /** The text that one rule adds to the help. */
  function HelpText(r: string, d: string): string { "    " + r + " :\n        " + d + "\n\n" }

  /** The rule on a line of its own behind four blanks, the description behind eight, and an empty line. */
  lemma HelpLines(r: string, d: string)
    ensures HelpText(r, d) == "    " + r + " :" + "\n" + "        " + d + "\n" + "\n"
  {}

  function Names(r: string): seq<string> { if r == "" then [] else Split(r, ",", true) }

  /** The names of a rule text are what stands between its commas, empty texts aside. */
  lemma NamesOfRule(list: seq<string>)
    requires forall item :: item in list ==> ',' !in item
    ensures Names(Join(list, ",")) == NonEmpty(list)
  {
    SplitOfJoin(list, ',');
    hide Join, NonEmpty, Pieces;
    assert [','] == ",";
  }

  /** A name may be anything but a dash or two, with no odd character, '=' or backslash between its ends. */
  lemma AcceptableMeaning(name: string)
    ensures Acceptable(name) <==>
      && name != "" && name != ['-'] && name != ['-', '-']
      && forall i :: 0 < i < |name| - 1 ==> 33 <= name[i] as int <= 126 && name[i] as int != 61 && name[i] as int != 92
  {}

  /** The Latin letters. */
  lemma LatinLetters(c: char)
    ensures IsLetter(c) <==> 65 <= c as int <= 90 || 97 <= c as int <= 122
  {}

  /** Every rule number in use is below the running number. */
  ghost predicate NumbersBelow(cache: map<string, ArgInfo>, bound: nat) {
    forall name :: name in cache ==> exists n :: 0 <= n < bound && cache[name].group == NatText(n)
  }

  lemma RegisterKeepsNumbers(cache: map<string, ArgInfo>, r: string, iden: string, bound: nat)
    requires NumbersBelow(cache, bound)
    ensures NumbersBelow(Register(cache, Names(r), NatText(bound), iden), bound + 1)
  {
    hide Names, Register, NatText;
    var cache' := Register(cache, Names(r), NatText(bound), iden);
    forall name | name in cache' ensures exists n :: 0 <= n < bound + 1 && cache'[name].group == NatText(n) {
      RegisterMeaning(cache, Names(r), NatText(bound), iden, name);
      if name in cache {
        var n :| 0 <= n < bound && cache[name].group == NatText(n);
        assert 0 <= n < bound + 1 && cache'[name].group == NatText(n);
      } else {
        assert cache'[name].group == NatText(bound);
      }
    }
  }

  /** A new rule never shares its cache entry with one that is already there. */
  lemma NewNumberIsFresh(cache: map<string, ArgInfo>, bound: nat, name: string)
    requires NumbersBelow(cache, bound) && name in cache
    ensures cache[name].group != NatText(bound)
  {
    hide NatText;
    var n :| 0 <= n < bound && cache[name].group == NatText(n);
    if NatText(n) == NatText(bound) {
      NatTextInjective(n, bound);
    }
  }

  // Which call registered which name.

  /** One call of add_group or add_flag, with the number that it was given. */
  datatype Call = Call(isGroup: bool, rule: string, iden: string, number: nat)

  ghost predicate Spells(rule: string, name: string) {
    Acceptable(name) && exists k :: 0 <= k < |Names(rule)| && TrimBlanks(Names(rule)[k]) == name
  }

  ghost predicate Claims(c: Call, isGroup: bool, name: string) { c.isGroup == isGroup && Spells(c.rule, name) }

  /** The position of the first call of its kind whose rule text spells the name, or the number of calls. */
  ghost function Owner(calls: seq<Call>, isGroup: bool, name: string): (k: nat)
    ensures k <= |calls|
  {
    if |calls| == 0 then 0
    else
      var last := |calls| - 1;
      var k := Owner(calls[..last], isGroup, name);
      if k < last || Claims(calls[last], isGroup, name) then k else k + 1
  }

  lemma {:induction false} OwnerIsFirst(calls: seq<Call>, isGroup: bool, name: string)
    ensures var k := Owner(calls, isGroup, name);
      && (k < |calls| ==> Claims(calls[k], isGroup, name))
      && (forall j :: 0 <= j < k ==> !Claims(calls[j], isGroup, name))
  {
    hide Claims;
    if |calls| > 0 {
      OwnerIsFirst(calls[..|calls| - 1], isGroup, name);
    }
  }

  /** The group map or the flag map that the calls fill. */
  function Registry(calls: seq<Call>, isGroup: bool): map<string, ArgInfo> {
    if |calls| == 0 then map[]
    else
      var c, before := calls[|calls| - 1], Registry(calls[..|calls| - 1], isGroup);
      if c.isGroup == isGroup then Register(before, Names(c.rule), NatText(c.number), c.iden) else before
  }

  /** The identification under which a name of a call is recorded. */
  function IdenOf(c: Call, name: string): string { if c.iden == "" then name else c.iden }

  /** A name means the first call of its kind that spells it, by that call's number and identification. */
  lemma {:induction false} RegistryMeaning(calls: seq<Call>, isGroup: bool, name: string)
    ensures var k := Owner(calls, isGroup, name);
      && (name in Registry(calls, isGroup) <==> k < |calls|)
      && (k < |calls| ==> Registry(calls, isGroup)[name] == ArgInfo(NatText(calls[k].number), IdenOf(calls[k], name)))
  {
    hide Register, NatText, Spells, Names;
    if |calls| > 0 {
      var c, init := calls[|calls| - 1], calls[..|calls| - 1];
      RegistryMeaning(init, isGroup, name);
      RegisterSpelt(Registry(init, isGroup), c.rule, NatText(c.number), c.iden, name);
    }
  }

  lemma RegisterSpelt(cache: map<string, ArgInfo>, rule: string, id: string, iden: string, name: string)
    ensures var cache' := Register(cache, Names(rule), id, iden);
      && (name in cache' <==> name in cache || Spells(rule, name))
      && (name in cache ==> cache'[name] == cache[name])
      && (name in cache' && name !in cache ==> cache'[name] == ArgInfo(id, if iden == "" then name else iden))
  {
    hide Register, Names, TrimBlanks, Acceptable;
    RegisterMeaning(cache, Names(rule), id, iden, name);
  }

  /** The numbers of the calls ascend and stay below bound. */
  ghost predicate Ascending(calls: seq<Call>, bound: nat) {
    && (forall i, j :: 0 <= i < j < |calls| ==> calls[i].number < calls[j].number)
    && (forall i :: 0 <= i < |calls| ==> calls[i].number < bound)
  }

  /** Two names, of either kind, share a number exactly when the same call registered them. */
  lemma SameNumberSameCall(calls: seq<Call>, bound: nat, kind: bool, name: string, kind': bool, name': string)
    requires Ascending(calls, bound) && name in Registry(calls, kind) && name' in Registry(calls, kind')
    ensures Registry(calls, kind)[name].group == Registry(calls, kind')[name'].group
      <==> Owner(calls, kind, name) == Owner(calls, kind', name')
  {
    var i, j := Owner(calls, kind, name), Owner(calls, kind', name');
    RegistryMeaning(calls, kind, name);
    RegistryMeaning(calls, kind', name');
    hide NatText, Registry, Owner;
    if NatText(calls[i].number) == NatText(calls[j].number) {
      NatTextInjective(calls[i].number, calls[j].number);
    }
  }

  lemma RegistryNext(calls: seq<Call>, c: Call, isGroup: bool)
    ensures Registry(calls + [c], isGroup) ==
      if c.isGroup == isGroup then Register(Registry(calls, isGroup), Names(c.rule), NatText(c.number), c.iden)
      else Registry(calls, isGroup)
  {
    hide Register, Names, NatText;
    assert (calls + [c])[..|calls|] == calls;
  }

  /** No name of either kind has this number yet. */
  ghost predicate Unused(r: Rules, number: nat) {
    && (forall name :: name in r.groups ==> r.groups[name].group != NatText(number))
    && (forall name :: name in r.flags ==> r.flags[name].group != NatText(number))
  }

  lemma NewNumberIsUnused(r: Rules, number: nat)
    requires NumbersBelow(r.groups, number) && NumbersBelow(r.flags, number)
    ensures Unused(r, number)
  {
    hide NatText, NumbersBelow;
    forall name | name in r.groups ensures r.groups[name].group != NatText(number) {
      NewNumberIsFresh(r.groups, number, name);
    }
    forall name | name in r.flags ensures r.flags[name].group != NatText(number) {
      NewNumberIsFresh(r.flags, number, name);
    }
  }

  /** The static counter of add, which all parsers of the process share. */
  class IdSource {
    var next: nat

    constructor ()
      ensures next == 0
    {
      next := 0;
    }
  }

  class ArgsParser {
    const source: IdSource
    var rules: Rules
    ghost var calls: seq<Call>

    /** The rule maps are what the calls so far have registered, each call under a number of its own. */
    ghost predicate Valid()
      reads this, source
    {
      && Ascending(calls, source.next)
      && rules.groups == Registry(calls, true) && rules.flags == Registry(calls, false)
      && NumbersBelow(rules.groups, source.next) && NumbersBelow(rules.flags, source.next)
    }

    constructor (source: IdSource)
      ensures Valid() && this.source == source && calls == [] && rules == Rules(map[], map[], "", "", "", false)
    {
      this.source, rules, calls := source, Rules(map[], map[], "", "", "", false), [];
    }

    /** What other parsers take from the counter does not disturb this one. */
    twostate lemma StaysValid()
      requires old(Valid()) && unchanged(this) && old(source.next) <= source.next
      ensures Valid()
    {}

    /** args_parser_impl::add, on one of the two rule maps */
    static method Add(cache: map<string, ArgInfo>, r: string, id: string, iden: string) returns (cache': map<string, ArgInfo>)
      ensures cache' == Register(cache, Names(r), id, iden)
    {
      var args := StrSplit(r, ",", true);
      cache' := cache;
      for k := 0 to |args|
        invariant Register(cache', args[k..], id, iden) == Register(cache, args, id, iden)
      {
        assert args[k..][1..] == args[k + 1..];
        var arg := StrTrimmed(args[k]);
        var ok := CheckName(arg);
        if !ok || arg == "--" {
          continue;
        } else if |arg| == 1 {
          if arg != "-" && arg !in cache' {
            cache' := cache'[arg := ArgInfo(id, if iden == "" then arg else iden)];
          }
        } else if arg !in cache' {
          cache' := cache'[arg := ArgInfo(id, if iden == "" then arg else iden)];
        }
      }
    }

    static method CheckName(s: string) returns (ok: bool)
      ensures ok == Checked(s)
    {
      if s == "" {
        return false;
      }
      var i := 1;
      while i < |s| - 1
        invariant 1 <= i && (|s| > 1 ==> i <= |s| - 1)
        invariant forall j :: 1 <= j < i && j < |s| - 1 ==> '!' <= s[j] <= '~' && s[j] != '=' && s[j] != '\\'
      {
        if s[i] < '!' || s[i] == '=' || s[i] == '\\' || s[i] > '~' {
          return false;
        }
        i := i + 1;
      }
      return true;
    }

    method AddGroup(r: string, d: string, iden: string)
      requires Valid()
      modifies this, source
      ensures Valid() && source.next == old(source.next) + 1
      ensures calls == old(calls) + [Call(true, r, iden, old(source.next))]
      ensures Unused(old(rules), old(source.next))
      ensures rules == old(rules).(groups := Register(old(rules).groups, Names(r), NatText(old(source.next)), iden),
                                   help := old(rules).help + HelpText(r, d))
    {
      var id := source.next;
      NewNumberIsUnused(rules, id);
      RegisterKeepsNumbers(rules.groups, r, iden, id);
      RegistryNext(calls, Call(true, r, iden, id), true);
      RegistryNext(calls, Call(true, r, iden, id), false);
      hide NatText, Register, Names, HelpText, Registry, Unused;
      var groups := Add(rules.groups, r, NatText(id), iden);
      rules := rules.(groups := groups, help := rules.help + HelpText(r, d));
      calls := calls + [Call(true, r, iden, id)];
      source.next := id + 1;
    }

    method AddFlag(r: string, d: string, iden: string)
      requires Valid()
      modifies this, source
      ensures Valid() && source.next == old(source.next) + 1
      ensures calls == old(calls) + [Call(false, r, iden, old(source.next))]
      ensures Unused(old(rules), old(source.next))
      ensures rules == old(rules).(flags := Register(old(rules).flags, Names(r), NatText(old(source.next)), iden),
                                   help := old(rules).help + HelpText(r, d))
    {
      var id := source.next;
      NewNumberIsUnused(rules, id);
      RegisterKeepsNumbers(rules.flags, r, iden, id);
      RegistryNext(calls, Call(false, r, iden, id), true);
      RegistryNext(calls, Call(false, r, iden, id), false);
      hide NatText, Register, Names, HelpText, Registry, Unused;
      var flags := Add(rules.flags, r, NatText(id), iden);
      rules := rules.(flags := flags, help := rules.help + HelpText(r, d));
      calls := calls + [Call(false, r, iden, id)];
      source.next := id + 1;
    }

    /** parsing; argv[0] is the program. */
    method Parsing(argv: seq<string>) returns (outcome: Outcome)
      requires |argv| > 0
      ensures outcome == Parse(rules, |argv|, argv[1..], START)
    {
      hide Emplace, Special, PlainEffect, Letters;
      var r, argc := rules, |argv|;
      var result, cache, other := map[], {}, [];
      var i := 1;
      while i < argc
        invariant 1 <= i <= argc && r == rules
        invariant Parse(r, argc, argv[i..], State(result, cache, other)) == Parse(r, argc, argv[1..], START)
      {
        var arg := argv[i];
        assert argv[i..][0] == arg && argv[i..][1..] == argv[i + 1..];
        assert i + 1 < argc ==> argv[i..][1] == argv[i + 1] && argv[i..][2..] == argv[i + 2..];
        var special := Special(r, argc, arg);
        if special.Some? {
          return special.value;
        }
        ghost var st0 := State(result, cache, other);
        if arg in r.groups {
          GroupTurn(r, argc, argv[i..], arg, st0);
          if i + 1 == argc || argv[i + 1] in r.groups || argv[i + 1] in r.flags {
            return InvalidArguments;
          }
          if r.groups[arg].group in cache {
            return TooManyParameters;
          }
          cache := cache + {r.groups[arg].group};
          result := Emplace(result, r.groups[arg].iden, argv[i + 1]);
          i := i + 2;
          continue;
        }
        if arg in r.flags {
          FlagTurn(r, argc, argv[i + 1..], arg, st0);
          if r.flags[arg].group in cache {
            return TooManyParameters;
          }
          cache := cache + {r.flags[arg].group};
          result := Emplace(result, r.flags[arg].iden, r.flags[arg].iden);
          i := i + 1;
          continue;
        }
        var plain := PlainEffect(r, arg);
        if plain.Some? {
          var applied := Apply(State(result, cache, other), plain.value);
          if applied.None? {
            return TooManyParameters;
          }
          result, cache, other := applied.value.result, applied.value.cache, applied.value.other;
          i := i + 1;
          continue;
        }
        var st := LettersLoop(r, arg, State(result, cache, other));
        if st.None? {
          return TooManyParameters;
        }
        result, cache, other := st.value.result, st.value.cache, st.value.other;
        var tmp := Letter(arg[|arg| - 1]);
        ghost var st1 := State(result, cache, other);
        assert Parse(r, argc, argv[i..], st0) == ParseLast(r, argc, argv[i..], tmp, st1);
        if tmp in r.flags {
          FlagTurn(r, argc, argv[i + 1..], tmp, st1);
          if r.flags[tmp].group in cache {
            return TooManyParameters;
          }
          cache := cache + {r.flags[tmp].group};
          result := Emplace(result, r.flags[tmp].iden, r.flags[tmp].iden);
          i := i + 1;
        } else if tmp in r.groups {
          GroupTurn(r, argc, argv[i..], tmp, st1);
          if i + 1 == argc || argv[i + 1] in r.groups || argv[i + 1] in r.flags {
            return InvalidArguments;
          }
          if r.groups[tmp].group in cache {
            return TooManyParameters;
          }
          cache := cache + {r.groups[tmp].group};
          result := Emplace(result, r.groups[tmp].iden, argv[i + 1]);
          i := i + 2;
        } else {
          other := other + [arg];
          i := i + 1;
        }
      }
      outcome := Parsed(result, other);
    }

    // The loop over the letters of a cluster but the last.
    static method LettersLoop(r: Rules, arg: string, st: State) returns (st': Option<State>)
      requires |arg| > 2
      ensures st' == Letters(r, arg, arg[1..|arg| - 1], st)
    {
      var cur := st;
      var j := 1;
      ghost var letters := arg[1..|arg| - 1];
      while j < |arg| - 1
        invariant 1 <= j <= |arg| - 1
        invariant Letters(r, arg, letters[j - 1..], cur) == Letters(r, arg, letters, st)
      {
        assert letters[j - 1..][0] == arg[j] && letters[j - 1..][1..] == letters[j..];
        var applied := Apply(cur, LetterEffect(r, arg, arg[j]));
        if applied.None? {
          return None;
        }
        cur := applied.value;
        j := j + 1;
      }
      return Some(cur);
    }
  }
}
