/** What INI text means: 3rd_party/inifile/inicpp.h, lines 25-50, 423-498 and 586-704, single-line values. */
module IniText {

  import opened Options

  const ESC: char := '\\'
  const FIELD_SEP: char := '='

  type IniSection = map<string, string>
  type IniMap = map<string, IniSection>

  /** The exceptions of decode, with the line they report. */
  datatype IniError =
    | SectionNotClosed(line: nat) | SectionEmpty(line: nat) | FieldHasNoSection(line: nat) | NoSeparator(line: nat)

  /** The map is not rolled back when decode throws. */
  datatype Outcome = Outcome(file: IniMap, error: Option<IniError>)

  /** The text of one entry, if there is one. */
  function EntryOf(file: IniMap, group: string, key: string): Option<string> {
    if group in file && key in file[group] then Some(file[group][key]) else None
  }

  // Whitespace.

  predicate IsSpace(c: char) {
    c == ' ' || c == '\t' || c == '\n' || c == '\r' || c == '\U{000C}' || c == '\U{000B}'
  }

  function TrimRight(s: string): string {
    if s != "" && IsSpace(s[|s| - 1]) then TrimRight(s[..|s| - 1]) else s
  }

  function TrimLeft(s: string): string {
    if s != "" && IsSpace(s[0]) then TrimLeft(s[1..]) else s
  }

  /** trim: first the end, then the front */
  function Trim(s: string): string { TrimLeft(TrimRight(s)) }

  predicate Trimmed(s: string) { s == "" || (!IsSpace(s[0]) && !IsSpace(s[|s| - 1])) }

  // Comments and escapes.

  /** s up to the first c that has no escape before it, with the escapes of c taken away. */
  function Strip(c: char, s: string): string {
    if s == "" || s[0] == c then ""
    else if s[0] == ESC && |s| > 1 && s[1] == c then [c] + Strip(c, s[2..])
    else [s[0]] + Strip(c, s[1..])
  }

  /** eraseComments: one pass for each prefix */
  function StripAll(s: string): string { Strip(';', Strip('#', s)) }

  predicate IsPrefix(c: char) { c == '#' || c == ';' }

  /** writeEscaped */
  function Escape(s: string): string {
    if s == "" then "" else (if IsPrefix(s[0]) then [ESC, s[0]] else [s[0]]) + Escape(s[1..])
  }

  // Lines.

  function FindChar(s: string, c: char, from: nat): (k: nat)
    requires from <= |s|
    ensures from <= k <= |s|
    ensures forall j :: from <= j < k ==> s[j] != c
    ensures k < |s| ==> s[k] == c
    decreases |s| - from
  {
    if from == |s| || s[from] == c then from else FindChar(s, c, from + 1)
  }

  /** What getline yields until the stream is at its end; text after the last newline is a line too. */
  function Lines(text: string): seq<string>
    decreases |text|
  {
    var k := FindChar(text, '\n', 0);
    if k == |text| then [text] else [text[..k]] + Lines(text[k + 1..])
  }

  function Unlines(lines: seq<string>): string {
    if |lines| == 0 then "" else lines[0] + "\n" + Unlines(lines[1..])
  }

  // Decoding.

  datatype State = State(file: IniMap, current: Option<string>)

  datatype StepResult = Go(next: State) | Stop(error: IniError)

  /** One line of decode, already stripped and trimmed. */
  function StepClean(st: State, line: string, lineNo: nat): StepResult {
    if line == "" then Go(st)
    else if line[0] == '[' then
      var pos := FindChar(line, ']', 0);
      if pos == |line| then Stop(SectionNotClosed(lineNo))
      else if pos == 1 then Stop(SectionEmpty(lineNo))
      else
        var name := line[1..pos];
        Go(State(if name in st.file then st.file else st.file[name := map[]], Some(name)))
    else if st.current.None? then Stop(FieldHasNoSection(lineNo))
    else
      var pos := FindChar(line, FIELD_SEP, 0);
      if pos == |line| then Stop(NoSeparator(lineNo))
      else
        var section := if st.current.value in st.file then st.file[st.current.value] else map[];
        var section' := section[Trim(line[..pos]) := Trim(line[pos + 1..])];
        Go(st.(file := st.file[st.current.value := section']))
  }

  function Step(st: State, line: string, lineNo: nat): StepResult { StepClean(st, Trim(StripAll(line)), lineNo) }

  function Run(st: State, lines: seq<string>, lineNo: nat): Outcome
    decreases |lines|
  {
    if |lines| == 0 then Outcome(st.file, None)
    else match Step(st, lines[0], lineNo) {
      case Go(next) => Run(next, lines[1..], lineNo + 1)
      case Stop(error) => Outcome(st.file, Some(error))
    }
  }

  /** decode */
  function DecodeText(text: string): Outcome { Run(State(map[], None), Lines(text), 1) }

  // Encoding, in the key order of std::map.

  predicate Less(a: string, b: string) {
    if a == "" then b != ""
    else b != "" && (a[0] < b[0] || (a[0] == b[0] && Less(a[1..], b[1..])))
  }

  predicate IsLeast(k: string, keys: set<string>) { k in keys && forall j :: j in keys ==> !Less(j, k) }

  lemma {:induction false} LessTotal(a: string, b: string)
    ensures !Less(a, b) && !Less(b, a) ==> a == b
  {
    if a != "" && b != "" && a[0] == b[0] {
      LessTotal(a[1..], b[1..]);
      assert a == [a[0]] + a[1..] && b == [b[0]] + b[1..];
    }
  }

  lemma {:induction false} LessTransitive(a: string, b: string, c: string)
    requires !Less(b, a) && !Less(c, b)
    ensures !Less(c, a)
  {
    if a != "" && b != "" && c != "" && a[0] == b[0] && b[0] == c[0] {
      LessTransitive(a[1..], b[1..], c[1..]);
    }
  }

  lemma {:induction false} LessIrreflexive(a: string)
    ensures !Less(a, a)
  {
    if a != "" {
      LessIrreflexive(a[1..]);
    }
  }

  lemma {:induction false} LeastExists(keys: set<string>)
    requires keys != {}
    ensures exists k :: IsLeast(k, keys)
  {
    var x :| x in keys;
    LessIrreflexive(x);
    if keys == {x} {
      assert IsLeast(x, keys);
    } else {
      LeastExists(keys - {x});
      var k :| IsLeast(k, keys - {x});
      if Less(x, k) {
        forall j | j in keys ensures !Less(j, x) {
          if j != x && Less(j, x) {
            LessAsymmetric(j, x);
            LessTransitive(k, j, x);
          }
        }
        assert IsLeast(x, keys);
      } else {
        assert IsLeast(k, keys);
      }
    }
  }

  lemma {:induction false} LessAsymmetric(a: string, b: string)
    ensures !(Less(a, b) && Less(b, a))
  {
    if a != "" && b != "" {
      LessAsymmetric(a[1..], b[1..]);
    }
  }

  /** The texts agree before place i, and there the first one has the smaller character. */
  predicate SmallerAt(a: string, b: string, i: nat) {
    i < |a| && i < |b| && a[..i] == b[..i] && a[i] < b[i]
  }

  lemma SmallerBehind(a: string, b: string, i: nat)
    requires a != "" && b != "" && a[0] == b[0]
    ensures !SmallerAt(a, b, 0)
    ensures SmallerAt(a, b, i + 1) <==> SmallerAt(a[1..], b[1..], i)
  {
    if i + 1 < |a| && i + 1 < |b| {
      assert a[..i + 1] == [a[0]] + a[1..][..i] && b[..i + 1] == [b[0]] + b[1..][..i];
      assert a[1..][..i] == a[..i + 1][1..] && b[1..][..i] == b[..i + 1][1..];
    }
  }

  /** Less is the order of dictionaries: a proper beginning comes first, and else the first difference decides. */
  lemma {:induction false} LessMeaning(a: string, b: string)
    ensures Less(a, b) <==> a < b || exists i: nat :: SmallerAt(a, b, i)
  {
    if a != "" && b != "" && a[0] == b[0] {
      LessMeaning(a[1..], b[1..]);
      assert Less(a, b) <==> Less(a[1..], b[1..]);
      hide *;
      assert a == [a[0]] + a[1..] && b == [b[0]] + b[1..];
      if i: nat :| SmallerAt(a, b, i) {
        SmallerBehind(a, b, if i == 0 then 0 else i - 1);
        assert SmallerAt(a[1..], b[1..], i - 1);
      }
      if i: nat :| SmallerAt(a[1..], b[1..], i) {
        SmallerBehind(a, b, i);
      }
    } else if a != "" && b != "" && a[0] < b[0] {
      assert SmallerAt(a, b, 0);
    }
  }

  /** The keys in ascending order. */
  ghost function SortedKeys(keys: set<string>): (r: seq<string>)
    ensures forall k :: k in r <==> k in keys
    ensures |r| == |keys|
  {
    if keys == {} then []
    else
      LeastExists(keys);
      var k :| IsLeast(k, keys);
      [k] + SortedKeys(keys - {k})
  }

  lemma {:induction false} SortedKeysAscend(keys: set<string>, i: nat, j: nat)
    requires i < j < |keys|
    ensures |SortedKeys(keys)| == |keys| && Less(SortedKeys(keys)[i], SortedKeys(keys)[j])
  {
    hide *;
    var rest := SortedFront(keys, i, j);
    if i > 0 {
      SortedKeysAscend(rest, i - 1, j - 1);
    }
  }

  lemma SortedFront(keys: set<string>, i: nat, j: nat) returns (rest: set<string>)
    requires i < j < |keys|
    ensures rest < keys && |rest| == |SortedKeys(rest)| == |keys| - 1
    ensures var r := SortedKeys(keys);
      |r| == |keys| && r[j] == SortedKeys(rest)[j - 1]
      && if i == 0 then Less(r[0], r[j]) else r[i] == SortedKeys(rest)[i - 1]
  {
    LeastExists(keys);
    var r := SortedKeys(keys);
    rest := keys - {r[0]};
    assert r == [r[0]] + SortedKeys(rest) && IsLeast(r[0], keys);
    hide *;
    assert r[j] in SortedKeys(rest);
    LeastIsLess(r[0], r[j], keys);
  }

  lemma LeastIsLess(least: string, k: string, keys: set<string>)
    requires IsLeast(least, keys) && k in keys && k != least
    ensures Less(least, k)
  {
    hide Less;
    LessTotal(least, k);
  }

  function SectionLine(name: string): string { "[" + Escape(name) + "]" }

  function FieldLine(key: string, value: string): string { Escape(key) + [FIELD_SEP] + Escape(value) }

  ghost function FieldLines(section: IniSection, keys: seq<string>): seq<string>
    requires forall k :: k in keys ==> k in section
  {
    if |keys| == 0 then [] else [FieldLine(keys[0], section[keys[0]])] + FieldLines(section, keys[1..])
  }

  ghost function FileLines(file: IniMap, names: seq<string>): seq<string>
    requires forall n :: n in names ==> n in file
  {
    if |names| == 0 then []
    else
      var section := file[names[0]];
      [SectionLine(names[0])] + FieldLines(section, SortedKeys(section.Keys)) + FileLines(file, names[1..])
  }

  /** encode */
  ghost function EncodeText(file: IniMap): string { Unlines(FileLines(file, SortedKeys(file.Keys))) }

  // The files that survive being written and read.

  predicate GoodName(name: string) { name != "" && ']' !in name && '\n' !in name }

  predicate GoodKey(key: string) {
    Trimmed(key) && FIELD_SEP !in key && '\n' !in key && (key == "" || key[0] != '[')
  }

  predicate GoodValue(value: string) { Trimmed(value) && '\n' !in value }

  predicate GoodSection(section: IniSection) {
    forall k :: k in section ==> GoodKey(k) && GoodValue(section[k])
  }

  predicate GoodFile(file: IniMap) {
    forall n :: n in file ==> GoodName(n) && GoodSection(file[n])
  }
}
