/** Writing and reading INI text undo each other. */
module IniRoundTrip {
  import opened IniText
  import opened Options

  // Escaping and stripping.

  /** Only the escapes of c are left. */
  function EscapeOne(c: char, s: string): string {
    if s == "" then "" else (if s[0] == c then [ESC, c] else [s[0]]) + EscapeOne(c, s[1..])
  }

  /** An escape is always followed by what it escapes, so the text after any character never starts with a prefix. */
  lemma EscapeHead(s: string)
    ensures s != "" ==> Escape(s) != "" && !IsPrefix(Escape(s)[0])
    ensures s != "" && !IsPrefix(s[0]) ==> Escape(s) == [s[0]] + Escape(s[1..])
    ensures s != "" && IsPrefix(s[0]) ==> Escape(s) == [ESC, s[0]] + Escape(s[1..])
  {}

  // One step of a pass, by what it meets.

  lemma StripEscaped(c: char, rest: string)
    requires c != ESC
    ensures Strip(c, [ESC, c] + rest) == [c] + Strip(c, rest)
  {
    assert ([ESC, c] + rest)[2..] == rest;
  }

  lemma StripPlain(c: char, x: char, rest: string)
    requires x != c && (x == ESC ==> rest == "" || rest[0] != c)
    ensures Strip(c, [x] + rest) == [x] + Strip(c, rest)
  {
    assert ([x] + rest)[1..] == rest;
  }

  lemma FirstPassStep(x: char, rest: string)
    requires rest != "" ==> !IsPrefix(rest[0])
    ensures Strip('#', (if IsPrefix(x) then [ESC, x] else [x]) + rest)
         == (if x == ';' then [ESC, ';'] else [x]) + Strip('#', rest)
  {
    hide Strip;
    if x == '#' {
      StripEscaped('#', rest);
    } else if x == ';' {
      var tail := [';'] + rest;
      assert [ESC, ';'] + rest == [ESC] + tail;
      StripPlain('#', ';', rest);
      StripPlain('#', ESC, tail);
      assert [ESC] + ([';'] + Strip('#', rest)) == [ESC, ';'] + Strip('#', rest);
    } else {
      StripPlain('#', x, rest);
    }
  }

  lemma {:induction false} FirstPass(s: string)
    ensures Strip('#', Escape(s)) == EscapeOne(';', s)
  {
    if s != "" {
      EscapeHead(s[1..]);
      assert s[1..] == "" ==> Escape(s[1..]) == "";
      FirstPass(s[1..]);
      FirstPassStep(s[0], Escape(s[1..]));
      hide Strip, IsPrefix;
    }
  }

  lemma {:induction false} SecondPass(s: string)
    ensures Strip(';', EscapeOne(';', s)) == s
  {
    if s != "" {
      var rest := EscapeOne(';', s[1..]);
      SecondPass(s[1..]);
      var e := EscapeOne(';', s);
      if s[0] == ';' {
        assert e[2..] == rest;
      } else {
        assert e[1..] == rest;
        assert rest != "" ==> rest[0] != ';';
      }
    }
  }

  /** Whatever mixture of prefixes and escape characters s is, the two passes give it back. */
  lemma StripEscape(s: string)
    ensures StripAll(Escape(s)) == s
  {
    FirstPass(s);
    SecondPass(s);
  }

  lemma {:induction false} EscapeConcat(s: string, t: string)
    ensures Escape(s + t) == Escape(s) + Escape(t)
  {
    if s == "" {
      assert s + t == t;
    } else {
      assert (s + t)[1..] == s[1..] + t;
      EscapeConcat(s[1..], t);
    }
  }

  lemma {:induction false} EscapeNewline(s: string)
    ensures '\n' in Escape(s) <==> '\n' in s
  {
    if s != "" {
      EscapeNewline(s[1..]);
      assert s == [s[0]] + s[1..];
    }
  }

  lemma PlainChars()
    ensures Escape("[") == "[" && Escape("]") == "]" && Escape([FIELD_SEP]) == [FIELD_SEP]
  {}

  lemma SectionLineIsEscape(name: string)
    ensures SectionLine(name) == Escape("[" + name + "]")
  {
    PlainChars();
    EscapeConcat("[" + name, "]");
    EscapeConcat("[", name);
  }

  lemma FieldLineIsEscape(key: string, value: string)
    ensures FieldLine(key, value) == Escape(key + [FIELD_SEP] + value)
  {
    PlainChars();
    EscapeConcat(key + [FIELD_SEP], value);
    EscapeConcat(key, [FIELD_SEP]);
  }

  // Trimming.

  lemma {:induction false} TrimRightShape(s: string)
    ensures TrimRight(s) <= s
    ensures TrimRight(s) != "" ==> !IsSpace(TrimRight(s)[|TrimRight(s)| - 1])
  {
    if s != "" && IsSpace(s[|s| - 1]) {
      TrimRightShape(s[..|s| - 1]);
    }
  }

  lemma {:induction false} TrimLeftShape(s: string) returns (k: nat)
    ensures k <= |s| && TrimLeft(s) == s[k..]
    ensures k < |s| ==> !IsSpace(s[k])
    ensures forall i :: 0 <= i < k ==> IsSpace(s[i])
  {
    if s != "" && IsSpace(s[0]) {
      var k' := TrimLeftShape(s[1..]);
      k := k' + 1;
    } else {
      k := 0;
    }
  }

  lemma TrimIsTrimmed(s: string)
    ensures Trimmed(Trim(s))
    ensures forall c :: c in Trim(s) ==> c in s
    ensures s != "" && !IsSpace(s[0]) && Trim(s) != "" ==> Trim(s)[0] == s[0]
    ensures Trimmed(s) ==> Trim(s) == s
  {
    TrimRightShape(s);
    var t := TrimRight(s);
    var k := TrimLeftShape(t);
    assert forall c :: c in t[k..] ==> c in t;
  }

  // Lines.

  lemma FindIn(a: string, c: char, b: string)
    requires c !in a
    ensures FindChar(a + [c] + b, c, 0) == |a|
  {
    var text := a + [c] + b;
    assert text[|a|] == c;
    forall j | 0 <= j < |a| ensures text[j] != c {
      assert text[j] == a[j];
    }
  }

  lemma {:induction false} LinesOfUnlines(lines: seq<string>)
    requires forall l :: l in lines ==> '\n' !in l
    ensures Lines(Unlines(lines)) == lines + [""]
  {
    if |lines| > 0 {
      var text := Unlines(lines);
      var k := |lines[0]|;
      FindIn(lines[0], '\n', Unlines(lines[1..]));
      LinesOfUnlines(lines[1..]);
      hide FindChar, Unlines;
      assert text[..k] == lines[0] && text[k + 1..] == Unlines(lines[1..]);
      assert lines == [lines[0]] + lines[1..];
    }
  }

  lemma {:induction false} LinesHaveNoNewline(text: string)
    ensures forall l :: l in Lines(text) ==> '\n' !in l
    decreases |text|
  {
    var k := FindChar(text, '\n', 0);
    assert forall j :: 0 <= j < k ==> text[..k][j] == text[j];
    if k < |text| {
      LinesHaveNoNewline(text[k + 1..]);
    }
  }

  /** Every line goes through, and they take st to mid. */
  ghost predicate Takes(st: State, lines: seq<string>, lineNo: nat, mid: State)
    decreases |lines|
  {
    if |lines| == 0 then mid == st
    else
      var r := Step(st, lines[0], lineNo);
      r.Go? && Takes(r.next, lines[1..], lineNo + 1, mid)
  }

  lemma {:induction false} TakesRun(st: State, lines: seq<string>, rest: seq<string>, lineNo: nat, mid: State)
    requires Takes(st, lines, lineNo, mid)
    ensures Run(st, lines + rest, lineNo) == Run(mid, rest, lineNo + |lines|)
    decreases |lines|
  {
    hide Step;
    if |lines| == 0 {
      assert lines + rest == rest;
    } else {
      assert (lines + rest)[0] == lines[0] && (lines + rest)[1..] == lines[1..] + rest;
      TakesRun(Step(st, lines[0], lineNo).next, lines[1..], rest, lineNo + 1, mid);
    }
  }

  lemma {:induction false} TakesConcat(st: State, a: seq<string>, b: seq<string>, lineNo: nat, mid: State, last: State)
    requires Takes(st, a, lineNo, mid) && Takes(mid, b, lineNo + |a|, last)
    ensures Takes(st, a + b, lineNo, last)
    decreases |a|
  {
    hide Step;
    if |a| == 0 {
      assert a + b == b;
    } else {
      assert (a + b)[0] == a[0] && (a + b)[1..] == a[1..] + b;
      TakesConcat(Step(st, a[0], lineNo).next, a[1..], b, lineNo + 1, mid, last);
    }
  }

  lemma TakesOne(st: State, line: string, lines: seq<string>, lineNo: nat, mid: State, last: State)
    requires Step(st, line, lineNo) == Go(mid) && Takes(mid, lines, lineNo + 1, last)
    ensures Takes(st, [line] + lines, lineNo, last)
  {
    hide Step;
    assert ([line] + lines)[1..] == lines;
  }

  // One written line.

  lemma SectionStep(st: State, name: string, lineNo: nat)
    requires GoodName(name) && name !in st.file
    ensures Step(st, SectionLine(name), lineNo) == Go(State(st.file[name := map[]], Some(name)))
  {
    var raw := "[" + name + "]";
    SectionLineIsEscape(name);
    StripEscape(raw);
    TrimIsTrimmed(raw);
    FindIn("[" + name, ']', "");
    assert raw == "[" + name + [']'] + "";
    assert raw[1..|name| + 1] == name;
  }

  lemma FieldParts(key: string, value: string)
    requires GoodKey(key) && GoodValue(value)
    ensures var raw := key + [FIELD_SEP] + value;
            Trim(raw) == raw && raw[0] != '[' && FindChar(raw, FIELD_SEP, 0) == |key|
            && raw[..|key|] == key && raw[|key| + 1..] == value && Trim(key) == key && Trim(value) == value
  {
    var raw := key + [FIELD_SEP] + value;
    assert Trimmed(raw) by {
      assert raw[0] == if key == "" then FIELD_SEP else key[0];
      assert raw[|raw| - 1] == if value == "" then FIELD_SEP else value[|value| - 1];
    }
    TrimIsTrimmed(raw);
    TrimIsTrimmed(key);
    TrimIsTrimmed(value);
    FindIn(key, FIELD_SEP, value);
    hide Trim, FindChar;
  }

  lemma FieldStep(st: State, key: string, value: string, lineNo: nat)
    requires GoodKey(key) && GoodValue(value) && st.current.Some? && st.current.value in st.file
    ensures Step(st, FieldLine(key, value), lineNo) ==
      Go(st.(file := st.file[st.current.value := st.file[st.current.value][key := value]]))
  {
    FieldLineIsEscape(key, value);
    StripEscape(key + [FIELD_SEP] + value);
    FieldParts(key, value);
    hide StripAll, Trim, FindChar, FieldLine, GoodKey, GoodValue;
  }

  // Whole sections and files.

  /** The part of a map at some of its keys. */
  ghost function Part<T>(m: map<string, T>, keys: seq<string>): map<string, T>
    requires forall k :: k in keys ==> k in m
  {
    map k | k in keys :: m[k]
  }

  lemma PartFront<T>(m: map<string, T>, keys: seq<string>, base: map<string, T>)
    requires |keys| > 0 && forall k :: k in keys ==> k in m
    ensures base[keys[0] := m[keys[0]]] + Part(m, keys[1..]) == base + Part(m, keys)
  {
    assert forall k :: k in keys <==> k == keys[0] || k in keys[1..];
  }

  lemma PartWhole<T>(m: map<string, T>, keys: seq<string>)
    requires forall k :: k in keys <==> k in m
    ensures map[] + Part(m, keys) == m
  {}

  lemma {:induction false} FieldsTake(file: IniMap, name: string, sofar: IniSection, section: IniSection, keys: seq<string>, lineNo: nat)
    requires GoodSection(section) && forall k :: k in keys ==> k in section
    ensures Takes(State(file[name := sofar], Some(name)), FieldLines(section, keys), lineNo,
                  State(file[name := sofar + Part(section, keys)], Some(name)))
    decreases |keys|
  {
    if |keys| == 0 {
      assert sofar + Part(section, keys) == sofar;
    } else {
      var k := keys[0];
      var sofar' := sofar[k := section[k]];
      FieldStep(State(file[name := sofar], Some(name)), k, section[k], lineNo);
      assert file[name := sofar][name := sofar'] == file[name := sofar'];
      hide Step, Takes, Part, FieldLine;
      FieldsTake(file, name, sofar', section, keys[1..], lineNo + 1);
      PartFront(section, keys, sofar);
      TakesOne(State(file[name := sofar], Some(name)), FieldLine(k, section[k]), FieldLines(section, keys[1..]), lineNo,
               State(file[name := sofar'], Some(name)), State(file[name := sofar + Part(section, keys)], Some(name)));
    }
  }

  ghost predicate Distinct(keys: seq<string>) { forall i, j :: 0 <= i < j < |keys| ==> keys[i] != keys[j] }

  lemma {:induction false} SortedKeysDistinct(keys: set<string>)
    ensures Distinct(SortedKeys(keys))
  {
    if keys != {} {
      var r := SortedKeys(keys);
      var rest := r[1..];
      assert r == [r[0]] + rest && rest == SortedKeys(keys - {r[0]});
      SortedKeysDistinct(keys - {r[0]});
      assert r[0] !in rest;
    }
  }

  ghost function SectionLines(name: string, section: IniSection): seq<string> {
    [SectionLine(name)] + FieldLines(section, SortedKeys(section.Keys))
  }

  lemma SectionTakes(st: State, name: string, section: IniSection, lineNo: nat)
    requires GoodName(name) && GoodSection(section) && name !in st.file
    ensures Takes(st, SectionLines(name, section), lineNo, State(st.file[name := section], Some(name)))
  {
    var keys := SortedKeys(section.Keys);
    SectionStep(st, name, lineNo);
    FieldsTake(st.file, name, map[], section, keys, lineNo + 1);
    PartWhole(section, keys);
    hide *;
    TakesOne(st, SectionLine(name), FieldLines(section, keys), lineNo,
             State(st.file[name := map[]], Some(name)), State(st.file[name := section], Some(name)));
  }

  lemma FirstName(st: State, file: IniMap, names: seq<string>)
    requires |names| > 0 && GoodFile(file) && Distinct(names) && forall n :: n in names ==> n in file && n !in st.file
    ensures var n := names[0];
      n in file && n !in st.file && GoodName(n) && GoodSection(file[n]) && Distinct(names[1..])
    ensures forall n :: n in names[1..] ==> n in file && n !in st.file[names[0] := file[names[0]]]
    ensures FileLines(file, names) == SectionLines(names[0], file[names[0]]) + FileLines(file, names[1..])
  {
    hide GoodName, GoodSection, SectionLine, FieldLines, SortedKeys;
    assert forall i :: 0 <= i < |names[1..]| ==> names[1..][i] == names[i + 1];
  }

  lemma {:induction false} FileTakes(st: State, file: IniMap, names: seq<string>, lineNo: nat) returns (last: State)
    requires GoodFile(file) && Distinct(names) && forall n :: n in names ==> n in file && n !in st.file
    ensures Takes(st, FileLines(file, names), lineNo, last) && last.file == st.file + Part(file, names)
    decreases |names|
  {
    hide *;
    if |names| == 0 {
      NoNames(st, file, names, lineNo);
      last := st;
    } else {
      var mid := State(st.file[names[0] := file[names[0]]], Some(names[0]));
      FirstName(st, file, names);
      last := FileTakes(mid, file, names[1..], lineNo + |SectionLines(names[0], file[names[0]])|);
      FileTakesMore(st, file, names, lineNo, mid, last);
    }
  }

  lemma NoNames(st: State, file: IniMap, names: seq<string>, lineNo: nat)
    requires |names| == 0 && forall n :: n in names ==> n in file
    ensures Takes(st, FileLines(file, names), lineNo, st) && st.file + Part(file, names) == st.file
  {}

  lemma FileTakesMore(st: State, file: IniMap, names: seq<string>, lineNo: nat, mid: State, last: State)
    requires |names| > 0 && forall n :: n in names ==> n in file
    requires forall n :: n in names[1..] ==> n in file
    requires names[0] !in st.file && GoodName(names[0]) && GoodSection(file[names[0]])
    requires mid == State(st.file[names[0] := file[names[0]]], Some(names[0]))
    requires FileLines(file, names) == SectionLines(names[0], file[names[0]]) + FileLines(file, names[1..])
    requires Takes(mid, FileLines(file, names[1..]), lineNo + |SectionLines(names[0], file[names[0]])|, last)
    requires last.file == mid.file + Part(file, names[1..])
    ensures Takes(st, FileLines(file, names), lineNo, last) && last.file == st.file + Part(file, names)
  {
    hide *;
    SectionTakes(st, names[0], file[names[0]], lineNo);
    PartFront(file, names, st.file);
    TakesConcat(st, SectionLines(names[0], file[names[0]]), FileLines(file, names[1..]), lineNo, mid, last);
  }

  lemma {:induction false} FieldLinesPlain(section: IniSection, keys: seq<string>)
    requires GoodSection(section) && forall k :: k in keys ==> k in section
    ensures forall l :: l in FieldLines(section, keys) ==> '\n' !in l
  {
    if |keys| > 0 {
      EscapeNewline(keys[0]);
      EscapeNewline(section[keys[0]]);
      FieldLinesPlain(section, keys[1..]);
    }
  }

  lemma {:induction false} FileLinesPlain(file: IniMap, names: seq<string>)
    requires GoodFile(file) && forall n :: n in names ==> n in file
    ensures forall l :: l in FileLines(file, names) ==> '\n' !in l
  {
    if |names| > 0 {
      EscapeNewline(names[0]);
      FieldLinesPlain(file[names[0]], SortedKeys(file[names[0]].Keys));
      FileLinesPlain(file, names[1..]);
    }
  }

  lemma GoodFilesSurvive(file: IniMap)
    requires GoodFile(file)
    ensures DecodeText(EncodeText(file)) == Outcome(file, None)
  {
    hide *;
    var names := SortedKeys(file.Keys);
    var lines := FileLines(file, names);
    var st := State(map[], None);
    ReadBack(file);
    SortedKeysDistinct(file.Keys);
    PartWhole(file, names);
    var last := FileTakes(st, file, names, 1);
    TakesRun(st, lines, [""], 1, last);
    EmptyLine(last, 1 + |lines|);
  }

  lemma ReadBack(file: IniMap)
    requires GoodFile(file)
    ensures var lines := FileLines(file, SortedKeys(file.Keys));
      DecodeText(EncodeText(file)) == Run(State(map[], None), lines + [""], 1)
  {
    var names := SortedKeys(file.Keys);
    FileLinesPlain(file, names);
    LinesOfUnlines(FileLines(file, names));
    hide FileLines, SortedKeys, GoodFile, Unlines, Lines, Run;
  }

  lemma EmptyLine(st: State, lineNo: nat)
    ensures Run(st, [""], lineNo) == Outcome(st.file, None)
  {
    assert Step(st, "", lineNo) == Go(st);
    assert [""][1..] == [];
  }

  // Whatever text is read, what comes out is good.

  lemma {:induction false} StripKeeps(c: char, s: string)
    ensures forall x :: x in Strip(c, s) ==> x in s
  {
    if s != "" {
      StripKeeps(c, s[1..]);
      if |s| > 1 {
        StripKeeps(c, s[2..]);
      }
    }
  }

  lemma CleanLine(line: string)
    requires '\n' !in line
    ensures var clean := Trim(StripAll(line)); Trimmed(clean) && '\n' !in clean
  {
    StripKeeps('#', line);
    StripKeeps(';', Strip('#', line));
    TrimIsTrimmed(StripAll(line));
  }

  /** The two halves of a clean field line are a good key and a good value. */
  lemma SplitField(clean: string, pos: nat)
    requires Trimmed(clean) && '\n' !in clean && clean != "" && clean[0] != '['
    requires pos < |clean| && pos == FindChar(clean, FIELD_SEP, 0)
    ensures GoodKey(Trim(clean[..pos])) && GoodValue(Trim(clean[pos + 1..]))
  {
    TrimIsTrimmed(clean[..pos]);
    TrimIsTrimmed(clean[pos + 1..]);
    assert forall j :: 0 <= j < pos ==> clean[..pos][j] == clean[j];
    hide Trim;
  }

  lemma SplitSection(clean: string, pos: nat)
    requires '\n' !in clean && clean != "" && clean[0] == '['
    requires pos < |clean| && pos == FindChar(clean, ']', 0) && pos != 1
    ensures pos > 1 && GoodName(clean[1..pos])
  {
    assert forall j :: 0 <= j < pos - 1 ==> clean[1..pos][j] == clean[j + 1];
  }

  lemma StepKeepsGood(st: State, line: string, lineNo: nat)
    requires GoodFile(st.file) && '\n' !in line
    requires st.current.Some? ==> st.current.value in st.file
    ensures var r := Step(st, line, lineNo);
      r.Go? ==> GoodFile(r.next.file) && (r.next.current.Some? ==> r.next.current.value in r.next.file)
  {
    CleanLine(line);
    var clean := Trim(StripAll(line));
    hide StripAll, Trim, Trimmed, GoodName, GoodKey, GoodValue, FindChar;
    if clean != "" {
      if clean[0] == '[' {
        var pos := FindChar(clean, ']', 0);
        if pos < |clean| && pos != 1 {
          SplitSection(clean, pos);
        }
      } else {
        var pos := FindChar(clean, FIELD_SEP, 0);
        if pos < |clean| {
          SplitField(clean, pos);
        }
      }
    }
  }

  lemma {:induction false} RunKeepsGood(st: State, lines: seq<string>, lineNo: nat)
    requires GoodFile(st.file) && forall l :: l in lines ==> '\n' !in l
    requires st.current.Some? ==> st.current.value in st.file
    ensures GoodFile(Run(st, lines, lineNo).file)
    decreases |lines|
  {
    if |lines| > 0 {
      StepKeepsGood(st, lines[0], lineNo);
      hide Step, GoodFile;
      var r := Step(st, lines[0], lineNo);
      if r.Go? {
        RunKeepsGood(r.next, lines[1..], lineNo + 1);
      }
    }
  }

  lemma DecodedIsGood(text: string)
    ensures GoodFile(DecodeText(text).file)
  {
    LinesHaveNoNewline(text);
    RunKeepsGood(State(map[], None), Lines(text), 1);
  }

  /** A file survives being written and read if and only if it is good. */
  lemma RoundTrip(file: IniMap)
    ensures DecodeText(EncodeText(file)) == Outcome(file, None) <==> GoodFile(file)
  {
    hide DecodeText, EncodeText, GoodFile;
    if GoodFile(file) {
      GoodFilesSurvive(file);
    }
    DecodedIsGood(EncodeText(file));
  }

  /** Reading is idempotent through the printer, on every text, also one on which decode throws half way. */
  lemma Normalisation(text: string)
    ensures var file := DecodeText(text).file; DecodeText(EncodeText(file)) == Outcome(file, None)
  {
    hide DecodeText, EncodeText, GoodFile;
    DecodedIsGood(text);
    GoodFilesSurvive(DecodeText(text).file);
  }

  /** When decode throws at a line, the file is what the lines before it give, and that line is to blame. */
  lemma {:induction false} FailureIsPrefix(st: State, lines: seq<string>, lineNo: nat) returns (n: nat, last: State)
    requires Run(st, lines, lineNo).error.Some?
    ensures n < |lines| && Takes(st, lines[..n], lineNo, last)
    ensures Step(last, lines[n], lineNo + n) == Stop(Run(st, lines, lineNo).error.value)
    ensures Run(st, lines, lineNo).file == last.file
    decreases |lines|
  {
    hide Step;
    match Step(st, lines[0], lineNo) {
      case Stop(_) =>
        n, last := 0, st;
      case Go(next) =>
        n, last := FailureIsPrefix(next, lines[1..], lineNo + 1);
        assert lines[..n + 1][1..] == lines[1..][..n];
        n := n + 1;
    }
  }

  /** The error carries the number of the line that stopped decode. */
  lemma ErrorNamesLine(st: State, line: string, lineNo: nat)
    requires Step(st, line, lineNo).Stop?
    ensures Step(st, line, lineNo).error.line == lineNo
    ensures Step(st, line, lineNo).error.FieldHasNoSection? <==>
      Trim(StripAll(line)) != "" && Trim(StripAll(line))[0] != '[' && st.current.None?
    ensures Step(st, line, lineNo).error.NoSeparator? <==>
      Trim(StripAll(line)) != "" && Trim(StripAll(line))[0] != '[' && st.current.Some? && FIELD_SEP !in Trim(StripAll(line))
    ensures Step(st, line, lineNo).error.SectionNotClosed? <==>
      Trim(StripAll(line)) != "" && Trim(StripAll(line))[0] == '[' && ']' !in Trim(StripAll(line))
    ensures Step(st, line, lineNo).error.SectionEmpty? <==> "[]" <= Trim(StripAll(line))
  {
    hide Trim, StripAll;
    var clean := Trim(StripAll(line));
    assert FindChar(clean, ']', 0) < |clean| <==> ']' in clean;
    assert FindChar(clean, FIELD_SEP, 0) < |clean| <==> FIELD_SEP in clean;
  }
}
