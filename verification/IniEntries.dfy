/** What a text means entry by entry: 3rd_party/inifile/inicpp.h, lines 586-680. */
module IniEntries {
  import opened IniText
  import opened IniRoundTrip
  import opened Options

  // What one line says, by its shape.

  function Clean(line: string): string { Trim(StripAll(line)) }

  predicate OpensBracket(line: string) { Clean(line) != "" && Clean(line)[0] == '[' }

  /** The line is a header of this section, perhaps with more text after the bracket. */
  ghost predicate HeaderOf(line: string, name: string) {
    name != "" && ']' !in name && exists tail :: Clean(line) == "[" + name + "]" + tail
  }

  /** The line gives this key this value. */
  ghost predicate FieldOf(line: string, key: string, value: string) {
    && Clean(line) != "" && Clean(line)[0] != '['
    && exists before, after :: Splits(line, before, after) && Trim(before) == key && Trim(after) == value
  }

  predicate Splits(line: string, before: string, after: string) {
    FIELD_SEP !in before && Clean(line) == before + [FIELD_SEP] + after
  }

  lemma HeaderName(line: string, name: string, tail: string)
    requires ']' !in name && Clean(line) == "[" + name + "]" + tail
    ensures FindChar(Clean(line), ']', 0) == |name| + 1 && Clean(line)[1..|name| + 1] == name
  {
    hide Clean;
    FindIn("[" + name, ']', tail);
    assert "[" + name + "]" + tail == "[" + name + [']'] + tail;
  }

  lemma FieldSplit(line: string, before: string, after: string)
    requires Splits(line, before, after)
    ensures var pos := FindChar(Clean(line), FIELD_SEP, 0);
      pos == |before| && Clean(line)[..pos] == before && Clean(line)[pos + 1..] == after
  {
    hide Clean;
    FindIn(before, FIELD_SEP, after);
  }

  /** What a line that goes through does, by its shape. */
  lemma StepMeaning(st: State, line: string, lineNo: nat)
    requires Step(st, line, lineNo).Go?
    ensures var next := Step(st, line, lineNo).next;
      if Clean(line) == "" then next == st
      else if OpensBracket(line) then
        && next.current.Some? && HeaderOf(line, next.current.value) && next.file.Keys == st.file.Keys + {next.current.value}
        && forall n, k :: EntryOf(next.file, n, k) == EntryOf(st.file, n, k)
      else
        && st.current.Some? && next.current == st.current && next.file.Keys == st.file.Keys + {st.current.value}
        && exists key, value :: FieldOf(line, key, value) && EntryOf(next.file, st.current.value, key) == Some(value)
             && forall n, k :: (n, k) != (st.current.value, key) ==> EntryOf(next.file, n, k) == EntryOf(st.file, n, k)
  {
    var clean := Clean(line);
    hide Trim, StripAll;
    if clean != "" {
      if clean[0] == '[' {
        var pos := FindChar(clean, ']', 0);
        var name := clean[1..pos];
        assert clean == "[" + name + "]" + clean[pos + 1..];
        assert HeaderOf(line, name);
      } else {
        var pos := FindChar(clean, FIELD_SEP, 0);
        assert Splits(line, clean[..pos], clean[pos + 1..]);
        assert FieldOf(line, Trim(clean[..pos]), Trim(clean[pos + 1..]));
      }
    }
  }

  /** A line gives one key one value, and names one section. */
  lemma OneMeaning(line: string, key: string, value: string, key': string, value': string)
    ensures FieldOf(line, key, value) && FieldOf(line, key', value') ==> key == key' && value == value'
    ensures HeaderOf(line, key) && HeaderOf(line, key') ==> key == key'
    ensures HeaderOf(line, key) ==> OpensBracket(line)
  {
    hide Clean;
    if FieldOf(line, key, value) && FieldOf(line, key', value') {
      var b, a :| Splits(line, b, a) && Trim(b) == key && Trim(a) == value;
      var b', a' :| Splits(line, b', a') && Trim(b') == key' && Trim(a') == value';
      FieldSplit(line, b, a);
      FieldSplit(line, b', a');
    }
    if HeaderOf(line, key) && HeaderOf(line, key') {
      var tail :| Clean(line) == "[" + key + "]" + tail;
      var tail' :| Clean(line) == "[" + key' + "]" + tail';
      HeaderName(line, key, tail);
      HeaderName(line, key', tail');
    }
  }

  // What many lines say.

  /** The last header before line i is one of this section. */
  ghost predicate InSection(lines: seq<string>, i: nat, name: string)
    requires i <= |lines|
  {
    exists h: nat :: h < i && HeaderOf(lines[h], name) && NoHeader(lines, h + 1, i)
  }

  predicate NoHeader(lines: seq<string>, from: nat, to: nat)
    requires from <= to <= |lines|
  {
    forall j :: from <= j < to ==> !OpensBracket(lines[j])
  }

  /** Line i gives the key of the section this value. */
  ghost predicate Gives(lines: seq<string>, i: nat, name: string, key: string, value: string)
    requires i < |lines|
  {
    InSection(lines, i, name) && FieldOf(lines[i], key, value)
  }

  /** Line i is the last one that gives the key of the section a value, and it is this value. */
  ghost predicate LastGives(lines: seq<string>, i: nat, name: string, key: string, value: string)
    requires i < |lines|
  {
    Gives(lines, i, name, key, value) && forall j, v :: i < j < |lines| ==> !Gives(lines, j, name, key, v)
  }

  /** The state says what the lines say. */
  ghost predicate Says(st: State, lines: seq<string>) {
    && (forall n :: st.current == Some(n) <==> InSection(lines, |lines|, n))
    && (forall n :: n in st.file <==> exists h :: 0 <= h < |lines| && HeaderOf(lines[h], n))
    && (forall n, k, v :: EntryOf(st.file, n, k) == Some(v) <==> Given(lines, n, k, v))
  }

  lemma SaysNothing()
    ensures Says(State(map[], None), [])
  {}

  lemma InSectionMore(lines: seq<string>, line: string, i: nat, n: string)
    requires i <= |lines|
    ensures InSection(lines + [line], i, n) <==> InSection(lines, i, n)
  {
    hide HeaderOf, OpensBracket;
    var more := lines + [line];
    if InSection(lines, i, n) {
      var h: nat :| h < i && HeaderOf(lines[h], n) && NoHeader(lines, h + 1, i);
      assert HeaderOf(more[h], n) && NoHeader(more, h + 1, i);
    }
    if InSection(more, i, n) {
      var h: nat :| h < i && HeaderOf(more[h], n) && NoHeader(more, h + 1, i);
      assert HeaderOf(lines[h], n);
      forall j | h + 1 <= j < i ensures !OpensBracket(lines[j]) {
        assert more[j] == lines[j];
      }
    }
  }

  lemma InSectionNext(lines: seq<string>, line: string, n: string)
    ensures InSection(lines + [line], |lines| + 1, n) <==>
      if OpensBracket(line) then HeaderOf(line, n) else InSection(lines, |lines|, n)
  {
    OneMeaning(line, n, "", n, "");
    hide HeaderOf, OpensBracket;
    var more, i := lines + [line], |lines|;
    InSectionMore(lines, line, i, n);
    assert more[i] == line;
    if OpensBracket(line) {
      if HeaderOf(line, n) {
        assert HeaderOf(more[i], n) && NoHeader(more, i + 1, i + 1);
      }
      if InSection(more, i + 1, n) {
        var h: nat :| h < i + 1 && HeaderOf(more[h], n) && NoHeader(more, h + 1, i + 1);
      }
    } else {
      if InSection(more, i, n) {
        var h: nat :| h < i && HeaderOf(more[h], n) && NoHeader(more, h + 1, i);
        assert NoHeader(more, h + 1, i + 1);
      }
      if InSection(more, i + 1, n) {
        var h: nat :| h < i + 1 && HeaderOf(more[h], n) && NoHeader(more, h + 1, i + 1);
        assert h < i && NoHeader(more, h + 1, i);
      }
    }
  }

  lemma GivesMore(lines: seq<string>, line: string, i: nat, n: string, k: string, v: string)
    requires i <= |lines|
    ensures i < |lines| ==> (Gives(lines + [line], i, n, k, v) <==> Gives(lines, i, n, k, v))
    ensures i == |lines| ==> (Gives(lines + [line], i, n, k, v) <==> InSection(lines, i, n) && FieldOf(line, k, v))
  {
    InSectionMore(lines, line, i, n);
    hide InSection, FieldOf;
  }

  lemma LastGivesMore(lines: seq<string>, line: string, i: nat, n: string, k: string, v: string)
    requires i <= |lines|
    ensures i < |lines| ==> (LastGives(lines + [line], i, n, k, v) <==>
      LastGives(lines, i, n, k, v) && forall w :: !(InSection(lines, |lines|, n) && FieldOf(line, k, w)))
    ensures i == |lines| ==> (LastGives(lines + [line], i, n, k, v) <==> InSection(lines, i, n) && FieldOf(line, k, v))
  {
    var more := lines + [line];
    hide Gives, InSection, FieldOf;
    forall j: nat, w | j <= |lines|
      ensures j < |lines| ==> (Gives(more, j, n, k, w) <==> Gives(lines, j, n, k, w))
      ensures j == |lines| ==> (Gives(more, j, n, k, w) <==> InSection(lines, j, n) && FieldOf(line, k, w))
    {
      GivesMore(lines, line, j, n, k, w);
    }
  }

  ghost predicate Given(lines: seq<string>, n: string, k: string, v: string) {
    exists i :: 0 <= i < |lines| && LastGives(lines, i, n, k, v)
  }

  /** The last line decides when it gives this key a value, and else the lines before it. */
  lemma GivenMore(lines: seq<string>, line: string, n: string, k: string, v: string)
    ensures Given(lines + [line], n, k, v) <==>
      if exists w :: InSection(lines, |lines|, n) && FieldOf(line, k, w) then InSection(lines, |lines|, n) && FieldOf(line, k, v)
      else Given(lines, n, k, v)
  {
    var more := lines + [line];
    hide LastGives, InSection, FieldOf;
    LastGivesMore(lines, line, |lines|, n, k, v);
    forall i: nat | i < |lines|
      ensures LastGives(more, i, n, k, v) <==>
        LastGives(lines, i, n, k, v) && forall w :: !(InSection(lines, |lines|, n) && FieldOf(line, k, w))
    {
      LastGivesMore(lines, line, i, n, k, v);
    }
    if Given(lines, n, k, v) {
      var i :| 0 <= i < |lines| && LastGives(lines, i, n, k, v);
      assert 0 <= i < |more| && (LastGives(more, i, n, k, v) <==> forall w :: !(InSection(lines, |lines|, n) && FieldOf(line, k, w)));
    }
    if InSection(lines, |lines|, n) && FieldOf(line, k, v) {
      assert LastGives(more, |lines|, n, k, v);
    }
  }

  lemma SaysEntry(st: State, lines: seq<string>, line: string, lineNo: nat, n: string, k: string, v: string)
    requires Says(st, lines) && Step(st, line, lineNo).Go?
    ensures EntryOf(Step(st, line, lineNo).next.file, n, k) == Some(v) <==> Given(lines + [line], n, k, v)
  {
    var next := Step(st, line, lineNo).next;
    StepMeaning(st, line, lineNo);
    GivenMore(lines, line, n, k, v);
    hide Step, EntryOf, Given, InSection, HeaderOf, Clean;
    assert EntryOf(st.file, n, k) == Some(v) <==> Given(lines, n, k, v);
    if Clean(line) == "" || OpensBracket(line) {
      NoField(line);
      hide FieldOf;
    } else {
      var name := st.current.value;
      assert st.current == Some(name) && InSection(lines, |lines|, name);
      var key, value :| FieldOf(line, key, value) && EntryOf(next.file, name, key) == Some(value)
        && forall n, k :: (n, k) != (name, key) ==> EntryOf(next.file, n, k) == EntryOf(st.file, n, k);
      hide FieldOf, OpensBracket;
      SameSection(st, lines, n, name);
      forall w ensures FieldOf(line, k, w) <==> k == key && w == value {
        OneMeaning(line, key, value, k, w);
      }
      if n == name && k == key {
        assert FieldOf(line, k, value);
      }
    }
  }

  lemma NoField(line: string)
    requires Clean(line) == "" || OpensBracket(line)
    ensures forall k, v :: !FieldOf(line, k, v)
  {
    hide Clean;
  }

  lemma SameSection(st: State, lines: seq<string>, n: string, name: string)
    requires Says(st, lines) && st.current == Some(name)
    ensures InSection(lines, |lines|, n) <==> n == name
  {
    hide InSection, HeaderOf, Given;
    assert st.current == Some(n) <==> InSection(lines, |lines|, n);
  }

  lemma SaysSections(st: State, lines: seq<string>, line: string, lineNo: nat, n: string)
    requires Says(st, lines) && Step(st, line, lineNo).Go?
    ensures n in Step(st, line, lineNo).next.file <==> exists h :: 0 <= h <= |lines| && HeaderOf((lines + [line])[h], n)
  {
    var next, more := Step(st, line, lineNo).next, lines + [line];
    StepMeaning(st, line, lineNo);
    hide Step, EntryOf, Given, HeaderOf, FieldOf;
    if h :| 0 <= h < |lines| && HeaderOf(lines[h], n) {
      assert HeaderOf(more[h], n);
    }
    if h :| 0 <= h <= |lines| && HeaderOf(more[h], n) {
      assert h < |lines| ==> HeaderOf(lines[h], n);
      assert h == |lines| ==> HeaderOf(line, n);
      OneMeaning(line, n, "", if next.current.Some? then next.current.value else n, "");
    }
    assert more[|lines|] == line;
    if !OpensBracket(line) && Clean(line) != "" {
      SectionIsThere(st, lines);
    }
  }

  lemma SectionIsThere(st: State, lines: seq<string>)
    requires Says(st, lines) && st.current.Some?
    ensures st.current.value in st.file
  {
    hide HeaderOf, OpensBracket, Given;
    var n := st.current.value;
    assert InSection(lines, |lines|, n);
    var h: nat :| h < |lines| && HeaderOf(lines[h], n) && NoHeader(lines, h + 1, |lines|);
  }

  lemma SaysCurrent(st: State, lines: seq<string>, line: string, lineNo: nat, n: string)
    requires Says(st, lines) && Step(st, line, lineNo).Go?
    ensures Step(st, line, lineNo).next.current == Some(n) <==> InSection(lines + [line], |lines| + 1, n)
  {
    var next := Step(st, line, lineNo).next;
    StepMeaning(st, line, lineNo);
    InSectionNext(lines, line, n);
    assert st.current == Some(n) <==> InSection(lines, |lines|, n);
    hide Step, EntryOf, Given, HeaderOf, FieldOf, InSection;
    if OpensBracket(line) {
      OneMeaning(line, n, "", next.current.value, "");
    } else if Clean(line) != "" {
      assert next.current == st.current;
    }
  }

  lemma SaysStep(st: State, lines: seq<string>, line: string, lineNo: nat)
    requires Says(st, lines) && Step(st, line, lineNo).Go?
    ensures Says(Step(st, line, lineNo).next, lines + [line])
  {
    var next, more := Step(st, line, lineNo).next, lines + [line];
    hide Step, EntryOf, Given, HeaderOf, InSection;
    forall n ensures next.current == Some(n) <==> InSection(more, |more|, n) {
      SaysCurrent(st, lines, line, lineNo, n);
    }
    forall n ensures n in next.file <==> exists h :: 0 <= h < |more| && HeaderOf(more[h], n) {
      SaysSections(st, lines, line, lineNo, n);
    }
    forall n, k, v ensures EntryOf(next.file, n, k) == Some(v) <==> Given(more, n, k, v) {
      SaysEntry(st, lines, line, lineNo, n, k, v);
    }
  }

  lemma {:induction false} LinesSay(st: State, before: seq<string>, lines: seq<string>, lineNo: nat, last: State)
    requires Says(st, before) && Takes(st, lines, lineNo, last)
    ensures Says(last, before + lines)
    decreases |lines|
  {
    hide Says, Step;
    if |lines| == 0 {
      assert before + lines == before;
    } else {
      SaysStep(st, before, lines[0], lineNo);
      LinesSay(Step(st, lines[0], lineNo).next, before + [lines[0]], lines[1..], lineNo + 1, last);
      assert before + [lines[0]] + lines[1..] == before + lines;
    }
  }

  lemma {:induction false} RunTakes(st: State, lines: seq<string>, lineNo: nat) returns (last: State)
    requires Run(st, lines, lineNo).error.None?
    ensures Takes(st, lines, lineNo, last) && last.file == Run(st, lines, lineNo).file
    decreases |lines|
  {
    hide Step;
    if |lines| == 0 {
      last := st;
    } else {
      last := RunTakes(Step(st, lines[0], lineNo).next, lines[1..], lineNo + 1);
    }
  }

  /**
   * What a text means. Of its lines the first n are read: all of them, or those before the one that decode throws
   * at. A section is there exactly when one of these is its header, also again after other sections; an entry has
   * the value of the last of these lines that gives its key a value in its section.
   */
  lemma DecodedEntries(text: string) returns (n: nat)
    ensures n <= |Lines(text)| && (n == |Lines(text)| <==> DecodeText(text).error.None?)
    ensures var lines, file := Lines(text)[..n], DecodeText(text).file;
      && (forall s :: s in file <==> exists h :: 0 <= h < n && HeaderOf(lines[h], s))
      && (forall s, k, v :: EntryOf(file, s, k) == Some(v) <==> Given(lines, s, k, v))
  {
    var lines, start := Lines(text), State(map[], None);
    SaysNothing();
    var last: State;
    if DecodeText(text).error.None? {
      n := |lines|;
      last := RunTakes(start, lines, 1);
    } else {
      n, last := FailureIsPrefix(start, lines, 1);
    }
    hide Lines, Says, Takes, Run, Step;
    assert lines[..|lines|] == lines;
    LinesSay(start, [], lines[..n], 1, last);
    assert [] + lines[..n] == lines[..n];
    SaysParts(last, lines[..n]);
  }

  lemma SaysParts(st: State, lines: seq<string>)
    requires Says(st, lines)
    ensures forall s :: s in st.file <==> exists h :: 0 <= h < |lines| && HeaderOf(lines[h], s)
    ensures forall s, k, v :: EntryOf(st.file, s, k) == Some(v) <==> Given(lines, s, k, v)
  {
    hide HeaderOf, Given, EntryOf, InSection;
  }

  // Lines and blanks.

  /** The lines with a newline between neighbours. */
  function Joined(lines: seq<string>): string {
    if |lines| == 0 then "" else if |lines| == 1 then lines[0] else lines[0] + "\n" + Joined(lines[1..])
  }

  /** The lines are the pieces of the text between its newlines, with nothing left out. */
  lemma {:induction false} LinesMeaning(text: string)
    ensures Joined(Lines(text)) == text && |Lines(text)| > 0
    ensures forall l :: l in Lines(text) ==> '\n' !in l
    decreases |text|
  {
    LinesHaveNoNewline(text);
    var k := FindChar(text, '\n', 0);
    if k < |text| {
      LinesMeaning(text[k + 1..]);
      assert Lines(text)[1..] == Lines(text[k + 1..]);
      assert text == text[..k] + "\n" + text[k + 1..];
    }
  }

  /** White space is the blank and the five controls from tab to carriage return. */
  lemma Spaces(c: char)
    ensures IsSpace(c) <==> c == ' ' || 9 <= c as int <= 13
  {}

  /** Trimming takes white space from both ends, as much as there is, and nothing else. */
  lemma TrimMeaning(s: string) returns (i: nat, j: nat)
    ensures i <= j <= |s| && Trim(s) == s[i..j]
    ensures forall k :: 0 <= k < i || j <= k < |s| ==> IsSpace(s[k])
    ensures i < j ==> !IsSpace(s[i]) && !IsSpace(s[j - 1])
  {
    j := TrimRightMeaning(s);
    i := TrimLeftShape(s[..j]);
  }

  lemma {:induction false} TrimRightMeaning(s: string) returns (j: nat)
    ensures j <= |s| && TrimRight(s) == s[..j]
    ensures forall k :: j <= k < |s| ==> IsSpace(s[k])
    ensures j > 0 ==> !IsSpace(s[j - 1])
  {
    if s != "" && IsSpace(s[|s| - 1]) {
      j := TrimRightMeaning(s[..|s| - 1]);
    } else {
      j := |s|;
    }
  }
}
