/** The routines of 3rd_party/inifile/inicpp.h and the object ini::IniFile. */
module IniFile {
  import opened IniText
  import opened Options
  import opened IniRoundTrip

  /** One pass of eraseComment: everything before start has been dealt with. */
  method EraseComment(prefix: char, str: string, start: nat) returns (str': string)
    requires prefix != ESC && start <= |str|
    requires start > 0 ==> str[start - 1] != ESC
    ensures str' == str[..start] + Strip(prefix, str[start..])
    decreases |str| - start
  {
    hide Strip;
    var pos := FindChar(str, prefix, start);
    StripTo(prefix, str, start, pos);
    if pos == |str| {
      return str;
    }
    if pos != 0 && str[pos - 1] == ESC {
      var erased := str[..pos - 1] + str[pos..];
      str' := EraseComment(prefix, erased, pos);
      assert erased[..pos] == str[..pos - 1] + [prefix] && erased[pos..] == str[pos + 1..];
      assert str[..pos - 1] == str[..start] + str[start..pos - 1];
    } else {
      str' := str[..pos];
      assert str[..pos] == str[..start] + str[start..pos];
    }
  }

  /** What stripping does up to the first prefix. */
  lemma StripTo(c: char, s: string, start: nat, pos: nat)
    requires c != ESC && start <= pos <= |s| && pos == FindChar(s, c, start)
    requires start > 0 ==> s[start - 1] != ESC
    ensures if pos == |s| then Strip(c, s[start..]) == s[start..]
            else if pos > 0 && s[pos - 1] == ESC then
              pos > start && Strip(c, s[start..]) == s[start..pos - 1] + [c] + Strip(c, s[pos + 1..])
            else Strip(c, s[start..]) == s[start..pos]
    decreases pos - start
  {
    StripToFrom(c, s, start, pos);
  }

  lemma {:induction false} StripToFrom(c: char, s: string, start: nat, pos: nat)
    requires c != ESC && start <= pos <= |s|
    requires (forall j :: start <= j < pos ==> s[j] != c) && (pos < |s| ==> s[pos] == c)
    requires start == pos && 0 < pos < |s| ==> s[pos - 1] != ESC
    ensures if pos == |s| then Strip(c, s[start..]) == s[start..]
            else if pos > start && s[pos - 1] == ESC then
              Strip(c, s[start..]) == s[start..pos - 1] + [c] + Strip(c, s[pos + 1..])
            else Strip(c, s[start..]) == s[start..pos]
    decreases pos - start
  {
    var t := s[start..];
    if start == |s| {
    } else if start == pos {
      assert t[0] == c;
    } else if s[start] == ESC && start + 1 == pos && pos < |s| {
      assert t == [ESC, c] + s[pos + 1..];
      StripEscaped(c, s[pos + 1..]);
    } else {
      assert t == [s[start]] + s[start + 1..];
      StripPlain(c, s[start], s[start + 1..]);
      StripToFrom(c, s, start + 1, pos);
    }
  }

  /** eraseComments: one pass for '#', then one for ';' */
  method EraseComments(str: string) returns (str': string)
    ensures str' == StripAll(str)
  {
    var first := EraseComment('#', str, 0);
    assert str[..0] + Strip('#', str[0..]) == Strip('#', str) by { assert str[0..] == str; }
    str' := EraseComment(';', first, 0);
    assert first[0..] == first;
  }

  /** writeEscaped */
  method WriteEscaped(os: string, str: string) returns (os': string)
    ensures os' == os + Escape(str)
  {
    os' := os;
    for i := 0 to |str|
      invariant os' + Escape(str[i..]) == os + Escape(str)
    {
      assert str[i..][1..] == str[i + 1..];
      if IsPrefix(str[i]) {
        os' := os' + [ESC] + [str[i]];
      } else {
        os' := os' + [str[i]];
      }
    }
  }

  class IniFile {
    var file: IniMap

    constructor ()
      ensures file == map[]
    {
      file := map[];
    }

    /** decode: reads line by line; a line that does not parse ends it, and what was read stays. */
    method Decode(content: string) returns (error: Option<IniError>)
      modifies this
      ensures Outcome(file, error) == DecodeText(content)
      ensures GoodFile(file)
    {
      DecodedIsGood(content);
      DecodeStarts(content);
      hide *;
      file := map[];
      var lineNo := 0;
      var currentSection: Option<string> := None;
      var pos, eof := 0, false;
      ghost var rest := Lines(content);
      assert content[0..] == content;
      while !eof
        invariant 0 <= pos <= |content|
        invariant rest == if eof then [] else Lines(content[pos..])
        invariant Run(State(file, currentSection), rest, lineNo + 1) == DecodeText(content)
        decreases !eof, |content| - pos
      {
        var k := FindChar(content, '\n', pos);
        var line := content[pos..k];
        NextLine(content, pos);
        if k == |content| {
          eof := true;
        } else {
          pos := k + 1;
        }
        assert rest[1..] == if eof then [] else Lines(content[pos..]);
        RunFront(State(file, currentSection), rest, lineNo + 1);
        rest := rest[1..];
        line := EraseComments(line);
        line := Trim(line);
        lineNo := lineNo + 1;
        var stop;
        stop, currentSection := DecodeLine(line, currentSection, lineNo);
        if stop.Some? {
          return stop;
        }
      }
      RunNone(State(file, currentSection), lineNo + 1);
      error := None;
    }

    // One clean line of decode.
    method DecodeLine(line: string, currentSection: Option<string>, lineNo: nat)
      returns (error: Option<IniError>, current: Option<string>)
      modifies this
      ensures match StepClean(State(old(file), currentSection), line, lineNo) {
                case Go(next) => error.None? && State(file, current) == next
                case Stop(e) => error == Some(e) && file == old(file)
              }
    {
      error, current := None, currentSection;
      if |line| == 0 {
        return;
      }
      if line[0] == '[' {
        var pos := FindChar(line, ']', 0);
        if pos == |line| {
          return Some(SectionNotClosed(lineNo)), current;
        }
        if pos == 1 {
          return Some(SectionEmpty(lineNo)), current;
        }
        var secName := line[1..pos];
        if secName !in file {
          file := file[secName := map[]];
        }
        current := Some(secName);
      } else {
        if currentSection.None? {
          return Some(FieldHasNoSection(lineNo)), current;
        }
        var pos := FindChar(line, FIELD_SEP, 0);
        if pos == |line| {
          return Some(NoSeparator(lineNo)), current;
        }
        var name := Trim(line[..pos]);
        var value := Trim(line[pos + 1..]);
        var section := if currentSection.value in file then file[currentSection.value] else map[];
        file := file[currentSection.value := section[name := value]];
      }
    }

    /** encode: sections and fields in ascending key order. */
    method Encode() returns (text: string)
      ensures text == EncodeText(file)
    {
      hide Unlines, SectionLines, SortedKeys, FileLines;
      text := "";
      var names := file.Keys;
      ghost var rest := SortedKeys(names);
      while names != {}
        invariant rest == SortedKeys(names) && forall n :: n in rest ==> n in file
        invariant text + Unlines(FileLines(file, rest)) == EncodeText(file)
      {
        LeastExists(names);
        SortedKeysFront(names);
        var n :| n in names && forall j :: j in names ==> !Less(j, n);
        LeastUnique(n, rest[0], names);
        var section := file[n];
        FileText(file, rest);
        text := EncodeSection(text, n, section);
        names := names - {n};
        rest := rest[1..];
      }
      NoLines(map[], file, rest);
    }
  }

  method EncodeHeader(text: string, name: string) returns (os: string)
    ensures os == text + (SectionLine(name) + "\n")
  {
    os := text + "[";
    os := WriteEscaped(os, name);
    os := os + "]" + "\n";
  }

  // One section of encode.
  method EncodeSection(text: string, name: string, section: IniSection) returns (os: string)
    ensures os == text + Unlines(SectionLines(name, section))
  {
    hide FieldLines, Unlines, SectionLines, SortedKeys, FieldLine, SectionLine;
    os := EncodeHeader(text, name);
    SectionText(name, section);
    ghost var all := text + Unlines(SectionLines(name, section));
    var keys := section.Keys;
    ghost var rest := SortedKeys(keys);
    assert os + Unlines(FieldLines(section, rest)) == all;
    while keys != {}
      invariant rest == SortedKeys(keys) && forall k :: k in rest ==> k in section
      invariant os + Unlines(FieldLines(section, rest)) == all
    {
      LeastExists(keys);
      SortedKeysFront(keys);
      var k :| k in keys && forall j :: j in keys ==> !Less(j, k);
      LeastUnique(k, rest[0], keys);
      FieldLinesFront(section, rest);
      os := EncodeField(os, k, section[k]);
      keys := keys - {k};
      rest := rest[1..];
    }
    NoLines(section, map[], rest);
  }

  lemma SectionText(name: string, section: IniSection)
    ensures Unlines(SectionLines(name, section)) ==
      (SectionLine(name) + "\n") + Unlines(FieldLines(section, SortedKeys(section.Keys)))
  {
    hide SectionLine, FieldLines, SortedKeys;
    var fields := FieldLines(section, SortedKeys(section.Keys));
    assert ([SectionLine(name)] + fields)[1..] == fields;
  }

  lemma NoLines(section: IniSection, file: IniMap, keys: seq<string>)
    requires |keys| == 0
    ensures Unlines(FieldLines(section, keys)) == "" && Unlines(FileLines(file, keys)) == ""
  {}

  method EncodeField(text: string, key: string, value: string) returns (os: string)
    ensures os == text + (FieldLine(key, value) + "\n")
  {
    os := WriteEscaped(text, key);
    os := os + [FIELD_SEP];
    os := WriteEscaped(os, value);
    os := os + "\n";
  }

  // Steps of the loops.

  lemma DecodeStarts(content: string)
    ensures DecodeText(content) == Run(State(map[], None), Lines(content), 1)
  {
    hide Run, Lines;
  }

  lemma RunFront(st: State, lines: seq<string>, lineNo: nat)
    requires |lines| > 0
    ensures Run(st, lines, lineNo) == match StepClean(st, Trim(StripAll(lines[0])), lineNo) {
      case Go(next) => Run(next, lines[1..], lineNo + 1)
      case Stop(error) => Outcome(st.file, Some(error))
    }
  {
    hide StepClean, Trim, StripAll;
  }

  lemma RunNone(st: State, lineNo: nat)
    ensures Run(st, [], lineNo) == Outcome(st.file, None)
  {}

  lemma NextLine(content: string, pos: nat)
    requires pos <= |content|
    ensures var k := FindChar(content, '\n', pos);
            Lines(content[pos..]) == [content[pos..k]] + if k == |content| then [] else Lines(content[k + 1..])
  {
    var t := content[pos..];
    var k := FindChar(content, '\n', pos);
    FindSuffix(content, '\n', pos);
    assert t[..k - pos] == content[pos..k];
    assert k == |content| ==> content[pos..k] == t && [t] + [] == [t];
    if k < |content| {
      assert t[k - pos + 1..] == content[k + 1..];
    }
  }

  lemma FindSuffix(s: string, c: char, pos: nat)
    requires pos <= |s|
    ensures FindChar(s[pos..], c, 0) == FindChar(s, c, pos) - pos
  {
    var k := FindChar(s, c, pos) - pos;
    assert forall j :: 0 <= j < k ==> s[pos..][j] == s[pos + j];
    assert pos + k < |s| ==> s[pos..][k] == s[pos + k];
    FindIs(s[pos..], c, k);
  }

  lemma FindIs(s: string, c: char, k: nat)
    requires k <= |s| && (forall j :: 0 <= j < k ==> s[j] != c) && (k < |s| ==> s[k] == c)
    ensures FindChar(s, c, 0) == k
  {}

  lemma SortedKeysFront(keys: set<string>)
    requires keys != {}
    ensures var r := SortedKeys(keys); |r| > 0 && IsLeast(r[0], keys) && r[1..] == SortedKeys(keys - {r[0]})
  {
    LeastExists(keys);
  }

  lemma LeastUnique(a: string, b: string, keys: set<string>)
    requires IsLeast(a, keys) && IsLeast(b, keys)
    ensures a == b
  {
    LessTotal(a, b);
  }

  lemma FieldLinesFront(section: IniSection, keys: seq<string>)
    requires |keys| > 0 && forall k :: k in keys ==> k in section
    ensures forall k :: k in keys[1..] ==> k in section
    ensures Unlines(FieldLines(section, keys)) ==
      (FieldLine(keys[0], section[keys[0]]) + "\n") + Unlines(FieldLines(section, keys[1..]))
  {
    hide FieldLine;
    var line := FieldLine(keys[0], section[keys[0]]);
    assert ([line] + FieldLines(section, keys[1..]))[1..] == FieldLines(section, keys[1..]);
  }

  lemma FileText(file: IniMap, names: seq<string>)
    requires |names| > 0 && forall n :: n in names ==> n in file
    ensures forall n :: n in names[1..] ==> n in file
    ensures Unlines(FileLines(file, names)) ==
      Unlines(SectionLines(names[0], file[names[0]])) + Unlines(FileLines(file, names[1..]))
  {
    hide SectionLine, FieldLines, SortedKeys, Unlines;
    assert FileLines(file, names) == SectionLines(names[0], file[names[0]]) + FileLines(file, names[1..]);
    UnlinesConcat(SectionLines(names[0], file[names[0]]), FileLines(file, names[1..]));
  }

  lemma {:induction false} UnlinesConcat(a: seq<string>, b: seq<string>)
    ensures Unlines(a + b) == Unlines(a) + Unlines(b)
  {
    if |a| == 0 {
      assert a + b == b;
    } else {
      assert (a + b)[0] == a[0] && (a + b)[1..] == a[1..] + b;
      UnlinesConcat(a[1..], b);
    }
  }
}
