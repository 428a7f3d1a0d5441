/** The characters that carry meaning in INI text: 3rd_party/inifile/inicpp.h, lines 418-420 and 700-719. */
module IniExamples {
  import opened IniText

  /** A section is written in square brackets, a field with an equals sign, a comment sign behind a backslash. */
  lemma WrittenForms(name: string, value: string)
    requires '#' !in name && ';' !in name && '#' !in value && ';' !in value
    ensures SectionLine(name) == "[" + name + "]" && FieldLine(name, value) == name + "=" + value
    ensures Escape("#") == "\\#" && Escape(";") == "\\;"
  {
    Plain(name);
    Plain(value);
    Marks();
    hide Escape;
  }

  lemma Marks()
    ensures Escape("#") == "\\#" && Escape(";") == "\\;"
  {
    assert Escape("") == "";
    assert "#"[1..] == "" && ";"[1..] == "";
  }

  lemma {:induction false} Plain(s: string)
    requires '#' !in s && ';' !in s
    ensures Escape(s) == s
  {
    if s != "" {
      Plain(s[1..]);
      assert s == [s[0]] + s[1..];
    }
  }

  /** A comment begins at '#' or ';', unless a backslash stands before it. */
  lemma ReadForms(before: string, after: string)
    requires '#' !in before && ';' !in before && (before == "" || before[|before| - 1] != '\\')
    ensures StripAll(before + "#" + after) == before && StripAll(before + ";" + after) == before
    ensures StripAll(before + "\\#") == before + "#" && StripAll(before + "\\;") == before + ";"
  {
    Through('#', before, "#" + after);
    Through('#', before + ";", after);
    Through('#', before, "\\#");
    Through('#', before, "\\;");
    Through(';', before, "");
    Through(';', before, ";" + Strip('#', after));
    Through(';', before, "#");
    Through(';', before, "\\;");
    Marked('#', ';', after);
    Marked(';', '#', Strip('#', after));
    hide Strip;
    assert before + "" == before;
    assert before + "#" + after == before + ("#" + after);
    assert before + ";" + Strip('#', after) == before + (";" + Strip('#', after));
  }

  lemma Marked(c: char, other: char, after: string)
    requires (c == '#' && other == ';') || (c == ';' && other == '#')
    ensures Strip(c, [c] + after) == "" && Strip(c, "") == ""
    ensures Strip(c, ['\\', c]) == [c] && Strip(c, ['\\', other]) == ['\\', other] && Strip(c, [other]) == [other]
  {
    assert ['\\', c][2..] == "" && ['\\', other][1..] == [other] && [other][1..] == "";
  }

  /** What holds no c, and ends in no escape, goes through a pass. */
  lemma {:induction false} Through(c: char, before: string, rest: string)
    requires c !in before && (before == "" || before[|before| - 1] != '\\')
    ensures Strip(c, before + rest) == before + Strip(c, rest)
  {
    var s := before + rest;
    if before == "" {
      assert s == rest;
    } else {
      Through(c, before[1..], rest);
      assert s[1..] == before[1..] + rest && before == [before[0]] + before[1..];
      assert |before| > 1 ==> s[1] == before[1];
    }
  }
}
