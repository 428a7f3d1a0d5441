/** How settings read numbers and other values: 3rd_party/inifile/inicpp.h, lines 62-79, 103-126 and 196-213. */
module SettingsNumbers {
  import opened IniText
  import opened IniFile
  import opened Options
  import opened Numbers
  import opened Settings

  /** The value of digits, with a sign, within the range of a 64-bit long. */
  function Limited(negative: bool, n: int): int {
    var v: int := if negative then -n else n;
    if v < -0x8000_0000_0000_0000 then -0x8000_0000_0000_0000
    else if v > 0x7fff_ffff_ffff_ffff then 0x7fff_ffff_ffff_ffff
    else v
  }

  /**
   * The text is white space up to a, a sign or none up to b, in base 16 perhaps 0x up to d, and digits from there
   * to its end.
   */
  predicate Shape(c: string, base: nat, negative: bool, a: nat, b: nat, d: nat) {
    && a <= b <= d < |c|
    && (forall i :: 0 <= i < a ==> IsSpace(c[i]))
    && (if negative then b == a + 1 && c[a] == '-' else b == a || (b == a + 1 && c[a] == '+'))
    && (d == b || (base == 16 && d == b + 2 && c[b] == '0' && (c[b + 1] == 'x' || c[b + 1] == 'X')))
    && (forall i :: d <= i < |c| ==> DigitValue(c[i]) < base)
  }

  ghost predicate Numeral(c: string, base: nat, negative: bool, d: nat) {
    exists a: nat, b: nat :: Shape(c, base, negative, a, b, d)
  }

  lemma DigitIsNoSpace(c: char, base: nat)
    requires base <= 16 && DigitValue(c) < base
    ensures !IsSpace(c) && c != '-' && c != '+' && c != 'x' && c != 'X'
  {}

  lemma {:induction false} SpacesEnd(c: string, pos: nat, k: nat)
    requires pos <= k <= |c| && (forall i :: pos <= i < k ==> IsSpace(c[i])) && (k < |c| ==> !IsSpace(c[k]))
    ensures SkipSpaces(c, pos) == k
    decreases k - pos
  {
    if pos < k {
      SpacesEnd(c, pos + 1, k);
    }
  }

  lemma DigitsEnd(c: string, base: nat, pos: nat)
    requires pos <= |c| && forall i :: pos <= i < |c| ==> DigitValue(c[i]) < base
    ensures SkipDigits(c, base, pos) == |c|
  {}

  /** Where a prefix of base 16 ends that begins at b. */
  function AfterPrefix(c: string, base: nat, b: nat): (d: nat)
    requires b <= |c|
    ensures b <= d <= |c|
  {
    if base == 16 && b + 2 < |c| && c[b] == '0' && (c[b + 1] == 'x' || c[b + 1] == 'X') && DigitValue(c[b + 2]) < 16
    then b + 2 else b
  }

  function AfterSign(c: string, a: nat): (b: nat)
    requires a <= |c|
    ensures a <= b <= |c|
  {
    if a < |c| && (c[a] == '-' || c[a] == '+') then a + 1 else a
  }

  /** strtol by the places where the white space, the sign and the prefix end. */
  lemma StrtolAt(c: string, base: nat, a: nat, b: nat, d: nat)
    requires a <= |c| && SkipSpaces(c, 0) == a && b == AfterSign(c, a) && d == AfterPrefix(c, base, b)
    ensures var end := SkipDigits(c, base, d);
      Strtol(c, base) == if end == d then Parsed(0, 0)
        else Parsed(Limited(a < |c| && c[a] == '-', Accumulate(c[d..end], base)), end)
  {
    hide IsSpace, Accumulate, SkipSpaces, SkipDigits, DigitValue;
  }

  /** strtol takes a whole numeral and gives its value. */
  lemma StrtolOfNumeral(c: string, base: nat, negative: bool, d: nat)
    requires base in {8, 10, 16} && Numeral(c, base, negative, d)
    ensures d <= |c| && Strtol(c, base) == Parsed(Limited(negative, Accumulate(c[d..], base)), |c|)
  {
    hide *;
    var a, b := TheShape(c, base, negative, d);
    PlacesOfShape(c, base, negative, a, b, d);
    StrtolAt(c, base, a, b, d);
    assert c[d..|c|] == c[d..];
  }

  lemma TheShape(c: string, base: nat, negative: bool, d: nat) returns (a: nat, b: nat)
    requires Numeral(c, base, negative, d)
    ensures Shape(c, base, negative, a, b, d)
  {
    hide Shape;
    a, b :| Shape(c, base, negative, a, b, d);
  }

  lemma PlacesOfShape(c: string, base: nat, negative: bool, a: nat, b: nat, d: nat)
    requires base in {8, 10, 16} && Shape(c, base, negative, a, b, d)
    ensures a <= b <= d < |c| && SkipDigits(c, base, d) == |c|
    ensures SkipSpaces(c, 0) == a && b == AfterSign(c, a) && d == AfterPrefix(c, base, b) && (c[a] == '-' <==> negative)
  {
    DigitIsNoSpace(c[d], base);
    if d == b && b + 1 < |c| {
      DigitIsNoSpace(c[b + 1], base);
    }
    assert !IsSpace(c[a]) by {
      assert !IsSpace('+') && !IsSpace('-') && !IsSpace('0');
    }
    hide DigitValue, IsSpace;
    SpacesEnd(c, 0, a);
    DigitsEnd(c, base, d);
  }

  /** What strtol takes whole is a numeral. */
  lemma NumeralOfStrtol(c: string, base: nat) returns (negative: bool, d: nat)
    requires base in {8, 10, 16} && c != "" && Strtol(c, base).end == |c|
    ensures Numeral(c, base, negative, d)
  {
    var a := SkipSpaces(c, 0);
    var b := AfterSign(c, a);
    d := AfterPrefix(c, base, b);
    SkippedAreSpaces(c, 0);
    StrtolAt(c, base, a, b, d);
    hide Strtol, IsSpace, Accumulate, SkipSpaces, SkipDigits, DigitValue, Limited;
    assert SkipDigits(c, base, d) == |c| && d < |c|;
    negative := c[a] == '-';
    assert Shape(c, base, negative, a, b, d);
  }

  lemma {:induction false} SkippedAreSpaces(c: string, pos: nat)
    requires pos <= |c|
    ensures forall i :: pos <= i < SkipSpaces(c, pos) ==> IsSpace(c[i])
    decreases |c| - pos
  {
    hide IsSpace;
    if pos < |c| && IsSpace(c[pos]) {
      SkippedAreSpaces(c, pos + 1);
    }
  }

  /** strToLong reads decimal numerals, then hexadecimal ones, and the empty text as 0; nothing else. */
  lemma NumberTexts(s: string)
    requires '\0' !in s
    ensures s == "" ==> StrToLong(s) == Some(0)
    ensures forall negative, d: nat :: Numeral(s, 10, negative, d) ==>
      d <= |s| && StrToLong(s) == Some(Limited(negative, Accumulate(s[d..], 10)))
    ensures s != "" && (forall negative, d: nat :: !Numeral(s, 10, negative, d)) ==>
      forall negative, d: nat :: Numeral(s, 16, negative, d) ==>
        d <= |s| && StrToLong(s) == Some(Limited(negative, Accumulate(s[d..], 16)))
    ensures StrToLong(s) == None <==>
      s != "" && forall negative, d: nat :: !Numeral(s, 10, negative, d) && !Numeral(s, 16, negative, d)
  {
    NoZero(s);
    OctalNeverHelps(s);
    hide Strtol, Accumulate, Limited, FindChar, Numeral;
    forall base, negative, d: nat | base in {10, 16} && Numeral(s, base, negative, d)
      ensures d <= |s| && Strtol(s, base) == Parsed(Limited(negative, Accumulate(s[d..], base)), |s|)
    {
      StrtolOfNumeral(s, base, negative, d);
    }
    if s != "" {
      if Strtol(s, 10).end == |s| {
        var negative, d := NumeralOfStrtol(s, 10);
      } else if Strtol(s, 16).end == |s| {
        var negative, d := NumeralOfStrtol(s, 16);
      }
    } else {
      Nothing();
    }
  }

  lemma NoZero(s: string)
    requires '\0' !in s
    ensures s[..FindChar(s, '\0', 0)] == s
  {}

  /** What stands behind a zero character is not read. */
  lemma NumberEndsAtZero(s: string, t: string)
    requires '\0' !in s
    ensures StrToLong(s + "\0" + t) == StrToLong(s)
  {
    NoZero(s);
    var u := s + "\0" + t;
    assert forall j :: 0 <= j < |s| ==> u[j] == s[j];
    assert u[|s|] == '\0';
    FindIs(u, '\0', |s|);
    hide Strtol, FindChar;
    assert u[..|s|] == s;
  }

  lemma Nothing()
    ensures Strtol("", 10) == Parsed(0, 0)
  {}

  /** The digits of all bases. */
  lemma Digits(c: char)
    ensures DigitValue(c) < 10 <==> 48 <= c as int <= 57
    ensures DigitValue(c) < 10 ==> DigitValue(c) == c as int - 48
    ensures 10 <= DigitValue(c) < 16 <==> 65 <= c as int <= 70 || 97 <= c as int <= 102
    ensures 65 <= c as int <= 70 ==> DigitValue(c) == c as int - 55
    ensures 97 <= c as int <= 102 ==> DigitValue(c) == c as int - 87
  {}

  /** The cast gives the number of 32 bits, in two's complement, that agrees in the lower 32 bits. */
  lemma CastIntMeaning(v: int)
    ensures -0x8000_0000 <= CastInt(v) <= 0x7fff_ffff && (v - CastInt(v)) % 0x1_0000_0000 == 0
  {}

  /** read<int> gives the number of an entry, and the default for a missing entry and for a text that is none. */
  lemma ReadMeaning(s: Settings, group: string, key: string, default: int)
    ensures EntryOf(s.ini.file, group, key) == None ==> s.Read(group, key, default) == default
    ensures forall t :: EntryOf(s.ini.file, group, key) == Some(t) && StrToLong(t) == None ==>
      s.Read(group, key, default) == default
    ensures forall t, v :: EntryOf(s.ini.file, group, key) == Some(t) && StrToLong(t) == Some(v) ==>
      s.Read(group, key, default) == CastInt(v)
  {
    hide StrToLong, CastInt;
  }

  /** Convert<bool>::decode: either word, in letters of either case. */
  function BoolOf(text: string): Option<bool> {
    if Upper(text) == "TRUE" then Some(true) else if Upper(text) == "FALSE" then Some(false) else None
  }

  function Upper(s: string): string {
    if s == "" then "" else [if 'a' <= s[0] <= 'z' then ((s[0] as int) - 32) as char else s[0]] + Upper(s[1..])
  }

  lemma UpperFront(c: char, s: string)
    ensures Upper([c] + s) == [if 'a' <= c <= 'z' then ((c as int) - 32) as char else c] + Upper(s)
  {
    assert ([c] + s)[1..] == s;
  }

  lemma UpperOfWords()
    ensures Upper("true") == "TRUE" && Upper("false") == "FALSE"
  {
    assert Upper("") == "";
    hide Upper;
    UpperFront('e', "");
    UpperFront('u', "e");
    UpperFront('r', "ue");
    UpperFront('t', "rue");
    UpperFront('s', "e");
    UpperFront('l', "se");
    UpperFront('a', "lse");
    UpperFront('f', "alse");
    assert "true" == ['t'] + "rue" && "rue" == ['r'] + "ue" && "ue" == ['u'] + "e" && "e" == ['e'] + "";
    assert "false" == ['f'] + "alse" && "alse" == ['a'] + "lse" && "lse" == ['l'] + "se" && "se" == ['s'] + "e";
  }

  /** What a sample writes is read back as the value it holds; only the other types are not written. */
  lemma TextsReadBack(v: Variant)
    ensures Text(v) == None <==> v.Other?
    ensures v.Int? && INT_MIN <= v.i <= INT_MAX ==> StrToLong(Text(v).value) == Some(v.i)
    ensures v.Enum? && INT_MIN <= v.e <= INT_MAX ==> StrToLong(Text(v).value) == Some(v.e)
    ensures v.Bool? ==> BoolOf(Text(v).value) == Some(v.b)
    ensures v.Str? ==> Text(v).value == v.s
    ensures v.CStr? ==> Text(v).value == v.p
  {
    UpperOfWords();
    if v.Int? && INT_MIN <= v.i <= INT_MAX {
      IntTextParses(v.i);
    }
    if v.Enum? && INT_MIN <= v.e <= INT_MAX {
      IntTextParses(v.e);
    }
    hide StrToLong, IntText, Upper;
  }
}
