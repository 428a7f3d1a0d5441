/**
 * gts::settings: gts/settings.cpp, gts/detail/settings.h and the int conversions of
 * 3rd_party/inifile/inicpp.h, lines 62-79 and 191-213. The file on disk is one text.
 */
module Settings {
  import opened IniText
  import opened Options
  import opened IniRoundTrip
  import opened IniFile
  import opened Numbers

  // Printing and parsing numbers.

  const INT_MIN := -0x8000_0000
  const INT_MAX := 0x7fff_ffff
  const LONG_MIN := -0x8000_0000_0000_0000
  const LONG_MAX := 0x7fff_ffff_ffff_ffff

  /** Convert<int>::encode */
  function IntText(v: int): string { if v < 0 then "-" + NatText(-v) else NatText(v) }

  function SkipSpaces(s: string, pos: nat): (end: nat)
    requires pos <= |s|
    ensures pos <= end <= |s|
    decreases |s| - pos
  {
    if pos < |s| && IsSpace(s[pos]) then SkipSpaces(s, pos + 1) else pos
  }

  function SkipDigits(s: string, base: nat, pos: nat): (end: nat)
    requires pos <= |s|
    ensures pos <= end <= |s|
    ensures forall j :: pos <= j < end ==> DigitValue(s[j]) < base
    ensures end < |s| ==> DigitValue(s[end]) >= base
    decreases |s| - pos
  {
    if pos < |s| && DigitValue(s[pos]) < base then SkipDigits(s, base, pos + 1) else pos
  }

  function Clamp(v: int): int { if v < LONG_MIN then LONG_MIN else if v > LONG_MAX then LONG_MAX else v }

  datatype Parsed = Parsed(value: int, end: nat)

  /** std::strtol: white space, a sign, for base 16 a prefix 0x, then as many digits as there are. */
  function Strtol(s: string, base: nat): (r: Parsed)
    ensures r.end <= |s|
  {
    var start := SkipSpaces(s, 0);
    var negative := start < |s| && s[start] == '-';
    var afterSign := if start < |s| && (s[start] == '-' || s[start] == '+') then start + 1 else start;
    var afterPrefix :=
      if base == 16 && afterSign + 2 < |s| && s[afterSign] == '0' && (s[afterSign + 1] == 'x' || s[afterSign + 1] == 'X')
         && DigitValue(s[afterSign + 2]) < 16
      then afterSign + 2 else afterSign;
    var end := SkipDigits(s, base, afterPrefix);
    if end == afterPrefix then Parsed(0, 0)
    else
      var n := Accumulate(s[afterPrefix..end], base);
      Parsed(Clamp(if negative then -n else n), end)
  }

  /** strToLong on the C string, which ends at the first zero: decimal, else octal, else hexadecimal. */
  function StrToLong(s: string): Option<int> {
    var c := s[..FindChar(s, '\0', 0)];
    if Strtol(c, 10).end == |c| then Some(Strtol(c, 10).value)
    else if Strtol(c, 8).end == |c| then Some(Strtol(c, 8).value)
    else if Strtol(c, 16).end == |c| then Some(Strtol(c, 16).value)
    else None
  }

  /** The octal attempt never succeeds where the decimal one failed. */
  lemma OctalNeverHelps(s: string)
    ensures Strtol(s, 8).end == |s| ==> Strtol(s, 10).end == |s|
  {
    var start := SkipSpaces(s, 0);
    var k := if start < |s| && (s[start] == '-' || s[start] == '+') then start + 1 else start;
    DecimalCovers(s, k);
  }

  lemma {:induction false} DecimalCovers(s: string, k: nat)
    requires k <= |s|
    ensures SkipDigits(s, 8, k) <= SkipDigits(s, 10, k)
    decreases |s| - k
  {
    if k < |s| && DigitValue(s[k]) < 8 {
      DecimalCovers(s, k + 1);
    }
  }

  /** A long cast to int. */
  function CastInt(v: int): int { (v - INT_MIN) % 0x1_0000_0000 + INT_MIN }

  /** The digits of a number's text begin here. */
  function DigitsAt(v: int): nat { if v < 0 then 1 else 0 }

  lemma IntTextShape(v: int)
    ensures var s := IntText(v); var k := DigitsAt(v);
      && k < |s| && s[k..|s|] == NatText(if v < 0 then -v else v)
      && (v < 0 ==> s[0] == '-')
      && (forall j :: k <= j < |s| ==> '0' <= s[j] <= '9')
      && Accumulate(s[k..|s|], 10) == if v < 0 then -v else v
  {
    var n := if v < 0 then -v else v;
    var s, k := IntText(v), DigitsAt(v);
    NatTextDigits(n);
    hide NatText, Accumulate;
    assert s[k..|s|] == NatText(n);
    forall j | k <= j < |s| ensures '0' <= s[j] <= '9' {
      assert s[j] == NatText(n)[j - k] && NatText(n)[j - k] in NatText(n);
    }
  }

  lemma DecimalParses(v: int)
    requires INT_MIN <= v <= INT_MAX
    ensures Strtol(IntText(v), 10) == Parsed(v, |IntText(v)|)
  {
    var s, k := IntText(v), DigitsAt(v);
    IntTextShape(v);
    hide IntText, NatText, Accumulate;
    assert SkipSpaces(s, 0) == 0;
    forall j | k <= j < |s| ensures DigitValue(s[j]) < 10 {}
    assert SkipDigits(s, 10, k) == |s|;
  }

  lemma NumberText(s: string)
    requires forall c :: c in s ==> c == '-' || '0' <= c <= '9'
    ensures s[..FindChar(s, '\0', 0)] == s
    ensures GoodValue(s)
  {
    assert forall j :: 0 <= j < |s| ==> s[j] in s;
  }

  /** Every 32-bit value is read back from its decimal text. */
  lemma IntTextParses(v: int)
    requires INT_MIN <= v <= INT_MAX
    ensures StrToLong(IntText(v)) == Some(v) && CastInt(v) == v
    ensures GoodValue(IntText(v))
  {
    IntTextShape(v);
    hide Strtol, NatText, GoodValue, FindChar, Accumulate, IntText;
    NumberText(IntText(v));
    DecimalParses(v);
  }

  // The object.

  /** The values a sample may hold; enumerations are stored as their number. */
  datatype Variant = Int(i: int) | Enum(e: int) | Bool(b: bool) | Str(s: string) | CStr(p: string) | Other

  /** What write stores, for the types that ini_file_check supports. */
  function Text(v: Variant): Option<string> {
    match v
    case Int(i) => Some(IntText(i))
    case Enum(e) => Some(IntText(e))
    case Bool(b) => Some(if b then "true" else "false")
    case Str(s) => Some(s)
    case CStr(p) => Some(p)
    case Other => None
  }

  type Entry = (string, Variant)

  function Count(entries: seq<Entry>, key: string): nat {
    if |entries| == 0 then 0 else Count(entries[1..], key) + if entries[0].0 == key then 1 else 0
  }

  function Without(entries: seq<Entry>, key: string): seq<Entry> {
    if |entries| == 0 then []
    else (if entries[0].0 == key then [] else [entries[0]]) + Without(entries[1..], key)
  }

  /** The section lacks the key, and the sample gives it exactly once, with a supported type. */
  ghost predicate Completes(section: IniSection, sample: seq<Entry>, key: string, text: string) {
    key !in section && Count(sample, key) == 1 && Offers(sample, key, text)
  }

  function SectionOf(file: IniMap, group: string): IniSection {
    if group in file then file[group] else map[]
  }

  /** write */
  function Written(file: IniMap, group: string, key: string, text: string): IniMap {
    file[group := SectionOf(file, group)[key := text]]
  }

  lemma WrittenIsGood(file: IniMap, group: string, key: string, text: string)
    requires GoodFile(file) && GoodName(group) && GoodKey(key) && GoodValue(text)
    ensures GoodFile(Written(file, group, key, text))
  {
    hide GoodName, GoodKey, GoodValue;
  }

  class Settings {
    const ini: IniFile
    var stored: string
    // What the original's constructor throws; there is an object to use only without it.
    const thrown: Option<IniError>

    constructor (content: string)
      ensures fresh(ini) && stored == content && Outcome(ini.file, thrown) == DecodeText(content)
    {
      var f := new IniFile();
      var error := f.Decode(content);
      ini, stored, thrown := f, content, error;
    }

    /** read<int>: a missing or unreadable entry gives the default. */
    function Read(group: string, key: string, default: int): int
      reads ini
    {
      if group !in ini.file || key !in ini.file[group] then default
      else match StrToLong(ini.file[group][key]) {
        case Some(v) => CastInt(v)
        case None => default
      }
    }

    /** write with the text that the conversion of the value yields */
    method Write(group: string, key: string, text: string)
      modifies ini
      ensures ini.file == Written(old(ini.file), group, key, text)
      ensures ini.file.Keys == old(ini.file.Keys) + {group}
      ensures EntryOf(ini.file, group, key) == Some(text)
      ensures forall g, k :: (g, k) != (group, key) ==> EntryOf(ini.file, g, k) == EntryOf(old(ini.file), g, k)
    {
      var section := SectionOf(ini.file, group);
      ini.file := ini.file[group := section[key := text]];
    }

    method Flush()
      modifies this
      ensures stored == EncodeText(ini.file)
    {
      stored := ini.Encode();
    }

    method Reload() returns (error: Option<IniError>)
      modifies ini
      ensures Outcome(ini.file, error) == DecodeText(stored)
    {
      error := ini.Decode(stored);
    }

    /** Any 32-bit number survives write, flush and reload, and nothing else in the file changes. */
    method StoreInt(group: string, key: string, v: int, default: int) returns (error: Option<IniError>, back: int)
      requires GoodFile(ini.file) && GoodName(group) && GoodKey(key)
      requires INT_MIN <= v <= INT_MAX
      modifies this, ini
      ensures error == None && back == v
      ensures ini.file == Written(old(ini.file), group, key, IntText(v))
    {
      IntTextParses(v);
      WrittenIsGood(ini.file, group, key, IntText(v));
      hide StrToLong, IntText, EncodeText, DecodeText, GoodFile, GoodName, GoodKey, GoodValue, CastInt;
      Write(group, key, IntText(v));
      RoundTrip(ini.file);
      Flush();
      error := Reload();
      back := Read(group, key, default);
    }

    /**
     * ini_file_check: nothing that exists is changed; the missing keys of the sample are added, but
     * only those that the sample gives exactly once. The file is written when there are any.
     */
    method IniFileCheck(group: string, sample: seq<Entry>)
      modifies this, ini
      ensures forall g :: g != group ==> (g in ini.file <==> g in old(ini.file)) && (g in ini.file ==> ini.file[g] == old(ini.file)[g])
      ensures Completed(SectionOf(old(ini.file), group), sample, SectionOf(ini.file, group))
      ensures stored == if Lacks(SectionOf(old(ini.file), group), sample) then EncodeText(ini.file) else old(stored)
    {
      hide EncodeText, Completed, Filled, Count, Without, Text, Lacks;
      ghost var before := SectionOf(ini.file, group);
      var tmp := sample;
      if group in ini.file {
        tmp := MergeExisting(ini.file[group], sample);
      }
      tmp := DropRepeated(sample, tmp, before);
      AnyLeft(before, sample, tmp);
      FilledStarts(before);
      var c := 0;
      for i := 0 to |tmp|
        invariant forall g :: g != group ==> (g in ini.file <==> g in old(ini.file)) && (g in ini.file ==> ini.file[g] == old(ini.file)[g])
        invariant Filled(before, tmp[..i], SectionOf(ini.file, group))
        invariant stored == old(stored) && c == i
      {
        FilledStep(before, tmp, i, SectionOf(ini.file, group));
        match Text(tmp[i].1) {
          case Some(text) => Write(group, tmp[i].0, text);
          case None =>
        }
        c := c + 1;
      }
      assert tmp[..|tmp|] == tmp;
      FilledIsCompleted(before, sample, tmp, SectionOf(ini.file, group));
      if c > 0 {
        Flush();
      }
    }
  }

  /** after is before and exactly the entries that complete it. */
  ghost predicate Completed(before: IniSection, sample: seq<Entry>, after: IniSection) {
    && (forall k :: k in before ==> k in after && after[k] == before[k])
    && (forall k, text :: k !in before ==> ((k in after && after[k] == text) <==> Completes(before, sample, k, text)))
  }

  /** after is before and the supported entries, none of which repeats a key. */
  ghost predicate Filled(before: IniSection, entries: seq<Entry>, after: IniSection) {
    forall k :: FilledAt(before, entries, after, k)
  }

  ghost predicate FilledAt(before: IniSection, entries: seq<Entry>, after: IniSection, k: string) {
    if k in before then k in after && after[k] == before[k]
    else forall text :: (k in after && after[k] == text) <==> Offers(entries, k, text)
  }

  ghost predicate Offers(entries: seq<Entry>, key: string, text: string) {
    exists v :: (key, v) in entries && Text(v) == Some(text)
  }

  /** Some key is missing that the sample gives exactly once. */
  ghost predicate Lacks(section: IniSection, sample: seq<Entry>) {
    exists k :: k !in section && Count(sample, k) == 1
  }

  lemma AnyLeft(before: IniSection, sample: seq<Entry>, left: seq<Entry>)
    requires forall k :: Count(left, k) == if k !in before && Count(sample, k) == 1 then 1 else 0
    ensures |left| > 0 <==> Lacks(before, sample)
  {
    if |left| > 0 {
      CountIn(left, left[0]);
    }
    NoneCounted();
  }

  lemma {:induction false} CountConcat(a: seq<Entry>, b: seq<Entry>, key: string)
    ensures Count(a + b, key) == Count(a, key) + Count(b, key)
  {
    if |a| == 0 {
      assert a + b == b;
    } else {
      assert (a + b)[0] == a[0] && (a + b)[1..] == a[1..] + b;
      CountConcat(a[1..], b, key);
    }
  }

  lemma {:induction false} CountIn(entries: seq<Entry>, e: Entry)
    requires e in entries
    ensures Count(entries, e.0) > 0
  {
    if entries[0] != e {
      assert entries == [entries[0]] + entries[1..];
      CountIn(entries[1..], e);
    }
  }

  lemma {:induction false} CountWithout(entries: seq<Entry>, key: string, k: string)
    ensures Count(Without(entries, key), k) == if k == key then 0 else Count(entries, k)
  {
    if |entries| > 0 {
      CountWithout(entries[1..], key, k);
      var front := if entries[0].0 == key then [] else [entries[0]];
      CountConcat(front, Without(entries[1..], key), k);
    }
  }

  lemma {:induction false} InWithout(entries: seq<Entry>, key: string, e: Entry)
    ensures e in Without(entries, key) <==> e in entries && e.0 != key
  {
    if |entries| > 0 {
      InWithout(entries[1..], key, e);
      assert entries == [entries[0]] + entries[1..];
    }
  }

  // The copy of the sample, with a second entry for every sample key that the section has.
  method MergeExisting(section: IniSection, sample: seq<Entry>) returns (tmp: seq<Entry>)
    ensures forall k :: Count(tmp, k) == Count(sample, k) + if k in section && Count(sample, k) > 0 then 1 else 0
    ensures forall k, v :: k !in section ==> ((k, v) in tmp <==> (k, v) in sample)
  {
    hide Count;
    tmp := sample;
    var keys := section.Keys;
    while keys != {}
      invariant keys <= section.Keys
      invariant forall k :: Count(tmp, k) == Count(sample, k) + if k in section && k !in keys && Count(sample, k) > 0 then 1 else 0
      invariant forall k, v :: k !in section ==> ((k, v) in tmp <==> (k, v) in sample)
    {
      var k :| k in keys;
      if Count(sample, k) > 0 {
        CountMore(tmp, k);
        tmp := tmp + [(k, Other)];
      }
      keys := keys - {k};
    }
  }

  lemma CountMore(entries: seq<Entry>, key: string)
    ensures forall k :: Count(entries + [(key, Other)], k) == Count(entries, k) + if k == key then 1 else 0
  {
    forall k ensures Count(entries + [(key, Other)], k) == Count(entries, k) + if k == key then 1 else 0 {
      CountConcat(entries, [(key, Other)], k);
    }
  }

  // The entries whose keys are not repeated, neither in the sample nor by the section.
  method DropRepeated(sample: seq<Entry>, all: seq<Entry>, ghost before: IniSection) returns (tmp: seq<Entry>)
    requires forall k :: Count(all, k) == Count(sample, k) + if k in before && Count(sample, k) > 0 then 1 else 0
    requires forall k, v :: k !in before ==> ((k, v) in all <==> (k, v) in sample)
    ensures forall k :: Count(tmp, k) == if k !in before && Count(sample, k) == 1 then 1 else 0
    ensures forall k, v :: (k, v) in tmp ==> k !in before && Count(sample, k) == 1 && (k, v) in sample
    ensures forall k, v :: k !in before && Count(sample, k) == 1 && (k, v) in sample ==> (k, v) in tmp
  {
    hide Count, Without;
    tmp := all;
    NoneCounted();
    for i := 0 to |sample|
      invariant forall k :: Count(tmp, k) == if Count(sample[..i], k) > 0 && Count(all, k) > 1 then 0 else Count(all, k)
      invariant forall k, v :: (k, v) in tmp <==> (k, v) in all && !(Count(sample[..i], k) > 0 && Count(all, k) > 1)
    {
      var key := sample[i].0;
      assert sample[..i + 1] == sample[..i] + [sample[i]];
      CountMoreAny(sample[..i], sample[i]);
      if Count(tmp, key) > 1 {
        forall k ensures Count(Without(tmp, key), k) == if k == key then 0 else Count(tmp, k) {
          CountWithout(tmp, key, k);
        }
        forall k, v ensures (k, v) in Without(tmp, key) <==> (k, v) in tmp && k != key {
          InWithout(tmp, key, (k, v));
        }
        tmp := Without(tmp, key);
      }
    }
    assert sample[..|sample|] == sample;
    forall k, v | (k, v) in tmp ensures k !in before && Count(sample, k) == 1 && (k, v) in sample {
      CountIn(tmp, (k, v));
    }
  }

  lemma NoneCounted()
    ensures forall k :: Count([], k) == 0
  {}

  lemma CountMoreAny(entries: seq<Entry>, e: Entry)
    ensures forall k :: Count(entries + [e], k) == Count(entries, k) + if k == e.0 then 1 else 0
  {
    forall k ensures Count(entries + [e], k) == Count(entries, k) + if k == e.0 then 1 else 0 {
      CountConcat(entries, [e], k);
    }
  }

  // The writing loop.

  lemma FilledStarts(before: IniSection)
    ensures Filled(before, [], before)
  {}

  lemma NotYet(entries: seq<Entry>, i: nat, before: IniSection)
    requires i < |entries| && forall k :: Count(entries, k) <= if k !in before then 1 else 0
    ensures entries[i].0 !in before && forall v :: (entries[i].0, v) !in entries[..i]
  {
    hide Count;
    var e := entries[i];
    var more := entries[..i] + [e];
    assert entries == more + entries[i + 1..];
    CountConcat(more, entries[i + 1..], e.0);
    CountMoreAny(entries[..i], e);
    forall v ensures (e.0, v) !in entries[..i] {
      if (e.0, v) in entries[..i] {
        CountIn(entries[..i], (e.0, v));
      }
    }
  }

  function Put(section: IniSection, e: Entry): IniSection {
    match Text(e.1)
    case Some(text) => section[e.0 := text]
    case None => section
  }

  lemma FilledStep(before: IniSection, entries: seq<Entry>, i: nat, after: IniSection)
    requires i < |entries| && Filled(before, entries[..i], after)
    requires forall k :: Count(entries, k) <= if k !in before then 1 else 0
    ensures Filled(before, entries[..i + 1], Put(after, entries[i]))
  {
    hide Text, Offers, FilledAt, Put, Count;
    NotYet(entries, i, before);
    assert entries[..i + 1] == entries[..i] + [entries[i]];
    var now, more, after' := entries[..i], entries[..i + 1], Put(after, entries[i]);
    forall k ensures FilledAt(before, more, after', k) {
      assert FilledAt(before, now, after, k);
      FilledStepAt(before, now, entries[i], after, k);
    }
  }

  lemma FilledStepAt(before: IniSection, entries: seq<Entry>, e: Entry, after: IniSection, k: string)
    requires FilledAt(before, entries, after, k)
    requires e.0 !in before && forall v :: (e.0, v) !in entries
    ensures FilledAt(before, entries + [e], Put(after, e), k)
  {
    forall text ensures Offers(entries + [e], k, text) <==> Offers(entries, k, text) || (k == e.0 && Text(e.1) == Some(text)) {
      OffersMore(entries, e, k, text);
    }
    hide Text, Offers;
    if k == e.0 && k in after {
      NotOffered(entries, k, after[k]);
    }
  }

  lemma OffersMore(entries: seq<Entry>, e: Entry, key: string, text: string)
    ensures Offers(entries + [e], key, text) <==> Offers(entries, key, text) || (key == e.0 && Text(e.1) == Some(text))
  {
    hide Text;
    if key == e.0 && Text(e.1) == Some(text) {
      assert (key, e.1) in entries + [e];
    }
  }

  lemma NotOffered(entries: seq<Entry>, key: string, text: string)
    requires forall v :: (key, v) !in entries
    ensures !Offers(entries, key, text)
  {
    hide Text;
  }

  lemma FilledIsCompleted(before: IniSection, sample: seq<Entry>, entries: seq<Entry>, after: IniSection)
    requires Filled(before, entries, after)
    requires forall k, v :: (k, v) in entries ==> k !in before && Count(sample, k) == 1 && (k, v) in sample
    requires forall k, v :: k !in before && Count(sample, k) == 1 && (k, v) in sample ==> (k, v) in entries
    ensures Completed(before, sample, after)
  {
    hide Text, Count, Offers;
    forall k | k in before ensures k in after && after[k] == before[k] {
      assert FilledAt(before, entries, after, k);
    }
    forall k, text | k !in before ensures (k in after && after[k] == text) <==> Completes(before, sample, k, text) {
      assert FilledAt(before, entries, after, k);
      assert (k in after && after[k] == text) <==> Offers(entries, k, text);
      SameOffers(before, sample, entries, k, text);
    }
  }

  lemma SameOffers(before: IniSection, sample: seq<Entry>, entries: seq<Entry>, k: string, text: string)
    requires forall k, v :: (k, v) in entries ==> k !in before && Count(sample, k) == 1 && (k, v) in sample
    requires forall k, v :: k !in before && Count(sample, k) == 1 && (k, v) in sample ==> (k, v) in entries
    requires k !in before
    ensures Offers(entries, k, text) <==> Count(sample, k) == 1 && Offers(sample, k, text)
  {
    hide Text, Count;
    if Count(sample, k) == 1 && Offers(sample, k, text) {
      var v :| (k, v) in sample && Text(v) == Some(text);
      assert (k, v) in entries;
    }
  }
}
