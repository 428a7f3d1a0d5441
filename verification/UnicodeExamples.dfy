/** The examples of section 7 of RFC 3629 and section 5 of RFC 2781, and of what is replaced. */
module UnicodeExamples {
  import opened Unicode
  import opened Utf8Codec
  import opened Utf8Decode
  import opened Utf16Convert

  lemma EncodedCharacters()
    ensures Encode(0x41) == [0x41] && Encode(0x391) == [0xCE, 0x91]
    ensures Encode(0x2262) == [0xE2, 0x89, 0xA2] && Encode(0x233B4) == [0xF0, 0xA3, 0x8E, 0xB4]
    ensures Encode16(0x12345) == [0xD808, 0xDF45] && Encode16(0x3D) == [0x3D]
  {}

  /** An octet that begins no character, and a surrogate that begins no pair, give U+FFFD. */
  lemma Replaced()
    ensures Lossy([0xFF]) == [0xFFFD] && Lossy16([0xD800]) == [0xFFFD] && EncodeLossy(0xD800) == [0xEF, 0xBF, 0xBD]
  {
    var s: seq<octet> := [0xFF];
    NoCharacter(s);
    assert ViableLength(s, 0) == 0;
    assert s[..1] == s && s[1..] == [];
    assert Lossy([]) == [];
    hide Viable, ViableLength;
  }

  lemma NoCharacter(s: seq<octet>)
    requires s == [0xFF]
    ensures !Viable(s[..1]) && !IsUtf8Char(s[..1])
  {
    assert s[..1] == s;
    forall t: seq<octet> | t != [] ensures !IsUtf8Char(s + t) {
      assert (s + t)[0] == 0xFF;
    }
  }
}
