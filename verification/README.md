# Verified models of gts

This project models six parts of the gts library in Dafny and proves what they are for: the streaming
SHA-1 object, the Unicode codec and POSIX path engine, the INI printer and parser with the settings
object on top, the command-line parser, the string algorithms, and the asynchronous log queue.
`dafny verify dfyconfig.toml` checks all of it.

Objects that the source updates in place are classes here (`Hasher`, `PathIterator`, `Path`, `IniFile`,
`Settings`, `ArgsParser`), loops are loops, and each method is tied to a specification function or to
a predicate over its state. The theorems are then about those specifications:

- **SHA-1** (`Sha1Standard`, `Sha1Example`, `Sha1`, `Hasher`). `Sha1Standard` is FIPS 180-4 as printed: the logical
  functions and constants of sections 4.1.1 and 4.2.1, padding of 5.1.1, initial value of 5.3.1 and the
  hash of 6.1.2 with its 80-word schedule. `Sha1` has the block function with the 16-word circular
  schedule and registers that change roles; `Hasher` has the buffer, the bulk path and `finalize`. Any
  run of `append` calls followed by `finalize` leaves the textbook hash of what was appended. The ghost
  field `fed` says what that is, and only `buf[..i]` is ever given a meaning. `Sha1Example` fixes the textbook
  form by arithmetic and by the published example.
- **Unicode** (`Unicode`, `UnicodeExamples`, `Utf8Codec`, `Utf8Decode`, `Utf16Convert`). `Unicode` holds the grammar of
  section 4 and the bit layout of section 3 of RFC 3629, and sections 2.1 and 2.2 of RFC 2781. The
  nibble-packed automaton accepts exactly the grammar, and every conversion loop is proved against a
  decoder defined from the grammar. Encode-then-decode holds on all scalar values; decode-then-encode
  returns its input exactly for valid input, in both UTF-8 and UTF-16 and through either.
- **Paths** (`PosixPath`, `PathIteration`, `PathAppend`, `PathParts`). On collapsed paths `++` and `--` are successor
  and predecessor on the same set of positions, so the backward walk is the reversed forward walk, with
  the exact condition under which that holds. The element loop of `/=` is one concatenation of texts and
  keeps paths collapsed; `p.parent_path() / p.filename()` is `p` under an exact condition. `PathParts` says what
  iteration, `parent_path`, `filename` and `/=` do to a path written from a host, a root directory and names.
- **INI and settings** (`IniText`, `IniRoundTrip`, `IniEntries`, `IniExamples`, `IniFile`, `Settings`,
  `SettingsNumbers`). A file survives being written
  and read if and only if it is in a stated domain, every text that is read lands in that domain, and
  a 32-bit number survives `write`, `flush`, `reload` and `read`. For every text, each entry has the value of the
  last line that gives it one.
- **Command line** (`ArgsParser`, `ArgsMeaning`, `ArgsRun`). For rules registered by any calls of `add_group`
  and `add_flag`, a line built from any list of well-formed items is accepted if and only if no two items use
  the same rule, no positional is repeated and none spells the number of a rule in use; then it yields the
  assignments and the positionals in order. The documented spellings agree in every parser state.
- **Strings** (`StringAlgorithms`, `PercentEncoding`). Split-then-join and replace-as-split-and-join hold
  for every text if and only if the separator has no border; for one character, splitting undoes joining. In-place percent decoding equals
  the decoder on the original text and inverts every percent-encoder.
- **Log queue** (`LogQueue`, `LogProgress`). The worker, the producers and the stop flag are atomic steps; the theorems about
  messages hold in every state that any schedule reaches, and mutual exclusion under an exact condition.
  From every such state messages can still be delivered, and the worker can finish.

`Numbers` has decimal text and `Options` the optional value; both are shared.

## What the code does that its documentation or its use does not suggest

The models follow the code. Where a law fails the failing case is proved, and where it can be
characterised the law is stated as an equivalence.

- A path such as `a:b` is split after the ':' by `++` but never by `--` (`PathIteration.WalksAgree`).
- `parent_path() / filename()` loses a path whose last component is of that shape, or that ends in `:/`, or that
  has no relative part and ends in neither a separator nor a ':', such as `//host` (`PathAppend.Recombination`).
- A network name without a root directory swallows what it is divided by: `//host` / `a` is `//hosta`. Otherwise,
  and only then, a name divided by becomes the last element, unless it is drive-like (`PathAppend.FilenameOfDivided`).
- Comparison of root names uses the shorter length on one side only. From the left, `//a` equals `//ab`, and a
  path without a root name equals a path on any host: the empty path equals `//h`, and `/x` equals `//h/x`. Only
  left paths of one kind are safe (`PathAppend.SamePathExact`).
- The 16-bit decoder replaces a surrogate that starts no pair together with the unit after it
  (`Utf16Convert.ToUtf8From16`). Nothing else is lost exactly when the first unpaired surrogate, if there is
  one, is the last unit (`Utf16Convert.LosesOnlySurrogates`).
- `ini_file_check` never adds a key that the sample gives more than once (`Settings.Settings.IniFileCheck`).
- The octal attempt of `strToLong` never succeeds where the decimal one failed (`Settings.OctalNeverHelps`).
- Rule numbers and positionals share one cache: a positional that spells the number of a used rule is
  rejected (`ArgsRun.NumbersCollide`).
- An unregistered token of a '-' and two or more letters never has the result of being kept
  (`ArgsMeaning.KeptExactly`), though the outcome of a line can look so (`ArgsMeaning.KeptInAppearance`): `-xy` with
  neither letter registered is kept twice, and a longer one is rejected as a repetition.
- `str_replace` always returns 0 (`StringAlgorithms.StrReplace`).
- A worker that stops while it waits gives the mutex back twice: in `shutdown`, and when its lock guard goes out
  of scope. A producer that holds the mutex then loses it (`LogQueue.ExclusionAfterRelease`).
- A message pushed after the worker's last swap is never emitted (`LogQueue.LateMessageIsLost`), and
  `logger::wait` can return while a message is queued (`LogQueue.WaitMayReturnEarly`). What its flag does
  guarantee is `LogQueue.WaitGuarantee`.

## Model

| member | source | states |
|---|---|---|
| `Sha1Standard.BigEndianDenotes` | gts/sha1.cpp:324-325 | the eight length bytes denote the bit count that was written into them |
| `Sha1Standard.LeastZeroCount` | gts/sha1.cpp:322-323 | the number of zero bytes is the least that leaves eight bytes free in a block |
| `Sha1Standard.PadInjective` | gts/sha1.cpp:316-327 | no two messages shorter than 2^61 bytes have the same padded form |
| `Sha1Standard.LengthRecovered` | gts/sha1.cpp:324-325 | below 2^61 bytes the length field gives the message length back |
| `Sha1Example.Rotations` | gts/sha1.cpp:189-192 | the three rotations are multiplications modulo 2^32 plus what falls out at the top |
| `Sha1Example.BigEndianSum` | gts/sha1.cpp:181-187 | a word read from four bytes is their sum by place value |
| `Sha1Example.ChSelects` | gts/sha1.cpp:71 | where the first word has ones Ch gives the second word, where it has zeros the third |
| `Sha1Example.MajVotes` | gts/sha1.cpp:80 | where the first word has ones Maj gives what one of the others has, where it has zeros what both have |
| `Sha1Example.DigestOfAbc` | gts/sha1.cpp:40-327 | the hash of "abc" is the published digest, through the eighty words and the eighty values of the first register that the example lists |
| `Sha1.ChooseForm` | gts/sha1.cpp:71 | the short form of the first mixing function is Ch of FIPS 180-4 |
| `Sha1.MajorityForm` | gts/sha1.cpp:80 | the short form of the third mixing function is Maj of FIPS 180-4 |
| `Sha1.ExtendWindow` | gts/sha1.cpp:67-68 | overwriting slot i mod 16 with W_i keeps the last sixteen schedule words in the circular array |
| `Sha1.Load` | gts/sha1.cpp:67-68 | from the last sixteen words of the 80-word schedule the macro makes the next one |
| `Sha1.Choose` | gts/sha1.cpp:71 | the expression of rounds 0 to 19 computes Ch |
| `Sha1.Majority` | gts/sha1.cpp:80 | the expression of rounds 40 to 59 computes Maj |
| `Sha1.Accumulate` | gts/sha1.cpp:71 | the sum of the macro is the five-term sum of step 3 of section 6.1.2, whatever the order of its terms |
| `Sha1.Round0` | gts/sha1.cpp:70-71 | with the registers in the roles a to e of round i, changing z and u in place is the textbook round, under rotated roles |
| `Sha1.Round1` | gts/sha1.cpp:73-74 | the same for rounds 16 to 19, which also extend the schedule |
| `Sha1.Round2` | gts/sha1.cpp:76-77 | the same for rounds 20 to 39 |
| `Sha1.Round3` | gts/sha1.cpp:79-80 | the same for rounds 40 to 59 |
| `Sha1.Round4` | gts/sha1.cpp:82-83 | the same for rounds 60 to 79 |
| `Sha1.Rounds00` | gts/sha1.cpp:85-104 | the first twenty macro calls, with the roles as written, are textbook rounds 0 to 19 |
| `Sha1.Rounds20` | gts/sha1.cpp:105-124 | the next twenty are textbook rounds 20 to 39 |
| `Sha1.Rounds40` | gts/sha1.cpp:125-144 | the next twenty are textbook rounds 40 to 59 |
| `Sha1.Rounds60` | gts/sha1.cpp:145-164 | the last twenty are textbook rounds 60 to 79, and every register is back in its first role |
| `Sha1.LoadBlock` | gts/sha1.cpp:63-65 | the sixteen words read from a block are W_0 to W_15 |
| `Sha1.AddTo` | gts/sha1.cpp:173-177 | the state gains the working variables, word by word modulo 2^32 |
| `Sha1.ProcessBlock` | gts/sha1.cpp:50-178 | for every state and block the new state is the textbook compression of section 6.1.2 |
| `Hasher.StandsAfterByte` | gts/sha1.cpp:40-48 | one more byte either extends the pending bytes or closes a block that is hashed once |
| `Hasher.StandsAfterBlock` | gts/sha1.cpp:283-288 | with nothing pending a whole block can be hashed without passing through the buffer |
| `Hasher.OctetOfBigEndian` | gts/sha1.cpp:324-325 | the byte cut out by the shift is the matching byte of the big-endian length field |
| `Hasher.Hasher.constructor` | gts/sha1.cpp:195-205 | a new object stands for the empty message |
| `Hasher.Hasher.AddByte` | gts/sha1.cpp:40-48 | the object stands for what it stood for and one byte more; stale buffer bytes do not matter |
| `Hasher.Hasher.AppendByte` | gts/sha1.cpp:257-272 | the same, and the bit counter counts the byte |
| `Hasher.Hasher.BulkBlock` | gts/sha1.cpp:283-288 | one turn of the bulk loop appends 64 bytes and leaves the buffer alone |
| `Hasher.Hasher.Append` | gts/sha1.cpp:274-299 | appending a buffer of any length, at any fill level, appends exactly its bytes |
| `Hasher.Hasher.FillZeros` | gts/sha1.cpp:322-323 | from every fill level the zero loop ends, having added the number of zeros that the standard asks for |
| `Hasher.Hasher.AddLength` | gts/sha1.cpp:324-325 | the last loop appends the 64-bit big-endian counter |
| `Hasher.Hasher.Finalize` | gts/sha1.cpp:316-327 | the state is the textbook hash of everything appended, what was hashed is the padded message, and the buffer index is 0 |
| `Hasher.ChunkingInvariant` | gts/sha1.cpp:257-299 | two objects that were given the same bytes agree in state, index, counter and pending bytes, however the bytes were cut |
| `Hasher.HashOf` | gts/sha1.cpp:257-327 | for any list of single bytes, strings and buffers, also empty ones, the result is the textbook hash of their concatenation |
| `Unicode.EncodeIsChar` | 3rd_party/filesystem/filesystem.hpp:1442-1469 | the encoding of a scalar value is one character of the RFC 3629 grammar and carries that value |
| `Unicode.CharIsEncode` | 3rd_party/filesystem/filesystem.hpp:1442-1469 | every character of the grammar is the encoding of the scalar value it carries, so encodings are unique |
| `Utf8Codec.CategoryMeaning` | 3rd_party/filesystem/filesystem.hpp:1476-1481 | for all 256 octets the packed table gives the category of an explicit list of ranges |
| `Utf8Codec.TableMeaning` | 3rd_party/filesystem/filesystem.hpp:1474-1484 | for every state and octet the packed transition is the one the octet ranges prescribe |
| `Utf8Codec.Completes` | 3rd_party/filesystem/filesystem.hpp:1474-1484 | the automaton comes back to its start state exactly when an octet completes a character |
| `Utf8Codec.InsideIsViable` | 3rd_party/filesystem/filesystem.hpp:1474-1484 | it is inside a character exactly while some continuation would complete one |
| `Utf8Codec.CharLength` | 3rd_party/filesystem/filesystem.hpp:1474-1484 | a character at the front of a text is its longest viable prefix and one octet, so cutting is unambiguous |
| `Utf8Codec.AcceptsGrammar` | 3rd_party/filesystem/filesystem.hpp:1474-1500 | a run ends in the start state if and only if the text is in the language of section 4 of RFC 3629 |
| `Utf8Decode.ValidUtf8` | 3rd_party/filesystem/filesystem.hpp:1486-1500 | validUtf8 accepts exactly the texts of that grammar |
| `Utf8Decode.CodeOfChar` | 3rd_party/filesystem/filesystem.hpp:1482 | after a whole character the accumulator holds the value of section 3 of RFC 3629 |
| `Utf8Decode.DecodesLossy` | 3rd_party/filesystem/filesystem.hpp:1562-1583 | from any point inside a character the loop emits what the grammar-based decoder prescribes for the whole |
| `Utf8Decode.FromUtf8` | 3rd_party/filesystem/filesystem.hpp:1554-1585 | on arbitrary octets the decoder cuts off the longest viable prefix and one octet, and emits its value or one replacement |
| `Utf8Decode.LossyEmitsScalars` | 3rd_party/filesystem/filesystem.hpp:1554-1585 | on arbitrary octets only scalar values are emitted, and no more of them than octets |
| `Utf8Decode.DecodeOfEncode` | 3rd_party/filesystem/filesystem.hpp:1442-1469 | decoding the encoding of any list of scalar values returns the list, and the encoding is valid |
| `Utf8Decode.EncodeOfDecode` | 3rd_party/filesystem/filesystem.hpp:1554-1585 | encoding what was decoded returns the octets if and only if they were valid UTF-8 |
| `UnicodeExamples.EncodedCharacters` | 3rd_party/filesystem/filesystem.hpp:1442-1469 | the characters of section 7 of RFC 3629 and of section 5 of RFC 2781 have the octets and units listed there |
| `UnicodeExamples.Replaced` | 3rd_party/filesystem/filesystem.hpp:1466-1618 | what cannot be decoded or encoded gives U+FFFD |
| `Utf16Convert.SurrogateTests` | 3rd_party/filesystem/filesystem.hpp:1422-1440 | the wrapping range test and the mask tests are the ranges of RFC 2781, and other units are scalar values |
| `Utf16Convert.PairArithmetic` | 3rd_party/filesystem/filesystem.hpp:1612 | the packed arithmetic on a pair is the number of section 2.2 of RFC 2781, whose encoding is that pair |
| `Utf16Convert.SplitArithmetic` | 3rd_party/filesystem/filesystem.hpp:1527-1531 | the two units pushed for a number above 0xffff are its encoding of section 2.1 of RFC 2781, and join to it again |
| `Utf16Convert.Decode16OfEncode16` | 3rd_party/filesystem/filesystem.hpp:1603-1630 | decoding the UTF-16 form of any list of scalar values returns the list, and the form is well paired |
| `Utf16Convert.Encode16OfDecode16` | 3rd_party/filesystem/filesystem.hpp:1603-1630 | encoding what was decoded returns the units if and only if they were well paired |
| `Utf16Convert.AppendUtf8` | 3rd_party/filesystem/filesystem.hpp:1442-1469 | appends the RFC 3629 form of a scalar value, and that of U+FFFD for any other number |
| `Utf16Convert.ToUtf8` | 3rd_party/filesystem/filesystem.hpp:1632-1640 | encodes the list with every non-scalar replaced and every scalar kept |
| `Utf16Convert.ToUtf8From16` | 3rd_party/filesystem/filesystem.hpp:1603-1630 | encodes pairs as their number, plain units as themselves, and a broken surrogate with its successor as one replacement |
| `Utf16Convert.LosesOnlySurrogates` | 3rd_party/filesystem/filesystem.hpp:1603-1630 | the decoding is that which replaces each unpaired surrogate alone if and only if the units are well paired, perhaps with one surrogate after them |
| `Utf16Convert.FromUtf8To16` | 3rd_party/filesystem/filesystem.hpp:1514-1552 | yields the UTF-16 form of what the 32-bit decoder yields |
| `Utf16Convert.ThroughUtf16` | 3rd_party/filesystem/filesystem.hpp:1514-1630 | UTF-8 to UTF-16 always gives well-paired units, and coming back gives the octets if and only if they were valid |
| `Utf16Convert.ThroughUtf8` | 3rd_party/filesystem/filesystem.hpp:1514-1630 | UTF-16 to UTF-8 always gives valid octets, and coming back gives the units if and only if they were well paired |
| `PosixPath.SqueezeKeepsWords` | 3rd_party/filesystem/filesystem.hpp:1771-1772 | collapsing separators changes none of the names between them, nor the first and last character |
| `PosixPath.PostprocessCollapses` | 3rd_party/filesystem/filesystem.hpp:1766-1773 | every constructed path is collapsed, and a text is kept as it is if and only if it was collapsed |
| `PosixPath.PostprocessKeepsNames` | 3rd_party/filesystem/filesystem.hpp:1766-1773 | a constructed path has the names of its text, and two separators in front if the text begins a network name |
| `PosixPath.NoSepIsKept` | 3rd_party/filesystem/filesystem.hpp:1766-1773 | a single name is kept and has no root |
| `PathIteration.NextIsSuccessor` | 3rd_party/filesystem/filesystem.hpp:3225-3309 | on a collapsed path that is not drive-like ++ goes to the next place where an element begins, skipping none |
| `PathIteration.DecrementIsPredecessor` | 3rd_party/filesystem/filesystem.hpp:3261-3285 | on every collapsed path -- goes to the previous place where an element begins, skipping none |
| `PathIteration.ElementIsName` | 3rd_party/filesystem/filesystem.hpp:3287-3295 | an element that does not begin with a separator is the whole name up to the next separator |
| `PathIteration.ElementIsRoot` | 3rd_party/filesystem/filesystem.hpp:3287-3295 | the other elements are the network name, the root directory, and an empty one for a trailing separator |
| `PathIteration.DecrementUndoesNext` | 3rd_party/filesystem/filesystem.hpp:3297-3323 | -- undoes ++ from every element, over root, network name and trailing separator |
| `PathIteration.NextUndoesDecrement` | 3rd_party/filesystem/filesystem.hpp:3297-3323 | ++ undoes -- from every place but the front |
| `PathIteration.ForwardVisits` | 3rd_party/filesystem/filesystem.hpp:3297-3309 | the forward walk visits every element of the path and nothing else |
| `PathIteration.WalksAgree` | 3rd_party/filesystem/filesystem.hpp:3225-3323 | on a collapsed path the backward walk is the forward walk reversed if and only if the path is not drive-like |
| `PathIteration.PathIterator.constructor` | 3rd_party/filesystem/filesystem.hpp:3213-3223 | an iterator holds the text of the element it stands on |
| `PathIteration.PathIterator.Increase` | 3rd_party/filesystem/filesystem.hpp:3297-3309 | from an element of a collapsed path that is not drive-like the iterator goes to the next place to stand, skipping no element, and holds its text |
| `PathIteration.PathIterator.Decrease` | 3rd_party/filesystem/filesystem.hpp:3318-3323 | from any place behind the front of a collapsed path the iterator goes to the element before it, skipping none, and holds its text |
| `PathIteration.Walk` | 3rd_party/filesystem/filesystem.hpp:3213-3323 | both walks of an iterator end, and the texts collected backwards are those collected forwards, reversed |
| `PathAppend.SamePathMeaning` | 3rd_party/filesystem/filesystem.hpp:2866-2905 | with a left root name at least as long as the right one, comparing equal is being equal |
| `PathAppend.SamePathExact` | 3rd_party/filesystem/filesystem.hpp:2866-2905 | a collapsed left path compares equal to itself and to no other collapsed path if and only if it has no root name, is not empty, and does not begin with a root directory (or begins with two separators and an unprintable character) |
| `PathAppend.ComparesEqualToAnother` | 3rd_party/filesystem/filesystem.hpp:2866-2905 | every other collapsed left path compares equal to a different collapsed path, one with a host name added or a longer one |
| `PathAppend.AppendWhole` | 3rd_party/filesystem/filesystem.hpp:2510-2521 | appending the elements of a relative path one by one, with separators between, appends its text, and one more separator after a drive-like front |
| `PathAppend.QuotientMeaning` | 3rd_party/filesystem/filesystem.hpp:2491-2524 | for every path and operand the element loop of /= has a closed form: the operand, the root name and a separator, or the two texts with at most one separator between |
| `PathAppend.QuotientCollapsed` | 3rd_party/filesystem/filesystem.hpp:2491-2524 | the quotient of collapsed paths is collapsed, although /= does not collapse its result |
| `PathAppend.FilenameOfDivided` | 3rd_party/filesystem/filesystem.hpp:2491-3022 | a single name that a collapsed path is divided by becomes the last element of the quotient if and only if the path is no bare network name and the name is not drive-like |
| `PathAppend.Path.constructor` | 3rd_party/filesystem/filesystem.hpp:1732-1774 | one pass over the text keeps what collapsing prescribes, and the path is collapsed |
| `PathAppend.Path.Divide` | 3rd_party/filesystem/filesystem.hpp:2491-2524 | in every branch the path becomes the closed form of the quotient, and stays collapsed |
| `PathAppend.Recombination` | 3rd_party/filesystem/filesystem.hpp:2491-3022 | for every collapsed path, parent_path() / filename() is the path again if and only if a condition on its last component and last characters holds |
| `PathParts.RenderShape` | 3rd_party/filesystem/filesystem.hpp:2954-3097 | a path written from a host, a root directory, names and a trailing separator is collapsed, and has that root name, root directory and relative part |
| `PathParts.HostMustPrint` | 3rd_party/filesystem/filesystem.hpp:2961 | what begins like a host with a character that does not print is none |
| `PathParts.ElementsAreParts` | 3rd_party/filesystem/filesystem.hpp:3213-3309 | going through such a path gives the host, the root directory, the names in order, and an empty element for a trailing separator |
| `PathParts.LastPart` | 3rd_party/filesystem/filesystem.hpp:2998-3022 | filename is the last name, or empty behind a trailing separator, and parent_path is the path written without it |
| `PathParts.DividedByNames` | 3rd_party/filesystem/filesystem.hpp:2491-2524 | dividing by names appends them, with one separator between, whatever the path is but a bare host |
| `PathParts.DividedByRoot` | 3rd_party/filesystem/filesystem.hpp:2500-2506 | a path with a root directory takes the place of any other; the root directory alone is added to a bare host |
| `PathParts.DividedByHost` | 3rd_party/filesystem/filesystem.hpp:2500-2514 | a bare host takes the place of a path, unless the host of that path begins with it |
| `PathParts.ColonIsSplit` | 3rd_party/filesystem/filesystem.hpp:3250-3252 | a name with a colon after its first character is two elements forwards, and backwards its second half is lost |
| `IniRoundTrip.StripEscape` | 3rd_party/inifile/inicpp.h:423-498 | the two comment passes give back every text that was escaped, whatever mixture of '#', ';' and escape characters it is |
| `IniRoundTrip.FirstPass` | 3rd_party/inifile/inicpp.h:445-449 | the pass for '#' takes the '#' escapes away and leaves the ';' escapes alone |
| `IniRoundTrip.SecondPass` | 3rd_party/inifile/inicpp.h:445-449 | the pass for ';' takes the rest away, and is not misled by what the first pass uncovered |
| `IniRoundTrip.TrimIsTrimmed` | 3rd_party/inifile/inicpp.h:41-56 | trimming leaves no blank at either end, adds nothing and keeps trimmed texts |
| `IniEntries.Spaces` | 3rd_party/inifile/inicpp.h:28-31 | white space is the blank and the controls from tab to carriage return |
| `IniEntries.TrimMeaning` | 3rd_party/inifile/inicpp.h:41-56 | trimming takes white space from both ends, as much as there is, and nothing else |
| `IniEntries.LinesMeaning` | 3rd_party/inifile/inicpp.h:594-596 | the lines that are read, with newlines between them, are the text, and hold no newline |
| `IniRoundTrip.LinesOfUnlines` | 3rd_party/inifile/inicpp.h:594-596 | reading by lines gives the written lines back, and an empty one for the end of the file |
| `IniRoundTrip.SectionStep` | 3rd_party/inifile/inicpp.h:606-634 | reading the line written for a section with a good name opens exactly that section |
| `IniRoundTrip.FieldStep` | 3rd_party/inifile/inicpp.h:635-678 | reading the line written for a good key and value stores exactly that field |
| `IniRoundTrip.GoodFilesSurvive` | 3rd_party/inifile/inicpp.h:586-719 | a file of good names, keys and values is read back as it was written, without an error |
| `IniRoundTrip.DecodedIsGood` | 3rd_party/inifile/inicpp.h:586-680 | whatever text is read, also one that fails half way, what is in the map is good |
| `IniRoundTrip.RoundTrip` | 3rd_party/inifile/inicpp.h:586-719 | a file survives being written and read if and only if it is good |
| `IniRoundTrip.Normalisation` | 3rd_party/inifile/inicpp.h:586-719 | writing and reading what was read from any text changes nothing, with no side condition |
| `IniRoundTrip.FailureIsPrefix` | 3rd_party/inifile/inicpp.h:610-666 | when reading fails the map is what the lines before the failing one give |
| `IniRoundTrip.ErrorNamesLine` | 3rd_party/inifile/inicpp.h:610-666 | the error carries the failing line's number, and each of the four kinds of error has its exact cause in the stripped line |
| `IniEntries.StepMeaning` | 3rd_party/inifile/inicpp.h:602-678 | a header that goes through opens the section it names and changes no entry, a field line changes exactly the entry of its key in the current section, any other line nothing |
| `IniEntries.DecodedEntries` | 3rd_party/inifile/inicpp.h:586-680 | for every text, up to the line that fails: a section is there if and only if one of the lines is its header, and an entry has a value if and only if the last line that gives its key a value under a header of its section gives that one |
| `IniText.LessMeaning` | 3rd_party/inifile/inicpp.h:411-415 | the order of keys is that of dictionaries |
| `IniText.SortedKeysAscend` | 3rd_party/inifile/inicpp.h:703-711 | the keys are written in strictly ascending order |
| `IniExamples.WrittenForms` | 3rd_party/inifile/inicpp.h:700-719 | a section is written in square brackets, a field with an equals sign, a comment sign behind a backslash |
| `IniExamples.ReadForms` | 3rd_party/inifile/inicpp.h:423-449 | what follows a number sign or a semicolon is dropped, unless a backslash stands before the sign, which then goes |
| `IniFile.EraseComment` | 3rd_party/inifile/inicpp.h:423-443 | the recursion over found prefixes, from any position, strips to the first prefix that is not escaped |
| `IniFile.EraseComments` | 3rd_party/inifile/inicpp.h:445-449 | one pass for '#' and then one for ';' |
| `IniFile.WriteEscaped` | 3rd_party/inifile/inicpp.h:453-498 | the text is written with an escape before every comment prefix |
| `IniFile.IniFile.DecodeLine` | 3rd_party/inifile/inicpp.h:602-678 | one clean line opens a section, stores a field, does nothing, or fails without changing the map |
| `IniFile.IniFile.Decode` | 3rd_party/inifile/inicpp.h:586-680 | the loop over a stream gives the map and the error that the line semantics prescribes, and the map is good |
| `IniFile.EncodeField` | 3rd_party/inifile/inicpp.h:713-716 | one field is written as its line |
| `IniFile.EncodeSection` | 3rd_party/inifile/inicpp.h:705-717 | one section is written as its line and the lines of its fields in ascending key order |
| `IniFile.IniFile.Encode` | 3rd_party/inifile/inicpp.h:700-719 | the text is that of all sections in ascending order |
| `Numbers.NatTextDigits` | 3rd_party/inifile/inicpp.h:207-212 | decimal text consists of digits and denotes the number |
| `Numbers.NatTextInjective` | gts/args_parser.cpp:98-100 | different rule numbers have different texts |
| `Settings.IntTextParses` | 3rd_party/inifile/inicpp.h:62-213 | every 32-bit number is read back from its decimal text, through strtol and the narrowing cast |
| `Settings.DecimalParses` | 3rd_party/inifile/inicpp.h:66-68 | the decimal attempt takes the whole text of such a number and does not clamp it |
| `Settings.OctalNeverHelps` | 3rd_party/inifile/inicpp.h:69-72 | a text that the octal attempt accepts was already accepted as decimal |
| `SettingsNumbers.StrtolOfNumeral` | 3rd_party/inifile/inicpp.h:66-76 | white space, a sign or none, in base 16 perhaps 0x, and digits: the value is that of the digits, limited to a 64-bit long |
| `SettingsNumbers.NumeralOfStrtol` | 3rd_party/inifile/inicpp.h:66-76 | a text that is taken whole has that form |
| `SettingsNumbers.NumberTexts` | 3rd_party/inifile/inicpp.h:62-79 | a text is a number if and only if it is empty, a decimal numeral or a hexadecimal one, tried in this order; the empty text is 0 |
| `SettingsNumbers.NumberEndsAtZero` | 3rd_party/inifile/inicpp.h:66 | what stands behind a zero character is not read |
| `SettingsNumbers.Digits` | 3rd_party/inifile/inicpp.h:66-74 | the digits of the three bases and their values |
| `SettingsNumbers.CastIntMeaning` | 3rd_party/inifile/inicpp.h:204 | the narrowing cast gives the 32-bit number that agrees in the lower 32 bits |
| `SettingsNumbers.ReadMeaning` | gts/detail/settings.h:34-49 | reading an int gives the number of the entry, and the default if there is no entry or its text is no number |
| `SettingsNumbers.TextsReadBack` | gts/settings.cpp:123-133 | what a sample value writes is read back as that value, for int, enumeration, bool and both strings; other types are not written |
| `Settings.WrittenIsGood` | gts/detail/settings.h:85-90 | writing a good key and value keeps the file in the round-trip domain |
| `Settings.Settings.constructor` | gts/settings.cpp:34-39 | a new object holds what the text says, and what is thrown for a text that does not parse is recorded |
| `Settings.Settings.Write` | gts/detail/settings.h:85-90 | the entry has the new text, every other entry of every section is as before, and no section appears or goes but the one written to |
| `Settings.Settings.Flush` | gts/settings.cpp:72-77 | the stored text becomes the printed map |
| `Settings.Settings.Reload` | gts/settings.cpp:66-70 | the map becomes what the stored text says |
| `Settings.Settings.StoreInt` | gts/settings.cpp:66-77 | write, flush, reload and read of any 32-bit number return it, without an error and with no other entry changed |
| `Settings.MergeExisting` | gts/settings.cpp:102-113 | the copy counts one more entry for each sample key that the section has |
| `Settings.DropRepeated` | gts/settings.cpp:114-118 | what is left are the sample entries whose key the section lacks and the sample gives once |
| `Settings.FilledIsCompleted` | gts/settings.cpp:120-135 | writing what is left completes the section: existing entries stay, and exactly the missing supported keys come in |
| `Settings.Settings.IniFileCheck` | gts/settings.cpp:90-138 | existing entries and other sections are unchanged, exactly the missing keys that the sample gives once with a supported type are added, and the file is written exactly when there were any |
| `LogQueue.StepKeepsLock` | gts/log.cpp:272-350 | every step of every thread keeps the mutex with whoever stands between taking and releasing it, but for one: the release by the lock guard of a worker that stopped while it waited, when the mutex is not free |
| `LogQueue.StepKeepsFlow` | gts/log.cpp:278-349 | every step keeps: emitted, in hand, drain list and queue together are the messages pushed, in order |
| `LogQueue.StepKeepsStop` | gts/log.cpp:276-349 | every step keeps: the worker swaps the queue out only after the flag, and takes all that is there |
| `LogQueue.StepKeepsOrder` | gts/log.cpp:330-339 | every step keeps the numbering of each producer's messages |
| `LogQueue.StepKeepsIdle` | gts/log.cpp:279-287 | every step keeps: what was pushed when the wait flag was last lowered has been emitted, and until it is raised nothing more is, unless the worker is stopping |
| `LogQueue.ReachableInvariant` | gts/log.cpp:272-350 | in every state that any schedule reaches, with spurious wake-ups, the message, stop, order and idle invariants hold, and the lock invariant until that release |
| `LogQueue.MutualExclusion` | gts/log.cpp:278-346 | until that release no producer is in its critical section together with another producer or the worker |
| `LogQueue.ExclusionAfterRelease` | gts/log.cpp:285-286 | when the guard is about to release, exclusion holds in everything that can follow if and only if the mutex is free |
| `LogQueue.ExclusionCanFail` | gts/log.cpp:278-346 | a schedule that reaches a state with two producers in their critical sections |
| `LogQueue.Conservation` | gts/log.cpp:289-349 | no interleaving loses, repeats or reorders a message |
| `LogQueue.DoneEmitsAll` | gts/log.cpp:295-349 | a finished worker has emitted exactly what was pushed before its last swap, in order, and so everything pushed before the stop flag |
| `LogQueue.EmittedInOrder` | gts/log.cpp:289-349 | no message is emitted twice, and each producer's messages are emitted in the order of its calls |
| `LogQueue.EmittedWithPredecessors` | gts/log.cpp:289-349 | a message is emitted only after all earlier messages of its producer |
| `LogQueue.NothingAfterDone` | gts/log.cpp:342-350 | once the worker is done no schedule emits anything more |
| `LogQueue.LateMessageIsLost` | gts/log.cpp:342-350 | a schedule in which a message pushed after the last swap is never emitted |
| `LogQueue.WaitGuarantee` | gts/log.cpp:256-288 | in every reachable state everything pushed before the wait flag was last lowered has been emitted; while it is down after that and the worker is not stopping, nothing else has, so nothing is outstanding if and only if nothing was pushed since |
| `LogQueue.LoweredSince` | gts/log.cpp:256-288 | when the worker lowers the flag at any time after a state, as it may while a thread waits, everything pushed by that state is emitted from then on |
| `LogQueue.WaitMayReturnEarly` | gts/log.cpp:256-288 | both limits of that guarantee are reached: the flag is down with a message queued before the worker has first lowered it, and again after it has |
| `LogProgress.WorkerCanStep` | gts/log.cpp:272-297 | while no producer holds the mutex the worker always has a step to take, until it is done |
| `LogProgress.CanDeliver` | gts/log.cpp:276-293 | from every reachable state without a stop, everything pushed so far can still be emitted without one |
| `LogProgress.CanProduce` | gts/log.cpp:276-338 | from every reachable state without a stop, every thread can still have its next message emitted |
| `LogProgress.CanFinish` | gts/log.cpp:276-350 | from every reachable state before the last swap, the worker can still be stopped and finish with everything pushed so far emitted |
| `StringAlgorithms.StrSplit` | gts/algorithm.cpp:116-136 | the loop gives the pieces between the separators that a left-to-right scan meets, with or without the empty ones |
| `StringAlgorithms.StrListJoin` | gts/algorithm.cpp:138-150 | the items with the separator between neighbours |
| `StringAlgorithms.StrReplace` | gts/algorithm.cpp:208-219 | every occurrence of the left-to-right scan is replaced, the loop ends also when the new text contains the old one, and the returned number is 0, which is the number of replacements if and only if there is nothing to replace |
| `StringAlgorithms.OverlapIsBorder` | gts/algorithm.cpp:122-123 | a separator found across the end of the text shows a border of the separator |
| `StringAlgorithms.ScanAppended` | gts/algorithm.cpp:122-134 | without a border, scanning the text with a separator appended finds the separators of the text and then the appended one |
| `StringAlgorithms.JoinIsReplace` | gts/algorithm.cpp:116-219 | without a border, joining the pieces with another text is replacing the separator by it |
| `StringAlgorithms.ReplaceBySame` | gts/algorithm.cpp:208-219 | replacing a text by itself changes nothing |
| `StringAlgorithms.BorderLoses` | gts/algorithm.cpp:116-150 | every border gives a text that splitting and joining does not give back |
| `StringAlgorithms.SplitJoin` | gts/algorithm.cpp:116-150 | joining what was split gives the text back, for all texts, if and only if the separator has no border |
| `StringAlgorithms.ReplaceIsSplitJoin` | gts/algorithm.cpp:116-219 | replacing is splitting and joining, for all texts, if and only if what is replaced has no border |
| `StringAlgorithms.SplitIgnoring` | gts/algorithm.cpp:116-136 | splitting without the empty pieces is splitting and leaving them out |
| `StringAlgorithms.NonEmptyMeaning` | gts/algorithm.cpp:129 | exactly the empty texts are left out |
| `StringAlgorithms.SplitOfJoin` | gts/algorithm.cpp:116-150 | for a separator of one character, splitting a join of items without it gives the items back, all of them or the non-empty ones; only the list of one empty item is lost |
| `StringAlgorithms.StrTrimmed` | gts/algorithm.cpp:221-250 | the two loops take the blanks from both ends |
| `StringAlgorithms.TrimBlanksMeaning` | gts/algorithm.cpp:221-250 | only blanks are taken, only from the ends, and none is left there |
| `StringAlgorithms.Blanks` | gts/algorithm.cpp:228-239 | blanks are the characters up to the space, but the zero |
| `PercentEncoding.FromPercentEncoding` | gts/algorithm.cpp:268-322 | writing into the buffer that is being read gives what decoding the original text gives |
| `PercentEncoding.TripletDecodes` | gts/algorithm.cpp:287-311 | every triplet of section 2.1 of RFC 3986, with digits of either case, is decoded to its octet |
| `PercentEncoding.DecodeOfEncoding` | gts/algorithm.cpp:268-322 | decoding inverts every percent-encoding that escapes '%', whatever else it escapes |
| `PercentEncoding.EncodeEncodes` | gts/algorithm.cpp:268-322 | such an encoding exists for every text and every choice of octets to leave alone |
| `PercentEncoding.MalformedDecodes` | gts/algorithm.cpp:292-310 | what is no hexadecimal digit goes into the octet as it is |
| `PercentEncoding.DecodeExample` | gts/algorithm.cpp:284-317 | a percent sign with fewer than two characters behind it stays |
| `ArgsParser.RegisterMeaning` | gts/args_parser.cpp:96-117 | a name is registered exactly when it was before or an acceptable piece of the rule text spells it, and the first registration stays |
| `ArgsParser.NamesOfRule` | gts/args_parser.cpp:102 | the names of a rule text are what stands between its commas, empty texts aside |
| `ArgsParser.AcceptableMeaning` | gts/args_parser.cpp:83-114 | the names that can be registered, by the codes of their characters |
| `ArgsParser.LatinLetters` | gts/args_parser.cpp:352 | the letters of a cluster, by their codes |
| `ArgsParser.HelpLines` | gts/args_parser.cpp:116 | what a rule adds to the help |
| `ArgsParser.RegisterKeepsNumbers` | gts/args_parser.cpp:98-116 | every rule number in use stays below the running number |
| `ArgsParser.NewNumberIsFresh` | gts/args_parser.cpp:98-100 | a new rule shares its cache entry with no earlier name of a map |
| `ArgsParser.RegistryMeaning` | gts/args_parser.cpp:96-117 | after any calls a name means the first call of its kind whose rule text spells it, by that call's number and identification |
| `ArgsParser.OwnerIsFirst` | gts/args_parser.cpp:102-115 | that call spells the name, and no earlier call of its kind does |
| `ArgsParser.SameNumberSameCall` | gts/args_parser.cpp:98-100 | two names, of either kind, share a rule number if and only if one call registered both |
| `ArgsParser.ArgsParser.StaysValid` | gts/args_parser.cpp:98-100 | numbers that other parsers take from the shared counter leave a parser as it was |
| `ArgsParser.ArgsParser.constructor` | gts/args_parser.cpp:77-81 | a new parser has no rules |
| `ArgsParser.ArgsParser.CheckName` | gts/args_parser.cpp:83-94 | accepts a text whose characters, the first and last aside, are printable and neither '=' nor a backslash |
| `ArgsParser.ArgsParser.Add` | gts/args_parser.cpp:96-117 | the loop over the pieces registers what the registration function prescribes |
| `ArgsParser.ArgsParser.AddGroup` | gts/args_parser.cpp:96-117 | a group rule is recorded as a call under the next number, which no name of the parser had, its names are registered, and the flags are untouched |
| `ArgsParser.ArgsParser.AddFlag` | gts/args_parser.cpp:96-117 | the same for a flag rule, and the groups are untouched |
| `ArgsParser.ArgsParser.LettersLoop` | gts/args_parser.cpp:364-379 | the loop over the letters of a cluster applies their effects in order and stops at a repetition |
| `ArgsParser.ArgsParser.Parsing` | gts/args_parser.cpp:228-407 | the loop over the arguments has the outcome that the token semantics prescribes |
| `ArgsMeaning.ParseItem` | gts/args_parser.cpp:233-405 | in any state and before any other tokens, a well-formed item does exactly what its effects say |
| `ArgsMeaning.ParseItems` | gts/args_parser.cpp:233-405 | the same for any list of items in any order |
| `ArgsMeaning.ApplyAllMeaning` | gts/args_parser.cpp:219-226 | effects go through if and only if no cache entry is claimed twice or was taken |
| `ArgsMeaning.CommandLine` | gts/args_parser.cpp:228-407 | a command line is accepted if and only if its claims are distinct, and then gives its assignments and the positionals in order |
| `ArgsMeaning.AssignmentsExact` | gts/args_parser.cpp:307-316 | with distinct identifications the map holds each assignment that was made and no other |
| `ArgsMeaning.ResultIsAssignment` | gts/args_parser.cpp:228-407 | with distinct cache claims and identifications the result of a whole command line is, entry by entry, the assignments it makes |
| `ArgsMeaning.MissingValue` | gts/args_parser.cpp:297-306 | after any accepted items, a group option at the end or before a registered name ends the run as invalid |
| `ArgsMeaning.KeptOnce` | gts/args_parser.cpp:319-404 | as the only token of a line, an unregistered token that assigns no value is kept, once and with nothing else, if and only if it is short, has an equals sign, or is not a '-' with letters |
| `ArgsMeaning.KeptExactly` | gts/args_parser.cpp:319-404 | for registered rules, in every state in which it was not kept before, and before any other tokens: an unregistered token that assigns and asks for no value has the result of being kept if and only if it is such a token |
| `ArgsMeaning.TokenWithValue` | gts/args_parser.cpp:389-403 | in every state a token of letters whose last one is a group option takes the next token as its value after the other letters have taken effect |
| `ArgsMeaning.KeptInAppearance` | gts/args_parser.cpp:319-404 | the outcome of a line can look as if a token of letters had been kept, when its identification was assigned before |
| `ArgsMeaning.UnknownLetters` | gts/args_parser.cpp:364-404 | in any state a token of unregistered letters is kept twice when it has two, and rejected when it has more |
| `ArgsMeaning.SameEffects` | gts/args_parser.cpp:233-405 | items with the same effects can stand for each other in any state, before any other tokens |
| `ArgsMeaning.SpellingsAgree` | gts/args_parser.h:57-59 | "-f file" and "--file=file" have the same outcome in any state |
| `ArgsMeaning.ArgcIrrelevant` | gts/args_parser.cpp:241-296 | the argument count matters only below three |
| `ArgsMeaning.Clustering` | gts/args_parser.h:61-63 | "-abc" has the same outcome, accepted or not, as "-a -b -c", in any state and before any other tokens |
| `ArgsMeaning.ClusteringWithValue` | gts/args_parser.cpp:380-403 | "-abf file" has the same outcome as "-a -b -f file" |
| `ArgsRun.DistinctKeysMeaning` | gts/args_parser.cpp:219-226 | the cache claims of a line are distinct if and only if its rule numbers are, its positionals are, and no positional spells one of the numbers |
| `ArgsRun.NumbersDistinct` | gts/args_parser.cpp:98-100 | the rule numbers of a line are distinct if and only if the calls that registered its names are |
| `ArgsRun.FirstWinsMeaning` | gts/args_parser.cpp:307-316 | an identification has the value that is first recorded for it |
| `ArgsRun.EndToEnd` | gts/args_parser.cpp:96-407 | for rules registered by any calls, a line of well-formed items is accepted if and only if no two use the same rule, no positional is repeated and none spells the number of a rule in use; then it gives what the items write and the positionals in order |
| `ArgsRun.NumbersCollide` | gts/args_parser.cpp:219-324 | with distinct rules and distinct positionals a line is rejected if and only if a positional spells the number of a rule it uses |
| `ArgsRun.Accepted` | gts/args_parser.cpp:96-407 | after any calls on a parser, items of distinct rules and identifications, with distinct positionals none of which spells a number given out so far, are accepted with exactly their assignment |
| `ArgsRun.Run` | gts/args_parser.cpp:96-407 | building a parser from any list of rules and parsing any line of well-formed items has exactly that outcome |
| `ArgsRun.Build` | gts/args_parser.cpp:96-117 | after any list of calls a parser has exactly the rules they register, under consecutive numbers |
| `ArgsRun.DashesAreInvalid` | gts/args_parser.cpp:236-240 | after any accepted items a single dash or two end the line as invalid, whatever follows |
| `ArgsRun.VersionAnswer` | gts/args_parser.cpp:241-257 | "--version" alone prints the long version, else the short one, else is invalid; with other tokens on any side it is rejected |
| `ArgsRun.HelpAnswer` | gts/args_parser.cpp:270-284 | "--help" alone prints the help if there is any and else is invalid; with other tokens it is rejected |
| `ArgsRun.ShortAnswer` | gts/args_parser.cpp:258-296 | "-v" and "-h" print when enabled and alone, are rejected when enabled in company, and are kept as positionals when neither enabled nor registered |
| `ArgsRun.Ask` | gts/args_parser.cpp:241-284 | a parser built from rules prints its help when there is a rule, and has no version |

## Left out

- SHA-1: the text forms `hex` and `base64`, copy assignment (it copies five bytes of the state), moved-from
  objects and null buffers.
- Unicode: builds that raise errors instead of replacing, and the conversions between single-byte strings.
- Paths: the Windows branches, `lexically_normal`, `p /= p` on one object; `isprint` is that of the C locale.
- `Path.Divide`: takes the operand's text, so a path divided by itself while it changes is not covered.
- INI: multi-line values (off by default), other separators, prefixes and escape characters, case-insensitive
  maps, and conversions other than those of int, bool and string.
- Settings: the file is one text, so removing it, failing to open it and `delete_on_flush` are not covered;
  nor is `read` for types other than int and bool.
- Settings.StrToLong: strtol is modelled for the C locale with a 64-bit long.
- Command line: exits and printing are outcomes; `gts::value` is its text; the setters of title, version and
  help are plain assignments and left out. The counter of rule numbers does not wrap around.
- Log queue: what is printed, and when a thread gets to run: no statement about liveness of `wait` or of the
  destructor. Releasing a mutex that the thread does not hold is undefined in C++; here it frees the mutex. What two
  producers in their critical sections at once do to the list is not covered: a push is one step. `reload` is
  left out.
- LogQueue.WaitGuarantee: is about the flag that `wait` tests, not about its timeout.
- StringAlgorithms.StrSplit: an empty separator with a non-empty text is excluded because the loop does not end;
  the step is an unbounded integer.
- StringAlgorithms.StrReplace: an empty text to replace is excluded for the same reason.
- The rest of the library: sockets, SSL, asio and coroutine glue, file and directory calls, formatting, plugins,
  the DBI interfaces, uuid, mime types, the reader-writer mutex, byte swapping, cookies and flags.
