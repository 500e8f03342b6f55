# Local IPv6 prefixes, OUI registry CSV and grouped passcodes in Dafny

The repository is a small set of network-administration scripts. This project
models their three computational cores and proves what each promises.

- **createLULA.py** builds a "Locally Assigned Global ID": a local IPv6 /48
  prefix as described in section 3.2.2 of RFC 4193. The script packs the time
  of day as two big-endian 32-bit fields. It turns the MAC text of an interface
  into an EUI-64 identifier by inserting `ff fe` after the third octet, and
  hashes the 16-octet key with SHA-1. The result is `FD`, the last five digest
  octets, and ten zero octets. `calc_multiple_LAGIDs` repeats this `num` times.
  Module `CreateLula` (create_lula.dfy).
- **make-oui-csv.py** reads the IEEE `oui.txt` registry. `OUI_REGEX`
  recognises the `XX-XX-XX   (hex)   Vendor` lines. `process` builds a
  dictionary from OUI to vendor; a repeated OUI gets a warning and either
  replaces the vendor or has it appended after a duplicate delimiter. The
  dictionary is then written as CSV rows, with `-` in each OUI replaced by the
  chosen delimiter. Module `MakeOuiCsv` (make_oui_csv.dfy).
- **genpasscode.py** makes a passcode of `group_count` groups of `group_size`
  characters drawn from an alphabet, joined by a delimiter. Module
  `GenPasscode` (genpasscode.dfy).

Supporting modules:
- `Strings` (strings.dfy) defines Python's `str.join`, `str.split` with a
  non-empty separator and `str.replace` with a one-character pattern, plus
  lemmas about them.
- `Bytes` (bytes.dfy) holds octets and big-endian encoding.
- `Results` (results.dfy) holds `Option` and `Result`.

How the inputs are modelled:
- Every Python exception on the modelled paths is an error value:
  - `struct.error`, the `ValueError` of `int(x, 16)`, and the `ValueError` or
    `OverflowError` of `chr` → `LulaError`;
  - the failed `assert len(eui64) * 8 == 64` → `LulaError`;
  - the `IndexError` of `random.choice('')` → `PasscodeError`.
- The clock reading is a `TimeOfDay`: the whole Unix seconds (an integer),
  plus the nine digits that `'%.9f'` prints after the point, read as an
  integer.
- The MAC text is a parameter.
- SHA-1 is a parameter `sha1: seq<byte> -> Digest` whose results are 20
  octets.
- `random.choice` is replaced by a sequence of indices into the alphabet.
- `calc_multiple_LAGIDs` takes one clock reading per iteration.
- The input lines of `process` are a `seq<string>`.
- Its output is the row pairs plus the list of warning texts that would go
  to stderr.

The docstring of createLULA.py (lines 8-11) cites the NTP time format and the
EUI-64 construction of the IPv6 addressing architecture. The code departs from
both, and the model follows the code:
- The timestamp's second field is the nine digits that `'%.9f'` prints after
  the point, taken as an integer (createLULA.py:50-52). The 64-bit NTP format
  of section 6 of RFC 5905 instead holds the fraction of a second scaled to
  2^32.
- The identifier is the MAC with `FF FE` inserted and no bit changed
  (createLULA.py:66-67). The modified EUI-64 of Appendix A of RFC 4291 also
  inverts the universal/local bit.

Two further points state what the code does:
- `_get_EUI64` inserts `ff fe` after the third part and converts every part,
  however many the MAC text has. An identifier that is not 64 bits long is
  rejected only by the assertion in `calc_LAGID` (createLULA.py:79), as
  `LengthAssertion`.
- The model follows the `struct` module of Python 2.7 and later. There,
  `struct.pack('>LL', ...)` raises for a field outside 0 to 2^32 - 1 instead
  of truncating it. This is `StructError`.

## Model

| member | source | states |
|---|---|---|
| CreateLula.Time1970IsSeventyYears | createLULA.py:38 | TIME1970 is the number of seconds in the 70 years from 1900 to 1970, 17 of them leap years |
| CreateLula.PackLL | createLULA.py:52 | `'>LL'` packing succeeds exactly when both fields are unsigned 32-bit; it then gives 8 octets whose big-endian halves are the two fields |
| CreateLula.UnpackLL | createLULA.py:52 | both big-endian 32-bit halves of an 8-octet record are below 2^32 |
| CreateLula.PackUnpackLL | createLULA.py:52 | every 8-octet record is the packing of its own two fields (the inverse direction of PackLL) |
| Bytes.FromToBigEndian | createLULA.py:52 | reading back a big-endian encoding of a value that fits the width gives the value |
| Bytes.ToFromBigEndian | createLULA.py:52 | encoding the value of an octet string at its own width gives the string back |
| Bytes.ToBigEndian | createLULA.py:52 | the encoding of a field at width n is n octets; FromToBigEndian and ToFromBigEndian make it the inverse of FromBigEndian |
| Bytes.FromBigEndian | createLULA.py:52 | the value read from n octets is below 256^n |
| CreateLula.NtpTimestamp | createLULA.py:40-53 | the timestamp exists exactly when seconds + TIME1970 fits 32 bits; it is 8 octets that unpack to (seconds + TIME1970, fraction); the fraction always fits because it is below 10^9 |
| CreateLula.NtpTimestampInjective | createLULA.py:45-52 | distinct clock readings give distinct timestamps |
| CreateLula.HexValue | createLULA.py:67 | the value `int(x, 16)` gives a string of hex digits; HexOctetText shows it inverts the two-digit text of an octet |
| CreateLula.ParseOctet | createLULA.py:67 | `chr(int(x, 16))` for one part: not hex text gives NotHex, a value of 256 or more gives ChrOutOfRange; ParseOctetsSpec states it for a whole list of parts |
| CreateLula.ParseOctets | createLULA.py:67-68 | the `map` of `chr(int(x, 16))` followed by `''.join`, kept as an octet sequence: a successful conversion gives one octet per part |
| CreateLula.ParseOctetsSpec | createLULA.py:67 | the conversion succeeds exactly when every part is a hexadecimal number below 256, and then octet i is the value of part i |
| CreateLula.ParseOctetsAppend | createLULA.py:67 | converting two runs of parts together succeeds exactly when both succeed, and gives the two octet runs concatenated |
| CreateLula.InsertAfterThird | createLULA.py:66 | the slice assignment `xs[3:3] = ins` lengthens the list by the inserted items |
| CreateLula.ParseFffe | createLULA.py:66-67 | the inserted texts "ff" and "fe" convert to the octets FF and FE |
| CreateLula.ParseInsertFffe | createLULA.py:66-67 | inserting the texts of FF FE and then converting equals converting and then inserting FF FE, success included |
| CreateLula.Eui64FromMac | createLULA.py:55-68 | the identifier exists exactly when every ':'-separated part is a hexadecimal octet; it is then those octets with FF FE inserted after the third, two octets longer than the parts |
| CreateLula.HexOctetText | createLULA.py:67 | the two lower-case hex digits that show an octet convert back to that octet |
| CreateLula.ParseOctetTexts | createLULA.py:67 | the texts of six octets convert back to exactly those six octets |
| CreateLula.Eui64OfOctetTexts | createLULA.py:64-68 | for any six octet texts joined by ':', the identifier is octets 0-2, FF, FE, octets 3-5 |
| CreateLula.Eui64OfMac48 | createLULA.py:64-68 | for every MAC-48 written as `ip` shows it, the identifier is the MAC with FF FE after the third octet, every other bit (the U/L bit included) unchanged |
| CreateLula.Eui64Example | createLULA.py:64-68 | 00:11:22:33:44:55 gives 00 11 22 FF FE 33 44 55 |
| CreateLula.LagidKey | createLULA.py:77-81 | the key exists exactly when the timestamp and the identifier do and the MAC has six parts; a timestamp error wins; the key is 16 octets, timestamp first and identifier after |
| CreateLula.LagidKeyInjective | createLULA.py:81 | equal keys come from equal clock readings and equal identifiers |
| CreateLula.GlobalId | createLULA.py:85 | the Global ID is 5 octets: digest octets 15 to 19 in digest order |
| CreateLula.LocalPrefix | createLULA.py:88-89 | the prefix is 16 octets: FD, the Global ID in octets 1-5, zeros in octets 6-15 |
| CreateLula.LocalPrefixOfGlobalId | createLULA.py:88-89 | every 16-octet value of that shape is the prefix of the Global ID it carries (the inverse direction of LocalPrefix) |
| CreateLula.CalcLagid | createLULA.py:71-90 | the prefix exists exactly when the seconds fit 32 bits and the MAC text is six hexadecimal octets; it then has the prefix shape and carries the last five octets of the key's digest |
| CreateLula.CalcLagidDeterministic | createLULA.py:71-90 | with time, MAC and hash fixed, the prefix is a function of the key |
| CreateLula.CalcMultipleLagids | createLULA.py:93-108 | without an error, exactly `num` prefixes, prefix i being `calc_LAGID` of clock reading i and of the prefix shape; after an error, fewer than `num`, and the error is that of the next reading |
| MakeOuiCsv.SpaceRunIsMaximal | make-oui-csv.py:10 | the greedy `\s` run is all whitespace and stops at the first other character or at the end |
| MakeOuiCsv.TextRunIsMaximal | make-oui-csv.py:10 | the greedy `[^\r\n]` run holds no CR or LF and stops at the first one or at the end |
| MakeOuiCsv.Backtrack | make-oui-csv.py:10 | the second `\s+` keeps at most its greedy run, and what it keeps is followed by a character other than CR or LF |
| MakeOuiCsv.BacktrackIsLongest | make-oui-csv.py:10 | no longer count of that run leaves such a character after it, so the engine's choice is the longest |
| MakeOuiCsv.MatchLine | make-oui-csv.py:10 | a match's OUI is the first 8 characters of the line in XX-XX-XX upper-case hex form, and its vendor is not empty |
| MakeOuiCsv.MatchLineSound | make-oui-csv.py:10 | every matched line is its OUI, whitespace, "(hex)", whitespace and its vendor, and the vendor runs up to the first CR or LF or to the end |
| MakeOuiCsv.MatchLineComplete | make-oui-csv.py:10 | every line of that shape is matched, with that OUI |
| MakeOuiCsv.MatchLineOrdinary | make-oui-csv.py:10 | for a vendor that starts with a character other than whitespace and ends at a CR, an LF or the end, the match is exactly that OUI and that vendor |
| MakeOuiCsv.BlankVendorBacktracks | make-oui-csv.py:10 | the line "00-00-00 (hex)", two spaces and LF matches with a vendor of one space, because `\s+` gives a space back |
| MakeOuiCsv.BlankVendorMatched | make-oui-csv.py:10 | a line with only whitespace after "(hex)" still matches when a character other than CR or LF follows the first of that whitespace; the vendor is then the last such character alone |
| MakeOuiCsv.BlankVendorRejected | make-oui-csv.py:10 | a line in which every character after the first one following "(hex)" is CR or LF is not matched: the second `\s+` cannot keep a character and still leave one for the vendor |
| MakeOuiCsv.BlankVendorSkipped | make-oui-csv.py:10 | the line "00-00-00 (hex)", one space and LF is not matched |
| MakeOuiCsv.IsSpace | make-oui-csv.py:10 | the characters `\s` matches in a Python 3 pattern over `str`; SpaceRunIsMaximal and Backtrack are stated with it |
| MakeOuiCsv.BuildValid | make-oui-csv.py:15-29 | the dictionary stays well formed: its insertion-order keys are distinct and are exactly its keys, and every key is an OUI text |
| MakeOuiCsv.Build | make-oui-csv.py:15-29 | the dictionary after the loop has read the lines; BuildValid, KeyListed, VendorOfOui, FirstAppearanceOrder, WarningPerRepeat and WarningsOfBuild state what it holds |
| MakeOuiCsv.Absorb | make-oui-csv.py:18-29 | one loop pass: a rejected line changes nothing, an accepted one is entered (RejectedLinesIgnored, MatchesStep) |
| MakeOuiCsv.Enter | make-oui-csv.py:20-29 | one match: a new OUI is added at the end of the key order, a repeated one keeps its place, gets a warning and its vendor replaced or concatenated (EnterKeepsListings) |
| MakeOuiCsv.DuplicateWarning | make-oui-csv.py:9 | the warning `process` writes at lines 23-25 names the OUI, then the new vendor (`{2}`), then the previous one (`{1}`) |
| MakeOuiCsv.Concatenates | make-oui-csv.py:27 | the truth test of `duplicate_delimiter`: neither None nor the empty string |
| MakeOuiCsv.Rows | make-oui-csv.py:32-33 | row i is the i-th key with '-' replaced by the delimiter, paired with that key's vendor |
| MakeOuiCsv.CsvRows | make-oui-csv.py:31-33 | one row per key of the dictionary |
| MakeOuiCsv.Process | make-oui-csv.py:12-33 | the two loops of `process` give exactly the rows of the dictionary that the line-by-line definition builds, and exactly the warnings that the matches call for (Warnings) |
| MakeOuiCsv.WriteRows | make-oui-csv.py:31-33 | the loop over the dictionary's items writes exactly its rows, in key order |
| MakeOuiCsv.RejectedLinesIgnored | make-oui-csv.py:17-19 | lines that OUI_REGEX rejects leave the dictionary and the warnings unchanged |
| MakeOuiCsv.MatchesStep | make-oui-csv.py:17-21 | a rejected last line adds no match; an accepted one adds its OUI and its vendor listing |
| MakeOuiCsv.KeyListed | make-oui-csv.py:15-29 | an OUI is a key exactly when some accepted line listed it, and exactly when it is in the key order |
| MakeOuiCsv.EnterKeepsListings | make-oui-csv.py:22-29 | one match updates the vendor kept for each OUI as the last-wins or concatenate rule requires |
| MakeOuiCsv.VendorOfOui | make-oui-csv.py:22-29 | an OUI has an entry exactly when it was listed; the entry is the vendor of its last listing, or, with a non-empty duplicate delimiter, all its listings in order joined by that delimiter |
| MakeOuiCsv.Kept | make-oui-csv.py:27-29 | the vendor text kept for an OUI's listings: the last, or all of them joined by a non-empty duplicate delimiter; VendorOfOui proves the dictionary holds it |
| MakeOuiCsv.IndexOf | make-oui-csv.py:29 | the position found holds the value and no earlier position does |
| MakeOuiCsv.IndexOfAppend | make-oui-csv.py:29 | appending keeps the first occurrence of a value already present, and puts a new value at the end |
| MakeOuiCsv.FirstListedAppend | make-oui-csv.py:29 | after one more listing, adding the OUI exactly when it is new keeps the first-listing order |
| MakeOuiCsv.FirstAppearanceOrder | make-oui-csv.py:15-29 | the keys are exactly the listed OUIs, each once, ordered by first listing; re-assigning a key keeps its place |
| MakeOuiCsv.WarningPerRepeat | make-oui-csv.py:22-25 | one warning per listing of an OUI already listed; warnings plus keys equal the number of accepted lines |
| MakeOuiCsv.Warnings | make-oui-csv.py:22-25 | the warnings defined over the matches alone: for each match whose OUI was listed before, the OUI, its vendor and the text kept for the earlier listings (Kept), in the order of DUPLICATE_WARNING; WarningsOfBuild and WarningsCount state it |
| MakeOuiCsv.WarningsOfBuild | make-oui-csv.py:17-29 | the dictionary loop writes exactly the reference warnings, in input order: warning k concerns the k-th repeated listing, with its new vendor and the vendor text kept before it |
| MakeOuiCsv.WarningsCount | make-oui-csv.py:22-25 | the reference warnings are one per listing of an OUI already listed |
| MakeOuiCsv.ListingsIffListed | make-oui-csv.py:20-22 | an OUI has earlier listings exactly when it is among the matched OUIs, so "listed before" and `oui in oui_vendormapping` agree |
| MakeOuiCsv.RowsOfProcess | make-oui-csv.py:32-33 | one row per key in dictionary order; its first field is the OUI with each '-' replaced by the delimiter, unchanged for "-", and its second field is that key's vendor |
| MakeOuiCsv.OuiWithDelimiter | make-oui-csv.py:33 | `oui.replace('-', d)` is the three hex pairs separated by `d`, and the OUI itself when `d` is "-" |
| Strings.JoinLength | genpasscode.py:11 | joining n parts of length w gives n·w characters plus n − 1 separators |
| Strings.Join | genpasscode.py:8-11 | `sep.join(parts)`; JoinLength, JoinCharAt, JoinPartAt and SplitJoin state its length, where each part and separator lies, and its inverse |
| Strings.Split | createLULA.py:64 | `s.split(sep)` gives at least one piece; JoinSplit and SplitJoin make it the inverse of Join |
| Strings.Replace | make-oui-csv.py:33 | `s.replace(c, t)`; ReplaceAppend, ReplaceAbsent and ReplaceBySelf state how it distributes over concatenation and when it changes nothing |
| Strings.ReplaceAppend | make-oui-csv.py:33 | replacing in a concatenation is concatenating the replaced halves |
| Strings.ReplaceAbsent | make-oui-csv.py:33 | a text without the character is left unchanged |
| Strings.SplitJoin | createLULA.py:64 | splitting the join of parts that cannot hide the separator gives back the parts |
| Strings.JoinSplit | createLULA.py:64 | joining the pieces of a split gives the text back |
| Strings.ReplaceBySelf | make-oui-csv.py:33 | replacing a character with itself changes nothing |
| GenPasscode.CharsAlphabet | genpasscode.py:21 | the alphabet is 36 characters: A to Z in order, then 0 to 9 in order |
| GenPasscode.GenGroup | genpasscode.py:7-8 | a group fails exactly when `size` is positive and the alphabet is empty; otherwise it has `len(range(size))` characters (none for a size of zero or less), character i being the alphabet at pick i |
| GenPasscode.GenGroupDrawsFromChars | genpasscode.py:7-8 | every character of a group belongs to the alphabet |
| GenPasscode.GenGroups | genpasscode.py:11 | `len(range(count))` groups, group g made from picks g, failing exactly when the count and the size are positive and the alphabet is empty |
| GenPasscode.GenCode | genpasscode.py:10-11 | a count of zero or less gives ""; otherwise count·len(range(size)) characters plus count − 1 delimiters; the same failure condition as the groups |
| GenPasscode.GenCodeLayout | genpasscode.py:10-11 | for a count of one or more, group g's character i lies at g·(w + len(delimiter)) + i, w being len(range(size)), and is its pick; a whole delimiter follows every group but the last |
| GenPasscode.GroupOfPicks | genpasscode.py:7-8 | a group made from picks is as long as its size allows and holds the alphabet character of each pick |
| GenPasscode.EmptyGroupsExample | genpasscode.py:10-11 | `gen_code(-2, 3, '-', chars)` is "--": three empty groups and two delimiters |
| GenPasscode.GenCodeSplits | genpasscode.py:11 | for a count of one or more, when the delimiter's first character is not in the alphabet, splitting the code at the delimiter gives back exactly its groups, `count` of them, each len(range(size)) long |
| GenPasscode.DefaultDelimiterSplits | genpasscode.py:17-22 | for a count of one or more, with the command-line alphabet and the default delimiter '-', a code never fails and always splits back into `count` groups |

## Left out

- Host I/O. The `/sbin/ip -f link addr show` call and the `link/ether` scrape of its output (createLULA.py:62-63) are replaced by the MAC text as a parameter. Only the first interface's MAC is read. `_get_EUI64` runs `ip` again on every `calc_LAGID` call (createLULA.py:79, 106), but the model assumes that one MAC text serves the whole batch.
- The clock. `time.time()` and the float formatting `'%.9f' % t` (createLULA.py:45, 50) are replaced by integer seconds plus a nine-digit fraction. The model starts from the two printed fields. How they relate to the real reading lies outside it. A double near 4·10^9 seconds resolves only 2^-21 s, about 4.8·10^-7 s, so the seventh to ninth printed fraction digits are representation noise rather than clock resolution. A negative time is printed truncated toward zero.
- SHA-1 (createLULA.py:83) is a parameter, not an implementation of FIPS 180-4. Only its 20-octet result length is assumed.
- `asString`, that is, `socket.inet_ntop` (createLULA.py:111-116), and the printing in `_main` are library text rendering and output.
- `time.sleep(random.random())` between prefixes (createLULA.py:108) has no effect on the values.
- CalcMultipleLagids: the Python generator yields lazily. The model collects the yielded prefixes into a sequence and reports the error that would end the iteration.
- NtpTimestamp: before Python 2.7, `struct` masked an out-of-range standard-size integer to its low 32 bits instead of raising (createLULA.py:22 asks for Python 2.2 or later). A reading from 2036 on, where seconds + TIME1970 no longer fits 32 bits, then wraps. The model does not cover that behaviour; it fails with `StructError` as Python 2.7 does.
- ParseOctet: `int(x, 16)` also accepts a sign, a `0x` prefix and surrounding whitespace. The model accepts only non-empty strings of hexadecimal digits. Those other forms never occur in the output of `ip`.
- Eui64FromMac: the in-place slice assignment `mac[3:3] = ['ff', 'fe']` (createLULA.py:66) is modelled as a function on sequences. The list is local, so nothing else observes the update.
- `random.choice` (genpasscode.py:8) is replaced by supplied indices into the alphabet. Randomness and its distribution are not modelled.
- Command-line handling. `argparse`, file handles and `print` (make-oui-csv.py:35-63, genpasscode.py:13-22, createLULA.py:119-126) are left out. So are the stderr stream and the CSV writer with `QUOTE_ALL` quoting (make-oui-csv.py:31). The model produces the rows as string pairs and the warning texts as a list.
- A `--delimiter` given without a value makes genpasscode's delimiter `None`, and `None.join` raises. This is argument parsing and is not modelled: delimiters are strings.
- `duplicate_delimiter` is `Option<string>`. `None` and `""` behave identically, because the source only tests its truth value.
