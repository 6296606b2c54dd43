# aseprite-ini, modelled in Dafny

This project models `Aseini` from `src/aseprite_ini/__init__.py`. `Aseini` holds an
Aseprite localisation strings file: a list of header comments and an ordered dictionary
from section name to section, each section an ordered dictionary from key to value. A
value is either a plain string or a heredoc. A heredoc is the whole envelope `<<<TAG`,
body lines and `TAG`, joined by newlines.

The operations modelled are:

- `decode`, which reads a list of lines;
- `decode_str`, which splits a text into lines and decodes them;
- the constructor;
- `patch`, where the other document's values win;
- `fallback`, where the receiver's values win;
- `coverage`, which counts how many of a source's keys the receiver has;
- `encode`, which writes the source's layout with the receiver's values and `# TODO #`
  lines for missing keys;
- `encode_str`;
- `alphabet`, which collects the characters used by values, without heredoc envelopes.

The model has two layers:

- **Functions.** Modules hold functions over values that state what each operation
  computes, with lemmas about them:
  - `Strings`: Python's `strip`, `removeprefix` and `removesuffix`, `find`, `replace`,
    `'\n'.join`, and `re.split(r'\r\n|\r|\n', …)`.
  - `OrderedDicts`: insertion-ordered dictionaries as association lists.
  - `Documents`, `Decoding`, `Merging`, `Coverages`, `Encoding` and `Alphabets`.
  - `RoundTrip`: the decode-after-encode theorem.
  - `Scenarios`: concrete inputs.
- **Class.** `AsepriteIni.Aseini` is a class with fields `headers` and `sections`. Its
  methods run the source's loops over those fields. Each method is proved to produce the
  value that the matching function gives.

Python `str.strip()` is modelled with the full `str.isspace()` character set. `rstrip`,
`removeprefix` and `removesuffix` are modelled with Python's own edge cases: for example,
`removesuffix('')` returns the string unchanged. The two `AssertionError`s become `Err`
results:

- the token error in `decode`, carrying the 1-based line number;
- the value-type error in `encode`, carrying the section and the key.

Where the format's prose description and the code disagree, the model follows the code:

- A heredoc ends at the first later line whose stripped form equals the tag. The line
  does not have to be exactly the tag.
- When the input ends inside a heredoc, the heredoc closes silently and the value still
  gets its closing tag. It is not an error. `Scenarios.UnterminatedHeredocExample` shows
  this.
- A bare `<<<` opens a heredoc with the empty tag. The first blank line closes it.
- `decode` of a list walks the list twice. The body loop starts again from line 1, so
  header lines are read a second time as comments, and token-error line numbers count
  from the first line of the input.

## Model

| member | source | states |
|---|---|---|
| Decoding.Headers | src/aseprite_ini/__init__.py:12-18 | the headers are the longest prefix of lines that start with `#` once stripped, each with one `#` removed and stripped; the first line after them is not such a line |
| Decoding.SplitAssignment | src/aseprite_ini/__init__.py:40-42 | the key and the tail are stripped, and the key holds no `=` |
| Decoding.SplitAssignmentAt | src/aseprite_ini/__init__.py:40-42 | `split('=', 1)` splits at the first `=`: for `p + "=" + q` with no `=` in `p`, the key is `p` stripped and the tail is `q` stripped, whatever `=` signs `q` holds |
| Decoding.HeredocEnd | src/aseprite_ini/__init__.py:46-49 | the heredoc body ends at the first later line that strips to the tag; no line before it does; at the end of the input when none does |
| Decoding.OpenSection | src/aseprite_ini/__init__.py:29-35 | a section marker leaves the named section present: the sections are unchanged when it exists, else an empty section of that name is appended |
| Decoding.OpenSectionFind | src/aseprite_ini/__init__.py:31-35 | re-opening a section never changes any stored entry |
| Decoding.StoreFind | src/aseprite_ini/__init__.py:55-56 | storing an assignment changes only the current section, keeps the section order and sets the key only if absent |
| Decoding.StoreGrows | src/aseprite_ini/__init__.py:55-56 | a repeated key keeps its first value; nothing stored is ever changed, and names and keys stay distinct |
| Decoding.DecodeBodyGrows | src/aseprite_ini/__init__.py:24-58 | the body loop only adds: sections keep their order, stored values never change, names and keys stay distinct |
| Decoding.HeredocValueShape | src/aseprite_ini/__init__.py:43-52 | for the tail `<<<TAG`, the value read is the envelope of `TAG` around the input lines from the start up to the closing line, each right-stripped, and none of them strips to the tag |
| Decoding.BodyStepError | src/aseprite_ini/__init__.py:27-58 | a line makes the loop fail exactly when, stripped, it is not blank, a comment, a marker or an assignment; the error carries its 1-based number |
| Decoding.DecodeWellFormed | src/aseprite_ini/__init__.py:11-59 | a decoded document has distinct names and keys; names, keys and plain values are stripped; keys hold no `=`; heredoc values are well-formed envelopes |
| Decoding.DecodeFailsAtTokenError | src/aseprite_ini/__init__.py:57-58 | decoding fails only with the number of a line that is not blank, a comment, a marker or an assignment |
| Decoding.DecodeSucceeds | src/aseprite_ini/__init__.py:24-58 | with no such line anywhere in the input, decoding succeeds |
| Decoding.DecodeFirstError | src/aseprite_ini/__init__.py:24-58 | the reported line is the first the loop cannot read: from the first line, every step up to it succeeded, and the step on it is the one that fails with its number |
| Decoding.SkipBeforeSection | src/aseprite_ini/__init__.py:36-39 | before any section, lines that are neither markers nor token errors (blank lines, comments, assignments, `key = <<<TAG` lines too, whose following lines are not consumed) are passed over one by one and store nothing |
| AsepriteIni.Aseini.constructor | src/aseprite_ini/__init__.py:81-85 | a new object holds the given headers and no sections |
| AsepriteIni.Aseini.Decode | src/aseprite_ini/__init__.py:11-59 | the loops compute the decoded document, or the token error, that `Decoding.Decode` specifies; a decoded object has distinct names and keys |
| AsepriteIni.Aseini.DecodeHeaders | src/aseprite_ini/__init__.py:12-18 | the header loop returns `Decoding.Headers` of the lines |
| AsepriteIni.Aseini.DecodeLine | src/aseprite_ini/__init__.py:25-58 | one turn of the body loop: the next line index, the sections and current section `Decoding.BodyStep` gives, or its token error with the line number and the sections untouched |
| AsepriteIni.Aseini.ReadHeredoc | src/aseprite_ini/__init__.py:43-52 | the inner heredoc loop returns the joined value and the index after the closing line |
| AsepriteIni.Aseini.DecodeStr | src/aseprite_ini/__init__.py:61-63 | `decode_str` decodes the pieces of `re.split(r'\r\n\|\r\|\n', text)` |
| Strings.SplitJoin | src/aseprite_ini/__init__.py:157 | splitting text that was joined with `\n` gives the lines back when no line holds a line break |
| Strings.JoinSplit | src/aseprite_ini/__init__.py:63 | joining the pieces of a text with no `\r` gives the text back |
| OrderedDicts.UpdateFind | src/aseprite_ini/__init__.py:94 | after `section.update(other)` the other's keys hold its values and every other key keeps its value |
| OrderedDicts.UpdateKeys | src/aseprite_ini/__init__.py:94 | `update` keeps the existing keys in order at the front, removes none and keeps keys distinct |
| OrderedDicts.FillMissingFind | src/aseprite_ini/__init__.py:103-105 | the inner fallback loop keeps every present value and adds the other's value only for missing keys |
| OrderedDicts.FillMissingKeys | src/aseprite_ini/__init__.py:103-105 | that loop keeps the existing keys in order, removes none and keeps keys distinct |
| Merging.PatchLookup | src/aseprite_ini/__init__.py:87-94 | after `patch(other)` each entry of `other` holds `other`'s value and every other entry is unchanged |
| Merging.PatchExtends | src/aseprite_ini/__init__.py:87-94 | `patch` removes nothing; the receiver's sections keep their order at the front; the sections are exactly those of either document; names and keys stay distinct |
| Merging.PatchSectionExtends | src/aseprite_ini/__init__.py:88-94 | one turn of `patch`'s loop keeps every entry present, adds the section if missing and keeps names and keys distinct |
| Merging.FallbackLookup | src/aseprite_ini/__init__.py:96-105 | after `fallback(other)` every present entry keeps its value, and only missing entries take `other`'s |
| Merging.FallbackExtends | src/aseprite_ini/__init__.py:96-105 | `fallback` never changes a stored value; the sections are exactly those of either document; names and keys stay distinct |
| Merging.FallbackSectionGrows | src/aseprite_ini/__init__.py:97-105 | one turn of `fallback`'s outer loop changes no stored value, adds the section if missing and keeps names and keys distinct |
| Merging.FallbackTwice | src/aseprite_ini/__init__.py:96-105 | chained fallbacks take each entry from the first document in the chain that has it |
| AsepriteIni.Aseini.Patch | src/aseprite_ini/__init__.py:87-94 | the loop leaves the object holding `Merging.Patch` of its old document and the other's, with names and keys still distinct |
| AsepriteIni.Aseini.Fallback | src/aseprite_ini/__init__.py:96-105 | the loops leave the object holding `Merging.Fallback` of its old document and the other's, with names and keys still distinct |
| AsepriteIni.Aseini.FillSection | src/aseprite_ini/__init__.py:103-105 | the inner loop adds each of the other section's keys that is missing, as `OrderedDicts.FillMissing` |
| Coverages.TranslatedIn | src/aseprite_ini/__init__.py:111-114 | a section's translated count never exceeds its number of keys |
| Coverages.Coverage | src/aseprite_ini/__init__.py:107-115 | `translated` never exceeds `total` |
| Coverages.CoverageFull | src/aseprite_ini/__init__.py:107-115 | `translated == total` exactly when every (section, key) pair of the source is present in the receiver |
| Coverages.CoverageMonotonic | src/aseprite_ini/__init__.py:107-115 | a receiver with more entries never has a lower `translated` |
| Coverages.CoverageOfSelf | src/aseprite_ini/__init__.py:107-115 | a document fully covers itself |
| Coverages.CoverageAfterFallback | src/aseprite_ini/__init__.py:96-115 | after `fallback(source)` coverage against `source` is complete |
| Coverages.CoverageAfterPatch | src/aseprite_ini/__init__.py:87-115 | after `patch(source)` coverage against `source` is complete |
| AsepriteIni.Aseini.Coverage | src/aseprite_ini/__init__.py:107-115 | the counting loops return `Coverages.Coverage` |
| Encoding.EncodeFails | src/aseprite_ini/__init__.py:117-154 | encoding fails exactly when some source key is present in the receiver with the other kind of value |
| Encoding.EncodeSectionsFailFirst | src/aseprite_ini/__init__.py:125-153 | once the sections before some point fail, the whole encoding fails with that same error: later sections are not looked at |
| Encoding.EncodeSectionsFirstError | src/aseprite_ini/__init__.py:125-153 | a failing encoding names a (section, key) whose receiver value has the other kind, and every source entry before it, in earlier sections or earlier in that section, matches |
| Encoding.EncodeEntriesFailFirst | src/aseprite_ini/__init__.py:129-152 | once the keys before some point fail, the section fails with that same error |
| Encoding.EncodeEntriesFirstError | src/aseprite_ini/__init__.py:129-152 | a failing section names a key whose receiver value has the other kind, and every key before it matches |
| Encoding.EncodePlainEntry | src/aseprite_ini/__init__.py:147-152 | a plain source key gives `# TODO # key = value` when the receiver lacks it, else `key = ` and the receiver's own plain value |
| Encoding.EncodeHeredocTodo | src/aseprite_ini/__init__.py:133-139 | a missing heredoc key writes every line of the source's heredoc behind `# TODO # `, the first one also behind `key = ` |
| Encoding.EncodeSelfSucceeds | src/aseprite_ini/__init__.py:117-119 | encoding a well-formed document against itself never fails |
| Encoding.EncodeSectionsContain | src/aseprite_ini/__init__.py:125-153 | every line of every non-empty source section ends up in the output |
| Encoding.EncodeStrSplits | src/aseprite_ini/__init__.py:156-157 | with no line break in headers, names, keys or plain values, splitting `encode_str()` gives `encode()`'s lines back |
| AsepriteIni.Aseini.Encode | src/aseprite_ini/__init__.py:117-154 | the loops compute `Encoding.Encode` of the receiver against the source, or against itself when no source is given |
| AsepriteIni.Aseini.EncodeHeaders | src/aseprite_ini/__init__.py:122-123 | one `# header` line per header, in order |
| AsepriteIni.Aseini.EncodeSections | src/aseprite_ini/__init__.py:125-153 | the section loop appends `Encoding.EncodeSections`' lines, or stops at its error |
| AsepriteIni.Aseini.EncodeSection | src/aseprite_ini/__init__.py:126-153 | one turn of the section loop: nothing for an empty source section, else the `[name]` marker, the key lines and a blank line, or the key loop's error |
| AsepriteIni.Aseini.EncodeEntries | src/aseprite_ini/__init__.py:129-152 | the key loop of one section computes `Encoding.EncodeEntries` |
| AsepriteIni.Aseini.EncodeEntry | src/aseprite_ini/__init__.py:130-152 | one key's lines or its value-type error, as `Encoding.EncodeEntry` |
| AsepriteIni.Aseini.AppendLines | src/aseprite_ini/__init__.py:135-146 | the `enumerate(re.split(...))` loops append the pieces with the first prefix on piece 0 and the other prefix after it |
| AsepriteIni.Aseini.EncodeStr | src/aseprite_ini/__init__.py:156-157 | `encode_str` is `Encoding.EncodeStr`: the encoded lines joined by `\n` |
| Alphabets.AlphabetMembers | src/aseprite_ini/__init__.py:163-172 | a character is in the alphabet exactly when it occurs in the unwrapped form of some value |
| Alphabets.UnwrapHeredoc | src/aseprite_ini/__init__.py:167-169 | a heredoc unwraps to its body lines run together: no `<<<TAG`, no closing tag, no newlines |
| AsepriteIni.Aseini.Alphabet | src/aseprite_ini/__init__.py:163-172 | the loops return `Alphabets.Alphabet` of the document |
| AsepriteIni.Aseini.AddCharacters | src/aseprite_ini/__init__.py:170-171 | the character loop adds exactly the value's characters to the set |
| RoundTrip.DecodeEncode | src/aseprite_ini/__init__.py:11-154 | `decode(ini.encode())` gives back the same headers, sections, keys and values in the same order, for every document meeting `RoundTrip.Canonical`, a sufficient condition |
| RoundTrip.DecodeStrEncodeStr | src/aseprite_ini/__init__.py:61-157 | the same round trip through `encode_str` and `decode_str`, when headers, names, keys and plain values hold no line break |
| RoundTrip.DecodeSections | src/aseprite_ini/__init__.py:24-59 | the encoded sections of a document are read back section by section, in order |
| RoundTrip.DecodeEntries | src/aseprite_ini/__init__.py:36-56 | the encoded entries of a section are read back key by key into that section |
| RoundTrip.HeadersBack | src/aseprite_ini/__init__.py:12-18 | the `# header` lines and the blank line after them are read back as the headers |
| Scenarios.DecodeHeredocExample | src/aseprite_ini/__init__.py:43-52 | `[s]`, `key = <<<END`, `hello`, `world`, `END` decodes to one section `s` whose `key` holds the full envelope |
| Scenarios.UnterminatedHeredocExample | src/aseprite_ini/__init__.py:46-52 | a heredoc cut off by the end of the input is closed with its tag, not refused |
| Scenarios.AlphabetExample | src/aseprite_ini/__init__.py:163-172 | the heredoc `<<<END`, `AB`, `END` contributes exactly `A` and `B` |
| Scenarios.EncodeMismatchExample | src/aseprite_ini/__init__.py:151 | a receiver heredoc against a plain source value is refused with the section and key named |

## Left out

- `load`, `save` and `save_alphabet` are left out. They only open a file and call `decode_str`, `encode_str` or `alphabet`.
- `pull_strings` and `pull_strings_by_url` are left out. They fetch text over HTTP and call `decode_str`.
- The `print` for an assignment before any section is not modelled. Such a line is skipped silently.
- The constructor's `headers=None` default is not modelled separately: `Aseini()` is `Aseini([])`.
- The `UserDict` base class is reduced to the ordered `sections` dictionary. Its generic mapping methods are not part of the model.
- `decode` is modelled only for a list of lines, as `decode_str` passes it. With an iterator that can be read only once, such as a file, `iter(lines)` would continue where the header loop stopped. That loop's `break` has already consumed the first line that is not a header, which may be the blank line or a `[section]` marker, so the body loop would never see it. Line numbers would count from the line after it.
- Python's `assert` statements disappear under `python -O`. The model always reports the value-type error.
- AsepriteIni.Aseini.Patch: an `other` that is the receiver itself is modelled from a snapshot of its sections. That matches Python only because patching a document with itself adds no sections.
- RoundTrip.DecodeEncode: the round trip is stated only under `RoundTrip.Canonical`, a sufficient condition. Some documents outside it also read back, for example one with an empty key, written ` = v` and read back as `("", "v")`, or a key starting with `[` whose line does not end with `]`. `Canonical` asks that:
  - names, keys and plain values are stripped;
  - no key is empty, contains `=`, or starts with `#` or `[`;
  - no section is empty, because `encode` skips empty sections;
  - a heredoc's tag and body lines read back, so no body line strips to the tag.
- The alphabet's order is not modelled: `alphabet()` returns a set, and sorting belongs to `save_alphabet`.
