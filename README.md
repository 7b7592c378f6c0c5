# fastimport command serializer

A Dafny model of the serializer core of python-fastimport, `fastimport/commands.py`. That file turns an
in-memory git fast-import command into the bytes of git's fast-import stream. The model covers:

- the seven commands: `blob`, `checkpoint`, `commit`, `feature`, `progress`, `reset` and `tag`;
- the five file sub-commands of a commit: `M`, `D`, `C`, `R` and `deleteall`;
- the helpers they share: `check_path`, `format_path`, `_format_mode`, `format_who_when` and
  `format_property`;
- the ids of blobs and commits, `:<mark>` or the synthetic `@<lineno>`.

Modules, one file each:

- `ByteStrings` (`bytestrings.dfy`): byte strings are `seq<char>`. It also holds concatenation, prefixes
  and suffixes, and a line splitter that plays the part of a line-oriented reader.
- `Decimal` (`decimal.dfy`): `%d` rendering, and its reader.
- `Utf8` (`utf8.dfy`): `str.encode('utf-8')`, with a decoder as its inverse.
- `DataSections` (`datasections.dfy`): the `data <n>\n<payload>` block, and its reader.
- `Paths` (`paths.dfy`): `check_path` and `format_path`, and a reader of C-style quoted paths.
- `WhoWhen` (`whowhen.dfy`): `format_who_when` and its time-zone offset, and a reader of the rendered line.
- `Properties` (`properties.dfy`): `format_property`, and the `sorted()` order of property names as a
  function proved to be the unique strictly increasing enumeration of the names.
- `FileCommands` (`filecommands.dfy`): the file sub-command values, their constructors (which check
  their paths), `_format_mode`, and the rendering of each sub-command.
- `Commands` (`commands.dfy`): the command values, ids, and the rendering of every command.

`CommitCommand.to_bytes` builds its output step by step: it extends the author section author by
author, fills a list of property lines in sorted order, then joins the rendered file sub-commands. So
it is modelled by methods with loops (`CommitToBytes` and the loops it calls). Each method is proved
equal to a specification function (`CommitBytes`, `AuthorSection`, `PropertiesSection`,
`FilesSection`), and the properties of the output are proved about those functions. The other
operations compute values, so they are functions.

Most renderings are paired with the reader that a consumer of the stream would apply. Round-trip
lemmas connect the two, each one-directional and under the conditions it names:

- data sections read back exactly, and so do the blob's data, the commit message and the tag message;
- a feature command reads back if its name holds no `=`, and a property line if its name holds no
  space;
- an identity line reads back if the name holds no `<`, the email no `>`, and the offset is a whole
  number of minutes;
- a quoted path reads back if it holds no `\` or `"`; so do the path of `D` and both paths of `C`
  and `R`;
- mode tokens read back as octal;
- reset and tag headers, and the lines of a commit before and after its message, split into exactly
  the expected lines if no field holds a newline.

An `M` line has no reader in the model: its exact bytes are stated instead (`ModifyDatarefLine`,
`InlineModify`, `DirectoryModify`). The properties and the file sub-commands of a commit are stated
through their own lemmas (`PropertiesInSortedOrder`, `FileCommandsLines`).

Errors that Python raises are modelled as `Failure` values:

| Python error | `Failure` value |
|---|---|
| `ValueError` from `check_path` | `IllegalPath` |
| `AssertionError` from `_format_mode` | `UnknownMode` |
| `TypeError` from `len(None)`, when inline file contents are requested but absent | `MissingInlineData` |

The source is written for Python 3 (it has `__bytes__` methods and calls `.encode('ascii')`). Several
of its lines would raise `TypeError` there, because they mix `str` and `bytes`. The model follows
what those lines evidently mean, treating every part as bytes. Five places, listed under
"## Findings", compute something other than what was intended. For each, the model keeps an
as-written definition and a corrected one. The other places where the model departs from the code as
written are listed under "## Left out", each with its reason.

One choice follows the code as written: `GIT_FAST_IMPORT_NEEDS_EXTRA_SPACE_AFTER_QUOTE` is the
constant `false` (`FileCommands.NeedsExtraSpaceAfterQuote`). `Paths.FormatPath` takes the extra space
as a parameter, and its lemmas cover both settings.

The corrected members follow git's fast-import format: every file sub-command of a commit is a line
of its own, and a newline in a path is written as `\n` inside double quotes.

## Model

| member | source | states |
|---|---|---|
| `Commands.MarkId` | fastimport/commands.py:93-97 | the id is `:` followed by the mark when there is one, and otherwise `@` followed by the decimal line number |
| `Commands.MarkedIdsEqualIffMarksEqual` | fastimport/commands.py:138-141 | two marked ids are equal exactly when their marks are, whatever the line numbers |
| `Commands.SyntheticIds` | fastimport/commands.py:93-97 | a synthetic id never equals a marked id; two synthetic ids are equal exactly when their line numbers are |
| `Commands.CommandId` | fastimport/commands.py:138-141 | the id of a blob or commit starts with `:` exactly when it has a mark, and the mark follows; without one it is `@` and the decimal line number |
| `Commands.BlobReadBack` | fastimport/commands.py:100-108 | after `blob\n` and the optional mark line, the rest is one data section that reads back as exactly the blob's data, with nothing after it |
| `Commands.BlobBytes` | fastimport/commands.py:100-108 | a blob starts with `blob\n` |
| `Commands.FeatureBytes` | fastimport/commands.py:223-228 | the output is `feature ` followed by the UTF-8 name and, when there is a value, `=` and the UTF-8 value |
| `Commands.FeatureRoundTrip` | fastimport/commands.py:223-228 | when the name holds no `=`, reading the output back gives the same name and the same optional value |
| `Commands.ProgressBytes` | fastimport/commands.py:237-238 | the output is `progress ` followed by exactly the message |
| `Commands.ResetLines` | fastimport/commands.py:248-258 | a reset is the line `reset <ref>`, followed by the line `from <parent>` and an empty line exactly when there is a parent; a line reader sees exactly these lines when the ref and the parent hold no newline |
| `Commands.ResetBytes` | fastimport/commands.py:248-258 | a reset starts with `reset <ref>` |
| `Commands.TagHeaderLines` | fastimport/commands.py:270-284 | before its message, a tag is the lines `tag <id>`, then `from <parent>` if there is one, then `tagger <who/when>` if there is one, in that order; a line reader sees exactly these lines when none holds a newline |
| `Commands.TagLines` | fastimport/commands.py:270-284 | a whole tag is its header, the lines `tag <id>`, then `from <parent>` and `tagger <who/when>` each exactly when present, which a line reader sees exactly when no field holds a newline; then nothing without a message, or a newline and a data section that reads back as exactly the message |
| `Commands.TagMessageAfter` | fastimport/commands.py:279-284 | without a message nothing follows the header; with one, a newline follows and then a data section that reads back as exactly the message |
| `Commands.TagBytes` | fastimport/commands.py:270-284 | a tag starts with `tag <id>` |
| `Commands.CommandBytes` | fastimport/commands.py:100-284 | every command except a commit always renders |
| `Commands.CommandStartsWithKeyword` | fastimport/commands.py:100-284 | every rendered command starts with its keyword from `COMMAND_NAMES`, followed by a newline for `blob` and by a space for the others; `checkpoint` is exactly its keyword |
| `Commands.AppendExtraAuthors` | fastimport/commands.py:157-159 | the loop appends one `author` line per extra author, in list order, after the first line |
| `Commands.AuthorSectionLoop` | fastimport/commands.py:153-159 | the author section built step by step equals `AuthorSection`: empty without a primary author; the extra authors are added only when the extension is on |
| `Commands.FormatAll` | fastimport/commands.py:157-159 | one rendered who/when per extra author, the i-th rendering the i-th author |
| `Commands.ExtraAuthorLinesTexts` | fastimport/commands.py:157-159 | the extra author lines equal the `author` lines of the list of rendered who/when texts |
| `Commands.AuthorSectionTexts` | fastimport/commands.py:156-159 | with the extension on, the section is the primary author's line followed by one line per extra author, in list order |
| `Commands.AuthorSectionLines` | fastimport/commands.py:156-159 | the author section is the lines `author <text>`, one per author in order, each ended by a newline; a line reader sees exactly these lines when no text holds a newline |
| `Commands.AuthorLinesOneEach` | fastimport/commands.py:156-159 | when no rendered author holds a newline, none of the author lines does |
| `Commands.AuthorSectionNonEmpty` | fastimport/commands.py:155-156 | with a primary author, the section is non-empty and at least as long as that author's line |
| `Commands.NoPrimaryAuthorIgnoresExtraAuthors` | fastimport/commands.py:153-159 | without a primary author, the extra authors do not affect the output |
| `Commands.FeaturesOffIgnoresExtensions` | fastimport/commands.py:157-174 | with the extensions off, neither the extra authors nor the properties affect the output |
| `Commands.RenderProperties` | fastimport/commands.py:175-178 | the loop renders one line per name, in the order given, each from that name's own value |
| `Commands.PropertiesLoop` | fastimport/commands.py:174-180 | the properties section built by the loop equals `PropertiesSection`: empty with the extension off or with no properties |
| `Commands.PropertiesSection` | fastimport/commands.py:174-180 | the section is empty whenever no property lines are emitted |
| `Commands.PropertiesInSortedOrder` | fastimport/commands.py:174-179 | the section is the concatenation of exactly one line per property, in sorted name order, each rendered by `format_property` from that name's own value and ended by a newline |
| `Commands.JoinFileCommands` | fastimport/commands.py:181-190 | the joined renderings exist exactly when every file sub-command renders; a failure carries the error of one of them |
| `Commands.FileCommandsBytesAsWritten` | fastimport/commands.py:190 | as written, the renderings are joined with nothing between them; the join succeeds exactly when every sub-command renders |
| `Commands.AsWrittenFilesRunTogether` | fastimport/commands.py:190 | as written, deleting `a` and then `b` gives the single line `D aD b` |
| `Commands.FileCommandsBytes` | fastimport/commands.py:181-190 | with each rendering ended by a newline, the file section renders exactly when every sub-command renders |
| `Commands.FileCommandsLines` | fastimport/commands.py:181-190 | with the corrected join, a line reader sees each single-line sub-command as a line of its own, in order, and the section ends with a newline |
| `Commands.FileCommandsFailurePersists` | fastimport/commands.py:189 | once a prefix of the list fails, the whole list fails with the same error |
| `Commands.FailingStep` | fastimport/commands.py:189 | a prefix that renders, followed by a failing sub-command, fails with that sub-command's error |
| `Commands.FileCommandsFirstFailure` | fastimport/commands.py:189 | the list fails with the error of the first file sub-command that fails |
| `Commands.FileCommandsLoop` | fastimport/commands.py:181-189 | the file section built by the loop equals `FilesSection`: empty without an iterator; otherwise each rendering followed by a newline, or the first failure |
| `Commands.CommitToBytes` | fastimport/commands.py:148-193 | the commit built step by step equals `CommitBytes`: header, mark, authors, committer, message, parent, merges, properties and file sub-commands, or the first file sub-command's failure |
| `Commands.CommitBytes` | fastimport/commands.py:149-193 | a commit renders exactly when its file section does, and otherwise fails with the file section's error; it starts with `commit <ref>` and a newline |
| `Commands.CommitBytesAsWritten` | fastimport/commands.py:191-193 | with the join as written, a commit renders exactly when its file section does, and starts with `commit <ref>` directly followed by the mark line |
| `Commands.CommitFirstLine` | fastimport/commands.py:191-193 | when the ref holds no newline, the first line a reader sees is exactly `commit <ref>` |
| `Commands.AuthorsReachOutput` | fastimport/commands.py:154-160 | the authors reach the output: a commit is the same commit without its authors with the author section, never empty when there is a primary author, inserted right after the header and mark lines |
| `Commands.MarkLine` | fastimport/commands.py:150-153 | the mark line is the line `mark :<mark>`, ended by a newline, when there is a mark, and nothing otherwise |
| `Commands.AuthorSectionTerminated` | fastimport/commands.py:154-160 | the author section is its `author` lines, primary author first and then the emitted extra authors in order, each ended by a newline |
| `Commands.CommitterLine` | fastimport/commands.py:161 | the committer line is `committer ` and the identity, ended by a newline |
| `Commands.MessageSection` | fastimport/commands.py:162-166 | without a message the section is empty; with one it reads back as a data section holding exactly the message, leaving only its final newline |
| `Commands.MessageReadBack` | fastimport/commands.py:162-166 | the message section reads back as exactly the message, leaving its newline and whatever follows |
| `Commands.FromLine` | fastimport/commands.py:167-170 | the `from <parent>` line, ended by a newline, when there is a parent, and nothing otherwise |
| `Commands.KeywordTexts` | fastimport/commands.py:157-174 | one line text per item, the i-th the keyword followed by the i-th item: the extra `author` lines and the `merge` lines |
| `Commands.MergeList` | fastimport/commands.py:174 | the merge lines are exactly one `merge <id>` line per merge, in list order, each ended by a newline |
| `Commands.MergeLines` | fastimport/commands.py:171-174 | no merge lines without a merge list; otherwise one line per merge, in order |
| `Commands.CommitHeadTerminated` | fastimport/commands.py:150-161 | the header, mark, author and committer lines are, in that order, the lines of `CommitHeadTexts`, each ended by a newline |
| `Commands.ParentsTerminated` | fastimport/commands.py:167-174 | the `from` line and the `merge` lines are, in that order, the lines of `ParentTexts`, each ended by a newline |
| `Commands.CommitLines` | fastimport/commands.py:150-193 | a corrected commit is its head lines, then the message, then its `from` and `merge` lines, then properties and file sub-commands; a line reader sees the head lines first, the message reads back as a data section, then the reader sees the `from` and `merge` lines in order; line claims hold if no line text holds a newline |
| `Commands.BodySplit` | fastimport/commands.py:150-193 | everything after the header line is the mark line, then the author section, then the committer line and what follows it |
| `Commands.AsWrittenDropsAuthors` | fastimport/commands.py:191-193 | with the join as written, a commit renders the same with or without its authors |
| `Commands.AsWrittenRefRunsIntoMark` | fastimport/commands.py:191-193 | with the join as written, the first line of a marked commit is `commit <ref>mark :<mark>` |
| `FileCommands.NewModify` | fastimport/commands.py:294-301 | construction succeeds exactly when the path is legal, and otherwise fails with that path |
| `FileCommands.NewDelete` | fastimport/commands.py:339-341 | construction succeeds exactly when the path is legal, and otherwise fails with that path |
| `FileCommands.NewCopy` | fastimport/commands.py:349-352 | construction succeeds exactly when both paths are legal; the source path is checked first |
| `FileCommands.NewRename` | fastimport/commands.py:362-365 | construction succeeds exactly when both paths are legal; the old path is checked first |
| `FileCommands.CheckedPathNotAbsolute` | fastimport/commands.py:339-370 | a `D`, `C` or `R` whose paths passed `check_path` has a path right after its keyword, and that path does not start with `/` |
| `FileCommands.FormatMode` | fastimport/commands.py:309-321 | a mode renders exactly when it is one of the seven known modes, and otherwise fails with that mode |
| `FileCommands.FormatModeOctal` | fastimport/commands.py:309-319 | every mode token is octal; it denotes `0o100644` and `0o100755` without their regular-file bit `0o100000`, and every other known mode itself, so that bit never shows; only the directory token `040000` starts with `0` |
| `FileCommands.FormatModeDirectory` | fastimport/commands.py:314-315 | the token is `040000` exactly when the mode is a directory |
| `FileCommands.ModeRoundTrip` | fastimport/commands.py:309-321 | the mode a token denotes renders back to the same token |
| `FileCommands.ModifyBytes` | fastimport/commands.py:323-334 | `M` fails exactly on an unknown mode, or when inline contents are requested for a non-directory with neither a dataref nor data; the missing data is reported first |
| `FileCommands.DirectoryModify` | fastimport/commands.py:325-334 | a directory renders as `M 040000 - <path>`, whatever its dataref and data |
| `FileCommands.InlineModify` | fastimport/commands.py:327-334 | inline contents make the line `M <mode> inline <path>`; with contents included, a newline and a data section of the data follow; without them, the line stands alone |
| `FileCommands.ModifySingleLine` | fastimport/commands.py:323-334 | with the corrected escape, `M` without inline contents, and with a dataref that holds no newline, renders as a single line |
| `FileCommands.FileCommandBytes` | fastimport/commands.py:323-379 | only `M` can fail to render; it renders exactly when its mode is known and inline contents, if requested for a file, are present |
| `FileCommands.ModifyDatarefLine` | fastimport/commands.py:323-334 | an `M` with a dataref for a file is exactly `M <mode> <dataref> <path>`, whether contents are included or not |
| `FileCommands.LastPathReadBack` | fastimport/commands.py:344-370 | with the corrected escape, a path rendered last on its line reads back as exactly that path, with nothing left, when it holds no `\` or `"` |
| `FileCommands.DeleteReadBack` | fastimport/commands.py:343-344 | with the corrected escape, `D` is `D ` followed by a path that reads back as the deleted path, when it holds no `\` or `"` |
| `FileCommands.CopyRenameReadBack` | fastimport/commands.py:354-370 | with the corrected escape, `C` and `R` are their keyword, then a first path that reads back exactly and leaves the separating space and the rendered second path, which reads back in turn; neither path holds `\` or `"` |
| `FileCommands.FileCommandStartsWithKeyword` | fastimport/commands.py:334-379 | every rendered sub-command starts with its keyword: `M `, `D `, `C `, `R ` or `deleteall` |
| `FileCommands.FileCommandSingleLine` | fastimport/commands.py:323-379 | with the corrected escape, every sub-command renders as a single line, except `M` with inline contents or with a dataref that holds a newline |
| `FileCommands.FirstPathReadBack` | fastimport/commands.py:354-370 | with the corrected escape, the first path of `C` and `R`, formatted with spaces quoted, reads back as the original path and leaves the separating space, when it holds no `\` or `"` |
| `FileCommands.QuotedFirstPath` | fastimport/commands.py:354-370 | with the corrected escape, a first path that needs quoting reads back exactly from its quoted form |
| `FileCommands.PlainFirstPath` | fastimport/commands.py:354-370 | a first path that needs no quoting holds no space, so it reads back up to the separating space |
| `FileCommands.SampleNeedsQuoting` | fastimport/commands.py:400-401 | the path `a<LF>b` holds a newline, so it is quoted |
| `FileCommands.SampleEscaped` | fastimport/commands.py:399 | the corrected escape turns `a<LF>b` into `a\nb` |
| `FileCommands.SampleAsWrittenLines` | fastimport/commands.py:399 | as written, a line reader splits `D` of `a<LF>b` into `D "a` and `b"` |
| `FileCommands.SampleIntended` | fastimport/commands.py:399 | with the corrected escape, `a<LF>b` renders as `"a\nb"` |
| `FileCommands.AsWrittenDeleteSpansTwoLines` | fastimport/commands.py:397-399 | with `format_path` as written, deleting the path `a<LF>b` gives `D "a`, then a second line `b"`; with the corrected escape it is `D "a\nb"` |
| `Paths.CheckPath` | fastimport/commands.py:382-392 | a path is accepted, unchanged, exactly when it is present, non-empty and does not start with `/`; otherwise the error names it |
| `Paths.FormatPathAsWritten` | fastimport/commands.py:395-406 | as written, the output equals the path exactly when no quoting is needed; a quoted path keeps every byte between its quotes, so a newline in the path stays a newline |
| `Paths.FormatPathAsWrittenInjective` | fastimport/commands.py:395-406 | as written, different paths always render differently |
| `Paths.EscapeNewlines` | fastimport/commands.py:397-399 | the corrected escape: the escaped path holds no newline, and a path without newlines is unchanged |
| `Paths.EscapeNewlinesLength` | fastimport/commands.py:397-399 | the corrected escape grows the path by exactly one byte per newline |
| `Paths.FormatPath` | fastimport/commands.py:395-406 | with the corrected escape, the output holds no newline; it equals the input exactly when no quoting is needed; otherwise it is the newline-escaped path in double quotes, followed by the optional extra space |
| `Paths.QuotedPathReadBack` | fastimport/commands.py:395-406 | with the corrected escape, a quoted path holding no `\` or `"` reads back as the original bytes, embedded newlines included |
| `Paths.FormatPathNotInjective` | fastimport/commands.py:397-405 | with the corrected escape, which leaves `\` and `"` alone, two different paths can render to the same bytes |
| `WhoWhen.FormatOffset` | fastimport/commands.py:411-419 | the offset is a sign, then hour digits, then two minute digits; the sign is `-` exactly for a negative offset; the output is five bytes below 100 hours |
| `WhoWhen.OffsetFields` | fastimport/commands.py:417-419 | the hour field denotes the whole hours of the offset's magnitude and the minute field the minutes past the hour |
| `WhoWhen.OffsetRoundTrip` | fastimport/commands.py:411-419 | reading the offset back gives the offset truncated to whole minutes, and the offset itself when it is a whole number of minutes |
| `WhoWhen.OffsetNoDelimiters` | fastimport/commands.py:419 | the offset holds no space and no newline |
| `WhoWhen.FormatOffsetAsWritten` | fastimport/commands.py:417-419 | with the division as written, the minute field is always `00` |
| `WhoWhen.HalfHourOffsetAsWritten` | fastimport/commands.py:417-419 | as written, an offset of +5:30 renders as `+0500` and reads back as +5:00; the corrected rendering is `+0530` and reads back exactly |
| `WhoWhen.Separator` | fastimport/commands.py:420-424 | the separator is empty exactly when the name is, and a single space otherwise |
| `WhoWhen.FormatWhoWhen` | fastimport/commands.py:409-427 | the identity starts with the name, its separator and `<`, and ends with a space and the offset |
| `WhoWhen.FormatWhoWhenOneLine` | fastimport/commands.py:409-427 | an identity whose name and email hold no newline renders as one line |
| `WhoWhen.WhoWhenRoundTrip` | fastimport/commands.py:409-427 | when the name holds no `<`, the email no `>`, and the offset is whole minutes, reading the identity back gives the same name, email, timestamp and offset |
| `Properties.LessEqTotal` | fastimport/commands.py:175 | any two names are ordered one way or the other |
| `Properties.LessEqAntisymmetric` | fastimport/commands.py:175 | names ordered both ways are equal |
| `Properties.LessEqTransitive` | fastimport/commands.py:175 | the order of names is transitive |
| `Properties.SortedKeys` | fastimport/commands.py:175 | the sorted names number exactly as many as the names, enumerate exactly them, and are strictly increasing |
| `Properties.SortedKeysUnique` | fastimport/commands.py:175 | any strictly increasing enumeration of the names is the sorted order |
| `Properties.FormatProperty` | fastimport/commands.py:430-438 | a property line starts with `property `; without a value exactly the UTF-8 name follows; with one, it ends with the UTF-8 value |
| `Properties.PropertyRoundTrip` | fastimport/commands.py:430-438 | when the name holds no space, reading the line back gives the same name and the same optional value |
| `DataSections.DataSection` | fastimport/commands.py:107-108 | the section is longer than its payload and ends with it |
| `DataSections.DataSectionReadBack` | fastimport/commands.py:107-108 | a data section reads back as exactly its payload, and leaves what follows it untouched |
| `Decimal.DecimalRoundTrip` | fastimport/commands.py:107 | the `%d` rendering of a length reads back as that length |
| `Decimal.NatToDecimalInjective` | fastimport/commands.py:95 | two line numbers render alike exactly when they are equal |
| `Decimal.TwoDigits` | fastimport/commands.py:419 | `%02d` gives at least two digits, exactly two below 100, and denotes its argument |
| `Decimal.IntRoundTrip` | fastimport/commands.py:427 | the `%d` rendering of a timestamp, negative ones included, reads back as that timestamp |
| `Decimal.IntToDecimalNoDelimiters` | fastimport/commands.py:427 | a rendered timestamp holds no space and no newline |
| `Utf8.Encode` | fastimport/commands.py:432-434 | the encoding is a byte string at least as long as the text and at most four times as long |
| `Utf8.EncodeAscii` | fastimport/commands.py:432-434 | ASCII text encodes as itself |
| `Utf8.EncodeKeepsAsciiAbsent` | fastimport/commands.py:432-434 | an ASCII byte not in the text is not in its encoding, so a name without a space or `=` encodes without one |
| `Utf8.DecodeEncode` | fastimport/commands.py:432-434 | decoding the UTF-8 encoding of any text gives the text back |

## Left out

- `ImportCommand.__str__`, `__repr__` and every `dump_str` (lines 56-83, 143-144, 195-205) are debugging
  text, not stream output.
- `iter_files` (lines 207-212): a file iterator, or a callable returning one, is modelled as a finite
  sequence of file sub-commands. A lazy or endless iterator is not modelled.
- `FILE_COMMAND_NAMES`, `FEATURE_NAMES` and the `name` and `_binary` attributes (lines 31-45, 51-54)
  are not used by the rendering.
- `str(file_command)` with `include_file_contents=False`: only `M` defines its own `__str__` (line 306).
  The other sub-commands would render their debugging text. The model renders them by `__bytes__`.
- Lines 186-191, 257, 284 and 330-334 mix `str` and `bytes`. In Python 3 they would raise `TypeError`
  or produce Python's `b'...'` text. The model follows their evident meaning, with every part treated
  as bytes.
- The dataref of `M` is rendered with `"%s" %` (line 332). The model takes it to be the dataref's own
  bytes, not Python's `b'...'` text.
- The `type(path) != bytes` check of `check_path` (line 390) has no counterpart: paths are byte strings
  by their type.
- The leading-slash test `path[0] == b"/"` (line 388) compares an integer with bytes in Python 3, so it
  never holds there. The model rejects a leading `/`, as the check evidently intends.
- Integers are unbounded: line numbers, lengths, timestamps and offsets have no fixed width in Python
  either.
- `WhoWhen.FormatOffsetAsWritten` models Python's floating-point true division with exact real
  division. The two agree on the counterexample, where every intermediate value is exact.
- A `committer` of `None` is not modelled: `format_who_when` requires a tuple.
- Commit ids (lines 138-141): `':%s' % mark` formats a bytes mark into a `str`, which in Python 3 is
  the text `:b'2'`. The parser tests (fastimport/tests/test_parser.py:176 and :194) expect the bytes
  `:2` and `@19`. `Commands.MarkId` renders those bytes, not Python's `b'...'` text.
- `FeatureCommand.__bytes__` (lines 227-228) calls `.encode('utf-8')` on the feature name and value.
  The parser hands it bytes (fastimport/tests/test_parser.py:237-238), which have no `encode`. The
  model takes text and encodes it.
- ModifySingleLine: proved for the corrected newline escape. As written, `format_path` keeps a
  newline of the path, so the line is split (see "## Findings").
- FileCommandSingleLine: proved for the corrected newline escape. As written, a path with a newline
  splits `D`, `C`, `R` and `M` across two lines (see "## Findings").
- FirstPathReadBack: proved for the corrected newline escape. As written, a reader meets a raw newline
  inside the quotes.
- QuotedFirstPath: proved for the corrected newline escape, as for `FirstPathReadBack`.
- QuotedPathReadBack: proved for the corrected newline escape. As written, the quoted path holds its
  newlines raw.
- EscapeNewlinesLength: about the corrected escape. As written, the substitution changes no byte.
- EscapeNewlines: the corrected escape. As written, a newline is replaced by a newline.
- FormatPath: the corrected rendering. `Paths.FormatPathAsWritten` is the rendering as written.
- FormatPathNotInjective: about the corrected escape. As written, rendering is injective
  (`Paths.FormatPathAsWrittenInjective`).
- `errors.py`, `parser.py` and the tests are not part of this model.

## Findings

| source | as written | input that shows it | evidently intended | confidence | as-written member | corrected member |
|---|---|---|---|---|---|---|
| fastimport/commands.py:417-418 | `offset / 3600` and `offset / 60 - offset_hours * 60` use true division, so the minutes term is always zero and `%02d` drops the minutes | a committer in UTC+05:30 (offset 19800) renders `+0500`, which reads back as 18000 | integer division: `+0530`, which reads back as 19800 | high, not executed | `WhoWhen.HalfHourOffsetAsWritten` | `WhoWhen.OffsetRoundTrip` |
| fastimport/commands.py:191-193 | the final join leaves out `author_section`, which is computed on lines 153-159 | any commit with an author renders the same as without one | the author lines between the mark line and the committer line | high, not executed | `Commands.AsWrittenDropsAuthors` | `Commands.AuthorsReachOutput` |
| fastimport/commands.py:399 | `re.sub(b'\n', b'\\n', p)` processes the backslash escape of its replacement, so each newline is replaced by a newline | deleting the path `a<LF>b` renders `D "a<LF>b"`, which a line reader splits into `D "a` and `b"` | each newline written as `\` `n` inside the quotes: `D "a\nb"`, one line | high, not executed | `FileCommands.AsWrittenDeleteSpansTwoLines` | `Paths.FormatPath` |
| fastimport/commands.py:190 | `"".join(...)` puts nothing between the rendered file sub-commands, and none of them ends with a newline | deleting `a` and then `b` gives `D aD b`, one line | each sub-command on a line of its own | high, not executed | `Commands.AsWrittenFilesRunTogether` | `Commands.FileCommandsLines` |
| fastimport/commands.py:191 | `b"commit " + self.ref` has no newline after the ref | a commit with ref `refs/heads/master` and mark `1` starts with the line `commit refs/heads/mastermark :1` | the line `commit <ref>`, then the mark line | high, not executed | `Commands.AsWrittenRefRunsIntoMark` | `Commands.CommitFirstLine` |
