# django-autotranslate: the `.po` rewriter and its file selection

This project models the core of django-autotranslate's `translate_messages`
management command:

- `Command.translate_file` reads a gettext `.po` catalog as a list of lines.
  - It collects the text between the first and the last `"` of every line that begins with `msgid`.
  - It remembers every line that begins with `msgstr` by its index.
  - It sends the collected strings to a translation service in one call.
  - It gives the k-th `msgstr` line, in ascending line order, the k-th translation. The translation goes between the line's part before its first quote and its part after its last quote.
  - It writes every other line back unchanged.
- `Command.handle` checks the `USE_I18N` and `LOCALE_PATHS` settings, then walks every locale path.
  - The target language of a file is the name of its directory's parent, e.g. `de` for `locale/de/LC_MESSAGES/django.po`.
  - When a locale filter is given, files in other languages are skipped.
  - Every other file is translated in walk order.
  - The whole command returns at the first file whose name does not end in `.po`.

The modules:

- `Wrappers`: the `Result` type standing in for a raised exception.
- `Lines`: `readlines()` and the writing of a list of lines, with their round trip for lines as `readlines()` returns them.
- `Quotes`: Python's `line.split('"')` and `'"'.join(...)` on strings. It also holds the quoted body taken out of a `msgid` line and the splice of a translation into a `msgstr` line, with their round trip.
- `Catalog`: `translate_file`.
  - `TranslateFileSpec` and `RewrittenFile` say what the command writes.
  - The method `TranslateFile` and its four loops are proved against them:
    - `ScanLines`: the scan.
    - `SortedKeys`: the key sort.
    - `SpliceTranslations`: the injection loop with its index counter.
    - `EmitLines`: the output loop.
- `Selection`: `handle`.
  - `Entries` is the order in which the three nested loops visit files.
  - `Jobs` is the files translated, with the `.po` stop and the locale filter.
  - `Run` (with `RunFrom` for the step after each job) runs those jobs over a disk until one raises.
  - `HandleSpec` is the whole command.
  - `Handle` is proved against `HandleSpec`. Each loop level is its own method: `TranslateFiles`, `TranslateWalk` and the locale-path loop in `Handle`.

The file system, `os.walk` and the translation service are parameters:

- A `Disk` maps a `(root, name)` pair to the file's lines.
- A `Walker` gives the `(root, files)` steps of a walk.
- A `Translator` is a total function from the strings, the target language and the source language to a list of strings.

Too few translations for the `msgstr` lines raise `IndexError` in the source. This happens before the file is opened for writing. The model gives this as `Failure(TranslationMissing(n))`. It aborts the command, and the files translated before stay written. This is not a precondition, because the program does not demand it of its callers: it fails.

The failed settings assertions are modelled the same way, as the `I18nDisabled` and `LocalePathsMissing` outcomes.

This version of the command has no placeholder protection, plural slots or fuzzy flag. It rewrites lines by their prefix.

## Model

| member | source | states |
|---|---|---|
| Quotes.Split | autotranslate/management/commands/translate_messages.py:94 | definition of `line.split('"')`: the maximal quote-free pieces between quotes, an empty piece at each end or between adjacent quotes, never fewer than one piece |
| Quotes.Join | autotranslate/management/commands/translate_messages.py:97 | definition of `'"'.join(pieces)`: the pieces with one quote between neighbours, nothing around them |
| Quotes.Head | autotranslate/management/commands/translate_messages.py:94-95 | definition of `pieces[0]`: the part of the line before its first quote, or the whole line if it has none |
| Quotes.Tail | autotranslate/management/commands/translate_messages.py:94-95 | definition of `pieces[-1]`: the part of the line after its last quote, or the whole line if it has none |
| Quotes.QuotedBody | autotranslate/management/commands/translate_messages.py:73 | definition of `'"'.join(line.split('"')[1:-1])`: the join of the inner pieces, empty when the list has fewer than two pieces because `[1:-1]` of a one-piece list is empty |
| Quotes.Rewrite | autotranslate/management/commands/translate_messages.py:94-97 | definition of the splice: the first and last pieces of the split with the translation inserted between them, joined with quotes |
| Quotes.CountConcat | autotranslate/management/commands/translate_messages.py:94-97 | the quotes of a concatenation are the quotes of its parts; used to count the two quotes the splice adds |
| Quotes.SplitLength | autotranslate/management/commands/translate_messages.py:94 | a line with n quotes splits into n + 1 pieces |
| Quotes.SplitPiecesQuoteFree | autotranslate/management/commands/translate_messages.py:94 | no piece of a split contains a quote |
| Quotes.JoinSplit | autotranslate/management/commands/translate_messages.py:94-97 | joining the pieces of a split with quotes gives the line back |
| Quotes.SplitOfQuoteFree | autotranslate/management/commands/translate_messages.py:94 | a quote-free string splits into itself alone |
| Quotes.SplitConcat | autotranslate/management/commands/translate_messages.py:94 | splitting distributes over a quote between two strings |
| Quotes.JoinConcat | autotranslate/management/commands/translate_messages.py:97 | joining two non-empty lists of pieces is joining each with a quote between |
| Quotes.JoinOuter | autotranslate/management/commands/translate_messages.py:73 | joining three or more pieces with quotes is the first piece, a quote, the join of the inner pieces, a quote and the last piece |
| Quotes.Anatomy | autotranslate/management/commands/translate_messages.py:73 | the prefix before the first quote and the suffix after the last are quote-free; with two or more quotes the line is prefix, quote, extracted body (inner quotes kept), quote, suffix; with fewer than two the extracted body is empty; with none prefix and suffix are the whole line |
| Quotes.RewriteKeepsFrame | autotranslate/management/commands/translate_messages.py:94-97 | a rewritten line is prefix + quote + text + quote + suffix of the old line, and reading it back gives that same prefix, suffix and exactly the text as its body |
| Quotes.RoundTrip | autotranslate/management/commands/translate_messages.py:94-97 | splicing a line's own extracted body (line 73) back into it reproduces the line if and only if it has at least two quotes |
| Quotes.RewriteQuotes | autotranslate/management/commands/translate_messages.py:94-97 | a rewritten line has at least two quotes, even when the line it came from had none |
| Quotes.RewriteLastWins | autotranslate/management/commands/translate_messages.py:94-98 | splicing twice equals splicing once with the second text |
| Quotes.HeadKeepsPrefix | autotranslate/management/commands/translate_messages.py:94 | a quote-free prefix of a line is a prefix of its part before the first quote |
| Quotes.RewriteKeepsPrefix | autotranslate/management/commands/translate_messages.py:94-97 | a quote-free prefix such as `msgstr` survives the splice |
| Catalog.Extracted | autotranslate/management/commands/translate_messages.py:65-73 | definition of the `strings` list: the quoted body of each line beginning with `msgid`, appended in file order |
| Catalog.TranslateFileSpec | autotranslate/management/commands/translate_messages.py:54-107 | definition of one call: translate the extracted strings into the target language from `en` in one call; fail with the index error before writing when fewer translations than `msgstr` lines come back, else the rewritten file |
| Catalog.TaggedIndices | autotranslate/management/commands/translate_messages.py:74-79 | every recorded index is a line of the file that begins with the tag |
| Catalog.TaggedIndicesExact | autotranslate/management/commands/translate_messages.py:74-79 | the recorded indices ascend, and an index is recorded if and only if its line begins with the tag |
| Catalog.MsgstrIndicesExact | autotranslate/management/commands/translate_messages.py:74-79 | the sorted keys of `translations` are exactly the indices of the `msgstr` lines, ascending |
| Catalog.TaggedIndicesOfPrefix | autotranslate/management/commands/translate_messages.py:69-79 | scanning a prefix of the file records a prefix of the file's indices |
| Catalog.TaggedIndicesAgree | autotranslate/management/commands/translate_messages.py:70-79 | the recorded indices depend only on which lines begin with the tag |
| Catalog.RankLocates | autotranslate/management/commands/translate_messages.py:89-99 | the number of `msgstr` lines before a `msgstr` line is its position among the sorted keys, so it is the counter value at which it is spliced |
| Catalog.SortedUnique | autotranslate/management/commands/translate_messages.py:89-90 | two ascending lists with the same elements are equal, so the sort fixes the order of the keys |
| Catalog.SortedKeys | autotranslate/management/commands/translate_messages.py:89-90 | the keys come out strictly ascending and are exactly the keys of `translations` |
| Catalog.ScanLines | autotranslate/management/commands/translate_messages.py:65-79 | `strings` is the quoted body of each `msgid` line in file order; `translations` maps exactly the indices of the `msgstr` lines to those lines |
| Catalog.SpliceTranslations | autotranslate/management/commands/translate_messages.py:92-99 | it fails with the index error exactly when there are fewer translations than keys; otherwise the k-th key's line has the k-th translation spliced in, and every other entry and the key set are unchanged |
| Catalog.EmitLines | autotranslate/management/commands/translate_messages.py:101-107 | one output line per input line: the recorded line at a recorded index, the read line elsewhere |
| Catalog.RewrittenFile | autotranslate/management/commands/translate_messages.py:101-107 | the list of lines written has as many entries as the list read, and every line that is not a `msgstr` line is unchanged and in place |
| Catalog.TranslateFile | autotranslate/management/commands/translate_messages.py:54-107 | the scan, one translator call with the target language and `en`, the sort, the splice and the emit together produce exactly `TranslateFileSpec`: the rewritten file, or the index error when translations run out |
| Catalog.ExtractedIsMsgidBodies | autotranslate/management/commands/translate_messages.py:69-73 | the extracted strings are exactly the quoted bodies of the lines beginning with `msgid` (including `msgid_plural`), one each, in file order |
| Catalog.ExtractedConcat | autotranslate/management/commands/translate_messages.py:69-73 | extraction goes line by line: the strings of a file are those of its parts, in order |
| Catalog.ExtractedIgnores | autotranslate/management/commands/translate_messages.py:69-73 | a line that does not begin with `msgid` contributes nothing, quoted or not |
| Catalog.PositionalPairing | autotranslate/management/commands/translate_messages.py:89-99 | the k-th `msgstr` line in ascending order is written as that line with the k-th translation spliced in, whatever its content |
| Catalog.MsgstrIsNotMsgid | autotranslate/management/commands/translate_messages.py:70-74 | no line is both a `msgid` and a `msgstr` line |
| Catalog.RewrittenKeepsStructure | autotranslate/management/commands/translate_messages.py:92-107 | the list of lines written has the same `msgstr` lines and the same `msgid` strings, and the bodies of its `msgstr` lines are the translations they received, in order |
| Catalog.OwnBodiesIdentity | autotranslate/management/commands/translate_messages.py:94-97 | giving every `msgstr` line its own quoted body leaves the file unchanged if and only if every `msgstr` line has at least two quotes |
| Lines.ReadLines | autotranslate/management/commands/translate_messages.py:68 | definition of `readlines()`: the text cut after every newline, the newline kept on its line, a last line without a newline kept as it is, no empty line |
| Lines.Concat | autotranslate/management/commands/translate_messages.py:101-107 | definition of the text the output loop writes: the lines one after another, in order, with nothing added |
| Lines.FirstLineLength | autotranslate/management/commands/translate_messages.py:68 | the first line of a non-empty text is non-empty and within the text |
| Lines.FirstLineOfWellFormed | autotranslate/management/commands/translate_messages.py:68 | a line ending in its only newline is the whole first line of any text it begins |
| Lines.FirstLineOfFinal | autotranslate/management/commands/translate_messages.py:68 | a non-empty line with no newline before its end is the whole first line of its own text, whether or not it ends in a newline |
| Lines.ReadConcat | autotranslate/management/commands/translate_messages.py:101-107 | writing lines as `readlines()` returns them (each but the last ending in its only newline, the last with no newline before its end) and reading the file back with `readlines()` gives the same lines |
| Catalog.RewriteKeepsLine | autotranslate/management/commands/translate_messages.py:94-97 | splicing a newline-free translation into a line that has a quote and ends in its only newline gives such a line again |
| Catalog.RewriteKeepsLastLine | autotranslate/management/commands/translate_messages.py:94-97 | splicing a newline-free translation into a newline-free line gives a newline-free, non-empty last line, with or without quotes in the line |
| Catalog.WrittenFileReadsBack | autotranslate/management/commands/translate_messages.py:67-107 | when the lines are as `readlines()` returns them, every `msgstr` line that ends in a newline has a quote and no translation holds a newline, the written text reads back as exactly the rewritten lines, as many as were read |
| Catalog.QuoteFreeMsgstrBreaksLine | autotranslate/management/commands/translate_messages.py:94-107 | a `msgstr` line without a quote gets the translation after its newline, so the file read back holds that line and then a second line, the quoted translation followed by the line again |
| Selection.Dirname | autotranslate/management/commands/translate_messages.py:47 | definition of `posixpath.dirname`: everything up to the last `/`, with trailing slashes stripped unless it is all slashes |
| Selection.Basename | autotranslate/management/commands/translate_messages.py:47 | definition of `posixpath.basename`: everything after the last `/` |
| Selection.TargetLanguage | autotranslate/management/commands/translate_messages.py:47 | definition of the target language: the basename of the dirname of the walk's root |
| Selection.Entries | autotranslate/management/commands/translate_messages.py:36-40 | definition of the visiting order: for each locale path in order, each `(root, files)` step of its walk in order, each file of the step in order |
| Selection.Jobs | autotranslate/management/commands/translate_messages.py:39-52 | definition of the files translated: in visiting order, those whose language the locale filter (empty means all) lets through, stopping before the first file whose name does not end in `.po` |
| Selection.TranslateJob | autotranslate/management/commands/translate_messages.py:52 | definition of one `translate_file` call on the disk: a missing file fails, a failing rewrite fails with its error, otherwise only that file is replaced by `TranslateFileSpec` of its lines |
| Selection.Run | autotranslate/management/commands/translate_messages.py:36-52 | definition of running jobs: each in order on the disk the previous one left, stopping with the disk as it stands at the first one that raises |
| Selection.HandleSpec | autotranslate/management/commands/translate_messages.py:30-52 | definition of the command: fail the `USE_I18N` assertion, else the `LOCALE_PATHS` assertion, else run the selected jobs of the walk |
| Selection.ComponentStart | autotranslate/management/commands/translate_messages.py:47 | the last path component starts within the path |
| Selection.ComponentStartAfter | autotranslate/management/commands/translate_messages.py:47 | after a separator, a separator-free component is the last component |
| Selection.LanguageFromPath | autotranslate/management/commands/translate_messages.py:47 | the target language of `<parent>/<language>/<leaf>` is `<language>` |
| Selection.TranslateOnDisk | autotranslate/management/commands/translate_messages.py:52 | one `translate_file` call: a missing file fails, a failing rewrite fails with its error, otherwise only that file is replaced by its rewrite |
| Selection.TranslateFiles | autotranslate/management/commands/translate_messages.py:40-52 | the loop over one directory's files continues the command exactly as running the selected jobs of those files and then the rest would, or returns with that run's outcome |
| Selection.TranslateWalk | autotranslate/management/commands/translate_messages.py:39-52 | the loop over the directories of one walk continues the command exactly as running the selected jobs of those directories and then the rest would |
| Selection.Handle | autotranslate/management/commands/translate_messages.py:30-52 | the disk written and the outcome are those of `HandleSpec`: the failed settings assertions, else the selected jobs run in walk order until one raises |
| Selection.JobsSound | autotranslate/management/commands/translate_messages.py:39-52 | every translated file is a `.po` file of the walk, the locale filter lets its language through, and it is translated into the language its path names |
| Selection.RunFrame | autotranslate/management/commands/translate_messages.py:36-52 | running jobs creates and removes no file and leaves every file no job names as it was, whether the run completes or aborts |
| Selection.HandleFrame | autotranslate/management/commands/translate_messages.py:30-52 | the command creates and removes no file, and leaves unchanged every file the walk does not reach and every file whose language the filter excludes |
| Selection.JobsAppend | autotranslate/management/commands/translate_messages.py:36-52 | as long as every earlier file is a `.po` file, the selection over two parts of the walk is the selection over each |
| Selection.RunAppend | autotranslate/management/commands/translate_messages.py:36-52 | running two lists of jobs is running the first and, only if it completed, the second on its result |
| Selection.StopsAtFirstNonPo | autotranslate/management/commands/translate_messages.py:41-44 | nothing at or after the first file not ending in `.po` is ever translated, in any later directory or locale path |
| Selection.SelectsExactlyWanted | autotranslate/management/commands/translate_messages.py:49-50 | when every file is a `.po` file, a file is translated if and only if the locale filter (empty means all) lets its language through |

## Left out

- Disk I/O (`open`, `readlines`, `write`): a catalog is its list of lines and the disk is a map from `(root, name)` to lines. Encoding, permissions and a failure in the middle of writing are not modelled.
- The disk keeps the list of lines written, not their concatenated text. A later read cuts that text again at newlines, so the two agree at least under the conditions of `Catalog.WrittenFileReadsBack`. A quote-free `msgstr` line or a translation holding a newline adds lines on the next read, as `Catalog.QuoteFreeMsgstrBreaksLine` shows.
- Text mode's newline translation (CRLF read as LF) is not modelled: a line "unchanged" in the model is unchanged after that translation, not byte for byte.
- Two `(root, name)` pairs that name the same file, such as those from `LOCALE_PATHS = ['locale', './locale']`, are two independent disk entries here. In the program the second job reads the file the first one rewrote, and `Selection.RunFrame` and `Selection.HandleFrame` do not cover that aliasing.
- Paths follow `posixpath` (separator `/` only). On Windows `os.path` is `ntpath`, with `\` and drive letters, which is not modelled.
- `os.walk` is a parameter giving the `(root, files)` steps in walk order. Its order, its `dirs` list and the file system behind it are not modelled.
- `os.path.join(root, file)` is modelled by the `(root, name)` pair and not as a string.
- `translate_strings` from `autotranslate/utils.py`, and `autotranslate/services.py` behind it, are modelled as an opaque total function. A translator that raises (a network or service error propagating out of `translate_file` and `handle`, after earlier files were already written) is not modelled by this total function; only the too-few-translations error is. The network, the module-level client, chunking and the `optimized` flag are not part of this model.
- Placeholder humanizing and restoring, `get_strings_to_translate`, `update_translations`, the fuzzy flag, skipping already translated entries and batching are not modelled. The tests import them, but `translate_messages.py` at this version does not define them.
- The settings are the two values the command reads. The assertions are outcomes, not Python's `AssertionError` machinery, and running with `-O` (which drops them) is not modelled.
- The `print` at line 63 and the option declarations at lines 15-28 carry no behaviour to model.
- `autotranslate/compat.py`, `setup.py` and the test modules are not part of this model.
- The locale option is a list of strings. An absent option (`None`) behaves like the empty list, which the model covers.
- Selection.TranslateOnDisk: a missing file fails with `FileMissing`. Python would raise `FileNotFoundError` from `open`, and which exception class is not modelled.
