# Translation file synchronisation and import, modelled in Dafny

The repository keeps PHP localisation files in which every entry reads
`Transl::KEY => 'value',`. Two Node scripts maintain them:

- `sync-translations.js` reads the zh (reference) file and, for every target language,
  the file of the same name. It extracts the entries of both with a regular expression.
  It inserts a line `    Transl::KEY => '', // <zh text>` before the last `];` for
  every zh key the target lacks. It also collects a report of the keys that are missing
  or empty.
- `import-translations-simple.js` takes the translations from that report. For every key
  in order, it replaces the first `KEY => ''` of a PHP file with the translation, with
  single quotes escaped. It counts the replacements per file and per language.

The model has six modules:

- `Text` (`text.dfy`): JavaScript's `indexOf`, `includes`, `lastIndexOf` and `join` on
  strings.
- `Extractor` (`extractor.dfy`): the regular expression as a deterministic matcher
  (`MatchAt`), the `exec` loop (`ParsePhpTranslations`, specified by `Scan`), and the
  table it builds: a JavaScript object with its enumeration order.
- `Differ` (`differ.dfy`): the missing-key loop and the report loop of `processFile`.
- `Splicer` (`splicer.dfy`): `addMissingTranslations` on the file's text.
- `Sync` (`sync.dfy`): the body of `processFile` for one language.
- `Importer` (`importer.dfy`): quote escaping, first-occurrence replacement, and the
  per-file and per-language substitution loops.

Strings are sequences of Unicode scalar values. JavaScript strings are UTF-16 code
units, but no operation modelled here can observe the difference: the pattern, the
markers and the escapes are all ASCII, and splits happen only next to them. File
contents are inputs, and the text that would be written back is an output.

## Model

| member | source | states |
|---|---|---|
| Extractor.MatchAt | ai_tools/AmazonQ/transl/sync-translations.js:22 | a match at `i` ends inside the text, and its key is a non-empty run of `[A-Z_0-9]`, its quote is `'` or `"`, and its value never holds that quote unescaped and has no dangling backslash |
| Extractor.MatchAtSound | ai_tools/AmazonQ/transl/sync-translations.js:22 | whatever the matcher finds at `i` is text of the pattern's shape: `Transl::`, key, white space, `=>`, white space, quote, value, the same quote |
| Extractor.MatchAtComplete | ai_tools/AmazonQ/transl/sync-translations.js:22 | every text of the pattern's shape at `i` is found by the matcher, with exactly that key, quote, value and end, so the matcher is the pattern |
| Extractor.CloseQuoteComplete | ai_tools/AmazonQ/transl/sync-translations.js:22 | the value body ends at the first unescaped copy of the opening quote |
| Extractor.ParsePhpTranslations | ai_tools/AmazonQ/transl/sync-translations.js:17-36 | the `exec` loop builds the table of the successive leftmost non-overlapping matches. The table has each key once. There is one duplicate-key warning for each match whose key was already seen, and each warning names a key of the table |
| Extractor.ScanEntries | ai_tools/AmazonQ/transl/sync-translations.js:22-28 | every scanned entry has a `[A-Z_0-9]+` key and a complete value body for its quote |
| Extractor.ParsedKeysAndValues | ai_tools/AmazonQ/transl/sync-translations.js:22-36 | every key of a parsed table is non-empty and made of `A`-`Z`, `0`-`9` and `_`, and every value is well escaped for some quote (that the value is the raw text between the quotes, escapes kept, is `Extractor.MatchAtSound`) |
| Extractor.PutValid | ai_tools/AmazonQ/transl/sync-translations.js:33 | assigning into the object keeps each key enumerated once; a present key keeps its place and a new key goes last |
| Extractor.CollectValid | ai_tools/AmazonQ/transl/sync-translations.js:25-34 | the table built from any sequence of matches has each key once, and exactly the keys with a value |
| Extractor.CollectDomain | ai_tools/AmazonQ/transl/sync-translations.js:25-34 | a key is in the table exactly when some match captured it |
| Extractor.CollectLastWins | ai_tools/AmazonQ/transl/sync-translations.js:29-33 | when a key repeats, the table holds the value of its last match |
| Extractor.CollectFirstAppearanceOrder | ai_tools/AmazonQ/transl/sync-translations.js:33 | the table enumerates its keys in the order of their first match |
| Extractor.NoPrefixNoEntries | ai_tools/AmazonQ/transl/sync-translations.js:22-36 | text without `Transl::` has no match and yields the empty table |
| Differ.FindMissing | ai_tools/AmazonQ/transl/sync-translations.js:98-103 | the missing table holds exactly the zh keys that the target lacks, each with its zh value, in zh order, and each once |
| Differ.MissingProperties | ai_tools/AmazonQ/transl/sync-translations.js:98-103 | the same facts for the specification of the loop, for any sequence of distinct keys |
| Differ.MissingPartitionsZh | ai_tools/AmazonQ/transl/sync-translations.js:98-103 | the missing keys are disjoint from the target's keys, and every zh key is missing or in the target |
| Differ.ReportUntranslated | ai_tools/AmazonQ/transl/sync-translations.js:107-114 | the accumulator becomes the old one overwritten with one entry for each untranslated zh key |
| Differ.ReportDomain | ai_tools/AmazonQ/transl/sync-translations.js:107-109 | `Transl::KEY` is reported if and only if KEY is a zh key that the target lacks or has as `''` |
| Differ.ReportEntries | ai_tools/AmazonQ/transl/sync-translations.js:109-112 | a reported entry has the zh value as its source and `''` as its translation |
| Differ.ReportKeysQualified | ai_tools/AmazonQ/transl/sync-translations.js:109 | every key written into the accumulator starts with `Transl::` |
| Differ.ReportIsExact | ai_tools/AmazonQ/transl/sync-translations.js:107-114 | for every key: reported if and only if untranslated, and then the accumulator holds `{source: zh value, translation: ''}` |
| Differ.MissingAreReported | ai_tools/AmazonQ/transl/sync-translations.js:98-114 | every missing key is also reported |
| Differ.TranslatedNotReported | ai_tools/AmazonQ/transl/sync-translations.js:108 | a key with a non-empty target value is never reported |
| Splicer.AddMissingTranslations | ai_tools/AmazonQ/transl/sync-translations.js:40-67 | no write and unchanged text when nothing is missing or there is no `];`. Otherwise the text becomes the text before the last `];`, then one line per missing key in order joined by `\n`, then `\n`, then the rest of the text from the last `];` on |
| Splicer.EntryLinesAt | ai_tools/AmazonQ/transl/sync-translations.js:55-58 | line `i` is `    Transl::KEY => '', // VALUE` for the `i`-th missing key and its zh value |
| Splicer.SpliceInverse | ai_tools/AmazonQ/transl/sync-translations.js:61-64 | the text before the insertion point and the text from the marker on are byte-identical, and cutting the block out gives the old text back |
| Splicer.MarkerStaysLast | ai_tools/AmazonQ/transl/sync-translations.js:48-64 | after the splice the same `];` is still the last one, so a later run inserts after the lines inserted now |
| Splicer.EntryLineParses | ai_tools/AmazonQ/transl/sync-translations.js:57 | the extractor reads a generated line back: its first match is the key with an empty single-quoted value |
| Sync.SyncLanguage | ai_tools/AmazonQ/transl/sync-translations.js:93-124 | for one language: the report is extended for the target's parsed table, and the target is spliced with its missing keys if and only if some are missing and it has a `];` |
| Sync.EveryZhKeyCovered | ai_tools/AmazonQ/transl/sync-translations.js:98-103 | every zh key is either read from the target or gets a generated line carrying its zh value |
| Sync.CompleteTargetUntouched | ai_tools/AmazonQ/transl/sync-translations.js:116 | a target that has every zh key gets no missing key, so it is not rewritten |
| Importer.EscapeLength | ai_tools/AmazonQ/transl/import-translations-simple.js:65 | escaping adds exactly one character per single quote |
| Importer.EscapeRoundTrip | ai_tools/AmazonQ/transl/import-translations-simple.js:65 | deleting the backslash of every `\'` in the escaped text gives the translation back |
| Importer.EscapeWellEscaped | ai_tools/AmazonQ/transl/import-translations-simple.js:65 | a translation without backslashes, once escaped, is a value the extractor accepts between single quotes |
| Importer.ReplaceFirstSplices | ai_tools/AmazonQ/transl/import-translations-simple.js:67-68 | no occurrence leaves the text unchanged. Otherwise only the first occurrence is replaced, and the text before and after it is kept |
| Importer.JsReplaceIsLiteral | ai_tools/AmazonQ/transl/import-translations-simple.js:68 | with no `$` in the replacement, JavaScript's `replace` is the literal first-occurrence replacement |
| Importer.DollarTranslationSplicesRest | ai_tools/AmazonQ/transl/import-translations-simple.js:65-68 | for a translation whose only `$` is its last character (and a key without `$`), the replace as written copies the text after `KEY => ''` in place of the closing quote; the literal one writes the entry |
| Importer.ImportFile | ai_tools/AmazonQ/transl/import-translations-simple.js:55-72 | the file's content and counter are the result of the entries applied in order, each checked on the output of the ones before |
| Importer.CountIsHits | ai_tools/AmazonQ/transl/import-translations-simple.js:56-71 | the file counter is the number of keys whose `KEY => ''` was found when checked, so at most the number of keys |
| Importer.NotFoundKeepsContent | ai_tools/AmazonQ/transl/import-translations-simple.js:64-71 | a key whose `KEY => ''` is absent changes neither the content nor the counter |
| Importer.FoundReplacesFirst | ai_tools/AmazonQ/transl/import-translations-simple.js:64-69 | a found key is counted, its first `KEY => ''` becomes `KEY => '<escaped>'`, and the text before and after is kept |
| Importer.EmptyTranslationCounted | ai_tools/AmazonQ/transl/import-translations-simple.js:64-69 | an empty translation leaves the content identical but is counted when found |
| Importer.NoHitsNoChange | ai_tools/AmazonQ/transl/import-translations-simple.js:56-74 | a file with a zero counter is unchanged, so not writing it loses nothing |
| Importer.ImportLanguage | ai_tools/AmazonQ/transl/import-translations-simple.js:51-82 | each file is written back if and only if its counter is positive, every file ends with its substituted content, and the language total is the sum of the file counters |
| Text.IndexOf | ai_tools/AmazonQ/transl/import-translations-simple.js:67-68 | `indexOf`: found exactly when the pattern occurs, at an occurrence with none before it |
| Text.LastIndexOf | ai_tools/AmazonQ/transl/sync-translations.js:48 | `lastIndexOf`: found exactly when the pattern occurs, at an occurrence with none after it |

## Left out

- File system and console: `existsSync`, `readFileSync`, `writeFileSync`, `readdirSync`
  with its `.php` filter, `path.join`, `console.log`/`console.error` and `process.exit`.
  File contents are inputs, and the text that would be written back is an output. The
  duplicate-key messages of the extractor are returned as the list of repeated keys.
- Missing files: `parsePhpTranslations` returns `{}` for a file that does not exist.
  `sync-translations.js:45` then throws when such a file has missing keys. A language
  whose directory is missing is skipped. `Sync.SyncLanguage` takes an existing target
  file.
- Drivers: `main`, the `LANGUAGES` and `zhFiles` loops, and the `languages` loop of the
  import script are not modelled. Nor are the JSON reading and writing of
  `untranslated.json` (library serialisation). The import loop takes the report's entries
  of one language as an ordered list of `(key, {source, translation})` pairs.
- Key order of integer-like keys: JavaScript enumerates array-index keys such as `123`
  (which `[A-Z_0-9]+` allows) first, in numeric order. The tables here keep insertion
  order for every key.
- Importer.ImportFile: every translation is a string. In the source, an entry of
  `untranslated.json` whose `translation` is missing or not a string makes
  `translatedText.replace` throw at `import-translations-simple.js:65`. That ends the
  whole import: files already written stay written, and the current file's
  substitutions are lost. The model has no such error path.
- Importer.ImportLanguage: takes the entries as an ordered list. The report accumulator
  of `Differ.ReportUntranslated` is a `map`, which has no key order. In the source,
  the import follows the key order of `untranslated.json`. That is the order in which
  `processFile` first reported each key (`sync-translations.js:109`, written at line 156;
  read at `import-translations-simple.js:59`). The model does not connect the two orders.
- Importer.DollarTranslationSplicesRest: covers only translations whose only `$` is
  their last character. Other `$` patterns also make JavaScript's replace differ from a
  literal one: `$$` collapses to `$`, `` $` `` inserts the text before the match and `$&`
  inserts the search string. `Importer.Expand` models them all, but no lemma states
  those cases.
- Importer.ImportFile: uses literal replacement. The source's `replace` expands `$`
  patterns; see Findings. `Importer.JsReplaceIsLiteral` shows both agree when the
  replacement has no `$`.
- Importer.EscapeWellEscaped: stated only for translations without a backslash. The
  source escapes only single quotes, so a translation ending in a backslash escapes the
  closing quote it is written before.

## Findings

| source | as written | input that shows it | evidently intended | confidence | as-written member | corrected member |
|---|---|---|---|---|---|---|
| ai_tools/AmazonQ/transl/import-translations-simple.js:65-68 | `phpContent.replace(searchString, replaceString)` treats `replaceString` as a pattern, and `$'` in it expands to the text after the match | a file holding `KEY => ''` followed by more text, and the translation `US$` (whose only `$` is its last character; the lemma covers exactly such translations): the replacement `KEY => 'US$'` ends in `$'`, so the file gets `KEY => 'US` followed by the rest of the file twice, and the closing quote is lost | a literal substitution of the search string, as the import is designed to do, giving `KEY => 'US$'` | high (derived from the ECMAScript `GetSubstitution` rules; not executed) | Importer.DollarTranslationSplicesRest | Importer.ImportFile |
