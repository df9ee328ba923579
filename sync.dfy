/** One language in `processFile` of `sync-translations.js`: the target file is read
    with the extractor, compared with the zh table, reported on, and completed with
    the missing keys. */
module Sync {
  import opened Text
  import opened Extractor
  import opened Differ
  import opened Splicer

  /** The body of `LANGUAGES.forEach` for a language whose target file exists, given the
      zh table, the target file's text and the language's report accumulator. */
  method SyncLanguage(zh: Table, target: String, summary: map<String, ReportEntry>)
    returns (updated: String, written: bool, newSummary: map<String, ReportEntry>)
    requires zh.Valid()
    ensures var existing := Collect(Scan(target, 0));
      var missing := Missing(zh.keys, zh, existing);
      && newSummary == summary + Report(zh.keys, zh, existing)
      && (written <==> |missing.keys| > 0 && Contains(target, Marker))
      && (!written ==> updated == target)
      && (written ==> updated == Splice(target, LastIndexOf(target, Marker).value, Block(missing)))
  {
    var existingTranslations, _ := ParsePhpTranslations(target);
    var missingKeysForFileUpdate := FindMissing(zh, existingTranslations);
    newSummary := ReportUntranslated(zh, existingTranslations, summary);
    if |missingKeysForFileUpdate.keys| > 0 {
      updated, written := AddMissingTranslations(target, missingKeysForFileUpdate);
    } else {
      updated, written := target, false;
    }
  }

  /** After the splice every zh key is either read from the target or has a generated
      line, in the inserted block, carrying its zh value. */
  lemma EveryZhKeyCovered(zh: Table, existing: Table, key: String)
    requires zh.Valid() && key in zh.values
    ensures var missing := Missing(zh.keys, zh, existing);
      var lines := EntryLines(missing.keys, missing.values);
      || key in existing.values
      || exists i :: 0 <= i < |lines| && lines[i] == EntryLine(key, zh.values[key])
  {
    var missing := Missing(zh.keys, zh, existing);
    MissingProperties(zh.keys, zh, existing);
    if key !in existing.values {
      EntryLinesAt(missing.keys, missing.values);
      var i :| 0 <= i < |missing.keys| && missing.keys[i] == key;
      assert EntryLines(missing.keys, missing.values)[i] == EntryLine(key, zh.values[key]);
    }
  }

  /** A target that already has every zh key is left as it is. */
  lemma CompleteTargetUntouched(zh: Table, existing: Table)
    requires zh.Valid()
    requires forall k :: k in zh.values ==> k in existing.values
    ensures |Missing(zh.keys, zh, existing).keys| == 0
  {
    var missing := Missing(zh.keys, zh, existing);
    MissingProperties(zh.keys, zh, existing);
  }
}
