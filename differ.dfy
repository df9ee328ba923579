/** The two loops of `processFile` in `sync-translations.js` that compare the zh
    (reference) table with the table of one target language: the keys to add to the
    target file, and the entries of the untranslated report. */
module Differ {
  import opened Text
  import opened Extractor

  /** `{ source, translation }` in the untranslated report. */
  datatype ReportEntry = ReportEntry(source: String, translation: String)

  /** The zh keys of `keys`, in their order, that `existing` has no value for. */
  function AbsentKeys(keys: seq<String>, zh: Table, existing: Table): seq<String>
  {
    if keys == [] then []
    else
      var rest := AbsentKeys(keys[..|keys| - 1], zh, existing);
      var key := keys[|keys| - 1];
      if key in zh.values && key !in existing.values then rest + [key] else rest
  }

  /** The table of the keys among `keys` that the target lacks, with their zh values. */
  function Missing(keys: seq<String>, zh: Table, existing: Table): (r: Table)
    ensures r.Valid()
  {
    if keys == [] then EmptyTable
    else
      var rest := Missing(keys[..|keys| - 1], zh, existing);
      var key := keys[|keys| - 1];
      if key in zh.values && key !in existing.values then
        PutValid(rest, key, zh.values[key]);
        rest.Put(key, zh.values[key])
      else rest
  }

  /** `missingKeysForFileUpdate`: every zh key without an own property in the target,
      with its zh value, in zh order. */
  method FindMissing(zh: Table, existing: Table) returns (missing: Table)
    requires zh.Valid()
    ensures missing == Missing(zh.keys, zh, existing)
    ensures missing.Valid() && missing.keys == AbsentKeys(zh.keys, zh, existing)
    ensures forall k :: k in missing.values <==> k in zh.values && k !in existing.values
    ensures forall k :: k in missing.values ==> missing.values[k] == zh.values[k]
  {
    missing := EmptyTable;
    for n := 0 to |zh.keys|
      invariant missing == Missing(zh.keys[..n], zh, existing)
    {
      var key := zh.keys[n];
      var zhValue := zh.values[key];
      assert zh.keys[..n + 1][..n] == zh.keys[..n];
      if key !in existing.values {
        missing := missing.Put(key, zhValue);
      }
    }
    assert zh.keys[..|zh.keys|] == zh.keys;
    MissingProperties(zh.keys, zh, existing);
  }

  /** A key is reported when the target has no value for it or has the empty string. */
  predicate Untranslated(existing: Table, key: String)
  {
    key !in existing.values || existing.values[key] == ""
  }

  /** The report entries that the zh keys in `keys` contribute. */
  function Report(keys: seq<String>, zh: Table, existing: Table): map<String, ReportEntry>
  {
    if keys == [] then map[]
    else
      var key := keys[|keys| - 1];
      var rest := Report(keys[..|keys| - 1], zh, existing);
      if key in zh.values && Untranslated(existing, key)
      then rest[Prefix + key := ReportEntry(zh.values[key], "")]
      else rest
  }

  /** The second loop: one entry `Transl::KEY -> { source, translation }` per
      untranslated zh key, written into the language's accumulator. */
  method ReportUntranslated(zh: Table, existing: Table, summary: map<String, ReportEntry>)
    returns (updated: map<String, ReportEntry>)
    requires zh.Valid()
    ensures updated == summary + Report(zh.keys, zh, existing)
  {
    updated := summary;
    for n := 0 to |zh.keys|
      invariant updated == summary + Report(zh.keys[..n], zh, existing)
    {
      var key := zh.keys[n];
      var zhValue := zh.values[key];
      ReportStep(zh.keys, n, zh, existing);
      if key !in existing.values || existing.values[key] == "" {
        var translation := if key in existing.values then existing.values[key] else "";
        UnionUpdate(summary, Report(zh.keys[..n], zh, existing), Prefix + key, ReportEntry(zhValue, translation));
        updated := updated[Prefix + key := ReportEntry(zhValue, translation)];
      }
    }
    assert zh.keys[..|zh.keys|] == zh.keys;
  }

  // ---------------------------------------------------------------------------
  // Properties of the diff

  lemma ReportStep(keys: seq<String>, n: nat, zh: Table, existing: Table)
    requires n < |keys|
    ensures var key := keys[n];
      Report(keys[..n + 1], zh, existing) ==
        if key in zh.values && Untranslated(existing, key)
        then Report(keys[..n], zh, existing)[Prefix + key := ReportEntry(zh.values[key], "")]
        else Report(keys[..n], zh, existing)
  {
    assert keys[..n + 1][..n] == keys[..n];
  }

  lemma UnionUpdate(a: map<String, ReportEntry>, b: map<String, ReportEntry>, k: String, e: ReportEntry)
    ensures (a + b)[k := e] == a + b[k := e]
  {
  }

  /** The missing table is well formed, lists the absent keys in order, holds exactly
      the keys of `keys` that zh has and the target lacks, and carries their zh values. */
  lemma {:induction false} MissingProperties(keys: seq<String>, zh: Table, existing: Table)
    requires forall p, q :: 0 <= p < q < |keys| ==> keys[p] != keys[q]
    ensures var m := Missing(keys, zh, existing);
      && m.Valid()
      && m.keys == AbsentKeys(keys, zh, existing)
      && (forall k :: k in m.values <==> k in keys && k in zh.values && k !in existing.values)
      && (forall k :: k in m.values ==> k in zh.values && m.values[k] == zh.values[k])
  {
    if keys != [] {
      var init := keys[..|keys| - 1];
      var key := keys[|keys| - 1];
      MissingProperties(init, zh, existing);
      assert keys == init + [key];
      assert key !in init by {
        forall p | 0 <= p < |init| ensures init[p] != key {
          assert keys[p] != keys[|keys| - 1];
        }
      }
      var rest := Missing(init, zh, existing);
      if key in zh.values && key !in existing.values {
        PutValid(rest, key, zh.values[key]);
      }
    }
  }

  /** None of the missing keys is a key of the target, and every zh key is either in
      the target or missing. */
  lemma MissingPartitionsZh(zh: Table, existing: Table)
    requires zh.Valid()
    ensures var m := Missing(zh.keys, zh, existing);
      && m.values.Keys !! existing.values.Keys
      && zh.values.Keys <= m.values.Keys + existing.values.Keys
  {
    MissingProperties(zh.keys, zh, existing);
  }

  lemma {:induction false} ReportDomain(keys: seq<String>, zh: Table, existing: Table, key: String)
    ensures Prefix + key in Report(keys, zh, existing)
        <==> key in keys && key in zh.values && Untranslated(existing, key)
  {
    if keys != [] {
      var last := keys[|keys| - 1];
      ReportDomain(keys[..|keys| - 1], zh, existing, key);
      assert keys == keys[..|keys| - 1] + [last];
      PrefixInjective(key, last);
    }
  }

  lemma {:induction false} ReportEntries(keys: seq<String>, zh: Table, existing: Table, key: String)
    requires Prefix + key in Report(keys, zh, existing)
    ensures key in zh.values && Report(keys, zh, existing)[Prefix + key] == ReportEntry(zh.values[key], "")
  {
    var last := keys[|keys| - 1];
    PrefixInjective(key, last);
    if Prefix + key != Prefix + last || !(last in zh.values && Untranslated(existing, last)) {
      ReportEntries(keys[..|keys| - 1], zh, existing, key);
    }
  }

  /** Only qualified keys `Transl::KEY` are written into the accumulator. */
  lemma {:induction false} ReportKeysQualified(keys: seq<String>, zh: Table, existing: Table, qk: String)
    requires qk in Report(keys, zh, existing)
    ensures |Prefix| <= |qk| && qk[..|Prefix|] == Prefix
    ensures Prefix + qk[|Prefix|..] == qk
  {
    var last := keys[|keys| - 1];
    if qk != Prefix + last {
      ReportKeysQualified(keys[..|keys| - 1], zh, existing, qk);
    }
  }

  lemma PrefixInjective(a: String, b: String)
    ensures Prefix + a == Prefix + b <==> a == b
  {
    if Prefix + a == Prefix + b {
      assert a == (Prefix + a)[|Prefix|..];
    }
  }

  /** The report for a zh table: `Transl::KEY` is reported exactly when KEY is a zh key
      that the target lacks or leaves empty; the source is the zh value and the
      translation is always empty. (That no other key of the accumulator changes follows
      from `ReportUntranslated`'s `summary + Report(...)` with `ReportKeysQualified`.) */
  lemma ReportIsExact(zh: Table, existing: Table, summary: map<String, ReportEntry>, key: String)
    requires zh.Valid()
    ensures var updated := summary + Report(zh.keys, zh, existing);
      && (Prefix + key in Report(zh.keys, zh, existing) <==> key in zh.values && Untranslated(existing, key))
      && (key in zh.values && Untranslated(existing, key) ==>
            Prefix + key in updated && updated[Prefix + key] == ReportEntry(zh.values[key], ""))
  {
    ReportDomain(zh.keys, zh, existing, key);
    if key in zh.values && Untranslated(existing, key) {
      ReportEntries(zh.keys, zh, existing, key);
    }
  }

  /** Every missing key is also reported. */
  lemma MissingAreReported(zh: Table, existing: Table, key: String)
    requires zh.Valid() && key in zh.values && key !in existing.values
    ensures Prefix + key in Report(zh.keys, zh, existing)
  {
    ReportDomain(zh.keys, zh, existing, key);
  }

  /** A key whose target value is non-empty is never reported. */
  lemma TranslatedNotReported(zh: Table, existing: Table, key: String)
    requires key in existing.values && existing.values[key] != ""
    ensures Prefix + key !in Report(zh.keys, zh, existing)
  {
    ReportDomain(zh.keys, zh, existing, key);
  }
}
