/** `addMissingTranslations` of `sync-translations.js`: the missing keys are written as
    new lines, with an empty value and the zh text as a comment, just before the last
    `];` of the target file, and nothing else of the file changes. */
module Splicer {
  import opened Text
  import opened Extractor

  /** The end marker of the PHP array. */
  const Marker: String := "];"

  /** The line `    Transl::KEY => '', // zhValue`. */
  function EntryLine(key: String, zhValue: String): String
  {
    "    " + Prefix + key + " => '', // " + zhValue
  }

  /** `newLines`: one line per key of `keys`, in order. */
  function EntryLines(keys: seq<String>, values: map<String, String>): seq<String>
    requires forall k :: k in keys ==> k in values
  {
    if keys == [] then []
    else EntryLines(keys[..|keys| - 1], values) + [EntryLine(keys[|keys| - 1], values[keys[|keys| - 1]])]
  }

  /** The text inserted before the marker: the lines joined by newlines, plus one. */
  function Block(missing: Table): String
    requires missing.Valid()
  {
    Join(EntryLines(missing.keys, missing.values), "\n") + "\n"
  }

  /** `content` with `block` inserted at index `p`. */
  function Splice(content: String, p: nat, block: String): String
    requires p <= |content|
  {
    content[..p] + block + content[p..]
  }

  /** `addMissingTranslations(filePath, missingTranslations)` on the file's text:
      `written` tells whether the file is written back with `updated`. */
  method AddMissingTranslations(content: String, missing: Table) returns (updated: String, written: bool)
    requires missing.Valid()
    ensures !written ==> updated == content
    ensures written <==> |missing.keys| > 0 && Contains(content, Marker)
    ensures written ==>
      updated == Splice(content, LastIndexOf(content, Marker).value, Block(missing))
  {
    if |missing.keys| == 0 {
      return content, false;
    }
    var lastBracketIndex := LastIndexOf(content, Marker);
    if lastBracketIndex.None? {
      return content, false;
    }
    var newLines: seq<String> := [];
    for n := 0 to |missing.keys|
      invariant newLines == EntryLines(missing.keys[..n], missing.values)
    {
      var key := missing.keys[n];
      assert missing.keys[..n + 1][..n] == missing.keys[..n];
      newLines := newLines + [EntryLine(key, missing.values[key])];
    }
    assert missing.keys[..|missing.keys|] == missing.keys;
    var p := lastBracketIndex.value;
    var beforeBracket := content[..p];
    var afterBracket := content[p..];
    updated := beforeBracket + Join(newLines, "\n") + "\n" + afterBracket;
    written := true;
  }

  // ---------------------------------------------------------------------------
  // Properties of the splice

  /** One line per missing key, in the order of the table, carrying its zh value. */
  lemma {:induction false} EntryLinesAt(keys: seq<String>, values: map<String, String>)
    requires forall k :: k in keys ==> k in values
    ensures |EntryLines(keys, values)| == |keys|
    ensures forall i :: 0 <= i < |keys| ==> EntryLines(keys, values)[i] == EntryLine(keys[i], values[keys[i]])
  {
    if keys != [] {
      var init := keys[..|keys| - 1];
      EntryLinesAt(init, values);
    }
  }

  /** Cutting the inserted block out of the new text gives the old text back: the text
      before the insertion point and the text from the marker on are unchanged. */
  lemma SpliceInverse(content: String, p: nat, block: String)
    requires p <= |content|
    ensures var u := Splice(content, p, block);
      && |u| == |content| + |block|
      && u[..p] == content[..p]
      && u[p..p + |block|] == block
      && u[p + |block|..] == content[p..]
      && u[..p] + u[p + |block|..] == content
  {
    var u := Splice(content, p, block);
    assert u[..p] == content[..p];
    assert u[p..p + |block|] == block;
    assert u[p + |block|..] == content[p..];
  }

  /** After the block, the new text is the old text shifted by the block's length. */
  lemma SliceAfterBlock(content: String, p: nat, block: String, j: nat, n: nat)
    requires p <= |content| && p + |block| <= j && j + n <= |content| + |block|
    ensures Splice(content, p, block)[j..j + n] == content[j - |block|..j - |block| + n]
  {
    var u := Splice(content, p, block);
    forall k | j <= k < j + n
      ensures u[k] == content[k - |block|]
    {
      assert u[k] == content[p..][k - p - |block|];
    }
  }

  /** The marker that the block was inserted before is still the last one, so a later
      run inserts its lines at the same place, after the ones inserted now. */
  lemma MarkerStaysLast(content: String, p: nat, block: String)
    requires LastIndexOf(content, Marker) == Some(p)
    ensures LastIndexOf(Splice(content, p, block), Marker) == Some(p + |block|)
  {
    var u := Splice(content, p, block);
    SliceAfterBlock(content, p, block, p + |block|, 2);
    assert OccursAt(u, Marker, p + |block|);
    forall j: nat | p + |block| < j
      ensures !OccursAt(u, Marker, j)
    {
      if j + 2 <= |u| {
        SliceAfterBlock(content, p, block, j, 2);
        assert !OccursAt(content, Marker, j - |block|);
      }
    }
  }

  /** A space is never where the pattern starts. */
  lemma NoMatchAtSpace(s: String, j: nat)
    requires j < |s| && s[j] == ' '
    ensures MatchAt(s, j) == None
  {
  }

  /** The part of a generated line from `Transl::` to the closing quote is what the
      pattern describes for the key and the empty value. */
  lemma EntryLineShaped(key: String, zhValue: String)
    requires IsKey(key)
    ensures ShapedAt(EntryLine(key, zhValue), 4, Match(key, '\'', "", 4 + |Prefix| + |key| + 6))
  {
    var line := EntryLine(key, zhValue);
    var entry := EntryText(key, " ", " ", '\'', "");
    assert line == "    " + entry + ", // " + zhValue;
    assert line[4..4 + |entry|] == entry;
    assert AllSpace(" ");
  }

  /** The extractor reads each generated line back as the key with an empty single-quoted
      value: it is the first match in the line, starting right after the indentation. */
  lemma EntryLineParses(key: String, zhValue: String)
    requires IsKey(key)
    ensures var line := EntryLine(key, zhValue);
      var m := Match(key, '\'', "", 4 + |Prefix| + |key| + 6);
      && MatchAt(line, 4) == Some(m)
      && Scan(line, 0) == [m] + Scan(line, m.end)
  {
    var line := EntryLine(key, zhValue);
    var m := Match(key, '\'', "", 4 + |Prefix| + |key| + 6);
    EntryLineShaped(key, zhValue);
    MatchAtComplete(line, 4, m);
    assert line[..4] == "    ";
    NoMatchAtSpace(line, 0);
    NoMatchAtSpace(line, 1);
    NoMatchAtSpace(line, 2);
    NoMatchAtSpace(line, 3);
    ScanStep(line, 0);
    ScanStep(line, 1);
    ScanStep(line, 2);
    ScanStep(line, 3);
    ScanStep(line, 4);
  }
}
