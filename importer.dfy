/** The substitution loop of `import-translations-simple.js`: for every key of a
    language's report, in order, the first `KEY => ''` of a PHP file becomes
    `KEY => '<translation>'`, with every single quote of the translation escaped. */
module Importer {
  import opened Text
  import opened Differ

  // ---------------------------------------------------------------------------
  // Escaping

  /** `text.replace(/'/g, "\\'")`: a backslash before every single quote. */
  function Escape(t: String): String
  {
    if t == [] then []
    else (if t[0] == '\'' then "\\'" else [t[0]]) + Escape(t[1..])
  }

  /** Deletes the backslash of every `\'` pair, reading left to right. */
  function DropEscapes(r: String): String
  {
    if r == [] then []
    else if |r| >= 2 && r[0] == '\\' && r[1] == '\'' then "'" + DropEscapes(r[2..])
    else [r[0]] + DropEscapes(r[1..])
  }

  lemma EscapeHead(t: String)
    requires t != []
    ensures Escape(t) != [] && Escape(t)[0] != '\''
  {
  }

  /** Escaping adds exactly one character per quote. */
  lemma {:induction false} EscapeLength(t: String)
    ensures |Escape(t)| == |t| + CountChar(t, '\'')
  {
    if t != [] {
      EscapeLength(t[1..]);
    }
  }

  /** Deleting the inserted backslashes gives the text back. */
  lemma {:induction false} EscapeRoundTrip(t: String)
    ensures DropEscapes(Escape(t)) == t
  {
    if t != [] {
      EscapeRoundTrip(t[1..]);
      var rest := Escape(t[1..]);
      if t[0] == '\'' {
        assert Escape(t) == "\\'" + rest;
        assert Escape(t)[2..] == rest;
      } else {
        assert Escape(t) == [t[0]] + rest;
        assert Escape(t)[1..] == rest;
        if t[0] == '\\' && rest != [] {
          EscapeHead(t[1..]);
        }
      }
    }
  }

  /** Without backslashes in the translation, the written value is one the extractor of
      `sync-translations.js` accepts between single quotes. */
  lemma {:induction false} EscapeWellEscaped(t: String)
    requires forall i :: 0 <= i < |t| ==> t[i] != '\\'
    ensures Extractor.WellEscaped(Escape(t), '\'')
  {
    if t != [] {
      EscapeWellEscaped(t[1..]);
      var rest := Escape(t[1..]);
      if t[0] == '\'' {
        assert Escape(t) == "\\'" + rest;
        assert Escape(t)[2..] == rest;
      } else {
        assert Escape(t) == [t[0]] + rest;
        assert Escape(t)[1..] == rest;
      }
    }
  }

  // ---------------------------------------------------------------------------
  // Replacing the first occurrence

  /** `s.replace(pat, rep)` with `rep` taken literally: the first occurrence of `pat`
      is replaced, and `s` is returned as it is when there is none. */
  function ReplaceFirst(s: String, pat: String, rep: String): String
  {
    match IndexOf(s, pat)
    case None => s
    case Some(i) => s[..i] + rep + s[i + |pat|..]
  }

  /** Only the first occurrence changes; the text before and after it is kept. */
  lemma ReplaceFirstSplices(s: String, pat: String, rep: String)
    ensures !Contains(s, pat) ==> ReplaceFirst(s, pat, rep) == s
    ensures Contains(s, pat) ==>
      var i := IndexOf(s, pat).value;
      var r := ReplaceFirst(s, pat, rep);
      && OccursAt(s, pat, i)
      && (forall j: nat :: j < i ==> !OccursAt(s, pat, j))
      && |r| == |s| - |pat| + |rep|
      && r[..i] == s[..i]
      && r[i..i + |rep|] == rep
      && r[i + |rep|..] == s[i + |pat|..]
  {
    if Contains(s, pat) {
      var i := IndexOf(s, pat).value;
      var r := ReplaceFirst(s, pat, rep);
      assert r == s[..i] + rep + s[i + |pat|..];
      assert r[..i] == s[..i];
      assert r[i..i + |rep|] == rep;
      assert r[i + |rep|..] == s[i + |pat|..];
    }
  }

  // ---------------------------------------------------------------------------
  // `String.prototype.replace` as JavaScript runs it

  /** The replacement string after JavaScript's `$` patterns are expanded for a match
      of `matched` at index `i` of `s` (no capture groups: `$1` and the like stay). */
  function Expand(rep: String, s: String, i: nat, matched: String): String
    requires i + |matched| <= |s|
  {
    if rep == [] then []
    else if rep[0] == '$' && |rep| >= 2 && rep[1] == '$' then "$" + Expand(rep[2..], s, i, matched)
    else if rep[0] == '$' && |rep| >= 2 && rep[1] == '&' then matched + Expand(rep[2..], s, i, matched)
    else if rep[0] == '$' && |rep| >= 2 && rep[1] == '`' then s[..i] + Expand(rep[2..], s, i, matched)
    else if rep[0] == '$' && |rep| >= 2 && rep[1] == '\'' then s[i + |matched|..] + Expand(rep[2..], s, i, matched)
    else [rep[0]] + Expand(rep[1..], s, i, matched)
  }

  /** `s.replace(pat, rep)` as written in the source: `rep` is a pattern. */
  function JsReplaceFirst(s: String, pat: String, rep: String): String
  {
    match IndexOf(s, pat)
    case None => s
    case Some(i) => s[..i] + Expand(rep, s, i, pat) + s[i + |pat|..]
  }

  lemma {:induction false} ExpandWithoutDollar(rep: String, s: String, i: nat, matched: String)
    requires i + |matched| <= |s|
    requires NoDollar(rep)
    ensures Expand(rep, s, i, matched) == rep
  {
    if rep != [] {
      ExpandWithoutDollar(rep[1..], s, i, matched);
    }
  }

  /** Without a `$` in the replacement, JavaScript's replace is the literal one. */
  lemma JsReplaceIsLiteral(s: String, pat: String, rep: String)
    requires NoDollar(rep)
    ensures JsReplaceFirst(s, pat, rep) == ReplaceFirst(s, pat, rep)
  {
    match IndexOf(s, pat)
    case None =>
    case Some(i) => ExpandWithoutDollar(rep, s, i, pat);
  }

  predicate NoDollar(t: String)
  {
    forall j :: 0 <= j < |t| ==> t[j] != '$'
  }

  lemma {:induction false} EscapeAppend(u: String, w: String)
    ensures Escape(u + w) == Escape(u) + Escape(w)
  {
    if u != [] {
      assert (u + w)[0] == u[0];
      assert (u + w)[1..] == u[1..] + w;
      EscapeAppend(u[1..], w);
      var head := if u[0] == '\'' then "\\'" else [u[0]];
      assert Escape(u + w) == head + (Escape(u[1..]) + Escape(w));
      assert Escape(u) == head + Escape(u[1..]);
    } else {
      assert u + w == w;
    }
  }

  lemma {:induction false} EscapeKeepsNoDollar(u: String)
    requires NoDollar(u)
    ensures NoDollar(Escape(u))
  {
    if u != [] {
      EscapeKeepsNoDollar(u[1..]);
    }
  }

  /** A replacement that ends with `$'` gets the text after the match in place of those
      two characters. */
  lemma {:induction false} ExpandTrailingDollarQuote(pre: String, s: String, i: nat, matched: String)
    requires i + |matched| <= |s| && NoDollar(pre)
    ensures Expand(pre + "$'", s, i, matched) == pre + s[i + |matched|..]
  {
    if pre == [] {
      assert Expand("$'", s, i, matched) == s[i + |matched|..] + Expand([], s, i, matched);
    } else {
      assert (pre + "$'")[1..] == pre[1..] + "$'";
      ExpandTrailingDollarQuote(pre[1..], s, i, matched);
    }
  }

  /** With a replacement ending in `$'`, JavaScript's replace writes the text after the
      match in place of those two characters, so that text appears twice. */
  lemma JsReplaceTrailingDollarQuote(s: String, pat: String, pre: String)
    requires Contains(s, pat) && NoDollar(pre)
    ensures var i := IndexOf(s, pat).value;
      JsReplaceFirst(s, pat, pre + "$'") == s[..i] + pre + s[i + |pat|..] + s[i + |pat|..]
  {
    var i := IndexOf(s, pat).value;
    ExpandTrailingDollarQuote(pre, s, i, pat);
  }

  /** The replacement for a translation `u + "$"` is a `$`-free text followed by `$'`. */
  lemma ReplaceStringEndsDollarQuote(key: String, u: String)
    requires NoDollar(key) && NoDollar(u)
    ensures NoDollar(key + " => '" + Escape(u))
    ensures ReplaceString(key, u + "$") == (key + " => '" + Escape(u)) + "$'"
  {
    EscapeAppend(u, "$");
    assert Escape("$") == "$";
    EscapeKeepsNoDollar(u);
    assert NoDollar(" => '");
  }

  /** A translation that ends with `$` (such as "US$") makes the replacement end with
      `$'`, which JavaScript expands into the text after the match: that text then
      appears twice and the closing quote is lost, where the literal replacement writes
      the intended entry. */
  lemma DollarTranslationSplicesRest(s: String, key: String, u: String)
    requires Contains(s, SearchString(key)) && NoDollar(key) && NoDollar(u)
    ensures var i := IndexOf(s, SearchString(key)).value;
      var tail := s[i + |SearchString(key)|..];
      && JsReplaceFirst(s, SearchString(key), ReplaceString(key, u + "$"))
           == s[..i] + (key + " => '" + Escape(u)) + tail + tail
      && ReplaceFirst(s, SearchString(key), ReplaceString(key, u + "$"))
           == s[..i] + (key + " => '" + Escape(u) + "$'") + tail
  {
    ReplaceStringEndsDollarQuote(key, u);
    JsReplaceTrailingDollarQuote(s, SearchString(key), key + " => '" + Escape(u));
  }

  // ---------------------------------------------------------------------------
  // The substitution loop

  /** `${key} => ''`. */
  function SearchString(key: String): String
  {
    key + " => ''"
  }

  /** `${key} => '${escaped translation}'`. */
  function ReplaceString(key: String, text: String): String
  {
    key + " => '" + Escape(text) + "'"
  }

  /** One key: the new content, and whether the search string was found. */
  function Step(content: String, key: String, text: String): (String, bool)
  {
    if Contains(content, SearchString(key))
    then (ReplaceFirst(content, SearchString(key), ReplaceString(key, text)), true)
    else (content, false)
  }

  /** The content and the counter after the entries, in order, each checked on the
      output of the ones before. */
  function Substitute(content: String, entries: seq<(String, ReportEntry)>): (String, nat)
  {
    if entries == [] then (content, 0)
    else
      var (c, n) := Substitute(content, entries[..|entries| - 1]);
      var (key, entry) := entries[|entries| - 1];
      var (c', found) := Step(c, key, entry.translation);
      (c', if found then n + 1 else n)
  }

  /** The body of `phpFiles.forEach` up to the write: the substitutions for one file and
      its `fileUpdatedCount`. */
  method ImportFile(content: String, translations: seq<(String, ReportEntry)>)
    returns (phpContent: String, fileUpdatedCount: nat)
    ensures (phpContent, fileUpdatedCount) == Substitute(content, translations)
  {
    phpContent := content;
    fileUpdatedCount := 0;
    for n := 0 to |translations|
      invariant (phpContent, fileUpdatedCount) == Substitute(content, translations[..n])
    {
      var (key, translationData) := translations[n];
      var translatedText := translationData.translation;
      var searchString := key + " => ''";
      var replaceString := key + " => '" + Escape(translatedText) + "'";
      assert translations[..n + 1][..n] == translations[..n];
      if Contains(phpContent, searchString) {
        phpContent := ReplaceFirst(phpContent, searchString, replaceString);
        fileUpdatedCount := fileUpdatedCount + 1;
      }
    }
    assert translations[..|translations|] == translations;
  }

  /** Whether the search string of entry `j` is found when it is checked. */
  predicate FoundAt(content: String, entries: seq<(String, ReportEntry)>, j: nat)
    requires j < |entries|
  {
    Contains(Substitute(content, entries[..j]).0, SearchString(entries[j].0))
  }

  /** The number of the first `n` entries whose search string is found when checked. */
  function Hits(content: String, entries: seq<(String, ReportEntry)>, n: nat): nat
    requires n <= |entries|
  {
    if n == 0 then 0 else Hits(content, entries, n - 1) + (if FoundAt(content, entries, n - 1) then 1 else 0)
  }

  /** The file counter is the number of keys found when checked, so at most the number
      of keys. */
  lemma {:induction false} CountIsHits(content: String, entries: seq<(String, ReportEntry)>, n: nat)
    requires n <= |entries|
    ensures Substitute(content, entries[..n]).1 == Hits(content, entries, n)
    ensures Hits(content, entries, n) <= n
  {
    if n > 0 {
      CountIsHits(content, entries, n - 1);
      assert entries[..n][..n - 1] == entries[..n - 1];
    }
  }

  /** A key whose search string is absent changes neither the content nor the count. */
  lemma NotFoundKeepsContent(content: String, key: String, text: String)
    requires !Contains(content, SearchString(key))
    ensures Step(content, key, text) == (content, false)
  {
  }

  /** A found key replaces its first `KEY => ''` and keeps the text around it. */
  lemma FoundReplacesFirst(content: String, key: String, text: String)
    requires Contains(content, SearchString(key))
    ensures var i := IndexOf(content, SearchString(key)).value;
      var r := Step(content, key, text).0;
      var rep := ReplaceString(key, text);
      && Step(content, key, text).1
      && (forall j: nat :: j < i ==> !OccursAt(content, SearchString(key), j))
      && r[..i] == content[..i]
      && r[i..i + |rep|] == rep
      && r[i + |rep|..] == content[i + |SearchString(key)|..]
  {
    ReplaceFirstSplices(content, SearchString(key), ReplaceString(key, text));
  }

  /** An empty translation rewrites `KEY => ''` into itself: the content is identical,
      but the key is counted when found. */
  lemma EmptyTranslationCounted(content: String, key: String)
    ensures Step(content, key, "").0 == content
    ensures Step(content, key, "").1 <==> Contains(content, SearchString(key))
  {
    assert ReplaceString(key, "") == SearchString(key);
    if Contains(content, SearchString(key)) {
      var i := IndexOf(content, SearchString(key)).value;
      ReplaceFirstSplices(content, SearchString(key), SearchString(key));
      assert content == content[..i] + SearchString(key) + content[i + |SearchString(key)|..];
    }
  }

  /** A file in which no key was found is left as it was. */
  lemma {:induction false} NoHitsNoChange(content: String, entries: seq<(String, ReportEntry)>)
    requires Substitute(content, entries).1 == 0
    ensures Substitute(content, entries).0 == content
  {
    if entries != [] {
      NoHitsNoChange(content, entries[..|entries| - 1]);
    }
  }

  /** Sum of the file counters. */
  function TotalCount(files: seq<String>, entries: seq<(String, ReportEntry)>): nat
  {
    if files == [] then 0
    else TotalCount(files[..|files| - 1], entries) + Substitute(files[|files| - 1], entries).1
  }

  /** The body of `languages.forEach` for one language: every PHP file is processed, it
      is written back only when its counter is positive, and `totalUpdatedCount` sums the
      counters. `contents[i]` is the file's text afterwards. */
  method ImportLanguage(files: seq<String>, translations: seq<(String, ReportEntry)>)
    returns (contents: seq<String>, written: seq<bool>, totalUpdatedCount: nat)
    ensures |contents| == |files| && |written| == |files|
    ensures forall i :: 0 <= i < |files| ==> (written[i] <==> Substitute(files[i], translations).1 > 0)
    ensures forall i :: 0 <= i < |files| ==> contents[i] == Substitute(files[i], translations).0
    ensures totalUpdatedCount == TotalCount(files, translations)
  {
    contents := [];
    written := [];
    totalUpdatedCount := 0;
    for f := 0 to |files|
      invariant |contents| == f && |written| == f
      invariant forall i :: 0 <= i < f ==> (written[i] <==> Substitute(files[i], translations).1 > 0)
      invariant forall i :: 0 <= i < f ==> contents[i] == Substitute(files[i], translations).0
      invariant totalUpdatedCount == TotalCount(files[..f], translations)
    {
      var phpContent, fileUpdatedCount := ImportFile(files[f], translations);
      assert files[..f + 1][..f] == files[..f];
      if fileUpdatedCount > 0 {
        contents := contents + [phpContent];
        written := written + [true];
        totalUpdatedCount := totalUpdatedCount + fileUpdatedCount;
      } else {
        NoHitsNoChange(files[f], translations);
        contents := contents + [files[f]];
        written := written + [false];
      }
    }
    assert files[..|files|] == files;
  }
}
