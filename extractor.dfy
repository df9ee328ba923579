/** The entry extractor of `sync-translations.js` (`parsePhpTranslations`).

    The source runs the global regular expression
        Transl::([A-Z_0-9]+)\s*=>\s*(['"])((?:(?!\2)[^\\]|\\.)*)(\2)
    with `exec` in a loop. Every part of the pattern has at most one way to match at a
    given position (key characters are neither white space nor `=`, white space is
    neither `=` nor a quote, and at each position of the value body at most one of the
    two alternatives applies), so backtracking never produces a different match. The
    pattern is therefore modelled by the deterministic matcher `MatchAt`, whose meaning
    is pinned down by its contract and `MatchAtComplete`; the `exec` loop, which finds
    the leftmost match at or after `lastIndex` and resumes at its end, is the method
    `ParsePhpTranslations`, specified by `Scan`. */
module Extractor {
  import opened Text

  const Prefix: String := "Transl::"

  /** `[A-Z_0-9]`. */
  predicate IsKeyChar(c: char)
  {
    'A' <= c <= 'Z' || '0' <= c <= '9' || c == '_'
  }

  /** `[A-Z_0-9]+`. */
  predicate IsKey(k: String)
  {
    |k| > 0 && forall i :: 0 <= i < |k| ==> IsKeyChar(k[i])
  }

  /** JavaScript's `\s`: white space and line terminators. */
  predicate IsSpace(c: char)
  {
    || c == '\t' || c == '\n' || c == '\U{000B}' || c == '\U{000C}' || c == '\r' || c == ' '
    || c == '\U{00A0}' || c == '\U{1680}' || '\U{2000}' <= c <= '\U{200A}'
    || c == '\U{2028}' || c == '\U{2029}' || c == '\U{202F}' || c == '\U{205F}'
    || c == '\U{3000}' || c == '\U{FEFF}'
  }

  predicate AllSpace(t: String)
  {
    forall i :: 0 <= i < |t| ==> IsSpace(t[i])
  }

  /** The characters that `.` does not match. */
  predicate IsLineTerminator(c: char)
  {
    c == '\n' || c == '\r' || c == '\U{2028}' || c == '\U{2029}'
  }

  predicate IsQuote(c: char)
  {
    c == '\'' || c == '"'
  }

  /** `v` is a value body that `((?:(?!q)[^\\]|\\.)*)` matches completely: a run of
      characters that are neither `q` nor a backslash, and of pairs made of a backslash
      and a character other than a line terminator. In particular no `q` in `v` is
      unescaped and no backslash is left dangling at its end. */
  predicate WellEscaped(v: String, q: char)
    decreases |v|
  {
    if v == [] then true
    else if v[0] == '\\' then 2 <= |v| && !IsLineTerminator(v[1]) && WellEscaped(v[2..], q)
    else v[0] != q && WellEscaped(v[1..], q)
  }

  /** One match of the pattern: the captured key, the opening quote, the raw value
      (escapes are kept as written) and the index just past the closing quote. */
  datatype Match = Match(key: String, quote: char, value: String, end: nat)

  /** The text the pattern describes: `Transl::`, the key, white space, `=>`, white
      space, the quote, the value and the quote again. */
  function EntryText(key: String, ws1: String, ws2: String, q: char, v: String): String
  {
    Prefix + (key + (ws1 + ("=>" + (ws2 + ([q] + (v + [q]))))))
  }

  /** The text `s[i..m.end]` is exactly what the pattern describes for `m`. */
  ghost predicate ShapedAt(s: String, i: nat, m: Match)
  {
    && i <= m.end <= |s|
    && IsKey(m.key) && IsQuote(m.quote) && WellEscaped(m.value, m.quote)
    && exists ws1: String, ws2: String ::
         AllSpace(ws1) && AllSpace(ws2) && s[i..m.end] == EntryText(m.key, ws1, ws2, m.quote, m.value)
  }

  /** End of the run of key characters starting at `i` (greedy `[A-Z_0-9]*`). */
  function KeyEnd(s: String, i: nat): (j: nat)
    requires i <= |s|
    decreases |s| - i
    ensures i <= j <= |s| && (j == |s| || !IsKeyChar(s[j]))
    ensures forall k :: i <= k < j ==> IsKeyChar(s[k])
  {
    if i < |s| && IsKeyChar(s[i]) then KeyEnd(s, i + 1) else i
  }

  /** End of the run of white space starting at `i` (greedy `\s*`). */
  function SpaceEnd(s: String, i: nat): (j: nat)
    requires i <= |s|
    decreases |s| - i
    ensures i <= j <= |s| && (j == |s| || !IsSpace(s[j]))
    ensures forall k :: i <= k < j ==> IsSpace(s[k])
  {
    if i < |s| && IsSpace(s[i]) then SpaceEnd(s, i + 1) else i
  }

  /** Position of the quote that closes a value body starting at `i`, or `None` when the
      body runs into the end of the text or into a backslash that escapes nothing. */
  function CloseQuote(s: String, i: nat, q: char): (r: Option<nat>)
    requires i <= |s| && IsQuote(q)
    decreases |s| - i
    ensures r.Some? ==> i <= r.value < |s| && s[r.value] == q && WellEscaped(s[i..r.value], q)
  {
    if i == |s| then None
    else if s[i] == q then Some(i)
    else if s[i] == '\\' then
      if i + 1 < |s| && !IsLineTerminator(s[i + 1]) then CloseQuote(s, i + 2, q) else None
    else CloseQuote(s, i + 1, q)
  }

  /** `Transl::([A-Z_0-9]+)` at `i`: the index just past the key. */
  function KeyAt(s: String, i: nat): (r: Option<nat>)
    requires i <= |s|
    ensures r.Some? ==> OccursAt(s, Prefix, i) && i + |Prefix| < r.value <= |s|
    ensures r.Some? ==> IsKey(s[i + |Prefix|..r.value])
  {
    if !OccursAt(s, Prefix, i) then None
    else
      var k1 := KeyEnd(s, i + |Prefix|);
      if k1 == i + |Prefix| then None else Some(k1)
  }

  /** `\s*=>\s*` at `k`: the index of `=>` and the index just past the white space
      that follows it. */
  function ArrowAt(s: String, k: nat): (r: Option<(nat, nat)>)
    requires k <= |s|
    ensures r.Some? ==> k <= r.value.0 && r.value.0 + 2 <= r.value.1 <= |s|
    ensures r.Some? ==> AllSpace(s[k..r.value.0]) && OccursAt(s, "=>", r.value.0)
    ensures r.Some? ==> AllSpace(s[r.value.0 + 2..r.value.1])
  {
    var a := SpaceEnd(s, k);
    if !OccursAt(s, "=>", a) then None else Some((a, SpaceEnd(s, a + 2)))
  }

  /** `(['"])((?:(?!\2)[^\\]|\\.)*)(\2)` at `b`: the index of the closing quote. */
  function QuotedAt(s: String, b: nat): (r: Option<nat>)
    requires b <= |s|
    ensures r.Some? ==> b < r.value < |s| && IsQuote(s[b]) && s[r.value] == s[b]
    ensures r.Some? ==> WellEscaped(s[b + 1..r.value], s[b])
  {
    if b == |s| || !IsQuote(s[b]) then None else CloseQuote(s, b + 1, s[b])
  }

  /** The regular expression anchored at index `i` (its meaning is stated by
      `MatchAtSound` and `MatchAtComplete`). */
  function MatchAt(s: String, i: nat): (r: Option<Match>)
    requires i <= |s|
    ensures r.Some? ==> i < r.value.end <= |s|
    ensures r.Some? ==> IsKey(r.value.key) && IsQuote(r.value.quote)
    ensures r.Some? ==> WellEscaped(r.value.value, r.value.quote)
  {
    match KeyAt(s, i)
    case None => None
    case Some(k1) =>
      match ArrowAt(s, k1)
      case None => None
      case Some((_, b)) =>
        match QuotedAt(s, b)
        case None => None
        case Some(c) => Some(Match(s[i + |Prefix|..k1], s[b], s[b + 1..c], c + 1))
  }

  /** The successive matches `exec` returns when it starts at `lastIndex == i`: the
      leftmost match at or after `i`, then the matches after its end. */
  function Scan(s: String, i: nat): seq<Match>
    requires i <= |s|
    decreases |s| - i
  {
    if i == |s| then []
    else match MatchAt(s, i)
      case Some(m) => [m] + Scan(s, m.end)
      case None => Scan(s, i + 1)
  }

  /** A JavaScript object from keys to raw values: `keys` is its enumeration order. */
  datatype Table = Table(keys: seq<String>, values: map<String, String>)
  {
    /** Each key is enumerated once, and exactly the keys with a value are enumerated. */
    ghost predicate Valid()
    {
      && (forall p, q :: 0 <= p < q < |keys| ==> keys[p] != keys[q])
      && (forall k :: k in values <==> k in keys)
    }

    /** `object[k] = v`: the value changes, and a new key joins the end of the order. */
    function Put(k: String, v: String): Table
    {
      if k in values then Table(keys, values[k := v]) else Table(keys + [k], values[k := v])
    }
  }

  const EmptyTable := Table([], map[])

  /** The table built by assigning the matches in order. */
  function Collect(ms: seq<Match>): Table
  {
    if ms == [] then EmptyTable
    else Collect(ms[..|ms| - 1]).Put(ms[|ms| - 1].key, ms[|ms| - 1].value)
  }

  /** `parsePhpTranslations` on the text of an existing file. It also returns the
      duplicate-key warnings, one per repeated occurrence, in the order they are logged. */
  method ParsePhpTranslations(content: String) returns (translations: Table, warnings: seq<String>)
    ensures translations == Collect(Scan(content, 0))
    ensures translations.Valid()
    ensures |warnings| + |translations.keys| == |Scan(content, 0)|
    ensures forall w :: w in warnings ==> w in translations.values
  {
    translations := EmptyTable;
    var seenKeys: set<String> := {};
    warnings := [];
    var lastIndex := 0;
    ghost var done: seq<Match> := [];
    while lastIndex < |content|
      invariant lastIndex <= |content|
      invariant Scan(content, 0) == done + Scan(content, lastIndex)
      invariant translations == Collect(done)
      invariant seenKeys == translations.values.Keys
      invariant translations.Valid()
      invariant |warnings| + |translations.keys| == |done|
      invariant forall w :: w in warnings ==> w in seenKeys
      decreases |content| - lastIndex
    {
      ScanStep(content, lastIndex);
      match MatchAt(content, lastIndex)
      case None =>
        lastIndex := lastIndex + 1;
      case Some(m) =>
        if m.key in seenKeys {
          warnings := warnings + [m.key];
        }
        seenKeys := seenKeys + {m.key};
        PutValid(translations, m.key, m.value);
        translations := translations.Put(m.key, m.value);
        CollectSnoc(done, m);
        ghost var rest := Scan(content, m.end);
        assert Scan(content, lastIndex) == [m] + rest;
        AppendAssoc(done, [m], rest);
        done := done + [m];
        lastIndex := m.end;
    }
    assert done + Scan(content, lastIndex) == done;
    CollectValid(done);
  }

  lemma AppendAssoc(a: seq<Match>, b: seq<Match>, c: seq<Match>)
    ensures a + (b + c) == (a + b) + c
  {
  }

  /** One step of `exec`: a match at `i`, or the search moves on by one character. */
  lemma ScanStep(s: String, i: nat)
    requires i < |s|
    ensures MatchAt(s, i).Some? ==> Scan(s, i) == [MatchAt(s, i).value] + Scan(s, MatchAt(s, i).value.end)
    ensures MatchAt(s, i).None? ==> Scan(s, i) == Scan(s, i + 1)
  {
  }

  lemma CollectSnoc(ms: seq<Match>, m: Match)
    ensures Collect(ms + [m]) == Collect(ms).Put(m.key, m.value)
  {
    assert (ms + [m])[..|ms|] == ms;
  }

  // ---------------------------------------------------------------------------
  // What the matcher means

  lemma {:induction false} CloseQuoteComplete(s: String, i: nat, q: char, j: nat)
    requires i <= j < |s| && IsQuote(q) && s[j] == q && WellEscaped(s[i..j], q)
    ensures CloseQuote(s, i, q) == Some(j)
    decreases j - i
  {
    var v := s[i..j];
    if i < j {
      assert v[0] == s[i];
      if s[i] == '\\' {
        assert v[2..] == s[i + 2..j];
        CloseQuoteComplete(s, i + 2, q, j);
      } else {
        assert v[1..] == s[i + 1..j];
        CloseQuoteComplete(s, i + 1, q, j);
      }
    }
  }

  /** The pieces of an entry, laid side by side, make up its text. */
  lemma EntryTextFromPieces(s: String, i: nat, k0: nat, k1: nat, a: nat, b: nat, c: nat,
                            key: String, ws1: String, ws2: String, q: char, v: String)
    requires i <= k0 <= k1 <= a && a + 2 <= b < c < |s|
    requires s[i..k0] == Prefix && s[k0..k1] == key && s[k1..a] == ws1 && s[a..a + 2] == "=>"
    requires s[a + 2..b] == ws2 && s[b] == q && s[b + 1..c] == v && s[c] == q
    ensures s[i..c + 1] == EntryText(key, ws1, ws2, q, v)
  {
    assert s[c..c + 1] == [q];
    Glue(s, b + 1, c, c + 1, v, [q]);
    assert s[b..b + 1] == [q];
    Glue(s, b, b + 1, c + 1, [q], v + [q]);
    Glue(s, a + 2, b, c + 1, ws2, [q] + (v + [q]));
    Glue(s, a, a + 2, c + 1, "=>", ws2 + ([q] + (v + [q])));
    Glue(s, k1, a, c + 1, ws1, "=>" + (ws2 + ([q] + (v + [q]))));
    Glue(s, k0, k1, c + 1, key, ws1 + ("=>" + (ws2 + ([q] + (v + [q])))));
    Glue(s, i, k0, c + 1, Prefix, key + (ws1 + ("=>" + (ws2 + ([q] + (v + [q]))))));
  }

  /** The text of an entry, cut back into its pieces. */
  lemma PiecesFromEntryText(s: String, i: nat, end: nat, key: String, ws1: String, ws2: String, q: char, v: String)
    requires i <= end <= |s| && s[i..end] == EntryText(key, ws1, ws2, q, v)
    ensures var k0 := i + |Prefix|; var k1 := k0 + |key|; var a := k1 + |ws1|;
      var b := a + 2 + |ws2|; var c := b + 1 + |v|;
      && c + 1 == end
      && s[i..k0] == Prefix && s[k0..k1] == key && s[k1..a] == ws1 && s[a..a + 2] == "=>"
      && s[a + 2..b] == ws2 && s[b] == q && s[b + 1..c] == v && s[c] == q
  {
    var k0 := i + |Prefix|;
    Peel(s, i, end, Prefix, key + (ws1 + ("=>" + (ws2 + ([q] + (v + [q]))))));
    var k1 := k0 + |key|;
    Peel(s, k0, end, key, ws1 + ("=>" + (ws2 + ([q] + (v + [q])))));
    var a := k1 + |ws1|;
    Peel(s, k1, end, ws1, "=>" + (ws2 + ([q] + (v + [q]))));
    Peel(s, a, end, "=>", ws2 + ([q] + (v + [q])));
    var b := a + 2 + |ws2|;
    Peel(s, a + 2, end, ws2, [q] + (v + [q]));
    Peel(s, b, end, [q], v + [q]);
    assert s[b] == s[b..b + 1][0];
    var c := b + 1 + |v|;
    Peel(s, b + 1, end, v, [q]);
    assert s[c] == s[c..end][0];
  }

  lemma {:induction false} KeyEndAt(s: String, i: nat, j: nat)
    requires i <= j <= |s| && (j == |s| || !IsKeyChar(s[j]))
    requires forall k :: i <= k < j ==> IsKeyChar(s[k])
    ensures KeyEnd(s, i) == j
    decreases j - i
  {
    if i < j {
      KeyEndAt(s, i + 1, j);
    }
  }

  lemma {:induction false} SpaceEndAt(s: String, i: nat, j: nat)
    requires i <= j <= |s| && (j == |s| || !IsSpace(s[j]))
    requires forall k :: i <= k < j ==> IsSpace(s[k])
    ensures SpaceEnd(s, i) == j
    decreases j - i
  {
    if i < j {
      SpaceEndAt(s, i + 1, j);
    }
  }

  lemma SliceChars(s: String, i: nat, j: nat, t: String)
    requires i <= j <= |s| && s[i..j] == t
    ensures forall k :: i <= k < j ==> s[k] == t[k - i]
  {
  }

  /** Every match the matcher reports is text of the pattern's shape. */
  lemma MatchAtSound(s: String, i: nat)
    requires i <= |s|
    ensures MatchAt(s, i).Some? ==> ShapedAt(s, i, MatchAt(s, i).value)
  {
    match KeyAt(s, i)
    case None =>
    case Some(k1) =>
      match ArrowAt(s, k1)
      case None =>
      case Some((a, b)) =>
        match QuotedAt(s, b)
        case None =>
        case Some(c) =>
          var m := MatchAt(s, i).value;
          assert m == Match(s[i + |Prefix|..k1], s[b], s[b + 1..c], c + 1);
          EntryTextFromPieces(s, i, i + |Prefix|, k1, a, b, c, m.key, s[k1..a], s[a + 2..b], m.quote, m.value);
  }

  /** Every text of the pattern's shape at `i` is found by the matcher, with its parts. */
  lemma MatchAtComplete(s: String, i: nat, m: Match)
    requires i <= |s| && ShapedAt(s, i, m)
    ensures MatchAt(s, i) == Some(m)
  {
    var ws1, ws2: String :| AllSpace(ws1) && AllSpace(ws2)
      && s[i..m.end] == EntryText(m.key, ws1, ws2, m.quote, m.value);
    MatchAtCompleteWith(s, i, m, ws1, ws2);
  }

  lemma MatchAtCompleteWith(s: String, i: nat, m: Match, ws1: String, ws2: String)
    requires i <= m.end <= |s| && IsKey(m.key) && IsQuote(m.quote) && WellEscaped(m.value, m.quote)
    requires AllSpace(ws1) && AllSpace(ws2)
    requires s[i..m.end] == EntryText(m.key, ws1, ws2, m.quote, m.value)
    ensures MatchAt(s, i) == Some(m)
  {
    PiecesFromEntryText(s, i, m.end, m.key, ws1, ws2, m.quote, m.value);
    MatchAtFromPieces(s, i, m.key, ws1, ws2, m.quote, m.value);
  }

  lemma MatchAtFromPieces(s: String, i: nat, key: String, ws1: String, ws2: String, q: char, v: String)
    requires IsKey(key) && IsQuote(q) && WellEscaped(v, q) && AllSpace(ws1) && AllSpace(ws2)
    requires var k0 := i + |Prefix|; var k1 := k0 + |key|; var a := k1 + |ws1|;
      var b := a + 2 + |ws2|; var c := b + 1 + |v|;
      && c < |s|
      && s[i..k0] == Prefix && s[k0..k1] == key && s[k1..a] == ws1 && s[a..a + 2] == "=>"
      && s[a + 2..b] == ws2 && s[b] == q && s[b + 1..c] == v && s[c] == q
    ensures MatchAt(s, i) == Some(Match(key, q, v, i + |Prefix| + |key| + |ws1| + 2 + |ws2| + 1 + |v| + 1))
  {
    var k1 := i + |Prefix| + |key|;
    var a := k1 + |ws1|;
    var b := a + 2 + |ws2|;
    var c := b + 1 + |v|;
    KeyAtFrom(s, i, k1, key, ws1);
    ArrowAtFrom(s, k1, a, b, ws1, ws2, q);
    QuotedAtFrom(s, b, c, q, v);
    MatchAtFromStages(s, i, k1, a, b, c);
  }

  lemma QuotedAtFrom(s: String, b: nat, c: nat, q: char, v: String)
    requires b < c < |s| && IsQuote(q) && s[b] == q && s[c] == q
    requires s[b + 1..c] == v && WellEscaped(v, q)
    ensures QuotedAt(s, b) == Some(c)
  {
    CloseQuoteComplete(s, b + 1, q, c);
  }

  lemma MatchAtFromStages(s: String, i: nat, k1: nat, a: nat, b: nat, c: nat)
    requires i <= |s|
    requires KeyAt(s, i) == Some(k1) && ArrowAt(s, k1) == Some((a, b)) && QuotedAt(s, b) == Some(c)
    ensures MatchAt(s, i) == Some(Match(s[i + |Prefix|..k1], s[b], s[b + 1..c], c + 1))
  {
  }

  lemma KeyAtFrom(s: String, i: nat, k1: nat, key: String, ws1: String)
    requires i + |Prefix| <= k1 < |s| && s[i..i + |Prefix|] == Prefix
    requires s[i + |Prefix|..k1] == key && IsKey(key)
    requires s[k1] == '=' || (ws1 != [] && k1 + |ws1| <= |s| && s[k1..k1 + |ws1|] == ws1 && AllSpace(ws1))
    ensures KeyAt(s, i) == Some(k1)
  {
    SliceChars(s, i + |Prefix|, k1, key);
    if s[k1] != '=' {
      SliceChars(s, k1, k1 + |ws1|, ws1);
    }
    KeyEndAt(s, i + |Prefix|, k1);
  }

  lemma ArrowAtFrom(s: String, k1: nat, a: nat, b: nat, ws1: String, ws2: String, q: char)
    requires k1 <= a && a + 2 <= b < |s| && IsQuote(q) && s[b] == q
    requires s[k1..a] == ws1 && AllSpace(ws1) && s[a..a + 2] == "=>"
    requires s[a + 2..b] == ws2 && AllSpace(ws2)
    ensures ArrowAt(s, k1) == Some((a, b))
  {
    SliceChars(s, k1, a, ws1);
    SliceChars(s, a, a + 2, "=>");
    SliceChars(s, a + 2, b, ws2);
    SpaceEndAt(s, k1, a);
    SpaceEndAt(s, a + 2, b);
  }

  // ---------------------------------------------------------------------------
  // Properties of the table

  /** Assigning into an object keeps each key enumerated once: the value of `k` is
      replaced, a key already present keeps its place and a new key goes last. */
  lemma PutValid(t: Table, k: String, v: String)
    requires t.Valid()
    ensures t.Put(k, v).Valid()
    ensures t.Put(k, v).values == t.values[k := v]
    ensures k in t.values ==> t.Put(k, v).keys == t.keys
    ensures k !in t.values ==> t.Put(k, v).keys == t.keys + [k]
  {
  }

  lemma {:induction false} CollectValid(ms: seq<Match>)
    ensures Collect(ms).Valid()
  {
    if ms != [] {
      CollectValid(ms[..|ms| - 1]);
      PutValid(Collect(ms[..|ms| - 1]), ms[|ms| - 1].key, ms[|ms| - 1].value);
    }
  }

  /** Every entry the scan finds has a `[A-Z_0-9]+` key and a value that is a complete
      value body for its quote. */
  lemma {:induction false} ScanEntries(s: String, i: nat)
    requires i <= |s|
    ensures forall k :: 0 <= k < |Scan(s, i)| ==>
      IsKey(Scan(s, i)[k].key) && IsQuote(Scan(s, i)[k].quote)
      && WellEscaped(Scan(s, i)[k].value, Scan(s, i)[k].quote)
    decreases |s| - i
  {
    if i < |s| {
      match MatchAt(s, i)
      case Some(m) =>
        ScanEntries(s, m.end);
      case None =>
        ScanEntries(s, i + 1);
    }
  }

  /** A key is in the table exactly when some match captured it. */
  lemma {:induction false} CollectDomain(ms: seq<Match>, k: String)
    ensures k in Collect(ms).values <==> exists j :: 0 <= j < |ms| && ms[j].key == k
  {
    if ms != [] {
      var init, m := ms[..|ms| - 1], ms[|ms| - 1];
      CollectDomain(init, k);
      assert Collect(ms).values == Collect(init).values[m.key := m.value];
      if exists j :: 0 <= j < |init| && init[j].key == k {
        var j :| 0 <= j < |init| && init[j].key == k;
        assert ms[j].key == k;
      }
      if exists j :: 0 <= j < |ms| && ms[j].key == k {
        var j :| 0 <= j < |ms| && ms[j].key == k;
        if j < |init| {
          assert init[j].key == k;
        }
      }
    }
  }

  /** Last write wins: the table holds the value of the last match of each key. */
  lemma {:induction false} CollectLastWins(ms: seq<Match>, j: nat)
    requires j < |ms|
    requires forall j' :: j < j' < |ms| ==> ms[j'].key != ms[j].key
    ensures ms[j].key in Collect(ms).values && Collect(ms).values[ms[j].key] == ms[j].value
  {
    var init := ms[..|ms| - 1];
    if j < |ms| - 1 {
      assert init[j] == ms[j];
      CollectLastWins(init, j);
    }
  }

  /** Index of the first match of key `k`, or `|ms|` when there is none. */
  function FirstPos(ms: seq<Match>, k: String): (j: nat)
    ensures j <= |ms| && (j < |ms| ==> ms[j].key == k)
    ensures forall j' :: 0 <= j' < j ==> ms[j'].key != k
  {
    if ms == [] then 0 else if ms[0].key == k then 0 else 1 + FirstPos(ms[1..], k)
  }

  /** Index of the last match of key `k`, when there is one. */
  function LastPos(ms: seq<Match>, k: String): (j: nat)
    requires exists j :: 0 <= j < |ms| && ms[j].key == k
    ensures j < |ms| && ms[j].key == k
    ensures forall j' :: j < j' < |ms| ==> ms[j'].key != k
  {
    if ms[|ms| - 1].key == k then |ms| - 1
    else
      var init := ms[..|ms| - 1];
      assert exists j :: 0 <= j < |init| && init[j].key == k by {
        var j :| 0 <= j < |ms| && ms[j].key == k;
        assert init[j] == ms[j];
      }
      LastPos(init, k)
  }

  /** The table enumerates its keys in order of first appearance. */
  lemma {:induction false} CollectFirstAppearanceOrder(ms: seq<Match>)
    ensures var keys := Collect(ms).keys;
      forall p, q :: 0 <= p < q < |keys| ==> FirstPos(ms, keys[p]) < FirstPos(ms, keys[q]) < |ms|
  {
    if ms != [] {
      var init, m := ms[..|ms| - 1], ms[|ms| - 1];
      assert ms == init + [m];
      CollectFirstAppearanceOrder(init);
      CollectValid(init);
      PutValid(Collect(init), m.key, m.value);
      var oldKeys, keys := Collect(init).keys, Collect(ms).keys;
      forall p | 0 <= p < |oldKeys|
        ensures FirstPos(ms, oldKeys[p]) == FirstPos(init, oldKeys[p]) < |init|
      {
        CollectDomain(init, oldKeys[p]);
        FirstPosSnoc(init, m, oldKeys[p]);
      }
      if m.key !in Collect(init).values {
        CollectDomain(init, m.key);
        FirstPosNew(init, m);
        assert keys == oldKeys + [m.key];
      } else {
        assert keys == oldKeys;
      }
    }
  }

  /** Appending a match does not move the first appearance of a key already seen. */
  lemma FirstPosSnoc(ms: seq<Match>, m: Match, k: String)
    requires exists j :: 0 <= j < |ms| && ms[j].key == k
    ensures FirstPos(ms + [m], k) == FirstPos(ms, k) < |ms|
  {
    var w :| 0 <= w < |ms| && ms[w].key == k;
    var f, g := FirstPos(ms, k), FirstPos(ms + [m], k);
    assert (ms + [m])[w] == ms[w];
    assert f <= w && g <= w;
    assert (ms + [m])[f] == ms[f] && (ms + [m])[g] == ms[g];
  }

  /** A key never seen before first appears at the appended match. */
  lemma FirstPosNew(ms: seq<Match>, m: Match)
    requires forall j :: 0 <= j < |ms| ==> ms[j].key != m.key
    ensures FirstPos(ms + [m], m.key) == |ms|
  {
    var g := FirstPos(ms + [m], m.key);
    assert (ms + [m])[|ms|] == m;
  }

  /** Text without `Transl::` has no entries, so its table is empty. */
  lemma {:induction false} NoPrefixNoEntries(s: String, i: nat)
    requires i <= |s| && !Contains(s, Prefix)
    ensures Scan(s, i) == [] && Collect(Scan(s, i)) == EmptyTable
    decreases |s| - i
  {
    if i < |s| {
      assert MatchAt(s, i).None? by {
        if OccursAt(s, Prefix, i) {
          assert Contains(s, Prefix);
        }
      }
      NoPrefixNoEntries(s, i + 1);
    }
  }

  /** Every key of a parsed table is `[A-Z_0-9]+` and every value is a complete value
      body for its quote. */
  lemma ParsedKeysAndValues(s: String)
    ensures var t := Collect(Scan(s, 0));
      forall k :: k in t.values ==> IsKey(k) && exists q :: IsQuote(q) && WellEscaped(t.values[k], q)
  {
    var ms := Scan(s, 0);
    var t := Collect(ms);
    ScanEntries(s, 0);
    forall k | k in t.values
      ensures IsKey(k) && exists q :: IsQuote(q) && WellEscaped(t.values[k], q)
    {
      CollectDomain(ms, k);
      var j := LastPos(ms, k);
      CollectLastWins(ms, j);
      assert IsQuote(ms[j].quote) && WellEscaped(t.values[k], ms[j].quote);
    }
  }
}
