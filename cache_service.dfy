/** The sentence splitter and the translation cache of
    `src/services/cache.service.ts`.

    `splitIntoSentences` keeps a short text whole and otherwise cuts it at
    the global matches of `/[^.!?]+[.!?]+(?=\s|[A-Z]|$)/g`; the regular
    expression is written out as a left-to-right scanner, and the scanner is
    proved to produce exactly the matches that the global-match semantics
    defines.

    The cache is a table of rows keyed by (hash of the source text, source
    language, target language); `getCachedTranslations` reads the rows of a
    batch of texts, `saveTranslations` inserts rows and skips those whose key
    is taken. The hash (SHA-256 in hex) is an uninterpreted function. */
module CacheService {
  import opened JsText

  // ---------------------------------------------------------------------
  // splitIntoSentences (src/services/cache.service.ts:20-29)
  // ---------------------------------------------------------------------

  /** Texts shorter than this are never split. */
  const SplitThreshold: nat := 100

  /** The character class `[.!?]`. */
  predicate IsPunct(c: char)
  {
    c == '.' || c == '!' || c == '?'
  }

  /** The lookahead `(?=\s|[A-Z]|$)` at position `e`. */
  predicate Boundary(s: string, e: nat)
    requires e <= |s|
  {
    e == |s| || IsJsWhitespace(s[e]) || ('A' <= s[e] <= 'Z')
  }

  /** A match of the pattern: `s[start..punct]` is the `[^.!?]+` part,
      `s[punct..stop]` the `[.!?]+` part, and the lookahead holds at `stop`. */
  datatype Match = Match(start: nat, punct: nat, stop: nat)

  predicate IsMatch(s: string, m: Match)
  {
    && m.start < m.punct < m.stop <= |s|
    && (forall i :: m.start <= i < m.punct ==> !IsPunct(s[i]))
    && (forall i :: m.punct <= i < m.stop ==> IsPunct(s[i]))
    && Boundary(s, m.stop)
  }

  /** No match of the pattern begins at a position in `[lo, hi)`. */
  ghost predicate NoMatchIn(s: string, lo: nat, hi: nat)
  {
    forall m: Match :: lo <= m.start < hi ==> !IsMatch(s, m)
  }

  /** What `match` with the `g` flag returns when the search starts at
      `from`: each match is the leftmost one at or after the end of the one
      before, and after the last one no match begins. */
  ghost predicate GlobalMatches(s: string, from: nat, ms: seq<Match>)
    decreases |ms|
  {
    if ms == [] then NoMatchIn(s, from, |s|)
    else
      && from <= ms[0].start
      && NoMatchIn(s, from, ms[0].start)
      && IsMatch(s, ms[0])
      && GlobalMatches(s, ms[0].stop, ms[1..])
  }

  /** The end of the maximal run, from `p`, of characters that are
      punctuation (`punct`) or are not. */
  function RunEnd(s: string, p: nat, punct: bool): (q: nat)
    requires p <= |s|
    ensures p <= q <= |s|
    ensures forall i :: p <= i < q ==> IsPunct(s[i]) == punct
    ensures q < |s| ==> IsPunct(s[q]) != punct
    decreases |s| - p
  {
    if p < |s| && IsPunct(s[p]) == punct then RunEnd(s, p + 1, punct) else p
  }

  /** The scanner. At a punctuation character no match can begin, so the
      search moves on. Otherwise the greedy runs fix the only candidate: if
      the text ends inside the first run there is no further match; if the
      lookahead fails, no match begins anywhere up to the end of the
      punctuation run, and the search resumes there. */
  function Scan(s: string, from: nat): (ms: seq<Match>)
    requires from <= |s|
    ensures forall i :: 0 <= i < |ms| ==> from <= ms[i].start && IsMatch(s, ms[i])
    ensures forall i, j :: 0 <= i < j < |ms| ==> ms[i].stop <= ms[j].start
    decreases |s| - from
  {
    if from == |s| then []
    else if IsPunct(s[from]) then Scan(s, from + 1)
    else
      var q := RunEnd(s, from, false);
      var e := RunEnd(s, q, true);
      if q == |s| then []
      else if Boundary(s, e) then [Match(from, q, e)] + Scan(s, e)
      else Scan(s, e)
  }

  /** The runs fix a match once its start is known. */
  lemma RunEndUnique(s: string, p: nat, punct: bool, q: nat)
    requires p <= q <= |s|
    requires forall i :: p <= i < q ==> IsPunct(s[i]) == punct
    requires q < |s| ==> IsPunct(s[q]) != punct
    ensures RunEnd(s, p, punct) == q
  {
  }

  lemma MatchDetermined(s: string, m: Match)
    ensures IsMatch(s, m) ==> m.punct == RunEnd(s, m.start, false) && m.stop == RunEnd(s, m.punct, true)
  {
    if IsMatch(s, m) {
      RunEndUnique(s, m.start, false, m.punct);
      RunEndUnique(s, m.punct, true, m.stop);
    }
  }

  /** Only one match can begin at a given position. */
  lemma MatchUnique(s: string, m1: Match, m2: Match)
    requires IsMatch(s, m1) && IsMatch(s, m2) && m1.start == m2.start
    ensures m1 == m2
  {
    MatchDetermined(s, m1);
    MatchDetermined(s, m2);
  }

  lemma NoMatchJoin(s: string, lo: nat, mid: nat, hi: nat)
    requires lo <= mid <= hi && NoMatchIn(s, lo, mid) && NoMatchIn(s, mid, hi)
    ensures NoMatchIn(s, lo, hi)
  {
  }

  /** Positions without a match can be prepended to a global search. */
  lemma GlobalMatchesExtend(s: string, lo: nat, hi: nat, ms: seq<Match>)
    requires lo <= hi <= |s| && NoMatchIn(s, lo, hi) && GlobalMatches(s, hi, ms)
    ensures GlobalMatches(s, lo, ms)
  {
    if ms == [] {
      NoMatchJoin(s, lo, hi, |s|);
    } else {
      NoMatchJoin(s, lo, hi, ms[0].start);
    }
  }

  /** A start inside a non-punctuation run whose punctuation run is not
      followed by the lookahead begins no match, and neither does a start
      inside that punctuation run. */
  lemma NoMatchBeforeFailedStop(s: string, from: nat)
    requires from < |s| && !IsPunct(s[from])
    requires RunEnd(s, from, false) < |s|
    requires !Boundary(s, RunEnd(s, RunEnd(s, from, false), true))
    ensures NoMatchIn(s, from, RunEnd(s, RunEnd(s, from, false), true))
  {
    var q := RunEnd(s, from, false);
    var e := RunEnd(s, q, true);
    forall m: Match | from <= m.start < e
      ensures !IsMatch(s, m)
    {
      if m.start < q {
        RunEndUnique(s, m.start, false, q);
        MatchDetermined(s, m);
      } else {
        assert IsPunct(s[m.start]);
      }
    }
  }

  lemma MatchHasPunct(s: string, m: Match)
    ensures IsMatch(s, m) ==> IsPunct(s[m.punct])
  {
  }

  /** A text that ends inside a non-punctuation run has no match from
      there on. */
  lemma NoMatchInTail(s: string, from: nat)
    requires from <= |s| && RunEnd(s, from, false) == |s|
    ensures NoMatchIn(s, from, |s|)
  {
    forall m: Match | from <= m.start < |s|
      ensures !IsMatch(s, m)
    {
      MatchHasPunct(s, m);
    }
  }

  /** The scanner computes the global matches. */
  lemma {:induction false} ScanIsGlobalMatch(s: string, from: nat)
    requires from <= |s|
    ensures GlobalMatches(s, from, Scan(s, from))
    decreases |s| - from
  {
    if from == |s| {
    } else if IsPunct(s[from]) {
      ScanIsGlobalMatch(s, from + 1);
      GlobalMatchesExtend(s, from, from + 1, Scan(s, from + 1));
    } else {
      var q := RunEnd(s, from, false);
      var e := RunEnd(s, q, true);
      if q == |s| {
        NoMatchInTail(s, from);
      } else if Boundary(s, e) {
        ScanIsGlobalMatch(s, e);
        assert Scan(s, from) == [Match(from, q, e)] + Scan(s, e);
      } else {
        ScanIsGlobalMatch(s, e);
        NoMatchBeforeFailedStop(s, from);
        GlobalMatchesExtend(s, from, e, Scan(s, e));
      }
    }
  }

  /** The global matches are determined: the scanner's list is the only one
      the definition admits. */
  lemma {:induction false} GlobalMatchesUnique(s: string, from: nat, a: seq<Match>, b: seq<Match>)
    requires GlobalMatches(s, from, a) && GlobalMatches(s, from, b)
    ensures a == b
    decreases |a|
  {
    if a != [] && b != [] {
      assert a[0].start == b[0].start;
      MatchUnique(s, a[0], b[0]);
      GlobalMatchesUnique(s, a[0].stop, a[1..], b[1..]);
      assert a == [a[0]] + a[1..] && b == [b[0]] + b[1..];
    }
  }

  /** `splitIntoSentences(text)`. */
  function SplitIntoSentences(text: string): (r: seq<string>)
    ensures |r| >= 1
  {
    if |text| < SplitThreshold then [text]
    else
      var ms := Scan(text, 0);
      if |ms| <= 1 then [text]
      else seq(|ms|, i requires 0 <= i < |ms| => Trim(text[ms[i].start..ms[i].stop]))
  }

  /** `p` is a run without punctuation followed by a run of punctuation that
      starts at `k` and reaches the end. */
  predicate SplitsAt(p: string, k: nat)
  {
    && k < |p|
    && (forall i :: 0 <= i < k ==> !IsPunct(p[i]))
    && (forall i :: k <= i < |p| ==> IsPunct(p[i]))
  }

  /** What a piece of a split looks like: trimmed at both ends, and
      (possibly empty) text without punctuation followed by at least one
      `.`, `!` or `?`, which it ends with. */
  ghost predicate IsSentence(p: string)
  {
    && p != []
    && !IsJsWhitespace(p[0]) && !IsJsWhitespace(p[|p| - 1])
    && IsPunct(p[|p| - 1])
    && exists k :: SplitsAt(p, k)
  }

  /** Trimming a run without punctuation followed by a run of punctuation
      gives a sentence. */
  lemma TrimmedRunsAreSentence(w: string, q: nat)
    requires SplitsAt(w, q)
    ensures IsSentence(Trim(w))
  {
    var t := TrimStart(w);
    var a := |w| - |t|;
    assert IsPunct(w[|w| - 1]) && IsPunct(w[q]);
    TrimEndKeeps(t);
    SuffixSplitsAt(w, q, a);
  }

  /** `trimEnd` leaves a string that ends in a non-whitespace character
      alone. */
  lemma TrimEndKeeps(t: string)
    requires t != [] && !IsJsWhitespace(t[|t| - 1])
    ensures TrimEnd(t) == t
  {
  }

  lemma SuffixSplitsAt(w: string, q: nat, a: nat)
    requires SplitsAt(w, q) && a <= q
    ensures SplitsAt(w[a..], q - a)
  {
    assert forall i :: 0 <= i < |w| - a ==> w[a..][i] == w[a + i];
  }

  /** A trimmed match is a sentence. */
  lemma MatchIsSentence(s: string, m: Match)
    requires IsMatch(s, m)
    ensures IsSentence(Trim(s[m.start..m.stop]))
  {
    TrimmedRunsAreSentence(s[m.start..m.stop], m.punct - m.start);
  }

  /** Short texts, and texts with at most one match, come back whole. */
  lemma SplitKeepsWhole(text: string)
    requires |text| < SplitThreshold || |Scan(text, 0)| <= 1
    ensures SplitIntoSentences(text) == [text]
  {
  }

  /** Otherwise the split is one trimmed sentence per global match, in text
      order and without overlap. */
  lemma SplitIntoMatches(text: string)
    requires |text| >= SplitThreshold && |Scan(text, 0)| >= 2
    ensures GlobalMatches(text, 0, Scan(text, 0))
    ensures |SplitIntoSentences(text)| == |Scan(text, 0)|
    ensures forall i :: 0 <= i < |Scan(text, 0)| ==>
              SplitIntoSentences(text)[i] == Trim(text[Scan(text, 0)[i].start..Scan(text, 0)[i].stop])
              && IsSentence(SplitIntoSentences(text)[i])
    ensures forall i, j :: 0 <= i < j < |Scan(text, 0)| ==> Scan(text, 0)[i].stop <= Scan(text, 0)[j].start
  {
    ScanIsGlobalMatch(text, 0);
    var ms := Scan(text, 0);
    var r := SplitIntoSentences(text);
    forall i | 0 <= i < |ms|
      ensures r[i] == Trim(text[ms[i].start..ms[i].stop]) && IsSentence(r[i])
    {
      MatchIsSentence(text, ms[i]);
    }
  }

  // ---------------------------------------------------------------------
  // The cache table (src/services/cache.service.ts:4-9, 31-73)
  // ---------------------------------------------------------------------

  /** `TranslationCacheItem`. */
  datatype TranslationCacheItem = TranslationCacheItem(
    sourceText: string, sourceLang: string, targetLang: string, translatedText: string)

  /** A row of the translation cache table. */
  datatype CacheRow = CacheRow(
    sourceHash: string, sourceText: string, sourceLang: string, targetLang: string, translatedText: string)

  /** The table's unique key, the columns the lookup filters on. */
  datatype CacheKey = CacheKey(sourceHash: string, sourceLang: string, targetLang: string)

  function KeyOf(row: CacheRow): CacheKey
  {
    CacheKey(row.sourceHash, row.sourceLang, row.targetLang)
  }

  /** Every row is stored under its own key, and its hash is the hash of its
      source text (only `saveTranslations` writes rows). */
  predicate ConsistentStore(hash: string -> string, store: map<CacheKey, CacheRow>)
  {
    forall k :: k in store ==> KeyOf(store[k]) == k && store[k].sourceHash == hash(store[k].sourceText)
  }

  /** `texts.map(getHash)`. */
  function Hashes(hash: string -> string, texts: seq<string>): (hs: seq<string>)
    ensures |hs| == |texts| && forall i :: 0 <= i < |texts| ==> hs[i] == hash(texts[i])
  {
    seq(|texts|, i requires 0 <= i < |texts| => hash(texts[i]))
  }

  /** The query of lines 41-47: rows whose hash is one of `hashes` and whose
      languages are exactly the requested ones. */
  function FindRows(store: map<CacheKey, CacheRow>, hashes: seq<string>, sourceLang: string, targetLang: string): set<CacheRow>
  {
    set k | k in store && store[k].sourceHash in hashes
                       && store[k].sourceLang == sourceLang && store[k].targetLang == targetLang :: store[k]
  }

  predicate DistinctTexts(rows: set<CacheRow>)
  {
    forall r1, r2 :: r1 in rows && r2 in rows && r1.sourceText == r2.sourceText ==> r1 == r2
  }

  /** The map that setting `sourceText -> translatedText` for each row
      builds, when no two rows share a source text (so the order of the rows
      does not matter). */
  function TextMap(rows: set<CacheRow>): map<string, string>
    requires DistinctTexts(rows)
  {
    map r | r in rows :: r.sourceText := r.translatedText
  }

  /** `getCachedTranslations(texts, sourceLang, targetLang)` as a value. */
  function CachedTranslations(hash: string -> string, store: map<CacheKey, CacheRow>,
                              texts: seq<string>, sourceLang: string, targetLang: string): (m: map<string, string>)
    requires ConsistentStore(hash, store)
    ensures texts == [] ==> m == map[]
  {
    if texts == [] then map[]
    else
      FoundTextsDistinct(hash, store, Hashes(hash, texts), sourceLang, targetLang);
      TextMap(FindRows(store, Hashes(hash, texts), sourceLang, targetLang))
  }

  /** Rows selected for one language pair never share a source text: the
      same text has the same hash, hence the same key. */
  lemma FoundTextsDistinct(hash: string -> string, store: map<CacheKey, CacheRow>,
                           hashes: seq<string>, sourceLang: string, targetLang: string)
    requires ConsistentStore(hash, store)
    ensures DistinctTexts(FindRows(store, hashes, sourceLang, targetLang))
  {
    var rows := FindRows(store, hashes, sourceLang, targetLang);
    forall r1, r2 | r1 in rows && r2 in rows && r1.sourceText == r2.sourceText
      ensures r1 == r2
    {
      var k1 :| k1 in store && store[k1] == r1;
      var k2 :| k2 in store && store[k2] == r2;
      assert k1 == KeyOf(r1) == KeyOf(r2) == k2;
    }
  }

  lemma TextMapAdd(rows: set<CacheRow>, r: CacheRow)
    requires DistinctTexts(rows + {r}) && r !in rows
    ensures DistinctTexts(rows)
    ensures TextMap(rows + {r}) == TextMap(rows)[r.sourceText := r.translatedText]
  {
    var m, m' := TextMap(rows + {r}), TextMap(rows)[r.sourceText := r.translatedText];
    assert m.Keys == m'.Keys;
    forall t | t in m ensures m[t] == m'[t] {
      if t != r.sourceText {
        var x :| x in rows && x.sourceText == t;
      }
    }
  }

  /** What the lookup returns: exactly one entry for each selected row,
      mapping its source text to its translation. */
  lemma {:induction false} CachedTranslationsExact(hash: string -> string, store: map<CacheKey, CacheRow>,
                                                   texts: seq<string>, sourceLang: string, targetLang: string)
    requires ConsistentStore(hash, store) && texts != []
    ensures forall t :: t in CachedTranslations(hash, store, texts, sourceLang, targetLang) ==>
              exists k :: k in store && store[k].sourceText == t
                && store[k].translatedText == CachedTranslations(hash, store, texts, sourceLang, targetLang)[t]
                && store[k].sourceHash in Hashes(hash, texts)
                && store[k].sourceLang == sourceLang && store[k].targetLang == targetLang
    ensures forall k :: (k in store && store[k].sourceHash in Hashes(hash, texts)
                         && store[k].sourceLang == sourceLang && store[k].targetLang == targetLang) ==>
              store[k].sourceText in CachedTranslations(hash, store, texts, sourceLang, targetLang)
              && CachedTranslations(hash, store, texts, sourceLang, targetLang)[store[k].sourceText] == store[k].translatedText
  {
    var hs := Hashes(hash, texts);
    var rows := FindRows(store, hs, sourceLang, targetLang);
    FoundTextsDistinct(hash, store, hs, sourceLang, targetLang);
    var m := CachedTranslations(hash, store, texts, sourceLang, targetLang);
    assert m == TextMap(rows);
    forall t | t in m
      ensures exists k :: k in store && store[k].sourceText == t && store[k].translatedText == m[t]
                && store[k].sourceHash in hs && store[k].sourceLang == sourceLang && store[k].targetLang == targetLang
    {
      var r :| r in rows && r.sourceText == t;
      var k :| k in store && store[k] == r && store[k].sourceHash in hs
               && store[k].sourceLang == sourceLang && store[k].targetLang == targetLang;
    }
    forall k | k in store && store[k].sourceHash in hs && store[k].sourceLang == sourceLang && store[k].targetLang == targetLang
      ensures store[k].sourceText in m && m[store[k].sourceText] == store[k].translatedText
    {
      assert store[k] in rows;
    }
  }

  ghost predicate Injective(hash: string -> string)
  {
    forall a, b :: hash(a) == hash(b) ==> a == b
  }

  /** With an injective hash, every text the lookup returns was asked for. */
  lemma CachedKeysAreInputs(hash: string -> string, store: map<CacheKey, CacheRow>,
                            texts: seq<string>, sourceLang: string, targetLang: string)
    requires ConsistentStore(hash, store) && Injective(hash)
    ensures forall t :: t in CachedTranslations(hash, store, texts, sourceLang, targetLang) ==> t in texts
  {
    if texts != [] {
      CachedTranslationsExact(hash, store, texts, sourceLang, targetLang);
      var m := CachedTranslations(hash, store, texts, sourceLang, targetLang);
      var hs := Hashes(hash, texts);
      forall t | t in m ensures t in texts {
        var k :| k in store && store[k].sourceText == t && store[k].sourceHash in hs;
        var i :| 0 <= i < |hs| && hs[i] == store[k].sourceHash;
        assert hash(texts[i]) == hash(t);
      }
    }
  }

  /** `items.map(...)` of lines 59-65: the row each item becomes. */
  function RowOf(hash: string -> string, item: TranslationCacheItem): CacheRow
  {
    CacheRow(hash(item.sourceText), item.sourceText, item.sourceLang, item.targetLang, item.translatedText)
  }

  function Rows(hash: string -> string, items: seq<TranslationCacheItem>): (rows: seq<CacheRow>)
    ensures |rows| == |items| && forall i :: 0 <= i < |items| ==> rows[i] == RowOf(hash, items[i])
  {
    seq(|items|, i requires 0 <= i < |items| => RowOf(hash, items[i]))
  }

  /** `createMany({ data, skipDuplicates: true })`: the rows are inserted in
      order, and one whose key is taken, by a stored row or by an earlier row
      of the same batch, is skipped without error. */
  function InsertSkippingDuplicates(store: map<CacheKey, CacheRow>, rows: seq<CacheRow>): map<CacheKey, CacheRow>
    decreases |rows|
  {
    if rows == [] then store
    else
      var k := KeyOf(rows[0]);
      InsertSkippingDuplicates(if k in store then store else store[k := rows[0]], rows[1..])
  }

  /** Rows already stored are left as they were; the keys afterwards are the
      old keys and the keys of the batch. */
  lemma {:induction false} InsertKeepsStored(store: map<CacheKey, CacheRow>, rows: seq<CacheRow>)
    ensures forall k :: k in store ==>
              k in InsertSkippingDuplicates(store, rows) && InsertSkippingDuplicates(store, rows)[k] == store[k]
    ensures forall k :: k in InsertSkippingDuplicates(store, rows) <==>
                          k in store || exists i :: 0 <= i < |rows| && KeyOf(rows[i]) == k
    decreases |rows|
  {
    if rows != [] {
      var k := KeyOf(rows[0]);
      var next := if k in store then store else store[k := rows[0]];
      InsertKeepsStored(next, rows[1..]);
      forall k' | (exists i :: 0 <= i < |rows| && KeyOf(rows[i]) == k')
        ensures k' in InsertSkippingDuplicates(store, rows)
      {
        var i :| 0 <= i < |rows| && KeyOf(rows[i]) == k';
        if i > 0 { assert KeyOf(rows[1..][i - 1]) == k'; }
      }
      forall k' | k' in InsertSkippingDuplicates(store, rows) && k' !in store
        ensures exists i :: 0 <= i < |rows| && KeyOf(rows[i]) == k'
      {
        if k' != k {
          assert k' !in next;
          var i :| 0 <= i < |rows[1..]| && KeyOf(rows[1..][i]) == k';
          assert KeyOf(rows[i + 1]) == k';
        }
      }
    }
  }

  /** The first row of the batch for a key that was free is the one kept. */
  lemma {:induction false} InsertFirstWins(store: map<CacheKey, CacheRow>, rows: seq<CacheRow>, i: nat)
    requires i < |rows| && KeyOf(rows[i]) !in store
    requires forall j :: 0 <= j < i ==> KeyOf(rows[j]) != KeyOf(rows[i])
    ensures KeyOf(rows[i]) in InsertSkippingDuplicates(store, rows)
    ensures InsertSkippingDuplicates(store, rows)[KeyOf(rows[i])] == rows[i]
    decreases |rows|
  {
    var k := KeyOf(rows[0]);
    var next := if k in store then store else store[k := rows[0]];
    if i == 0 {
      InsertKeepsStored(next, rows[1..]);
    } else {
      assert KeyOf(rows[0]) != KeyOf(rows[i]);
      assert rows[1..][i - 1] == rows[i];
      InsertFirstWins(next, rows[1..], i - 1);
    }
  }

  /** A batch whose every key is already taken changes nothing. */
  lemma {:induction false} InsertAllTaken(store: map<CacheKey, CacheRow>, rows: seq<CacheRow>)
    requires forall i :: 0 <= i < |rows| ==> KeyOf(rows[i]) in store
    ensures InsertSkippingDuplicates(store, rows) == store
    decreases |rows|
  {
    if rows != [] {
      assert KeyOf(rows[0]) in store;
      InsertAllTaken(store, rows[1..]);
    }
  }

  /** Saving the same batch twice is the same as saving it once. */
  lemma InsertIdempotent(store: map<CacheKey, CacheRow>, rows: seq<CacheRow>)
    ensures InsertSkippingDuplicates(InsertSkippingDuplicates(store, rows), rows)
            == InsertSkippingDuplicates(store, rows)
  {
    var once := InsertSkippingDuplicates(store, rows);
    InsertKeepsStored(store, rows);
    InsertAllTaken(once, rows);
  }

  /** Inserting rows hashed with the table's hash keeps the table
      consistent. */
  lemma {:induction false} InsertConsistent(hash: string -> string, store: map<CacheKey, CacheRow>, rows: seq<CacheRow>)
    requires ConsistentStore(hash, store)
    requires forall i :: 0 <= i < |rows| ==> rows[i].sourceHash == hash(rows[i].sourceText)
    ensures ConsistentStore(hash, InsertSkippingDuplicates(store, rows))
    decreases |rows|
  {
    if rows != [] {
      var k := KeyOf(rows[0]);
      var next := if k in store then store else store[k := rows[0]];
      assert ConsistentStore(hash, next);
      InsertConsistent(hash, next, rows[1..]);
    }
  }

  /** Save then look up: after saving an item whose key was free, looking up
      its text for its language pair returns its translation. */
  lemma SaveThenLookup(hash: string -> string, store: map<CacheKey, CacheRow>, item: TranslationCacheItem)
    requires ConsistentStore(hash, store)
    requires KeyOf(RowOf(hash, item)) !in store
    ensures ConsistentStore(hash, InsertSkippingDuplicates(store, Rows(hash, [item])))
    ensures var m := CachedTranslations(hash, InsertSkippingDuplicates(store, Rows(hash, [item])),
                                        [item.sourceText], item.sourceLang, item.targetLang);
            item.sourceText in m && m[item.sourceText] == item.translatedText
  {
    var rows := Rows(hash, [item]);
    var after := InsertSkippingDuplicates(store, rows);
    InsertConsistent(hash, store, rows);
    InsertFirstWins(store, rows, 0);
    var k := KeyOf(rows[0]);
    assert after[k] == rows[0];
    assert Hashes(hash, [item.sourceText])[0] == hash(item.sourceText);
    CachedTranslationsExact(hash, after, [item.sourceText], item.sourceLang, item.targetLang);
  }

  /** `CacheService`: the hash and the shared table it reads and writes. */
  class CacheService {
    /** `getHash`: SHA-256 of the text, as hex. */
    const hash: string -> string
    /** The `translationCache` table. */
    var store: map<CacheKey, CacheRow>

    predicate Valid()
      reads this
    {
      ConsistentStore(hash, store)
    }

    constructor (hash: string -> string, store: map<CacheKey, CacheRow>)
      requires ConsistentStore(hash, store)
      ensures Valid() && this.hash == hash && this.store == store
    {
      this.hash := hash;
      this.store := store;
    }

    /** `getCachedTranslations`: the query, then the loop of lines 49-51
        that fills the result map, over the returned rows in whatever order
        the store yields them. */
    method GetCachedTranslations(texts: seq<string>, sourceLang: string, targetLang: string)
      returns (results: map<string, string>)
      requires Valid()
      ensures results == CachedTranslations(hash, store, texts, sourceLang, targetLang)
    {
      results := map[];
      if |texts| == 0 {
        return;
      }
      var hashes := Hashes(hash, texts);
      var cachedEntries := FindRows(store, hashes, sourceLang, targetLang);
      FoundTextsDistinct(hash, store, hashes, sourceLang, targetLang);
      var rest := cachedEntries;
      while rest != {}
        invariant rest <= cachedEntries
        invariant DistinctTexts(cachedEntries - rest)
        invariant results == TextMap(cachedEntries - rest)
        decreases |rest|
      {
        var entry :| entry in rest;
        assert (cachedEntries - rest) + {entry} == cachedEntries - (rest - {entry});
        TextMapAdd(cachedEntries - rest, entry);
        results := results[entry.sourceText := entry.translatedText];
        rest := rest - {entry};
      }
      assert cachedEntries - rest == cachedEntries;
    }

    /** `saveTranslations`: nothing for an empty batch, otherwise the batch's
        rows inserted with duplicates skipped. */
    method SaveTranslations(items: seq<TranslationCacheItem>)
      requires Valid()
      modifies this
      ensures Valid()
      ensures items == [] ==> store == old(store)
      ensures store == InsertSkippingDuplicates(old(store), Rows(hash, items))
    {
      if |items| == 0 {
        return;
      }
      var data := Rows(hash, items);
      InsertConsistent(hash, store, data);
      store := InsertSkippingDuplicates(store, data);
    }
  }
}
