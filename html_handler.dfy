/** The HTML fragment splitter of `src/utils/html-handler.ts`.

    `extract` finds every tag `<...>`; a tag whose name is not one of the
    inline tags is a block tag. The text between block tags (and before the
    first and after the last) becomes a numbered fragment when it is not
    blank, and the template interleaves the block tags, verbatim, with `[k]`
    placeholders. `restore` puts (translated) fragments back in place of the
    placeholders. The regular expressions of the source are modelled as the
    left-to-right scanners they denote. */
module HtmlHandler {
  import opened Wrappers
  import opened JsText

  /** The inline allow-list (line 13). */
  const InlineTags: seq<string> := ["b", "i", "u", "strong", "em", "span", "a", "code", "small", "sub", "sup"]

  predicate IsAsciiLetter(c: char)
  {
    'a' <= c <= 'z' || 'A' <= c <= 'Z'
  }

  // ---------------------------------------------------------------------
  // isHtml: /<[a-z][\s\S]*>/i.test(text)   (lines 18-20)
  // ---------------------------------------------------------------------

  /** Some `<` is directly followed by an ASCII letter and a `>` comes later. */
  ghost predicate HasTagLikeText(t: string)
  {
    exists i, j :: 0 <= i && i + 1 < j < |t| && t[i] == '<' && IsAsciiLetter(t[i + 1]) && t[j] == '>'
  }

  /** The regex test as a scan: the first `<` followed by a letter decides,
      since any later candidate sees fewer characters after it. */
  function IsHtmlFrom(t: string, i: nat): (r: bool)
    requires i <= |t|
    ensures r <==> exists a, j :: i <= a && a + 1 < j < |t| && t[a] == '<' && IsAsciiLetter(t[a + 1]) && t[j] == '>'
    decreases |t| - i
  {
    if i + 1 >= |t| then false
    else if t[i] == '<' && IsAsciiLetter(t[i + 1]) then '>' in t[i + 2..]
    else IsHtmlFrom(t, i + 1)
  }

  function IsHtml(text: string): (r: bool)
    ensures r <==> HasTagLikeText(text)
  {
    IsHtmlFrom(text, 0)
  }

  // ---------------------------------------------------------------------
  // Tags: /<[^>]+>/g and the block/inline filter   (lines 54-57)
  // ---------------------------------------------------------------------

  datatype Tag = Tag(pos: nat, text: string)

  function End(tag: Tag): nat
  {
    tag.pos + |tag.text|
  }

  /** Position of the first `>` at or after `k`. */
  function FirstClose(t: string, k: nat): (r: Option<nat>)
    requires k <= |t|
    ensures r.Some? ==> k <= r.value < |t| && t[r.value] == '>'
    ensures r.Some? ==> forall m :: k <= m < r.value ==> t[m] != '>'
    ensures r.None? ==> forall m :: k <= m < |t| ==> t[m] != '>'
    decreases |t| - k
  {
    if k == |t| then None else if t[k] == '>' then Some(k) else FirstClose(t, k + 1)
  }

  /** A match of `<[^>]+>`: `<`, at least one character other than `>`, `>`. */
  predicate IsTagText(s: string)
  {
    |s| >= 3 && s[0] == '<' && s[|s| - 1] == '>' && forall m :: 0 < m < |s| - 1 ==> s[m] != '>'
  }

  /** Where a match of `<[^>]+>` starting at `i` ends (exclusive). The greedy
      `[^>]+` runs to the first `>`; the match fails when there is none or
      when it directly follows the `<`. A match at `i` is unique: it ends at
      `j` exactly when `t[i..j]` is a tag. */
  function TagAt(t: string, i: nat): (r: Option<nat>)
    requires i < |t|
    ensures r.Some? ==> i < r.value <= |t| && IsTagText(t[i..r.value])
    ensures forall j :: i < j <= |t| ==> (IsTagText(t[i..j]) <==> r == Some(j))
  {
    TagTextsAt(t, i);
    if t[i] != '<' then None
    else match FirstClose(t, i + 1)
      case None => None
      case Some(j) => if j > i + 1 then Some(j + 1) else None
  }

  /** What a tag found at `i` looks like in the text around it. */
  lemma TagTextsAt(t: string, i: nat)
    requires i < |t|
    ensures forall j :: i < j <= |t| && IsTagText(t[i..j]) ==>
              t[i] == '<' && i + 2 < j && t[j - 1] == '>' && forall m :: i < m < j - 1 ==> t[m] != '>'
  {
    forall j | i < j <= |t| && IsTagText(t[i..j])
      ensures t[i] == '<' && i + 2 < j && t[j - 1] == '>' && forall m :: i < m < j - 1 ==> t[m] != '>'
    {
      var s := t[i..j];
      assert t[i] == s[0] && t[j - 1] == s[|s| - 1];
      forall m | i < m < j - 1 ensures t[m] != '>' {
        assert t[m] == s[m - i];
      }
    }
  }

  predicate IsNameChar(c: char)
  {
    IsAsciiLetter(c) || '1' <= c <= '6'
  }

  /** The longest run of `[a-z1-6]` (case-insensitive) starting at `k`. */
  function NameRun(s: string, k: nat): (r: string)
    requires k <= |s|
    ensures k + |r| <= |s| && r == s[k..k + |r|]
    ensures forall m :: 0 <= m < |r| ==> IsNameChar(r[m])
    ensures k + |r| < |s| ==> !IsNameChar(s[k + |r|])
    decreases |s| - k
  {
    if k < |s| && IsNameChar(s[k]) then [s[k]] + NameRun(s, k + 1) else []
  }

  function LowerAscii(s: string): (r: string)
    ensures |r| == |s|
  {
    seq(|s|, m requires 0 <= m < |s| => if 'A' <= s[m] <= 'Z' then (s[m] as int + 32) as char else s[m])
  }

  /** `<\/?([a-z1-6]+)` matches at `p`: a `<`, then a name, either directly
      or after a `/` (when `/` is not followed by a name the optional `/`
      backtracks to empty, and `/` is no name character). */
  predicate NameAt(s: string, p: nat)
  {
    && p < |s| && s[p] == '<'
    && ((p + 2 < |s| && s[p + 1] == '/' && IsNameChar(s[p + 2])) || (p + 1 < |s| && IsNameChar(s[p + 1])))
  }

  /** Where the captured name of a match at `p` starts. */
  function NameOffset(s: string, p: nat): nat
    requires NameAt(s, p)
  {
    if p + 2 < |s| && s[p + 1] == '/' && IsNameChar(s[p + 2]) then p + 2 else p + 1
  }

  /** `tag.match(/<\/?([a-z1-6]+)/i)?.[1]?.toLowerCase()`: an unanchored
      search from `q` on (see `TagNameLeftmost`). */
  function TagNameFrom(s: string, q: nat): (r: Option<string>)
    requires q <= |s|
    ensures r.Some? ==> |r.value| > 0
    decreases |s| - q
  {
    if q >= |s| then None
    else if NameAt(s, q) then Some(LowerAscii(NameRun(s, NameOffset(s, q))))
    else TagNameFrom(s, q + 1)
  }

  /** The leftmost match of the name pattern decides, and its greedy group
      is the whole run of name characters after `<` or `</`, lower-cased;
      without a match there is no name. `p` is where that match starts. */
  lemma {:induction false} TagNameLeftmost(s: string, q: nat) returns (p: nat)
    requires q <= |s|
    ensures TagNameFrom(s, q).None? <==> forall p' :: q <= p' < |s| ==> !NameAt(s, p')
    ensures TagNameFrom(s, q).Some? ==>
              && q <= p < |s| && NameAt(s, p) && (forall p' :: q <= p' < p ==> !NameAt(s, p'))
              && TagNameFrom(s, q).value == LowerAscii(NameRun(s, NameOffset(s, p)))
    decreases |s| - q
  {
    if q >= |s| {
      p := q;
    } else if NameAt(s, q) {
      p := q;
    } else {
      p := TagNameLeftmost(s, q + 1);
    }
  }

  function TagName(tag: string): Option<string>
  {
    TagNameFrom(tag, 0)
  }

  /** Line 56: a tag with a name outside the inline list. A tag with no name
      (`<!-- x -->`, `< p>`) is not a block tag and stays in the text. */
  predicate IsBlockTag(tag: string)
  {
    TagName(tag).Some? && TagName(tag).value !in InlineTags
  }

  /** Block tags sit in order, inside the text, and do not overlap. */
  predicate TagLayout(t: string, tags: seq<Tag>, from: nat)
  {
    && (forall k :: 0 <= k < |tags| ==>
          from <= tags[k].pos && End(tags[k]) <= |t| && t[tags[k].pos..End(tags[k])] == tags[k].text)
    && (forall k :: 0 < k < |tags| ==> End(tags[k - 1]) <= tags[k].pos)
  }

  /** Only block tags are kept, each a match of `<[^>]+>`. */
  predicate AllBlock(tags: seq<Tag>)
  {
    forall k :: 0 <= k < |tags| ==> IsTagText(tags[k].text) && IsBlockTag(tags[k].text)
  }

  /** `html.matchAll(/<[^>]+>/g)` from `from` on: every position is tried in
      turn, and after a match the search resumes at its end. */
  function MatchAllFrom(t: string, from: nat): (ms: seq<Tag>)
    requires from <= |t|
    ensures forall k :: 0 <= k < |ms| ==> IsTagText(ms[k].text)
    decreases |t| - from
  {
    if from == |t| then []
    else match TagAt(t, from)
      case None => MatchAllFrom(t, from + 1)
      case Some(e) => [Tag(from, t[from..e])] + MatchAllFrom(t, e)
  }

  /** The `.filter` of lines 54-57: the block tags, in their order. */
  function FilterBlock(ms: seq<Tag>): (r: seq<Tag>)
    ensures forall m :: m in r <==> m in ms && IsBlockTag(m.text)
  {
    if ms == [] then []
    else
      assert ms == [ms[0]] + ms[1..];
      (if IsBlockTag(ms[0].text) then [ms[0]] else []) + FilterBlock(ms[1..])
  }

  function BlockTags(html: string): seq<Tag>
  {
    FilterBlock(MatchAllFrom(html, 0))
  }

  /** The tags kept from a position on are block tags and matches of
      `<[^>]+>`, each the text at its position, in order and without
      overlap. */
  lemma {:induction false} BlockTagsFromLayout(t: string, from: nat)
    requires from <= |t|
    ensures TagLayout(t, FilterBlock(MatchAllFrom(t, from)), from)
    ensures AllBlock(FilterBlock(MatchAllFrom(t, from)))
    decreases |t| - from
  {
    if from < |t| {
      match TagAt(t, from)
      case None =>
        BlockTagsFromLayout(t, from + 1);
        LayoutFrom(t, FilterBlock(MatchAllFrom(t, from + 1)), from, from + 1);
      case Some(e) =>
        BlockTagsFromLayout(t, e);
        KeptAfterMatch(t, from, e);
    }
  }

  /** A match at `from` ending at `e` is kept before the tags kept from `e`
      when it is a block tag. */
  lemma KeptAfterMatch(t: string, from: nat, e: nat)
    requires from < e <= |t| && IsTagText(t[from..e])
    requires TagLayout(t, FilterBlock(MatchAllFrom(t, e)), e) && AllBlock(FilterBlock(MatchAllFrom(t, e)))
    ensures var kept := FilterBlock([Tag(from, t[from..e])] + MatchAllFrom(t, e));
            TagLayout(t, kept, from) && AllBlock(kept)
  {
    var tag := Tag(from, t[from..e]);
    var kept := FilterBlock(MatchAllFrom(t, e));
    FilterBlockCons(tag, MatchAllFrom(t, e));
    if IsBlockTag(tag.text) {
      LayoutCons(t, tag, kept, from);
      AllBlockCons(tag, kept);
    } else {
      LayoutFrom(t, kept, from, e);
    }
  }

  lemma FilterBlockCons(m: Tag, ms: seq<Tag>)
    ensures FilterBlock([m] + ms) == (if IsBlockTag(m.text) then [m] else []) + FilterBlock(ms)
  {
    assert ([m] + ms)[0] == m && ([m] + ms)[1..] == ms;
  }

  lemma LayoutFrom(t: string, tags: seq<Tag>, a: nat, b: nat)
    requires a <= b && TagLayout(t, tags, b)
    ensures TagLayout(t, tags, a)
  {
  }

  lemma LayoutCons(t: string, tag: Tag, rest: seq<Tag>, from: nat)
    requires from <= tag.pos && End(tag) <= |t| && t[tag.pos..End(tag)] == tag.text
    requires TagLayout(t, rest, End(tag))
    ensures TagLayout(t, [tag] + rest, from)
  {
    var tags := [tag] + rest;
    forall k | 0 < k < |tags| ensures tags[k] == rest[k - 1] { }
  }

  lemma AllBlockCons(tag: Tag, rest: seq<Tag>)
    requires IsTagText(tag.text) && IsBlockTag(tag.text) && AllBlock(rest)
    ensures AllBlock([tag] + rest)
  {
    var tags := [tag] + rest;
    forall k | 0 < k < |tags| ensures tags[k] == rest[k - 1] { }
  }

  lemma BlockTagsLayout(html: string)
    ensures TagLayout(html, BlockTags(html), 0)
    ensures AllBlock(BlockTags(html))
  {
    BlockTagsFromLayout(html, 0);
  }

  // ---------------------------------------------------------------------
  // The global search /<[^>]+>/g, stated declaratively
  // ---------------------------------------------------------------------

  /** No match of `<[^>]+>` starts in `[lo, hi)`. */
  ghost predicate NoTagIn(t: string, lo: nat, hi: nat)
  {
    forall p, j :: lo <= p < hi && p < j <= |t| ==> !IsTagText(t[p..j])
  }

  /** `ms` is what a global search finds from `from` on: the leftmost match,
      then the leftmost match from its end, and so on, until no match is
      left. */
  ghost predicate TagMatches(t: string, from: nat, ms: seq<Tag>)
    decreases |ms|
  {
    if ms == [] then NoTagIn(t, from, |t|)
    else
      && from <= ms[0].pos && End(ms[0]) <= |t|
      && t[ms[0].pos..End(ms[0])] == ms[0].text && IsTagText(ms[0].text)
      && NoTagIn(t, from, ms[0].pos)
      && TagMatches(t, End(ms[0]), ms[1..])
  }

  /** No tag at `from` joins a tag-free stretch after it. */
  lemma NoTagStep(t: string, from: nat, hi: nat)
    requires from < |t| && from < hi && TagAt(t, from).None? && NoTagIn(t, from + 1, hi)
    ensures NoTagIn(t, from, hi)
  {
  }

  /** The scan finds the global matches. */
  lemma {:induction false} MatchAllIsTagMatches(t: string, from: nat)
    requires from <= |t|
    ensures TagMatches(t, from, MatchAllFrom(t, from))
    decreases |t| - from
  {
    if from < |t| {
      match TagAt(t, from)
      case None =>
        MatchAllIsTagMatches(t, from + 1);
        var rest := MatchAllFrom(t, from + 1);
        if rest == [] {
          NoTagStep(t, from, |t|);
        } else {
          NoTagStep(t, from, rest[0].pos);
        }
      case Some(e) =>
        MatchAllIsTagMatches(t, e);
        var all := [Tag(from, t[from..e])] + MatchAllFrom(t, e);
        assert all[1..] == MatchAllFrom(t, e);
    }
  }

  /** The global matches are unique: they are what the scan finds. */
  lemma {:induction false} TagMatchesUnique(t: string, from: nat, ms: seq<Tag>)
    requires from <= |t| && TagMatches(t, from, ms)
    ensures ms == MatchAllFrom(t, from)
    decreases |t| - from
  {
    if from < |t| {
      match TagAt(t, from)
      case None =>
        assert TagMatches(t, from + 1, ms);
        TagMatchesUnique(t, from + 1, ms);
      case Some(e) =>
        assert IsTagText(t[from..e]);
        assert ms != [] && ms[0].pos == from;
        assert t[from..End(ms[0])] == ms[0].text;
        assert ms[0] == Tag(from, t[from..e]);
        TagMatchesUnique(t, e, ms[1..]);
        assert ms == [ms[0]] + ms[1..];
    }
  }

  /** `extract` keeps exactly the block tags among the global matches of
      `<[^>]+>`, in order: every block-tag match is a split point. */
  lemma BlockTagsAreBlockMatches(html: string, ms: seq<Tag>)
    requires TagMatches(html, 0, ms)
    ensures BlockTags(html) == FilterBlock(ms)
    ensures forall m :: m in ms && IsBlockTag(m.text) ==> m in BlockTags(html)
  {
    TagMatchesUnique(html, 0, ms);
  }

  // ---------------------------------------------------------------------
  // The template and its fragments, segment by segment
  // ---------------------------------------------------------------------

  /** The placeholder text `[k]`. */
  function Placeholder(k: nat): string
  {
    "[" + NatToString(k) + "]"
  }

  /** Where segment k starts: after block tag k-1. */
  function SegStart(tags: seq<Tag>, k: nat): nat
    requires k <= |tags|
  {
    if k == 0 then 0 else End(tags[k - 1])
  }

  /** Where the gap of segment k stops: at block tag k, or at the end. */
  function SegStop(html: string, tags: seq<Tag>, k: nat): nat
    requires k <= |tags|
  {
    if k < |tags| then tags[k].pos else |html|
  }

  /** The text before each block tag, and the remaining text (lines 67, 79). */
  function Gap(html: string, tags: seq<Tag>, k: nat): string
    requires k <= |tags|
  {
    var a, b := SegStart(tags, k), SegStop(html, tags, k);
    if a <= b <= |html| then html[a..b] else ""
  }

  function Gaps(html: string, tags: seq<Tag>): (gs: seq<string>)
    ensures |gs| == |tags| + 1
    ensures forall k :: 0 <= k <= |tags| ==> gs[k] == Gap(html, tags, k)
  {
    seq(|tags| + 1, k requires 0 <= k <= |tags| => Gap(html, tags, k))
  }

  lemma GapAt(html: string, tags: seq<Tag>, k: nat)
    requires TagLayout(html, tags, 0) && k <= |tags|
    ensures SegStart(tags, k) <= SegStop(html, tags, k) <= |html|
    ensures Gap(html, tags, k) == html[SegStart(tags, k)..SegStop(html, tags, k)]
  {
  }

  /** The texts of the tags, in order. */
  function TagTexts(tags: seq<Tag>): (ts: seq<string>)
    ensures |ts| == |tags|
    ensures forall k :: 0 <= k < |tags| ==> ts[k] == tags[k].text
  {
    seq(|tags|, k requires 0 <= k < |tags| => tags[k].text)
  }

  /** The block tag closing each segment; the last segment has none. */
  function Closers(tags: seq<Tag>): (ts: seq<string>)
    ensures |ts| == |tags| + 1 && ts[|tags|] == ""
    ensures forall k :: 0 <= k < |tags| ==> ts[k] == tags[k].text
  {
    TagTexts(tags) + [""]
  }

  /** The fragments pushed for the first k segments: the gaps that are not
      blank, in order. */
  function Fragments(gs: seq<string>, k: nat): (fs: seq<string>)
    requires k <= |gs|
    ensures |fs| <= k
  {
    if k == 0 then [] else Fragments(gs, k - 1) + (if HasContent(gs[k - 1]) then [gs[k - 1]] else [])
  }

  /** The template text appended for the first k segments: a placeholder for
      a non-blank gap, numbered by the fragments before it, then the block
      tag verbatim. */
  function Template(gs: seq<string>, ts: seq<string>, k: nat): string
    requires k <= |gs| == |ts|
  {
    if k == 0 then ""
    else
      Template(gs, ts, k - 1)
        + (if HasContent(gs[k - 1]) then Placeholder(|Fragments(gs, k - 1)|) else "")
        + ts[k - 1]
  }

  // ---------------------------------------------------------------------
  // extract (lines 54-86)
  // ---------------------------------------------------------------------

  /** One more segment: its fragment, if its gap is not blank, and its
      template text. */
  lemma SegmentStep(gs: seq<string>, ts: seq<string>, k: nat)
    requires k < |gs| == |ts|
    ensures Fragments(gs, k + 1) == Fragments(gs, k) + (if HasContent(gs[k]) then [gs[k]] else [])
    ensures Template(gs, ts, k + 1)
         == Template(gs, ts, k) + (if HasContent(gs[k]) then Placeholder(|Fragments(gs, k)|) else "") + ts[k]
  {
  }

  /** The truthiness test `if (text.trim())` of lines 69 and 80. */
  method IsNonBlank(text: string) returns (b: bool)
    ensures b <==> HasContent(text)
  {
    b := Trim(text) != "";
    TrimEmptyIffBlank(text);
  }

  /** Lines 54-86: find the block tags, then split the html at them. */
  method Extract(html: string) returns (template: string, fragments: seq<string>)
    ensures fragments == FragmentsFor(html)
    ensures template == TemplateFor(html)
  {
    var blockTags := BlockTags(html);
    BlockTagsLayout(html);
    template, fragments := SplitAtTags(html, blockTags);
  }

  /** The forEach loop of lines 64-77 followed by the tail of lines 79-84:
      the fragments and the template are those of all the segments the tags
      cut the html into. */
  method SplitAtTags(html: string, blockTags: seq<Tag>) returns (template: string, fragments: seq<string>)
    requires TagLayout(html, blockTags, 0)
    ensures fragments == Fragments(Gaps(html, blockTags), |blockTags| + 1)
    ensures template == Template(Gaps(html, blockTags), Closers(blockTags), |blockTags| + 1)
  {
    var finalTemplate, lastPos;
    fragments, finalTemplate, lastPos := SplitLoop(html, blockTags);
    ghost var k := |blockTags|;
    GapAt(html, blockTags, k);
    var remainingText := html[lastPos..];
    fragments, template := AppendSegment(remainingText, "", fragments, finalTemplate, Gaps(html, blockTags), Closers(blockTags), k);
  }

  /** The forEach loop of lines 64-77: the segments before each block tag,
      and the position after the last one. */
  method SplitLoop(html: string, blockTags: seq<Tag>) returns (fragments: seq<string>, finalTemplate: string, lastPos: nat)
    requires TagLayout(html, blockTags, 0)
    ensures lastPos == SegStart(blockTags, |blockTags|)
    ensures fragments == Fragments(Gaps(html, blockTags), |blockTags|)
    ensures finalTemplate == Template(Gaps(html, blockTags), Closers(blockTags), |blockTags|)
  {
    ghost var gs, ts := Gaps(html, blockTags), Closers(blockTags);
    fragments := [];
    finalTemplate := "";
    lastPos := 0;
    var k := 0;
    while k < |blockTags|
      invariant 0 <= k <= |blockTags|
      invariant lastPos == SegStart(blockTags, k)
      invariant fragments == Fragments(gs, k)
      invariant finalTemplate == Template(gs, ts, k)
    {
      var pos := blockTags[k].pos;
      var tag := blockTags[k].text;
      GapAt(html, blockTags, k);
      var textBetween := html[lastPos..pos];
      fragments, finalTemplate := AppendSegment(textBetween, tag, fragments, finalTemplate, gs, ts, k);
      lastPos := pos + |tag|;
      k := k + 1;
    }
  }

  /** One segment, as lines 67-76 handle it: a non-blank text becomes the
      next fragment and its placeholder, then the tag follows verbatim. The
      tail of lines 79-84 is the same with no tag after it. */
  method AppendSegment(text: string, tag: string, fragments: seq<string>, template: string,
                       ghost gs: seq<string>, ghost ts: seq<string>, ghost k: nat)
    returns (fragments': seq<string>, template': string)
    requires k < |gs| == |ts| && text == gs[k] && tag == ts[k]
    requires fragments == Fragments(gs, k) && template == Template(gs, ts, k)
    ensures fragments' == Fragments(gs, k + 1) && template' == Template(gs, ts, k + 1)
  {
    SegmentStep(gs, ts, k);
    fragments', template' := fragments, template;
    var hasText := IsNonBlank(text);
    if hasText {
      var fragIdx := |fragments|;
      fragments' := fragments + [text];
      template' := template + Placeholder(fragIdx);
    }
    template' := template' + tag;
  }

  /** What extract returns, as functions of the html. */
  function TemplateFor(html: string): string
  {
    var tags := BlockTags(html);
    Template(Gaps(html, tags), Closers(tags), |tags| + 1)
  }

  function FragmentsFor(html: string): seq<string>
  {
    var tags := BlockTags(html);
    Fragments(Gaps(html, tags), |tags| + 1)
  }

  // ---------------------------------------------------------------------
  // restore: template.replace(/\[(\d+)\]/g, ...)   (lines 92-98)
  // ---------------------------------------------------------------------

  /** End of the run of digits starting at `k`. */
  function DigitRun(t: string, k: nat): (r: nat)
    requires k <= |t|
    ensures k <= r <= |t| && AllDigits(t[k..r]) && (r < |t| ==> !IsDigit(t[r]))
    decreases |t| - k
  {
    if k < |t| && IsDigit(t[k]) then DigitRun(t, k + 1) else k
  }

  /** The text of one match of `\[(\d+)\]`: a bracket, one or more digits, a
      bracket. */
  predicate IsPlaceholderText(s: string)
  {
    |s| >= 3 && s[0] == '[' && s[|s| - 1] == ']' && AllDigits(s[1..|s| - 1])
  }

  /** A match of `\[(\d+)\]` at the start of `t`: its length and the number
      `parseInt` reads from its digits, leading zeros included. There is at
      most one, and `None` means there is none. */
  function PlaceholderAt(t: string): (r: Option<(nat, nat)>)
    ensures r.Some? ==> && 3 <= r.value.0 <= |t| && IsPlaceholderText(t[..r.value.0])
                        && AllDigits(t[1..r.value.0 - 1]) && r.value.1 == DigitsValue(t[1..r.value.0 - 1])
    ensures forall n :: 0 < n <= |t| ==> (IsPlaceholderText(t[..n]) <==> r.Some? && r.value.0 == n)
  {
    PlaceholderTexts(t);
    if t == [] || t[0] != '[' then None
    else
      var d := DigitRun(t, 1);
      if d > 1 && d < |t| && t[d] == ']' then Some((d + 1, DigitsValue(t[1..d]))) else None
  }

  /** A placeholder at the start of `t` ends where the digit run after the
      bracket ends. */
  lemma PlaceholderTexts(t: string)
    ensures forall n :: 0 < n <= |t| ==>
              (IsPlaceholderText(t[..n]) <==> n >= 3 && t[0] == '[' && DigitRun(t, 1) == n - 1 && t[n - 1] == ']')
  {
    forall n | 0 < n <= |t|
      ensures IsPlaceholderText(t[..n]) <==> n >= 3 && t[0] == '[' && DigitRun(t, 1) == n - 1 && t[n - 1] == ']'
    {
      var s := t[..n];
      if n >= 3 {
        assert s[0] == t[0] && s[n - 1] == t[n - 1] && s[1..n - 1] == t[1..n - 1];
        if IsPlaceholderText(s) {
          DigitRunOver(t, 1, n - 1);
        }
      }
    }
  }

  /** `parseInt` ignores leading zeros: `[007]` restores fragment 7. */
  lemma LeadingZerosPlaceholder(tr: seq<string>)
    requires |tr| > 7
    ensures PlaceholderAt("[007]") == Some((5, 7))
    ensures Restore("[007]", tr) == tr[7]
  {
    var t := "[007]";
    assert AllDigits(t[1..4]) && t[4] == ']';
    DigitRunOver(t, 1, 4);
    assert t[1..4] == "007";
    assert "007"[..2] == "00" && "00"[..1] == "0" && "0"[..0] == "";
    assert DigitsValue("0") == 0 && DigitsValue("00") == 0 && DigitsValue("007") == 7;
    assert t[5..] == [];
  }

  /** With seven translations or fewer, `[007]` names no fragment and is
      kept as written, leading zeros and all. */
  lemma LeadingZerosOutOfRange(tr: seq<string>)
    requires |tr| <= 7
    ensures Restore("[007]", tr) == "[007]"
  {
    var p := "[007]";
    assert p[1..|p| - 1] == "007";
    ValueOf007();
    RestoreLonePlaceholder(p, tr);
  }

  /** A template that is one placeholder out of range comes back as it is. */
  lemma RestoreLonePlaceholder(p: string, tr: seq<string>)
    requires IsPlaceholderText(p) && |tr| <= DigitsValue(p[1..|p| - 1])
    ensures Restore(p, tr) == p
  {
    RestoreAnyPlaceholder(p, "", tr);
    assert p + "" == p;
  }

  lemma ValueOf007()
    ensures AllDigits("007") && DigitsValue("007") == 7
  {
    assert "007"[..2] == "00" && "00"[..1] == "0" && "0"[..0] == "";
  }

  /** Each placeholder in range is replaced by its fragment; one out of range
      stays as written; the replacement text is not scanned again. */
  function Restore(template: string, translatedFragments: seq<string>): string
    decreases |template|
  {
    if template == [] then ""
    else match PlaceholderAt(template)
      case Some((len, idx)) =>
        (if idx < |translatedFragments| then translatedFragments[idx] else template[..len])
          + Restore(template[len..], translatedFragments)
      case None => [template[0]] + Restore(template[1..], translatedFragments)
  }

  /** `s` holds no `[digits]` text. */
  predicate NoPlaceholder(s: string)
    decreases |s|
  {
    s == [] || (PlaceholderAt(s).None? && NoPlaceholder(s[1..]))
  }

  /** Text that a match of `\[(\d+)\]` cannot run past: empty, or ending in
      neither a digit nor `[`. */
  predicate CleanEnd(s: string)
  {
    s == [] || (!IsDigit(s[|s| - 1]) && s[|s| - 1] != '[')
  }

  lemma PlaceholderAtPrefix(a: string, b: string)
    requires a != [] && CleanEnd(a)
    ensures PlaceholderAt(a + b) == PlaceholderAt(a)
    ensures PlaceholderAt(a).Some? ==> PlaceholderAt(a).value.0 <= |a|
  {
    var t := a + b;
    if a[0] == '[' {
      assert |a| >= 2;
      DigitRunPrefix(a, b, 1);
      var d := DigitRun(a, 1);
      assert t[1..d] == a[1..d];
    }
  }

  lemma {:induction false} DigitRunPrefix(a: string, b: string, k: nat)
    requires k < |a| && CleanEnd(a)
    ensures DigitRun(a + b, k) == DigitRun(a, k) < |a|
    decreases |a| - k
  {
    if IsDigit(a[k]) {
      DigitRunPrefix(a, b, k + 1);
    }
  }

  /** No match straddles a clean end, so restoring a concatenation restores
      each part. */
  lemma {:induction false} RestoreConcat(a: string, b: string, tr: seq<string>)
    requires CleanEnd(a)
    ensures Restore(a + b, tr) == Restore(a, tr) + Restore(b, tr)
    decreases |a|
  {
    if a == [] {
      assert a + b == b;
    } else {
      PlaceholderAtPrefix(a, b);
      match PlaceholderAt(a)
      case Some((len, idx)) =>
        assert (a + b)[len..] == a[len..] + b;
        assert (a + b)[..len] == a[..len];
        RestoreConcat(a[len..], b, tr);
      case None =>
        assert (a + b)[1..] == a[1..] + b;
        RestoreConcat(a[1..], b, tr);
    }
  }

  lemma {:induction false} RestoreNoPlaceholder(s: string, tr: seq<string>)
    requires NoPlaceholder(s)
    ensures Restore(s, tr) == s
    decreases |s|
  {
    if s != [] {
      RestoreNoPlaceholder(s[1..], tr);
    }
  }

  /** `[k]` followed by anything: replaced by fragment k when it exists and
      left literally otherwise; the text after it is restored on its own. */
  lemma RestorePlaceholder(k: nat, rest: string, tr: seq<string>)
    ensures Restore(Placeholder(k) + rest, tr)
         == (if k < |tr| then tr[k] else Placeholder(k)) + Restore(rest, tr)
  {
    var t := Placeholder(k) + rest;
    PlaceholderAtOf(k, rest);
    var len := |Placeholder(k)|;
    assert t[len..] == rest;
    assert t[..len] == Placeholder(k);
  }

  /** Any `[digits]` text followed by anything, leading zeros included: it
      is replaced by the fragment its `parseInt` value names when that
      exists and left as written otherwise; the rest is restored on its
      own. */
  lemma RestoreAnyPlaceholder(p: string, rest: string, tr: seq<string>)
    requires IsPlaceholderText(p)
    ensures Restore(p + rest, tr)
         == (if DigitsValue(p[1..|p| - 1]) < |tr| then tr[DigitsValue(p[1..|p| - 1])] else p)
            + Restore(rest, tr)
  {
    var t := p + rest;
    assert t[..|p|] == p;
    assert t[1..|p| - 1] == p[1..|p| - 1];
    assert t[|p|..] == rest;
  }

  /** `[k]` at the start of a text is read as the placeholder for k. */
  lemma PlaceholderAtOf(k: nat, rest: string)
    ensures PlaceholderAt(Placeholder(k) + rest) == Some((|Placeholder(k)|, k))
  {
    var t := Placeholder(k) + rest;
    var n := NatToString(k);
    DigitsValueOfNatToString(k);
    assert t[1..1 + |n|] == n by {
      forall m | 0 <= m < |n| ensures t[1 + m] == n[m] { }
    }
    DigitRunOver(t, 1, 1 + |n|);
    assert t[1 + |n|] == ']';
  }

  lemma {:induction false} DigitRunOver(t: string, k: nat, e: nat)
    requires k <= e < |t| && AllDigits(t[k..e]) && !IsDigit(t[e])
    ensures DigitRun(t, k) == e
    decreases e - k
  {
    if k < e {
      assert t[k] == t[k..e][0];
      assert t[k + 1..e] == t[k..e][1..];
      DigitRunOver(t, k + 1, e);
    }
  }

  // ---------------------------------------------------------------------
  // What the template restores to
  // ---------------------------------------------------------------------

  /** The first k segments with each non-blank gap replaced by the fragment
      text the caller supplies for it, block tags kept. */
  function Assembled(gs: seq<string>, ts: seq<string>, tr: seq<string>, k: nat): string
    requires k <= |gs| == |ts| && |Fragments(gs, k)| <= |tr|
  {
    if k == 0 then ""
    else
      FragmentsPrefix(gs, k - 1, k);
      Assembled(gs, ts, tr, k - 1)
        + (if HasContent(gs[k - 1]) then tr[|Fragments(gs, k - 1)|] else "")
        + ts[k - 1]
  }

  /** The text the first k segments stand for. */
  function Interleave(gs: seq<string>, ts: seq<string>, k: nat): string
    requires k <= |gs| == |ts|
  {
    if k == 0 then "" else Interleave(gs, ts, k - 1) + gs[k - 1] + ts[k - 1]
  }

  /** The first k texts, joined. */
  function Join(ts: seq<string>, k: nat): string
    requires k <= |ts|
  {
    if k == 0 then "" else Join(ts, k - 1) + ts[k - 1]
  }

  /** The fragments of fewer segments are a prefix of those of more. */
  lemma {:induction false} FragmentsPrefix(gs: seq<string>, m: nat, n: nat)
    requires m <= n <= |gs|
    ensures Fragments(gs, m) <= Fragments(gs, n)
    decreases n
  {
    if m < n {
      FragmentsPrefix(gs, m, n - 1);
    }
  }

  /** Every fragment has content. */
  lemma {:induction false} FragmentsHaveContent(gs: seq<string>, k: nat)
    requires k <= |gs|
    ensures forall f :: f in Fragments(gs, k) ==> HasContent(f)
  {
    if k > 0 {
      FragmentsHaveContent(gs, k - 1);
    }
  }

  /** Restoring the template puts, for each non-blank gap, the fragment text
      whose number the template gave it, and leaves the block tags as they
      were. */
  lemma {:induction false} RestoreTemplate(gs: seq<string>, ts: seq<string>, tr: seq<string>, k: nat)
    requires k <= |gs| == |ts| && |Fragments(gs, k)| <= |tr|
    requires forall i :: 0 <= i < |ts| ==> CleanEnd(ts[i]) && NoPlaceholder(ts[i])
    ensures CleanEnd(Template(gs, ts, k))
    ensures Restore(Template(gs, ts, k), tr) == Assembled(gs, ts, tr, k)
  {
    if k > 0 {
      FragmentsPrefix(gs, k - 1, k);
      RestoreTemplate(gs, ts, tr, k - 1);
      RestoreSegment(Template(gs, ts, k - 1), |Fragments(gs, k - 1)|, HasContent(gs[k - 1]), ts[k - 1], tr);
    }
  }

  /** One segment of the template: the placeholder of a non-blank gap, then
      its closing tag. */
  lemma RestoreSegment(pre: string, k: nat, filled: bool, tag: string, tr: seq<string>)
    requires CleanEnd(pre) && CleanEnd(tag) && NoPlaceholder(tag)
    requires filled ==> k < |tr|
    ensures var slot := if filled then Placeholder(k) else "";
      && CleanEnd(pre + slot + tag)
      && Restore(pre + slot + tag, tr) == Restore(pre, tr) + (if filled then tr[k] else "") + tag
  {
    var slot := if filled then Placeholder(k) else "";
    RestoreSlot(filled, k, tag, tr);
    RestoreConcat(pre, slot + tag, tr);
    CleanEndConcat(pre, slot + tag);
    ConcatAssoc(pre, slot, tag);
    ConcatAssoc(Restore(pre, tr), if filled then tr[k] else "", tag);
  }

  lemma CleanEndConcat(a: string, b: string)
    requires CleanEnd(a) && CleanEnd(b)
    ensures CleanEnd(a + b)
  {
    if b == [] {
      assert a + b == a;
    } else {
      assert (a + b)[|a + b| - 1] == b[|b| - 1];
    }
  }

  lemma ConcatAssoc<T>(a: seq<T>, b: seq<T>, c: seq<T>)
    ensures a + b + c == a + (b + c)
  {
  }

  lemma RestoreSlot(filled: bool, k: nat, tag: string, tr: seq<string>)
    requires CleanEnd(tag) && NoPlaceholder(tag)
    requires filled ==> k < |tr|
    ensures var slot := if filled then Placeholder(k) else "";
      CleanEnd(slot + tag) && Restore(slot + tag, tr) == (if filled then tr[k] else "") + tag
  {
    RestoreNoPlaceholder(tag, tr);
    if filled {
      RestorePlaceholder(k, tag, tr);
    } else {
      assert "" + tag == tag;
    }
  }

  /** Restoring the fragments extract produced gives back the segments'
      text, provided no gap was blank but non-empty (such gaps are dropped). */
  lemma {:induction false} AssembledWithOwnFragments(gs: seq<string>, ts: seq<string>, tr: seq<string>, k: nat)
    requires k <= |gs| == |ts| && Fragments(gs, k) <= tr
    requires forall i :: 0 <= i < |gs| ==> gs[i] == "" || HasContent(gs[i])
    ensures Assembled(gs, ts, tr, k) == Interleave(gs, ts, k)
  {
    if k > 0 {
      FragmentsPrefix(gs, k - 1, k);
      AssembledWithOwnFragments(gs, ts, tr, k - 1);
      if HasContent(gs[k - 1]) {
        var n := |Fragments(gs, k - 1)|;
        assert Fragments(gs, k)[n] == gs[k - 1];
      } else {
        assert gs[k - 1] == "";
      }
    }
  }

  /** With every fragment emptied, the template restores to the block tags
      alone, verbatim and in order. */
  lemma {:induction false} AssembledWithEmptyFragments(gs: seq<string>, ts: seq<string>, tr: seq<string>, k: nat)
    requires k <= |gs| == |ts| && |Fragments(gs, k)| <= |tr| && forall i :: 0 <= i < |tr| ==> tr[i] == ""
    ensures Assembled(gs, ts, tr, k) == Join(ts, k)
  {
    if k > 0 {
      FragmentsPrefix(gs, k - 1, k);
      AssembledWithEmptyFragments(gs, ts, tr, k - 1);
    }
  }

  lemma {:induction false} JoinSame(a: seq<string>, b: seq<string>, k: nat)
    requires k <= |a| && k <= |b| && a[..k] == b[..k]
    ensures Join(a, k) == Join(b, k)
  {
    if k > 0 {
      assert a[k - 1] == a[..k][k - 1];
      assert a[..k - 1] == a[..k][..k - 1] && b[..k - 1] == b[..k][..k - 1];
      JoinSame(a, b, k - 1);
    }
  }

  /** The html up to segment k is its gaps interleaved with its block tags. */
  lemma {:induction false} GapsInterleave(html: string, tags: seq<Tag>, k: nat)
    requires TagLayout(html, tags, 0) && k <= |tags|
    ensures Interleave(Gaps(html, tags), Closers(tags), k) == html[..SegStart(tags, k)]
  {
    if k > 0 {
      var gs, ts := Gaps(html, tags), Closers(tags);
      GapsInterleave(html, tags, k - 1);
      GapAt(html, tags, k - 1);
      var a, b, c := SegStart(tags, k - 1), tags[k - 1].pos, End(tags[k - 1]);
      SliceSplit(html, a, b, c);
      InterleaveStep(gs, ts, k, html[..a], html[a..b], html[b..c], html[..c]);
    }
  }

  lemma InterleaveStep(gs: seq<string>, ts: seq<string>, k: nat, x: string, y: string, z: string, w: string)
    requires 0 < k <= |gs| == |ts|
    requires Interleave(gs, ts, k - 1) == x && gs[k - 1] == y && ts[k - 1] == z && x + y + z == w
    ensures Interleave(gs, ts, k) == w
  {
  }

  lemma SliceSplit<T>(s: seq<T>, a: nat, b: nat, c: nat)
    requires a <= b <= c <= |s|
    ensures s[..c] == s[..a] + s[a..b] + s[b..c]
  {
  }

  lemma HtmlIsInterleaving(html: string)
    ensures Interleave(Gaps(html, BlockTags(html)), Closers(BlockTags(html)), |BlockTags(html)| + 1) == html
  {
    var tags := BlockTags(html);
    var n := |tags|;
    BlockTagsLayout(html);
    GapsInterleave(html, tags, n);
    GapAt(html, tags, n);
    SliceSplit(html, SegStart(tags, n), |html|, |html|);
  }

  // ---------------------------------------------------------------------
  // The properties of extract and restore together
  // ---------------------------------------------------------------------

  /** No gap between block tags (nor before the first or after the last) is
      whitespace-only but non-empty. */
  predicate NoBlankGaps(html: string)
  {
    forall g :: g in Gaps(html, BlockTags(html)) ==> g == "" || HasContent(g)
  }

  /** No tag contains `[digits]`. */
  predicate NoPlaceholderIn(tags: seq<Tag>)
  {
    forall k :: 0 <= k < |tags| ==> NoPlaceholder(tags[k].text)
  }

  predicate NoPlaceholderInTags(html: string)
  {
    NoPlaceholderIn(BlockTags(html))
  }

  lemma ClosersClean(tags: seq<Tag>)
    requires AllBlock(tags) && NoPlaceholderIn(tags)
    ensures var ts := Closers(tags);
      forall k :: 0 <= k < |ts| ==> CleanEnd(ts[k]) && NoPlaceholder(ts[k])
  {
    var ts := Closers(tags);
    forall k | 0 <= k < |ts| ensures CleanEnd(ts[k]) && NoPlaceholder(ts[k]) {
      if k < |tags| {
        assert IsTagText(tags[k].text);
      }
    }
  }

  /** Round trip: restoring extract's own fragments into its template gives
      back the html, when no gap is blank but non-empty and no block tag
      holds `[digits]`. */
  lemma ExtractRestoreRoundTrip(html: string)
    requires NoBlankGaps(html) && NoPlaceholderInTags(html)
    ensures Restore(TemplateFor(html), FragmentsFor(html)) == html
  {
    var tags := BlockTags(html);
    var gs, ts := Gaps(html, tags), Closers(tags);
    var n := |tags| + 1;
    BlockTagsLayout(html);
    ClosersClean(tags);
    RestoreTemplate(gs, ts, FragmentsFor(html), n);
    forall i | 0 <= i < |gs| ensures gs[i] == "" || HasContent(gs[i]) {
      assert gs[i] in gs;
    }
    AssembledWithOwnFragments(gs, ts, FragmentsFor(html), n);
    HtmlIsInterleaving(html);
  }

  /** Restoring translated fragments, one per placeholder, replaces each
      non-blank gap by its translation and keeps every block tag. */
  lemma ExtractRestoreTranslated(html: string, translated: seq<string>)
    requires NoPlaceholderInTags(html) && |translated| == |FragmentsFor(html)|
    ensures var tags := BlockTags(html);
      Restore(TemplateFor(html), translated)
        == Assembled(Gaps(html, tags), Closers(tags), translated, |tags| + 1)
  {
    var tags := BlockTags(html);
    BlockTagsLayout(html);
    SplitRestore(html, tags, translated);
  }

  lemma SplitRestore(html: string, tags: seq<Tag>, translated: seq<string>)
    requires AllBlock(tags) && NoPlaceholderIn(tags)
    requires |Fragments(Gaps(html, tags), |tags| + 1)| <= |translated|
    ensures Restore(Template(Gaps(html, tags), Closers(tags), |tags| + 1), translated)
         == Assembled(Gaps(html, tags), Closers(tags), translated, |tags| + 1)
  {
    ClosersClean(tags);
    RestoreTemplate(Gaps(html, tags), Closers(tags), translated, |tags| + 1);
  }

  /** Removing the placeholders (restoring empty fragments) leaves exactly
      the block tags, verbatim and in document order. */
  lemma ExtractTemplateSkeleton(html: string)
    requires NoPlaceholderInTags(html)
    ensures var tags := BlockTags(html);
      Restore(TemplateFor(html), seq(|FragmentsFor(html)|, _ => "")) == Join(TagTexts(tags), |tags|)
  {
    var tags := BlockTags(html);
    BlockTagsLayout(html);
    SplitSkeleton(html, tags, seq(|FragmentsFor(html)|, _ => ""));
  }

  lemma SplitSkeleton(html: string, tags: seq<Tag>, empties: seq<string>)
    requires AllBlock(tags) && NoPlaceholderIn(tags)
    requires |Fragments(Gaps(html, tags), |tags| + 1)| <= |empties|
    requires forall i :: 0 <= i < |empties| ==> empties[i] == ""
    ensures Restore(Template(Gaps(html, tags), Closers(tags), |tags| + 1), empties) == Join(TagTexts(tags), |tags|)
  {
    ClosersClean(tags);
    TemplateSkeleton(Gaps(html, tags), Closers(tags), empties, |tags| + 1);
    ClosersJoin(tags);
  }

  /** Restoring empty fragments into a template joins its tag texts. */
  lemma TemplateSkeleton(gs: seq<string>, ts: seq<string>, tr: seq<string>, k: nat)
    requires k <= |gs| == |ts| && |Fragments(gs, k)| <= |tr| && forall i :: 0 <= i < |tr| ==> tr[i] == ""
    requires forall i :: 0 <= i < |ts| ==> CleanEnd(ts[i]) && NoPlaceholder(ts[i])
    ensures Restore(Template(gs, ts, k), tr) == Join(ts, k)
  {
    RestoreTemplate(gs, ts, tr, k);
    AssembledWithEmptyFragments(gs, ts, tr, k);
  }

  lemma ClosersJoin(tags: seq<Tag>)
    ensures Join(Closers(tags), |tags| + 1) == Join(TagTexts(tags), |tags|)
  {
    var ts := Closers(tags);
    assert ts[..|tags|] == TagTexts(tags)[..|tags|];
    JoinSame(ts, TagTexts(tags), |tags|);
  }

  /** Every fragment has content, and there are no more fragments than
      segments. */
  lemma ExtractFragmentsNonBlank(html: string)
    ensures forall f :: f in FragmentsFor(html) ==> HasContent(f)
    ensures |FragmentsFor(html)| <= |BlockTags(html)| + 1
  {
    var tags := BlockTags(html);
    FragmentsHaveContent(Gaps(html, tags), |tags| + 1);
  }

  /** Text without block tags that is not blank becomes the single fragment,
      whole, and the template is `[0]`. */
  lemma ExtractWithoutBlockTags(html: string)
    requires BlockTags(html) == [] && HasContent(html)
    ensures FragmentsFor(html) == [html]
    ensures TemplateFor(html) == "[0]"
  {
    var gs, ts := Gaps(html, []), Closers([]);
    assert gs[0] == html[0..|html|] == html;
    assert Fragments(gs, 1) == [] + [html];
    assert NatToString(0) == "0";
    assert Placeholder(0) == "[0]";
    assert Template(gs, ts, 1) == "" + Placeholder(0) + "";
  }

  /** Which tags split the text: a name outside the inline list, opening or
      closing, in either case, whatever attributes follow. */
  lemma BlockTagExamples()
    ensures IsBlockTag("<p>") && IsBlockTag("</div>")
  {
    TagNameIs("<p>", 1, "p", "p");
    TagNameIs("</div>", 2, "div", "div");
  }

  /** The name is matched case-insensitively and ends at the first
      character outside `[a-z1-6]`. */
  lemma BlockTagNameExamples()
    ensures IsBlockTag("<H1 class=x>") && IsBlockTag("<br/>")
  {
    TagNameIs("<H1 class=x>", 1, "H1", "h1");
    TagNameIs("<br/>", 1, "br", "br");
  }

  /** Inline tags, and tags without a name, stay inside the fragments. */
  lemma InlineTagExamples()
    ensures !IsBlockTag("<b>") && !IsBlockTag("</span>")
  {
    TagNameIs("<b>", 1, "b", "b");
    TagNameIs("</span>", 2, "span", "span");
    assert InlineTags[0] == "b" && InlineTags[5] == "span";
  }

  lemma InlineTagNameExamples()
    ensures !IsBlockTag("<A href=y>") && !IsBlockTag("<!-- c -->")
  {
    TagNameIs("<A href=y>", 1, "A", "a");
    assert InlineTags[6] == "a";
  }

  /** Reading the name of a tag that starts with `<` or `</` and a name
      `run` at `k`. */
  lemma TagNameIs(tag: string, k: nat, run: string, name: string)
    requires 0 < k <= 2 && k + |run| < |tag| && |run| > 0
    requires tag[0] == '<' && (k == 2 ==> tag[1] == '/') && tag[k..k + |run|] == run
    requires forall m :: 0 <= m < |run| ==> IsNameChar(run[m])
    requires !IsNameChar(tag[k + |run|])
    requires LowerAscii(run) == name
    ensures TagName(tag) == Some(name)
  {
    assert tag[k] == run[0];
    assert NameAt(tag, 0) && NameOffset(tag, 0) == k;
    NameRunIs(tag, k, |run|);
  }

  lemma {:induction false} NameRunIs(s: string, k: nat, n: nat)
    requires k + n < |s| && (forall m :: k <= m < k + n ==> IsNameChar(s[m])) && !IsNameChar(s[k + n])
    ensures NameRun(s, k) == s[k..k + n]
    decreases n
  {
    if n > 0 {
      NameRunIs(s, k + 1, n - 1);
      assert s[k..k + n] == [s[k]] + s[k + 1..k + n];
    }
  }

  /** Placeholders out of range stay literally. */
  lemma RestoreOutOfRange(k: nat, tr: seq<string>)
    requires |tr| <= k
    ensures Restore(Placeholder(k), tr) == Placeholder(k)
  {
    RestorePlaceholder(k, "", tr);
    assert Placeholder(k) + "" == Placeholder(k);
  }
}
