/** `rewriteMarkdownLinks` of `scripts/fetch-docs.ts`: three global regular
    expression replacements, applied one after the other, that turn
    relative `.md` links in fetched markdown into site links. Each regular
    expression is written out as a matcher at a position; a global
    `replace` is the scan that tries the matcher at each position and
    resumes after each match. */
module FetchRewrite {
  import opened Text
  import opened Strings
  import opened Wrappers

  /** The three link patterns, in the order they are applied:
      `](../cat/NN-slug.md)`, `](cat/NN-slug.md)` and `](./NN-slug.md)`. */
  datatype LinkPattern = ParentLink | CategoryLink | SameCategoryLink

  /** A match: where it ends, the captured category (empty for the
      same-category pattern, which captures none) and the captured slug. */
  datatype LinkMatch = LinkMatch(end: nat, category: string, slug: string)

  /** The slug group of `(\d+-)?([\w-]+)` over a word `w`: the optional
      group takes `digits-` only when a non-empty slug remains after it. */
  function SlugCapture(w: string): string
  {
    var d := Span(w, 0, Digits);
    if 0 < d && d + 1 < |w| && w[d] == '-' then w[d + 1..] else w
  }

  /** The slug group is `slugify`'s prefix removal, except that it never
      leaves an empty slug. */
  lemma {:induction false} SlugCaptureStripsPrefix(w: string)
    ensures StripNumericPrefix(w) != [] ==> SlugCapture(w) == StripNumericPrefix(w)
    ensures StripNumericPrefix(w) == [] ==> SlugCapture(w) == w
  {
    SpanFacts(w, 0, Digits);
  }

  /** `(\d+-)?([\w-]+)\.md\)` at `i`: the end of the match and the slug.
      The word run must be maximal, since `.` is not a word character. */
  function TailAt(s: string, i: nat): (m: Option<(nat, string)>)
    requires i <= |s|
    ensures m.Some? ==> i + 4 < m.value.0 <= |s| && IsPrefixAt(s, ".md)", m.value.0 - 4)
    ensures m.Some? ==> IsWord(m.value.1) && m.value.1 != []
  {
    var f := Span(s, i, WordChars);
    if i < f && IsPrefixAt(s, ".md)", f) then
      var w := s[i..f];
      SpanRun(s, i, WordChars);
      assert IsWord(w[|w| - |SlugCapture(w)|..]);
      assert w[|w| - |SlugCapture(w)|..] == SlugCapture(w);
      Some((f + 4, SlugCapture(w)))
    else None
  }

  function WithCategory(tail: Option<(nat, string)>, category: string): (m: Option<LinkMatch>)
    ensures m.Some? <==> tail.Some?
    ensures m.Some? ==> m.value == LinkMatch(tail.value.0, category, tail.value.1)
  {
    match tail
    case None => None
    case Some((end, slug)) => Some(LinkMatch(end, category, slug))
  }

  /** What every match satisfies: it starts with `](` at `i`, ends with
      `.md)`, has a non-empty word as its slug and, unless it is a
      same-category match, a non-empty category. */
  predicate WellFormedMatch(s: string, i: nat, m: LinkMatch, hasCategory: bool)
  {
    && IsPrefixAt(s, "](", i) && i + 4 < m.end <= |s|
    && IsPrefixAt(s, ".md)", m.end - 4)
    && IsWord(m.slug) && m.slug != []
    && (hasCategory ==> m.category != [])
  }

  /** `\]\(\.\.\/([^\/]+)\/(\d+-)?([\w-]+)\.md\)` at `i`. */
  function ParentMatchAt(s: string, i: nat): (m: Option<LinkMatch>)
    requires i <= |s|
    ensures m.Some? ==> WellFormedMatch(s, i, m.value, true)
    ensures m.Some? ==> AllIn(m.value.category, Except({'/'}))
  {
    if !IsPrefixAt(s, "](../", i) then None
    else
      assert s[i..i + 2] == s[i..i + 5][..2];
      CategoryThenTail(s, i + 5, {'/'})
  }

  /** `\]\(([^\/\.]+)\/(\d+-)?([\w-]+)\.md\)` at `i`. */
  function CategoryMatchAt(s: string, i: nat): (m: Option<LinkMatch>)
    requires i <= |s|
    ensures m.Some? ==> WellFormedMatch(s, i, m.value, true)
    ensures m.Some? ==> AllIn(m.value.category, Except({'/', '.'}))
  {
    if !IsPrefixAt(s, "](", i) then None
    else CategoryThenTail(s, i + 2, {'/', '.'})
  }

  /** `([^seps]+)\/(\d+-)?([\w-]+)\.md\)` at `i`, for a class that
      excludes `/`. The category run is maximal: a shorter one would be
      followed by a character of the class, not by `/`. */
  function CategoryThenTail(s: string, i: nat, seps: set<char>): (m: Option<LinkMatch>)
    requires i <= |s|
    ensures m.Some? ==> i + 4 < m.value.end <= |s| && IsPrefixAt(s, ".md)", m.value.end - 4)
    ensures m.Some? ==> IsWord(m.value.slug) && m.value.slug != []
    ensures m.Some? ==> m.value.category != [] && AllIn(m.value.category, Except(seps))
  {
    var e := Span(s, i, Except(seps));
    if e == i || e == |s| || s[e] != '/' then None
    else
      SpanRun(s, i, Except(seps));
      WithCategory(TailAt(s, e + 1), s[i..e])
  }

  /** `\]\(\.?\/(\d+-)?([\w-]+)\.md\)` at `i`: an optional `.` and a `/`. */
  function SameCategoryMatchAt(s: string, i: nat): (m: Option<LinkMatch>)
    requires i <= |s|
    ensures m.Some? ==> WellFormedMatch(s, i, m.value, false)
  {
    if !IsPrefixAt(s, "](", i) then None
    else
      var slash := SlashAfterDot(s, i + 2);
      if slash < |s| && s[slash] == '/' then WithCategory(TailAt(s, slash + 1), "") else None
  }

  /** Where `\.?\/` expects its `/`: after a `.` at `i`, if there is one. */
  function SlashAfterDot(s: string, i: nat): nat
  {
    if i < |s| && s[i] == '.' then i + 1 else i
  }

  function MatchAt(p: LinkPattern, s: string, i: nat): (m: Option<LinkMatch>)
    requires i <= |s|
    ensures m.Some? ==> WellFormedMatch(s, i, m.value, p != SameCategoryLink)
  {
    match p
    case ParentLink => ParentMatchAt(s, i)
    case CategoryLink => CategoryMatchAt(s, i)
    case SameCategoryLink => SameCategoryMatchAt(s, i)
  }

  /** The text that replaces a match: `](/${productId}/${category}/${slug})`. */
  function Replacement(productId: string, category: string, slug: string): string
  {
    "](/" + productId + "/" + category + "/" + slug + ")"
  }

  /** The replacement for a match of `p`; the same-category pattern uses
      the category of the file being rewritten. */
  function Substitute(p: LinkPattern, m: LinkMatch, productId: string, currentCategory: string): string
  {
    Replacement(productId, if p == SameCategoryLink then currentCategory else m.category, m.slug)
  }

  /** `replace(pattern, ...)` with the `g` flag, from position `i` on. */
  function ReplaceFrom(p: LinkPattern, s: string, i: nat, productId: string, currentCategory: string): (r: string)
    requires i <= |s|
    decreases |s| - i
  {
    if i == |s| then []
    else
      match MatchAt(p, s, i)
      case Some(m) => Substitute(p, m, productId, currentCategory) + ReplaceFrom(p, s, m.end, productId, currentCategory)
      case None => [s[i]] + ReplaceFrom(p, s, i + 1, productId, currentCategory)
  }

  function ReplaceAll(p: LinkPattern, s: string, productId: string, currentCategory: string): string
  {
    ReplaceFrom(p, s, 0, productId, currentCategory)
  }

  /** `filePath.match(/docs\/content\/([^\/]+)\//)`: the directory under the
      first `docs/content/` that is followed by `/`, or empty. */
  function CurrentCategory(filePath: string): (r: string)
    ensures r == [] <==> forall i :: 0 <= i <= |filePath| ==> SegmentAfterAt(filePath, "docs/content", {'/'}, i).None?
    ensures r != [] ==> exists i :: 0 <= i <= |filePath| && SegmentAfterAt(filePath, "docs/content", {'/'}, i) == Some(r)
                                    && forall j :: 0 <= j < i ==> SegmentAfterAt(filePath, "docs/content", {'/'}, j).None?
  {
    FirstSegmentLeftmost(filePath, "docs/content", {'/'}, 0);
    match FirstSegmentAfter(filePath, "docs/content", {'/'}, 0)
    case Some(c) => c
    case None => ""
  }

  /** `rewriteMarkdownLinks`: the current category of the file, then the
      three replacements in order. */
  function RewriteMarkdownLinks(content: string, filePath: string, productId: string): string
  {
    RewriteLinks(content, productId, CurrentCategory(filePath))
  }

  /** The three replacements in order, for a given current category. */
  function RewriteLinks(content: string, productId: string, cc: string): string
  {
    var afterParent := ReplaceAll(ParentLink, content, productId, cc);
    var afterCategory := ReplaceAll(CategoryLink, afterParent, productId, cc);
    ReplaceAll(SameCategoryLink, afterCategory, productId, cc)
  }

  /** Every match ends with `.md)`. */
  lemma {:induction false} MatchNeedsMdLink(p: LinkPattern, s: string, j: nat)
    requires j <= |s|
    ensures MatchAt(p, s, j).Some? ==> Contains(s, ".md)")
  {
    var m := MatchAt(p, s, j);
    if m.Some? {
      ContainsAt(s, ".md)", m.value.end - 4);
    }
  }

  /** Content with no `.md)` is returned unchanged, whatever the file and
      product: http links and `.md#anchor` links among it are untouched. */
  lemma {:induction false} RewriteWithoutMdLinks(content: string, filePath: string, productId: string)
    requires !Contains(content, ".md)")
    ensures RewriteMarkdownLinks(content, filePath, productId) == content
  {
    var cc := CurrentCategory(filePath);
    forall p: LinkPattern, j | 0 <= j < |content| ensures MatchAt(p, content, j).None? {
      MatchNeedsMdLink(p, content, j);
    }
    ReplaceNowhere(ParentLink, content, productId, cc);
    ReplaceNowhere(CategoryLink, content, productId, cc);
    ReplaceNowhere(SameCategoryLink, content, productId, cc);
  }

  /** Every pattern starts with `](`, so none matches where there is no `]`. */
  lemma {:induction false} NoBracketNoMatch(p: LinkPattern, s: string, j: nat)
    requires j < |s| && s[j] != ']'
    ensures MatchAt(p, s, j).None?
  {
    MismatchNotPrefix(s, "](", j, 0);
  }

  /** The scan copies a stretch where the pattern matches nowhere. */
  lemma {:induction false} ReplaceSkip(p: LinkPattern, s: string, i: nat, k: nat, productId: string, cc: string)
    requires i <= k <= |s|
    requires forall j :: i <= j < k ==> MatchAt(p, s, j).None?
    ensures ReplaceFrom(p, s, i, productId, cc) == s[i..k] + ReplaceFrom(p, s, k, productId, cc)
    decreases k - i
  {
    if i < k {
      var i1 := i + 1;
      ReplaceCopies(p, s, i, i1, productId, cc);
      ReplaceSkip(p, s, i1, k, productId, cc);
      SliceCons(s, i, k);
      ConcatAssoc([s[i]], s[i1..k], ReplaceFrom(p, s, k, productId, cc));
    }
  }

  /** A copying step, resuming at the named next position. */
  lemma {:induction false} ReplaceCopies(p: LinkPattern, s: string, n: nat, next: nat, productId: string, cc: string)
    requires n < |s| && next == n + 1 && MatchAt(p, s, n).None?
    ensures ReplaceFrom(p, s, n, productId, cc) == [s[n]] + ReplaceFrom(p, s, next, productId, cc)
  {
    ReplaceStep(p, s, n, productId, cc);
  }

  lemma ConcatAssoc(a: string, b: string, c: string)
    ensures a + (b + c) == (a + b) + c
  {
  }

  lemma {:induction false} ReplaceStep(p: LinkPattern, s: string, i: nat, productId: string, cc: string)
    requires i < |s| && MatchAt(p, s, i).None?
    ensures ReplaceFrom(p, s, i, productId, cc) == [s[i]] + ReplaceFrom(p, s, i + 1, productId, cc)
  {
  }

  /** A global replace where the pattern matches nowhere changes nothing. */
  lemma {:induction false} ReplaceNowhere(p: LinkPattern, s: string, productId: string, cc: string)
    requires forall j :: 0 <= j < |s| ==> MatchAt(p, s, j).None?
    ensures ReplaceAll(p, s, productId, cc) == s
  {
    ReplaceSkip(p, s, 0, |s|, productId, cc);
    assert s[0..|s|] == s;
  }
}
