/** What `rewriteMarkdownLinks` of `scripts/fetch-docs.ts` does to one link
    in a document: each of the three link shapes it is written for becomes a
    site link, a bare `](slug.md)` link is left as it is, and the text on
    either side is rewritten as if it stood alone. The text in front must be
    `ClosedBefore`: no match of the first two patterns that starts in it may
    run on into the link. A `](` followed by text without `/` or `.` breaks
    this, and `CategoryLinkSwallowed` shows what then happens. */
module FetchLinks {
  import opened Text
  import opened Strings
  import opened Wrappers
  import opened FetchRewrite
  import opened FetchScan

  // The link texts the three patterns are written for, and a bare link
  // that none of them matches.

  function ParentLinkText(category: string, w: string): string
  {
    "](../" + category + "/" + w + ".md)"
  }

  function CategoryLinkText(category: string, w: string): string
  {
    "](" + category + "/" + w + ".md)"
  }

  /** `dot` is `.` for `](./w.md)` and empty for the site-rooted `](/w.md)`. */
  function SameCategoryLinkText(dot: string, w: string): string
  {
    "](" + dot + "/" + w + ".md)"
  }

  function BareLinkText(w: string): string
  {
    "](" + w + ".md)"
  }

  predicate NoBracket(t: string)
  {
    AllIn(t, Except({']'}))
  }

  lemma {:induction false} WordNoBracket(w: string)
    requires IsWord(w)
    ensures NoBracket(w)
  {
    forall k | 0 <= k < |w| ensures InClass(w[k], Except({']'})) {
      assert IsWordChar(w[k]);
    }
  }

  lemma {:induction false} ExceptNoBracket(t: string, seps: set<char>)
    requires ']' in seps && AllIn(t, Except(seps))
    ensures NoBracket(t) && AllIn(t, Except(seps - {']'}))
  {
  }

  lemma {:induction false} ExceptSubset(t: string, small: set<char>, large: set<char>)
    requires small <= large && AllIn(t, Except(large))
    ensures AllIn(t, Except(small))
  {
  }

  lemma {:induction false} SlugCaptureIsWord(w: string)
    requires IsWord(w)
    ensures IsWord(SlugCapture(w))
  {
    var d := Span(w, 0, Digits);
    if 0 < d && d + 1 < |w| && w[d] == '-' {
      var t := w[d + 1..];
      forall k | 0 <= k < |t| ensures IsWordChar(t[k]) {
        assert t[k] == w[d + 1 + k];
      }
    }
  }

  // The patterns at the head of a text, positions named as in the scan.

  /** `w.md)` at `i`, with `f` where the word ends and `e` where the tail ends. */
  lemma {:induction false} TailOver(s: string, i: nat, f: nat, e: nat, w: string)
    requires f == i + |w| && e == f + 4 && e <= |s|
    requires s[i..f] == w && s[f..e] == ".md)" && IsWord(w) && w != []
    ensures TailAt(s, i) == Some((e, SlugCapture(w)))
  {
    assert s[f] == s[f..e][0];
    SpanOver(s, i, w, WordChars);
    TailIs(s, i, f, e);
  }

  /** `cat/w.md)` at `i`. */
  lemma {:induction false} CategoryTailOver(s: string, i: nat, e: nat, t: nat, f: nat, end: nat,
                                            seps: set<char>, cat: string, w: string)
    requires e == i + |cat| && t == e + 1 && f == t + |w| && end == f + 4 && end <= |s|
    requires s[i..e] == cat && s[e] == '/' && s[t..f] == w && s[f..end] == ".md)"
    requires '/' in seps && cat != [] && AllIn(cat, Except(seps)) && IsWord(w) && w != []
    ensures CategoryThenTail(s, i, seps) == Some(LinkMatch(end, cat, SlugCapture(w)))
  {
    SpanOver(s, i, cat, Except(seps));
    CategoryTailIs(s, i, seps, e, t);
    TailOver(s, t, f, end, w);
  }

  /** `](../cat/w.md)` matches the first pattern, whatever follows it. */
  lemma {:induction false} ParentHeadMatch(cat: string, w: string, post: string)
    requires cat != [] && AllIn(cat, Except({'/'})) && IsWord(w) && w != []
    ensures MatchAt(ParentLink, ParentLinkText(cat, w) + post, 0)
            == Some(LinkMatch(|ParentLinkText(cat, w)|, cat, SlugCapture(w)))
  {
    var s := ParentLinkText(cat, w) + post;
    var a := 5;
    var e := a + |cat|;
    var t := e + 1;
    var f := t + |w|;
    var end := f + 4;
    assert s[0..a] == "](../" && s[a..e] == cat && s[e] == '/' && s[t..f] == w && s[f..end] == ".md)";
    ParentIs(s, 0, a);
    CategoryTailOver(s, a, e, t, f, end, {'/'}, cat, w);
  }

  /** `](cat/w.md)` matches the second pattern, whatever follows it. */
  lemma {:induction false} CategoryHeadMatch(cat: string, w: string, post: string)
    requires cat != [] && AllIn(cat, Except({'/', '.'})) && IsWord(w) && w != []
    ensures MatchAt(CategoryLink, CategoryLinkText(cat, w) + post, 0)
            == Some(LinkMatch(|CategoryLinkText(cat, w)|, cat, SlugCapture(w)))
  {
    var s := CategoryLinkText(cat, w) + post;
    var a := 2;
    var e := a + |cat|;
    var t := e + 1;
    var f := t + |w|;
    var end := f + 4;
    assert s[0..a] == "](" && s[a..e] == cat && s[e] == '/' && s[t..f] == w && s[f..end] == ".md)";
    CategoryIs(s, 0, a);
    CategoryTailOver(s, a, e, t, f, end, {'/', '.'}, cat, w);
  }

  /** `](./w.md)` and `](/w.md)` match the third pattern, whatever follows. */
  lemma {:induction false} SameCategoryHeadMatch(dot: string, w: string, post: string)
    requires dot == "" || dot == "."
    requires IsWord(w) && w != []
    ensures MatchAt(SameCategoryLink, SameCategoryLinkText(dot, w) + post, 0)
            == Some(LinkMatch(|SameCategoryLinkText(dot, w)|, "", SlugCapture(w)))
  {
    var s := SameCategoryLinkText(dot, w) + post;
    var a := 2;
    var slash := a + |dot|;
    var t := slash + 1;
    var f := t + |w|;
    var end := f + 4;
    assert s[0..a] == "](" && s[slash] == '/' && s[t..f] == w && s[f..end] == ".md)";
    assert dot == "." ==> s[a] == '.';
    SameCategoryIs(s, 0, a, slash, t);
    TailOver(s, t, f, end, w);
  }

  /** A `](cat/w.md)` link, with no `.` in `cat`, does not start with `../`. */
  lemma {:induction false} CategoryNotParent(cat: string, w: string, post: string)
    requires cat != [] && AllIn(cat, Except({'.'}))
    ensures MatchAt(ParentLink, CategoryLinkText(cat, w) + post, 0).None?
  {
    var s := CategoryLinkText(cat, w) + post;
    assert s[2] == cat[0];
    MismatchNotPrefix(s, "](../", 0, 2);
    ParentIs(s, 0, 5);
  }

  /** `](./w.md)` and `](/w.md)` match neither of the first two patterns. */
  lemma {:induction false} SameCategoryNotEarlier(dot: string, w: string, post: string)
    requires dot == "" || dot == "."
    ensures MatchAt(ParentLink, SameCategoryLinkText(dot, w) + post, 0).None?
    ensures MatchAt(CategoryLink, SameCategoryLinkText(dot, w) + post, 0).None?
  {
    var s := SameCategoryLinkText(dot, w) + post;
    if dot == "." {
      assert s[2] == '.' && s[3] == '/';
      MismatchNotPrefix(s, "](../", 0, 3);
    } else {
      assert s[2] == '/';
      MismatchNotPrefix(s, "](../", 0, 2);
    }
    ParentIs(s, 0, 5);
    var a := 2;
    CategoryIs(s, 0, a);
    assert Span(s, a, Except({'/', '.'})) == a;
    CategoryTailIs(s, a, {'/', '.'}, a, a + 1);
  }

  /** `](w.md)` matches none of the three patterns. */
  lemma {:induction false} BareNoMatch(w: string, post: string)
    requires IsWord(w) && w != []
    ensures MatchAt(ParentLink, BareLinkText(w) + post, 0).None?
    ensures MatchAt(CategoryLink, BareLinkText(w) + post, 0).None?
    ensures MatchAt(SameCategoryLink, BareLinkText(w) + post, 0).None?
  {
    var s := BareLinkText(w) + post;
    var a := 2;
    var e := a + |w|;
    assert s[a..e] == w && s[e] == '.' && s[a] == w[0] && IsWordChar(w[0]);
    MismatchNotPrefix(s, "](../", 0, 2);
    ParentIs(s, 0, 5);
    forall k | 0 <= k < |w| ensures InClass(w[k], Except({'/', '.'})) {
      assert IsWordChar(w[k]);
    }
    SpanOver(s, a, w, Except({'/', '.'}));
    CategoryIs(s, 0, a);
    CategoryTailIs(s, a, {'/', '.'}, e, e + 1);
    var slash := SlashAfterDot(s, a);
    assert slash == a;
    SameCategoryIs(s, 0, a, slash, slash + 1);
  }

  /** `](/pid/`, the start of a replacement, matches neither the category
      pattern nor the same-category pattern, whatever follows it. */
  lemma {:induction false} ReplacementInert(productId: string, category: string, slug: string, post: string)
    requires IsWord(productId)
    ensures MatchAt(CategoryLink, Replacement(productId, category, slug) + post, 0).None?
    ensures MatchAt(SameCategoryLink, Replacement(productId, category, slug) + post, 0).None?
  {
    var s := Replacement(productId, category, slug) + post;
    var a := 2;
    var t := a + 1;
    var f := t + |productId|;
    assert s[0..a] == "](" && s[a] == '/' && s[t..f] == productId && s[f] == '/';
    CategoryIs(s, 0, a);
    assert Span(s, a, Except({'/', '.'})) == a;
    CategoryTailIs(s, a, {'/', '.'}, a, t);
    SameCategoryIs(s, 0, a, a, t);
    SpanOver(s, t, productId, WordChars);
    TailIs(s, t, f, f + 4);
    MismatchNotPrefix(s, ".md)", f, 0);
  }

  /** The replacement text has a `]` only where it starts. */
  lemma {:induction false} ReplacementBrackets(productId: string, category: string, slug: string)
    requires NoBracket(productId) && NoBracket(category) && NoBracket(slug)
    ensures var r := Replacement(productId, category, slug);
            r != [] && r[0] == ']' && NoBracket(r[1..])
  {
    var r := Replacement(productId, category, slug);
    assert r[1..] == "(/" + productId + "/" + category + "/" + slug + ")";
  }

  lemma {:induction false} LinkTextBrackets(category: string, w: string)
    requires NoBracket(category) && IsWord(w)
    ensures ParentLinkText(category, w)[0] == ']' && NoBracket(ParentLinkText(category, w)[1..])
    ensures CategoryLinkText(category, w)[0] == ']' && NoBracket(CategoryLinkText(category, w)[1..])
    ensures BareLinkText(w)[0] == ']' && NoBracket(BareLinkText(w)[1..])
    ensures NoBracket(SameCategoryLinkText(".", w)[1..]) && NoBracket(SameCategoryLinkText("", w)[1..])
  {
    WordNoBracket(w);
    assert SameCategoryLinkText(".", w)[1..] == "(./" + w + ".md)";
    assert SameCategoryLinkText("", w)[1..] == "(/" + w + ".md)";
    assert ParentLinkText(category, w)[1..] == "(../" + category + "/" + w + ".md)";
    assert CategoryLinkText(category, w)[1..] == "(" + category + "/" + w + ".md)";
    assert BareLinkText(w)[1..] == "(" + w + ".md)";
  }

  // One replacement over `pre + (t + post)`, where `t` starts with the
  // document's `]` and has no other.

  /** Where no match starts at the `]` of `t`, none starts within `t`. */
  lemma {:induction false} NoMatchWithin(p: LinkPattern, t: string, post: string)
    requires t != [] && NoBracket(t[1..]) && MatchAt(p, t + post, 0).None?
    ensures forall j :: 0 <= j < |t| ==> MatchAt(p, t + post, j).None?
  {
    forall j | 0 < j < |t| ensures MatchAt(p, t + post, j).None? {
      assert (t + post)[j] == t[1..][j - 1];
      NoBracketNoMatch(p, t + post, j);
    }
  }

  /** `t` is copied, and both sides are replaced apart. */
  lemma {:induction false} PassCopies(p: LinkPattern, pre: string, t: string, post: string, productId: string, cc: string)
    requires t != [] && t[0] == ']' && NoBracket(t[1..]) && MatchAt(p, t + post, 0).None?
    requires p == ParentLink ==> ParentClosed(pre)
    requires p == CategoryLink ==> CategoryClosed(pre)
    ensures ReplaceAll(p, pre + (t + post), productId, cc)
            == ReplaceAll(p, pre, productId, cc) + (t + ReplaceAll(p, post, productId, cc))
  {
    AcrossBracket(p, pre, t + post);
    ReplaceSplit(p, pre, t + post, productId, cc);
    NoMatchWithin(p, t, post);
    ReplaceHeadCopy(p, t, post, productId, cc);
  }

  /** `t` is one match and is substituted; both sides are replaced apart. */
  lemma {:induction false} PassReplaces(p: LinkPattern, pre: string, t: string, post: string, productId: string, cc: string)
    requires t != [] && t[0] == ']' && MatchAt(p, t + post, 0).Some? && MatchAt(p, t + post, 0).value.end == |t|
    requires p == ParentLink ==> ParentClosed(pre)
    requires p == CategoryLink ==> CategoryClosed(pre)
    ensures ReplaceAll(p, pre + (t + post), productId, cc)
            == ReplaceAll(p, pre, productId, cc) + (Substitute(p, MatchAt(p, t + post, 0).value, productId, cc) + ReplaceAll(p, post, productId, cc))
  {
    AcrossBracket(p, pre, t + post);
    ReplaceSplit(p, pre, t + post, productId, cc);
    ReplaceHeadMatch(p, t, post, productId, cc);
  }

  /** A replacement passes the second and third replacements unchanged. */
  lemma {:induction false} ReplacementStays(pre: string, productId: string, category: string, slug: string, post: string, cc: string)
    requires CategoryClosed(pre)
    requires NoBracket(category) && IsWord(productId) && IsWord(slug)
    ensures var r := Replacement(productId, category, slug);
            var pre2 := ReplaceAll(CategoryLink, pre, productId, cc);
            var post2 := ReplaceAll(CategoryLink, post, productId, cc);
            && ReplaceAll(CategoryLink, pre + (r + post), productId, cc) == pre2 + (r + post2)
            && ReplaceAll(SameCategoryLink, pre2 + (r + post2), productId, cc)
               == ReplaceAll(SameCategoryLink, pre2, productId, cc) + (r + ReplaceAll(SameCategoryLink, post2, productId, cc))
  {
    var r := Replacement(productId, category, slug);
    var post2 := ReplaceAll(CategoryLink, post, productId, cc);
    WordNoBracket(productId);
    WordNoBracket(slug);
    ReplacementBrackets(productId, category, slug);
    ReplacementInert(productId, category, slug, post);
    PassCopies(CategoryLink, pre, r, post, productId, cc);
    ReplacementInert(productId, category, slug, post2);
    PassCopies(SameCategoryLink, ReplaceAll(CategoryLink, pre, productId, cc), r, post2, productId, cc);
  }

  // The four kinds of link, anywhere in a document.

  /** `](../cat/NN-slug.md)` becomes `](/pid/cat/slug)`, whatever file it
      is in; the text on either side is rewritten on its own. */
  lemma {:induction false} ParentLinkRewritten(pre: string, cat: string, w: string, post: string, filePath: string, productId: string)
    requires ClosedBefore(pre, productId, CurrentCategory(filePath))
    requires cat != [] && AllIn(cat, Except({'/', ']'})) && IsWord(w) && w != [] && IsWord(productId)
    ensures RewriteMarkdownLinks(pre + ParentLinkText(cat, w) + post, filePath, productId)
            == RewriteMarkdownLinks(pre, filePath, productId) + Replacement(productId, cat, SlugCapture(w))
               + RewriteMarkdownLinks(post, filePath, productId)
  {
    ParentLinkPasses(pre, cat, w, post, productId, CurrentCategory(filePath));
  }

  lemma {:induction false} ParentLinkPasses(pre: string, cat: string, w: string, post: string, productId: string, cc: string)
    requires ClosedBefore(pre, productId, cc)
    requires cat != [] && AllIn(cat, Except({'/', ']'})) && IsWord(w) && w != [] && IsWord(productId)
    ensures RewriteLinks(pre + ParentLinkText(cat, w) + post, productId, cc)
            == RewriteLinks(pre, productId, cc) + Replacement(productId, cat, SlugCapture(w)) + RewriteLinks(post, productId, cc)
  {
    var l := ParentLinkText(cat, w);
    var r := Replacement(productId, cat, SlugCapture(w));
    ExceptNoBracket(cat, {'/', ']'});
    assert {'/', ']'} - {']'} == {'/'};
    LinkTextBrackets(cat, w);
    ParentHeadMatch(cat, w, post);
    assert pre + l + post == pre + (l + post);
    PassReplaces(ParentLink, pre, l, post, productId, cc);
    SlugCaptureIsWord(w);
    ReplacementStays(ReplaceAll(ParentLink, pre, productId, cc), productId, cat, SlugCapture(w),
                     ReplaceAll(ParentLink, post, productId, cc), cc);
    Reassociate(RewriteLinks(pre, productId, cc), r, RewriteLinks(post, productId, cc));
  }

  lemma Reassociate(a: string, b: string, c: string)
    ensures a + (b + c) == a + b + c
  {
  }

  /** `](cat/NN-slug.md)`, a category name without `.`, becomes
      `](/pid/cat/slug)`, whatever file it is in. */
  lemma {:induction false} CategoryLinkRewritten(pre: string, cat: string, w: string, post: string, filePath: string, productId: string)
    requires ClosedBefore(pre, productId, CurrentCategory(filePath))
    requires cat != [] && AllIn(cat, Except({'/', '.', ']'})) && IsWord(w) && w != [] && IsWord(productId)
    ensures RewriteMarkdownLinks(pre + CategoryLinkText(cat, w) + post, filePath, productId)
            == RewriteMarkdownLinks(pre, filePath, productId) + Replacement(productId, cat, SlugCapture(w))
               + RewriteMarkdownLinks(post, filePath, productId)
  {
    CategoryLinkPasses(pre, cat, w, post, productId, CurrentCategory(filePath));
  }

  lemma {:induction false} CategoryLinkPasses(pre: string, cat: string, w: string, post: string, productId: string, cc: string)
    requires ClosedBefore(pre, productId, cc)
    requires cat != [] && AllIn(cat, Except({'/', '.', ']'})) && IsWord(w) && w != [] && IsWord(productId)
    ensures RewriteLinks(pre + CategoryLinkText(cat, w) + post, productId, cc)
            == RewriteLinks(pre, productId, cc) + Replacement(productId, cat, SlugCapture(w)) + RewriteLinks(post, productId, cc)
  {
    var l := CategoryLinkText(cat, w);
    var r := Replacement(productId, cat, SlugCapture(w));
    ExceptNoBracket(cat, {'/', '.', ']'});
    assert {'/', '.', ']'} - {']'} == {'/', '.'};
    ExceptSubset(cat, {'.'}, {'/', '.'});
    LinkTextBrackets(cat, w);
    var pre1 := ReplaceAll(ParentLink, pre, productId, cc);
    var post1 := ReplaceAll(ParentLink, post, productId, cc);
    CategoryNotParent(cat, w, post);
    assert pre + l + post == pre + (l + post);
    PassCopies(ParentLink, pre, l, post, productId, cc);
    CategoryHeadMatch(cat, w, post1);
    PassReplaces(CategoryLink, pre1, l, post1, productId, cc);
    var pre2 := ReplaceAll(CategoryLink, pre1, productId, cc);
    var post2 := ReplaceAll(CategoryLink, post1, productId, cc);
    WordNoBracket(productId);
    SlugCaptureIsWord(w);
    WordNoBracket(SlugCapture(w));
    ReplacementBrackets(productId, cat, SlugCapture(w));
    ReplacementInert(productId, cat, SlugCapture(w), post2);
    PassCopies(SameCategoryLink, pre2, r, post2, productId, cc);
    Reassociate(RewriteLinks(pre, productId, cc), r, RewriteLinks(post, productId, cc));
  }

  /** `](./NN-slug.md)` and the site-rooted `](/NN-slug.md)` become
      `](/pid/current/slug)`, where `current` is the directory under
      `docs/content/` of the file being rewritten. */
  lemma {:induction false} SameCategoryLinkRewritten(pre: string, dot: string, w: string, post: string, filePath: string, productId: string)
    requires dot == "" || dot == "."
    requires ClosedBefore(pre, productId, CurrentCategory(filePath))
    requires IsWord(w) && w != []
    ensures RewriteMarkdownLinks(pre + SameCategoryLinkText(dot, w) + post, filePath, productId)
            == RewriteMarkdownLinks(pre, filePath, productId) + Replacement(productId, CurrentCategory(filePath), SlugCapture(w))
               + RewriteMarkdownLinks(post, filePath, productId)
  {
    SameCategoryLinkPasses(pre, dot, w, post, productId, CurrentCategory(filePath));
  }

  lemma {:induction false} SameCategoryLinkPasses(pre: string, dot: string, w: string, post: string, productId: string, cc: string)
    requires dot == "" || dot == "."
    requires ClosedBefore(pre, productId, cc)
    requires IsWord(w) && w != []
    ensures RewriteLinks(pre + SameCategoryLinkText(dot, w) + post, productId, cc)
            == RewriteLinks(pre, productId, cc) + Replacement(productId, cc, SlugCapture(w)) + RewriteLinks(post, productId, cc)
  {
    var l := SameCategoryLinkText(dot, w);
    var r := Replacement(productId, cc, SlugCapture(w));
    LinkTextBrackets("", w);
    var pre1 := ReplaceAll(ParentLink, pre, productId, cc);
    var post1 := ReplaceAll(ParentLink, post, productId, cc);
    SameCategoryNotEarlier(dot, w, post);
    assert pre + l + post == pre + (l + post);
    PassCopies(ParentLink, pre, l, post, productId, cc);
    var pre2 := ReplaceAll(CategoryLink, pre1, productId, cc);
    var post2 := ReplaceAll(CategoryLink, post1, productId, cc);
    SameCategoryNotEarlier(dot, w, post1);
    PassCopies(CategoryLink, pre1, l, post1, productId, cc);
    SameCategoryHeadMatch(dot, w, post2);
    PassReplaces(SameCategoryLink, pre2, l, post2, productId, cc);
    Reassociate(RewriteLinks(pre, productId, cc), r, RewriteLinks(post, productId, cc));
  }

  /** A link to `NN-slug.md` with neither `./` nor a category is left as
      it is, although the comment above the third pattern names it. */
  lemma {:induction false} BareLinkUnchanged(pre: string, w: string, post: string, filePath: string, productId: string)
    requires ClosedBefore(pre, productId, CurrentCategory(filePath))
    requires IsWord(w) && w != []
    ensures RewriteMarkdownLinks(pre + BareLinkText(w) + post, filePath, productId)
            == RewriteMarkdownLinks(pre, filePath, productId) + BareLinkText(w) + RewriteMarkdownLinks(post, filePath, productId)
  {
    BareLinkPasses(pre, w, post, productId, CurrentCategory(filePath));
  }

  lemma {:induction false} BareLinkPasses(pre: string, w: string, post: string, productId: string, cc: string)
    requires ClosedBefore(pre, productId, cc)
    requires IsWord(w) && w != []
    ensures RewriteLinks(pre + BareLinkText(w) + post, productId, cc)
            == RewriteLinks(pre, productId, cc) + BareLinkText(w) + RewriteLinks(post, productId, cc)
  {
    var l := BareLinkText(w);
    LinkTextBrackets("", w);
    BareNoMatch(w, post);
    assert pre + l + post == pre + (l + post);
    PassCopies(ParentLink, pre, l, post, productId, cc);
    var pre1 := ReplaceAll(ParentLink, pre, productId, cc);
    var post1 := ReplaceAll(ParentLink, post, productId, cc);
    BareNoMatch(w, post1);
    PassCopies(CategoryLink, pre1, l, post1, productId, cc);
    var pre2 := ReplaceAll(CategoryLink, pre1, productId, cc);
    var post2 := ReplaceAll(CategoryLink, post1, productId, cc);
    BareNoMatch(w, post2);
    PassCopies(SameCategoryLink, pre2, l, post2, productId, cc);
    Reassociate(RewriteLinks(pre, productId, cc), l, RewriteLinks(post, productId, cc));
  }

  /** A piece without `.md)`, cut out of a document at two `]` (or at its
      end) where the text in front is closed, is kept as it is, and the rest
      of the document is rewritten around it. */
  lemma {:induction false} UntouchedPiece(pre: string, t: string, post: string, filePath: string, productId: string)
    requires t != [] && t[0] == ']' && !Contains(t, ".md)")
    requires post != [] ==> post[0] == ']'
    requires ClosedBefore(pre, productId, CurrentCategory(filePath))
    requires post != [] ==> ClosedBefore(pre + t, productId, CurrentCategory(filePath))
    ensures RewriteMarkdownLinks(pre + t + post, filePath, productId)
            == RewriteMarkdownLinks(pre, filePath, productId) + t + RewriteMarkdownLinks(post, filePath, productId)
  {
    RewriteSplits(pre, t, filePath, productId);
    RewriteWithoutMdLinks(t, filePath, productId);
    if post == [] {
      assert pre + t + post == pre + t;
      RewriteWithoutMdLinks(post, filePath, productId);
    } else {
      RewriteSplits(pre + t, post, filePath, productId);
    }
  }

  /** Text without `]` is left as it is and is closed, so the lemmas above
      apply with such text in front. */
  lemma {:induction false} NoBracketClosed(t: string, filePath: string, productId: string)
    requires NoBracket(t)
    ensures RewriteMarkdownLinks(t, filePath, productId) == t
    ensures ClosedBefore(t, productId, CurrentCategory(filePath))
  {
    var cc := CurrentCategory(filePath);
    forall p: LinkPattern, j | 0 <= j < |t| ensures MatchAt(p, t, j).None? {
      NoBracketNoMatch(p, t, j);
    }
    ReplaceNowhere(ParentLink, t, productId, cc);
    ReplaceNowhere(CategoryLink, t, productId, cc);
    ReplaceNowhere(SameCategoryLink, t, productId, cc);
    forall j: nat | j < |t| ensures !IsPrefixAt(t, "](../", j) && !IsPrefixAt(t, "](", j) {
      MismatchNotPrefix(t, "](../", j, 0);
      MismatchNotPrefix(t, "](", j, 0);
    }
  }

  /** The category pattern's `[^\/\.]+` runs over `]` and `(`: after a `](`
      whose target has no `/` or `.` (an anchor `](#intro)`, say), the next
      `](cat/w.md)` link is taken into the category of one match that starts
      at the first `](`. The text between is swallowed into the site link,
      and the link does not get its own target. */
  lemma {:induction false} CategoryLinkSwallowed(g: string, cat: string, w: string, post: string, productId: string, cc: string)
    requires AllIn(g, Except({'/', '.'}))
    requires cat != [] && AllIn(cat, Except({'/', '.'})) && IsWord(w) && w != []
    ensures ReplaceAll(CategoryLink, "](" + g + CategoryLinkText(cat, w) + post, productId, cc)
            == Replacement(productId, g + "](" + cat, SlugCapture(w)) + ReplaceAll(CategoryLink, post, productId, cc)
    ensures Replacement(productId, g + "](" + cat, SlugCapture(w)) != "](" + g + Replacement(productId, cat, SlugCapture(w))
  {
    var big := g + "](" + cat;
    assert "](" + g + CategoryLinkText(cat, w) == CategoryLinkText(big, w);
    JoinedCategory(g, cat);
    CategoryHeadMatch(big, w, post);
    ReplaceHeadMatch(CategoryLink, CategoryLinkText(big, w), post, productId, cc);
    SwallowedDiffers(g, cat, productId, SlugCapture(w));
  }

  /** The site link of the joined match is not the link text in front
      followed by the link's own site link: they differ at their third
      character. */
  lemma {:induction false} SwallowedDiffers(g: string, cat: string, productId: string, slug: string)
    requires AllIn(g, Except({'/', '.'}))
    ensures Replacement(productId, g + "](" + cat, slug) != "](" + g + Replacement(productId, cat, slug)
  {
    var swallowed := Replacement(productId, g + "](" + cat, slug);
    var intended := "](" + g + Replacement(productId, cat, slug);
    assert swallowed[2] == '/';
    if g == [] {
      assert intended[2] == ']';
    } else {
      assert intended[2] == g[0] && InClass(g[0], Except({'/', '.'}));
    }
  }

  /** `g](cat` is one run of the category pattern. */
  lemma {:induction false} JoinedCategory(g: string, cat: string)
    requires AllIn(g, Except({'/', '.'})) && AllIn(cat, Except({'/', '.'}))
    ensures AllIn(g + "](" + cat, Except({'/', '.'}))
  {
    var big := g + "](" + cat;
    forall k | 0 <= k < |big| ensures InClass(big[k], Except({'/', '.'})) {
      if k < |g| {
        assert big[k] == g[k];
      } else if k >= |g| + 2 {
        assert big[k] == cat[k - |g| - 2];
      }
    }
  }
}
