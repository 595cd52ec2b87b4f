/** The render-time link rewriter of `src/lib/remark-rewrite-links.ts`: the
    guard and rewrite the remark plugin applies to each link node, the URL
    mapping `rewriteMarkdownUrl`, and `inferCategoryFromPath`. The tree walk
    itself belongs to a foreign library and is not modelled. */
module RemarkRewriteLinks {
  import opened Text
  import opened Strings
  import opened Wrappers

  /** The path separators the category patterns accept: `[\/\\]`. */
  const Separators: set<char> := {'/', '\\'}

  /** `inferCategoryFromPath`: the segment after the first `moat/` that is
      followed by a separator; else the first segment of a path that has a
      separator; else `getting-started`. */
  function InferCategoryFromPath(filePath: string): (r: string)
    ensures r != [] && AllIn(r, Except(Separators))
  {
    match FirstSegmentAfter(filePath, "moat", Separators, 0)
    case Some(c) => c
    case None =>
      var e := Span(filePath, 0, Except(Separators));
      if 0 < e < |filePath| then
        SpanRun(filePath, 0, Except(Separators));
        assert filePath[0..e] == filePath[..e];
        filePath[..e]
      else "getting-started"
  }

  /** The three rules, in their order of preference. */
  lemma {:induction false} InferCategoryPreference(filePath: string)
    ensures (exists i :: 0 <= i <= |filePath| && SegmentAfterAt(filePath, "moat", Separators, i).Some?) ==>
              exists i :: 0 <= i <= |filePath| && SegmentAfterAt(filePath, "moat", Separators, i) == Some(InferCategoryFromPath(filePath))
                          && forall j :: 0 <= j < i ==> SegmentAfterAt(filePath, "moat", Separators, j).None?
    ensures (forall i :: 0 <= i <= |filePath| ==> SegmentAfterAt(filePath, "moat", Separators, i).None?) ==>
              forall k :: 0 < k < |filePath| && filePath[k] in Separators && AllIn(filePath[..k], Except(Separators))
                          ==> InferCategoryFromPath(filePath) == filePath[..k]
    ensures (forall i :: 0 <= i <= |filePath| ==> SegmentAfterAt(filePath, "moat", Separators, i).None?) ==>
              (filePath == [] || filePath[0] in Separators || AllIn(filePath, Except(Separators)))
              ==> InferCategoryFromPath(filePath) == "getting-started"
  {
    FirstSegmentLeftmost(filePath, "moat", Separators, 0);
    if FirstSegmentAfter(filePath, "moat", Separators, 0).None? {
      forall k | 0 < k < |filePath| && filePath[k] in Separators && AllIn(filePath[..k], Except(Separators))
        ensures InferCategoryFromPath(filePath) == filePath[..k]
      {
        assert forall m :: 0 <= m < k ==> filePath[..k][m] == filePath[m];
        SpanIs(filePath, 0, Except(Separators), k);
      }
      if AllIn(filePath, Except(Separators)) {
        SpanIs(filePath, 0, Except(Separators), |filePath|);
      }
    }
  }

  /** A file under `moat/<category>/` takes that category, provided no
      earlier `moat` occurs in its path. */
  lemma {:induction false} MoatDirectoryCategory(pre: string, cat: string, rest: string)
    requires !Contains(pre, "moat")
    requires cat != [] && AllIn(cat, Except(Separators))
    ensures InferCategoryFromPath(pre + "moat/" + cat + "/" + rest) == cat
  {
    var p := pre + "moat/" + cat + "/" + rest;
    var m := |pre|;
    forall j | 0 <= j < m ensures SegmentAfterAt(p, "moat", Separators, j).None? {
      if j + 4 <= m {
        assert p[j..j + 4] == pre[j..j + 4];
        assert !IsPrefixAt(pre, "moat", j);
      } else {
        // an occurrence reaching past `pre` would put its `m` elsewhere
        assert p[m] == 'm';
        MismatchNotPrefix(p, "moat", j, m - j);
      }
    }
    assert p[m..m + 4] == "moat" && p[m + 4] == '/';
    assert p[m + 5..m + 5 + |cat|] == cat && p[m + 5 + |cat|] == '/';
    SpanIs(p, m + 5, Except(Separators), m + 5 + |cat|);
    assert SegmentAfterAt(p, "moat", Separators, m) == Some(cat);
    FirstSegmentSkips(p, "moat", Separators, 0, m);
    assert FirstSegmentAfter(p, "moat", Separators, 0) == Some(cat);
  }

  /** The link-node guard: only relative markdown links are rewritten. */
  predicate ShouldRewrite(url: string)
  {
    !StartsWith(url, "http") && !StartsWith(url, "/") && EndsWith(url, ".md")
  }

  /** `file.history[0] || file.path || ''`: the first history entry or the
      file's path, whichever is a non-empty string first. */
  function CurrentPath(history: seq<string>, path: Option<string>): string
  {
    if |history| > 0 && history[0] != "" then history[0]
    else if path.Some? && path.value != "" then path.value
    else ""
  }

  /** A site URL whose second segment (the category) is separator-free:
      `/moat/<category>/<rest>`. */
  predicate IsCategorisedSiteUrl(r: string)
  {
    StartsWith(r, "/moat/") && Span(r, 6, Except({'/'})) < |r|
  }

  lemma {:induction false} CategorisedSiteUrl(category: string, rest: string)
    requires AllIn(category, Except({'/'}))
    ensures IsCategorisedSiteUrl("/moat/" + category + "/" + rest)
    ensures Span("/moat/" + category + "/" + rest, 6, Except({'/'})) == 6 + |category|
  {
    var r := "/moat/" + category + "/" + rest;
    SpanIs(r, 6, Except({'/'}), 6 + |category|);
  }

  /** `url.replace(/^\.\//, '')`. */
  function NormalizeUrl(url: string): string
  {
    if StartsWith(url, "./") then url[2..] else url
  }

  /** The parent-traversal rule applies: `../` and at least two parts after
      it. (`url.replace('../', '')` removes the first `../`, which is the
      leading one here.) */
  predicate TakesParentRule(url: string)
  {
    StartsWith(url, "../") && |Split(url[3..], {'/'})| >= 2
  }

  /** The category rule applies: a `/` left after removing `./`, and no
      second `./`. */
  predicate TakesCategoryRule(url: string)
  {
    !TakesParentRule(url) && '/' in NormalizeUrl(url) && !StartsWith(NormalizeUrl(url), "./")
  }

  /** `/moat/${parts[0]}/${slug of the last part}`. */
  function SiteUrlFromParts(parts: seq<string>): (r: string)
    requires |parts| >= 1 && AllIn(parts[0], Except({'/'}))
    ensures IsCategorisedSiteUrl(r)
  {
    CategorisedSiteUrl(parts[0], Slugify(parts[|parts| - 1]));
    "/moat/" + parts[0] + "/" + Slugify(parts[|parts| - 1])
  }

  /** The same-category rule: the category of the containing file, and the
      slug with `.md` removed before the numeric prefix. */
  function SameCategoryUrl(normalizedUrl: string, currentFilePath: string): (r: string)
    ensures IsCategorisedSiteUrl(r)
  {
    var category := InferCategoryFromPath(currentFilePath);
    assert AllIn(category, Except({'/'}));
    CategorisedSiteUrl(category, StripNumericPrefix(StripMdSuffix(normalizedUrl)));
    "/moat/" + category + "/" + StripNumericPrefix(StripMdSuffix(normalizedUrl))
  }

  /** The parent rule: the segment after `../` is the category, the last
      segment gives the slug. */
  function ParentRuleUrl(url: string): (r: string)
    requires TakesParentRule(url)
    ensures IsCategorisedSiteUrl(r)
  {
    var parts := Split(url[3..], {'/'});
    SiteUrlFromParts(parts)
  }

  /** The category rule: the first segment is the category, the last
      gives the slug. */
  function CategoryRuleUrl(url: string): (r: string)
    requires TakesCategoryRule(url)
    ensures IsCategorisedSiteUrl(r)
  {
    var parts := Split(NormalizeUrl(url), {'/'});
    SiteUrlFromParts(parts)
  }

  /** `rewriteMarkdownUrl`: a relative `.md` link and the path of the file
      that holds it, mapped to `/moat/<category>/<slug>`. */
  function RewriteMarkdownUrl(url: string, currentFilePath: string): (r: string)
    ensures IsCategorisedSiteUrl(r)
  {
    if TakesParentRule(url) then ParentRuleUrl(url)
    else if TakesCategoryRule(url) then CategoryRuleUrl(url)
    else SameCategoryUrl(NormalizeUrl(url), currentFilePath)
  }

  /** The URL a link node carries after the plugin has visited it. */
  function RewrittenUrl(url: string, currentPath: string): (r: string)
    ensures r != url <==> ShouldRewrite(url)
    ensures r != url ==> IsCategorisedSiteUrl(r)
  {
    if ShouldRewrite(url) then
      var r := RewriteMarkdownUrl(url, currentPath);
      assert r[0] == '/' && (url == [] || url[0] != '/');
      r
    else url
  }

  /** Visiting a node twice changes nothing more: a rewritten URL starts
      with `/`, which the guard excludes. */
  lemma {:induction false} RewrittenUrlIdempotent(url: string, currentPath: string)
    ensures RewrittenUrl(RewrittenUrl(url, currentPath), currentPath) == RewrittenUrl(url, currentPath)
  {
    var r := RewrittenUrl(url, currentPath);
    if r != url {
      assert StartsWith(r, "/");
    }
  }

  /** An mdast link node; the plugin changes only its `url`. */
  class LinkNode {
    var url: string

    constructor (url: string)
      ensures this.url == url
    {
      this.url := url;
    }
  }

  /** The visitor callback, for one link node of a file with the given
      history and path. */
  method RewriteLinkNode(node: LinkNode, history: seq<string>, path: Option<string>)
    modifies node
    ensures node.url == RewrittenUrl(old(node.url), CurrentPath(history, path))
  {
    var url := node.url;
    if !StartsWith(url, "http") && !StartsWith(url, "/") && EndsWith(url, ".md") {
      var currentPath := CurrentPath(history, path);
      var rewritten := RewriteMarkdownUrl(url, currentPath);
      node.url := rewritten;
    }
  }

  /** The parts of `cat + "/" + middle + last`, where `middle` is empty or
      ends with `/`: the category first, the file name last. */
  lemma {:induction false} SplitCategoryPath(cat: string, middle: string, last: string)
    requires AllIn(cat, Except({'/'})) && AllIn(last, Except({'/'}))
    requires middle == [] || middle[|middle| - 1] == '/'
    ensures var parts := Split(cat + "/" + middle + last, {'/'});
            |parts| >= 2 && parts[0] == cat && parts[|parts| - 1] == last
  {
    var rest := middle + last;
    var s := cat + "/" + middle + last;
    assert s == cat + ['/'] + rest;
    SplitAtFirstSeparator(cat, '/', rest, {'/'});
    LastPieceAfterMiddle(middle, last);
    HeadThenLast(Split(s, {'/'}), cat, Split(rest, {'/'}), last);
  }

  /** Putting a part in front keeps the last part. */
  lemma {:induction false} HeadThenLast(parts: seq<string>, head: string, tail: seq<string>, last: string)
    requires parts == [head] + tail && |tail| >= 1 && tail[|tail| - 1] == last
    ensures |parts| >= 2 && parts[0] == head && parts[|parts| - 1] == last
  {
  }

  lemma {:induction false} LastPieceAfterMiddle(middle: string, last: string)
    requires AllIn(last, Except({'/'}))
    requires middle == [] || middle[|middle| - 1] == '/'
    ensures var parts := Split(middle + last, {'/'});
            parts[|parts| - 1] == last
  {
    if middle == [] {
      assert middle + last == last;
      SplitNoSeparator(last, {'/'});
    } else {
      var m := middle[..|middle| - 1];
      assert middle + last == m + ['/'] + last;
      SplitLastPiece(m, '/', last, {'/'});
    }
  }

  /** Parent traversal: one leading `../` is removed, the next segment is
      the category, the last segment gives the slug, and the containing
      file does not matter. */
  lemma {:induction false} ParentTraversal(cat: string, middle: string, last: string, currentFilePath: string)
    requires AllIn(cat, Except({'/'})) && AllIn(last, Except({'/'}))
    requires middle == [] || middle[|middle| - 1] == '/'
    ensures RewriteMarkdownUrl("../" + cat + "/" + middle + last, currentFilePath)
            == "/moat/" + cat + "/" + Slugify(last)
  {
    var url := "../" + cat + "/" + middle + last;
    ParentTraversalShape(cat, middle, last);
    ParentRuleGives(url, cat, last, currentFilePath);
  }

  lemma {:induction false} ParentTraversalShape(cat: string, middle: string, last: string)
    requires AllIn(cat, Except({'/'})) && AllIn(last, Except({'/'}))
    requires middle == [] || middle[|middle| - 1] == '/'
    ensures var url := "../" + cat + "/" + middle + last;
            var parts := Split(url[3..], {'/'});
            TakesParentRule(url) && parts[0] == cat && parts[|parts| - 1] == last
  {
    var url := "../" + cat + "/" + middle + last;
    assert url[..3] == "../" && url[3..] == cat + "/" + middle + last;
    SplitCategoryPath(cat, middle, last);
  }

  /** Which rule `rewriteMarkdownUrl` takes. */
  lemma {:induction false} ByParentRule(url: string, currentFilePath: string)
    requires TakesParentRule(url)
    ensures RewriteMarkdownUrl(url, currentFilePath) == ParentRuleUrl(url)
  {
  }

  lemma {:induction false} ByCategoryRule(url: string, currentFilePath: string)
    requires TakesCategoryRule(url)
    ensures RewriteMarkdownUrl(url, currentFilePath) == CategoryRuleUrl(url)
  {
  }

  lemma {:induction false} BySameCategoryRule(url: string, currentFilePath: string)
    requires !TakesParentRule(url) && !TakesCategoryRule(url)
    ensures RewriteMarkdownUrl(url, currentFilePath) == SameCategoryUrl(NormalizeUrl(url), currentFilePath)
  {
  }

  lemma {:induction false} ParentRuleUnfold(url: string)
    requires TakesParentRule(url)
    ensures ParentRuleUrl(url) == SiteUrlFromParts(Split(url[3..], {'/'}))
  {
  }

  lemma {:induction false} CategoryRuleUnfold(url: string)
    requires TakesCategoryRule(url)
    ensures CategoryRuleUrl(url) == SiteUrlFromParts(Split(NormalizeUrl(url), {'/'}))
  {
  }

  lemma {:induction false} SiteUrlFromPartsIs(parts: seq<string>, cat: string, last: string)
    requires |parts| >= 1 && parts[0] == cat && parts[|parts| - 1] == last
    requires AllIn(cat, Except({'/'}))
    ensures SiteUrlFromParts(parts) == "/moat/" + cat + "/" + Slugify(last)
  {
  }

  /** The parent rule's result, from the parts after `../`. */
  lemma {:induction false} ParentRuleGives(url: string, cat: string, last: string, currentFilePath: string)
    requires TakesParentRule(url) && AllIn(cat, Except({'/'}))
    requires var parts := Split(url[3..], {'/'});
             parts[0] == cat && parts[|parts| - 1] == last
    ensures RewriteMarkdownUrl(url, currentFilePath) == "/moat/" + cat + "/" + Slugify(last)
  {
    ByParentRule(url, currentFilePath);
    ParentRuleUnfold(url);
    SiteUrlFromPartsIs(Split(url[3..], {'/'}), cat, last);
  }

  /** The category rule's result, from the parts of the normalised URL. */
  lemma {:induction false} CategoryRuleGives(url: string, cat: string, last: string, currentFilePath: string)
    requires TakesCategoryRule(url) && AllIn(cat, Except({'/'}))
    requires var parts := Split(NormalizeUrl(url), {'/'});
             parts[0] == cat && parts[|parts| - 1] == last
    ensures RewriteMarkdownUrl(url, currentFilePath) == "/moat/" + cat + "/" + Slugify(last)
  {
    ByCategoryRule(url, currentFilePath);
    CategoryRuleUnfold(url);
    SiteUrlFromPartsIs(Split(NormalizeUrl(url), {'/'}), cat, last);
  }

  /** Category-qualified: `cat/.../file.md`; the middle segments are
      dropped. A category of `.` or `..` would be read as `./` or `../`. */
  lemma {:induction false} CategoryQualified(cat: string, middle: string, last: string, currentFilePath: string)
    requires AllIn(cat, Except({'/'})) && AllIn(last, Except({'/'}))
    requires middle == [] || middle[|middle| - 1] == '/'
    requires cat != "." && cat != ".."
    ensures RewriteMarkdownUrl(cat + "/" + middle + last, currentFilePath)
            == "/moat/" + cat + "/" + Slugify(last)
  {
    var url := cat + "/" + middle + last;
    CategoryQualifiedShape(cat, middle, last);
    CategoryRuleGives(url, cat, last, currentFilePath);
  }

  lemma {:induction false} CategoryQualifiedShape(cat: string, middle: string, last: string)
    requires AllIn(cat, Except({'/'})) && AllIn(last, Except({'/'}))
    requires middle == [] || middle[|middle| - 1] == '/'
    requires cat != "." && cat != ".."
    ensures var url := cat + "/" + middle + last;
            var parts := Split(url, {'/'});
            TakesCategoryRule(url) && NormalizeUrl(url) == url && parts[0] == cat && parts[|parts| - 1] == last
  {
    var url := cat + "/" + middle + last;
    SplitCategoryPath(cat, middle, last);
    assert url[..|cat|] == cat && url[|cat|] == '/';
    assert |cat| >= 3 ==> url[2] == cat[2] != '/';
    assert |cat| >= 2 ==> url[1] == cat[1] != '/';
    assert |cat| == 2 ==> url[..2] == cat;
    assert |cat| == 1 ==> url[..1] == cat;
    assert !StartsWith(url, "../") && !StartsWith(url, "./");
  }

  /** The same after a leading `./`, which is removed first. */
  lemma {:induction false} DotSlashCategoryQualified(cat: string, middle: string, last: string, currentFilePath: string)
    requires AllIn(cat, Except({'/'})) && AllIn(last, Except({'/'}))
    requires middle == [] || middle[|middle| - 1] == '/'
    requires cat != "."
    ensures RewriteMarkdownUrl("./" + cat + "/" + middle + last, currentFilePath)
            == "/moat/" + cat + "/" + Slugify(last)
  {
    var url := "./" + cat + "/" + middle + last;
    DotSlashCategoryShape(cat, middle, last);
    SplitCategoryPath(cat, middle, last);
    CategoryRuleGives(url, cat, last, currentFilePath);
  }

  lemma {:induction false} DotSlashCategoryShape(cat: string, middle: string, last: string)
    requires AllIn(cat, Except({'/'})) && AllIn(last, Except({'/'}))
    requires middle == [] || middle[|middle| - 1] == '/'
    requires cat != "."
    ensures var url := "./" + cat + "/" + middle + last;
            TakesCategoryRule(url) && NormalizeUrl(url) == cat + "/" + middle + last
  {
    var url := "./" + cat + "/" + middle + last;
    var rest := cat + "/" + middle + last;
    assert url[..2] == "./" && url[2..] == rest;
    MismatchNotPrefix(url, "../", 0, 1);
    assert NormalizeUrl(url) == rest;
    assert rest[..|cat|] == cat && rest[|cat|] == '/';
    if |cat| <= 1 {
      assert rest[0] == if cat == [] then '/' else cat[0];
      MismatchNotPrefix(rest, "./", 0, 0);
    } else {
      assert rest[1] == cat[1];
      MismatchNotPrefix(rest, "./", 0, 1);
    }
  }

  /** A one-segment `../x` has too few parts for the parent rule and falls
      into the category rule with category `..`. */
  lemma {:induction false} OneSegmentParent(last: string, currentFilePath: string)
    requires AllIn(last, Except({'/'}))
    ensures RewriteMarkdownUrl("../" + last, currentFilePath) == "/moat/" + ".." + "/" + Slugify(last)
  {
    var url := "../" + last;
    OneSegmentParentShape(url, last);
    CategoryRuleGives(url, "..", last, currentFilePath);
  }

  lemma {:induction false} OneSegmentParentShape(url: string, last: string)
    requires AllIn(last, Except({'/'})) && url == "../" + last
    ensures TakesCategoryRule(url) && NormalizeUrl(url) == url && Split(url, {'/'}) == ["..", last]
  {
    assert url[..3] == "../" && url[3..] == last;
    SplitNoSeparator(last, {'/'});
    assert !TakesParentRule(url);
    MismatchNotPrefix(url, "./", 0, 1);
    assert url == ".." + ['/'] + last;
    SplitAtFirstSeparator("..", '/', last, {'/'});
    assert url[2] == '/';
  }

  /** The same-category rule's result: the slug with `.md` removed before
      the prefix is `slugify`'s. */
  lemma {:induction false} SameRuleGives(url: string, name: string, currentFilePath: string)
    requires !TakesParentRule(url) && !TakesCategoryRule(url) && NormalizeUrl(url) == name
    ensures RewriteMarkdownUrl(url, currentFilePath)
            == "/moat/" + InferCategoryFromPath(currentFilePath) + "/" + Slugify(name)
  {
    BySameCategoryRule(url, currentFilePath);
    StripsCommute(name);
  }

  /** Same-category: a bare file name takes its category from the
      containing file's path; stripping `.md` before the prefix gives the
      same slug as `slugify`. */
  lemma {:induction false} SameCategory(name: string, currentFilePath: string)
    requires AllIn(name, Except({'/'}))
    ensures RewriteMarkdownUrl(name, currentFilePath)
            == "/moat/" + InferCategoryFromPath(currentFilePath) + "/" + Slugify(name)
  {
    assert |name| >= 3 ==> name[2] != '/';
    assert |name| >= 2 ==> name[1] != '/';
    assert !StartsWith(name, "../") && !StartsWith(name, "./");
    assert NormalizeUrl(name) == name;
    assert !TakesParentRule(name) && !TakesCategoryRule(name);
    SameRuleGives(name, name, currentFilePath);
  }

  /** The same after a leading `./`. */
  lemma {:induction false} DotSlashSameCategory(name: string, currentFilePath: string)
    requires AllIn(name, Except({'/'}))
    ensures RewriteMarkdownUrl("./" + name, currentFilePath)
            == "/moat/" + InferCategoryFromPath(currentFilePath) + "/" + Slugify(name)
  {
    var url := "./" + name;
    assert url[..2] == "./" && url[2..] == name && url[1] == '/';
    assert NormalizeUrl(url) == name;
    assert !TakesParentRule(url) && !TakesCategoryRule(url);
    SameRuleGives(url, name, currentFilePath);
  }

  /** A bare link in a file under `moat/<category>/` stays in that
      category. */
  lemma {:induction false} SameCategoryUnderMoat(name: string, pre: string, cat: string, rest: string)
    requires AllIn(name, Except({'/'}))
    requires !Contains(pre, "moat")
    requires cat != [] && AllIn(cat, Except(Separators))
    ensures RewriteMarkdownUrl(name, pre + "moat/" + cat + "/" + rest) == "/moat/" + cat + "/" + Slugify(name)
    ensures RewriteMarkdownUrl("./" + name, pre + "moat/" + cat + "/" + rest) == "/moat/" + cat + "/" + Slugify(name)
  {
    MoatDirectoryCategory(pre, cat, rest);
    SameCategory(name, pre + "moat/" + cat + "/" + rest);
    DotSlashSameCategory(name, pre + "moat/" + cat + "/" + rest);
  }
}
