/*
 * Where the site's link plugin and the batch rewriter of fetched
 * documentation agree, and where they do not. The two are separate
 * implementations of one convention; the lemmas below relate the models of
 * src/lib/remark-rewrite-links.ts, scripts/fetch-docs.ts and
 * src/utils/strings.ts.
 */
module Agreement {
  import opened Wrappers
  import opened Text
  import opened Strings
  import opened RemarkRewriteLinks
  import opened FetchRewrite
  import opened FetchScan
  import opened FetchLinks
  import opened FetchSync

  /** A parent link `../cat/NN-slug.md` with a word slug: the batch rewriter
      run for product `moat` puts exactly the plugin's url in its place,
      wherever either of them takes the containing file to be, and rewrites
      the text around it as it would on its own. */
  lemma {:induction false} ParentLinksAgree(pre: string, cat: string, digits: string, slug: string, post: string,
                                            fetchedPath: string, sitePath: string)
    requires ClosedBefore(pre, "moat", CurrentCategory(fetchedPath))
    requires cat != [] && AllIn(cat, Except({'/', ']'}))
    requires digits != [] && AllDigits(digits) && slug != [] && IsWord(slug)
    ensures var url := "../" + cat + "/" + (digits + "-" + slug + ".md");
            RewriteMarkdownUrl(url, sitePath) == "/moat/" + cat + "/" + slug &&
            RewriteMarkdownLinks(pre + ("](" + url + ")") + post, fetchedPath, "moat")
              == RewriteMarkdownLinks(pre, fetchedPath, "moat") + ("](" + RewriteMarkdownUrl(url, sitePath) + ")")
                 + RewriteMarkdownLinks(post, fetchedPath, "moat")
  {
    var w := digits + "-" + slug;
    var name := w + ".md";
    var url := "../" + cat + "/" + name;
    NumberedWord(digits, slug);
    // The plugin side.
    ExceptSubset(cat, {'/'}, {'/', ']'});
    ParentUrlParts(cat, name);
    ParentTraversal(cat, [], name, sitePath);
    SlugifyPrefixed(digits, slug);
    // The batch side.
    MoatIsWord();
    ParentLinkTextIs(cat, w);
    ParentLinkRewritten(pre, cat, w, post, fetchedPath, "moat");
    SlugCaptureStripsPrefix(w);
    StripPrefixed(digits, slug);
    ReplacementIs(cat, slug);
  }

  lemma ParentUrlParts(cat: string, name: string)
    ensures "../" + cat + "/" + [] + name == "../" + cat + "/" + name
  {
  }

  lemma ParentLinkTextIs(cat: string, w: string)
    ensures ParentLinkText(cat, w) == "](" + ("../" + cat + "/" + (w + ".md")) + ")"
  {
  }

  lemma ReplacementIs(cat: string, slug: string)
    ensures Replacement("moat", cat, slug) == "](" + ("/moat/" + cat + "/" + slug) + ")"
  {
  }

  /** `NN-slug` is a word, and `NN-slug.md` a single path segment. */
  lemma {:induction false} NumberedWord(digits: string, slug: string)
    requires digits != [] && AllDigits(digits) && IsWord(slug)
    ensures IsWord(digits + "-" + slug)
    ensures AllIn(digits + "-" + slug + ".md", Except({'/'}))
  {
    var w := digits + "-" + slug;
    forall k | 0 <= k < |w| ensures IsWordChar(w[k]) {
      if k < |digits| {
        assert w[k] == digits[k];
      } else if k > |digits| {
        assert w[k] == slug[k - |digits| - 1];
      }
    }
    forall k | 0 <= k < |w + ".md"| ensures (w + ".md")[k] != '/' {
      if k < |w| {
        assert (w + ".md")[k] == w[k];
      }
    }
  }

  lemma MoatIsWord()
    ensures IsWord("moat")
  {
  }

  /** A bare `NN-slug.md` link: the plugin turns it into a site url in the
      containing file's category, while the batch rewriter leaves it
      untouched while rewriting the text around it. */
  lemma {:induction false} BareLinksDisagree(pre: string, digits: string, slug: string, post: string,
                                             fetchedPath: string, sitePath: string)
    requires ClosedBefore(pre, "moat", CurrentCategory(fetchedPath))
    requires digits != [] && AllDigits(digits) && slug != [] && IsWord(slug)
    ensures var url := digits + "-" + slug + ".md";
            RewriteMarkdownUrl(url, sitePath) == "/moat/" + InferCategoryFromPath(sitePath) + "/" + slug &&
            RewriteMarkdownUrl(url, sitePath) != url &&
            RewriteMarkdownLinks(pre + ("](" + url + ")") + post, fetchedPath, "moat")
              == RewriteMarkdownLinks(pre, fetchedPath, "moat") + ("](" + url + ")") + RewriteMarkdownLinks(post, fetchedPath, "moat")
  {
    var w := digits + "-" + slug;
    var url := w + ".md";
    NumberedWord(digits, slug);
    SameCategory(url, sitePath);
    SlugifyPrefixed(digits, slug);
    RewrittenStartsWithSlash(InferCategoryFromPath(sitePath), slug);
    assert url[0] == digits[0];
    BareLinkTextIs(w);
    BareLinkUnchanged(pre, w, post, fetchedPath, "moat");
  }

  lemma RewrittenStartsWithSlash(category: string, slug: string)
    ensures ("/moat/" + category + "/" + slug)[0] == '/'
  {
  }

  lemma BareLinkTextIs(w: string)
    ensures BareLinkText(w) == "](" + (w + ".md") + ")"
  {
  }

  /** A file under `docs/content/<cat>/` in the documentation repository:
      the batch rewriter takes `<cat>` as the current category, while the
      plugin's inference, finding no `moat` directory, takes the first
      segment `docs`. */
  lemma {:induction false} CategoriesDisagree(cat: string, rest: string)
    requires cat != [] && AllIn(cat, Except({'/'}))
    requires !Contains(cat, "moat") && !Contains(rest, "moat")
    ensures CurrentCategory("docs/content/" + cat + "/" + rest) == cat
    ensures InferCategoryFromPath("docs/content/" + cat + "/" + rest) == "docs"
  {
    BatchCategory(cat, rest);
    PluginCategory(cat, rest);
  }

  lemma {:induction false} BatchCategory(cat: string, rest: string)
    requires cat != [] && AllIn(cat, Except({'/'}))
    ensures CurrentCategory("docs/content/" + cat + "/" + rest) == cat
  {
    var p := "docs/content/" + cat + "/" + rest;
    DocsPathPieces(cat, rest);
    SpanIs(p, 13, Except({'/'}), 13 + |cat|);
    assert SegmentAfterAt(p, "docs/content", {'/'}, 0) == Some(cat);
  }

  lemma {:induction false} PluginCategory(cat: string, rest: string)
    requires AllIn(cat, Except({'/'}))
    requires !Contains(cat, "moat") && !Contains(rest, "moat")
    ensures InferCategoryFromPath("docs/content/" + cat + "/" + rest) == "docs"
  {
    var p := "docs/content/" + cat + "/" + rest;
    DocsPathPieces(cat, rest);
    forall j | 0 <= j <= |p|
      ensures SegmentAfterAt(p, "moat", Separators, j).None?
    {
      if j < |p| {
        NoMoatAt(cat, rest, j);
      }
    }
    InferCategoryPreference(p);
  }

  /** `moat` has no `/`, so an occurrence in the path would lie inside
      `docs/content`, inside `cat` or inside `rest`. */
  lemma {:induction false} NoMoatAt(cat: string, rest: string, j: nat)
    requires AllIn(cat, Except({'/'}))
    requires !Contains(cat, "moat") && !Contains(rest, "moat")
    requires j < |"docs/content/" + cat + "/" + rest|
    ensures !IsPrefixAt("docs/content/" + cat + "/" + rest, "moat", j)
  {
    var p := "docs/content/" + cat + "/" + rest;
    var e := 13 + |cat|;
    DocsPathPieces(cat, rest);
    if j < 13 {
      assert p[j] == "docs/content/"[j];
      MismatchNotPrefix(p, "moat", j, 0);
    } else if j < e {
      if j + 4 <= e {
        assert !IsPrefixAt(cat, "moat", j - 13);
        SliceOfSlice(p, 13, cat, j - 13, j - 9);
      } else {
        MismatchNotPrefix(p, "moat", j, e - j);
      }
    } else if j == e {
      MismatchNotPrefix(p, "moat", j, 0);
    } else if j + 4 <= |p| {
      assert !IsPrefixAt(rest, "moat", j - e - 1);
      assert p[e + 1..] == rest;
      SliceOfSlice(p, e + 1, rest, j - e - 1, j - e + 3);
    }
  }

  lemma DocsPathPieces(cat: string, rest: string)
    ensures var p := "docs/content/" + cat + "/" + rest;
            p[..12] == "docs/content" && p[12] == '/' && p[4] == '/' && p[..4] == "docs" &&
            p[13..13 + |cat|] == cat && p[13 + |cat|] == '/'
  {
  }

  /** The synthesised title splits the file name on `-` only, so an
      underscore stays (`03-my_topic.md` gives `My_topic`), while the
      site's `titleCase` also splits on `_` (`my_topic` gives `My Topic`). */
  lemma {:induction false} UnderscoreTitlesDisagree(dir: string, digits: string, a: string, b: string)
    requires digits != [] && AllDigits(digits)
    requires a != [] && AllIn(a, Except({'-', '_', '/'})) && AllIn(b, Except({'-', '_', '/'}))
    ensures FrontmatterTitle(dir + "/" + digits + "-" + (a + "_" + b) + ".md") == Capitalise(a) + "_" + b
    ensures TitleCase(a + "_" + b) == Capitalise(a) + " " + Capitalise(b)
    ensures FrontmatterTitle(dir + "/" + digits + "-" + (a + "_" + b) + ".md") != TitleCase(a + "_" + b)
  {
    var name := a + "_" + b;
    UnderscoreName(a, b);
    TitleOfNumberedFile(dir, digits, name);
    SplitNoSeparator(name, {'-'});
    assert CapitaliseAll([name]) == [Capitalise(name)];
    ExceptSubset(a, {'-', '_'}, {'-', '_', '/'});
    ExceptSubset(b, {'-', '_'}, {'-', '_', '/'});
    TitleCaseTwoWords(a, '_', b);
    assert (Capitalise(a) + "_" + b)[|a|] == '_';
    assert (Capitalise(a) + " " + Capitalise(b))[|a|] == ' ';
  }

  lemma {:induction false} UnderscoreName(a: string, b: string)
    requires a != [] && AllIn(a, Except({'-', '_', '/'})) && AllIn(b, Except({'-', '_', '/'}))
    ensures AllIn(a + "_" + b, Except({'/'})) && AllIn(a + "_" + b, Except({'-'}))
    ensures a + "_" + b == a + ['_'] + b
    ensures Capitalise(a + "_" + b) == Capitalise(a) + "_" + b
  {
    var name := a + "_" + b;
    forall k | 0 <= k < |name| ensures name[k] != '/' && name[k] != '-' {
      if k < |a| {
        assert name[k] == a[k];
      } else if k > |a| {
        assert name[k] == b[k - |a| - 1];
      }
    }
    assert name[1..] == a[1..] + "_" + b;
  }
}
