/** `downloadFile`, `syncDirectory` and `fetchProductDocs` of
    `scripts/fetch-docs.ts`: how a fetched file is checked, given a
    frontmatter block and rewritten, how a remote directory tree is
    mirrored into the content store, and what happens when the mirror
    fails. The remote side is a finite tree whose nodes carry what the
    `gh` calls for them returned; the local file system is a map from path
    to content. */
module FetchSync {
  import opened Text
  import opened Strings
  import opened Wrappers
  import opened GhApi
  import opened FetchRewrite

  /** `path.basename(p)` for a path without trailing `/`: the part after
      the last `/`. */
  function BaseName(p: string): (b: string)
    ensures EndsWith(p, b) && AllIn(b, Except({'/'}))
    ensures |b| < |p| ==> p[|p| - |b| - 1] == '/'
    decreases |p|
  {
    if p == [] || p[|p| - 1] == '/' then []
    else
      var b := BaseName(p[..|p| - 1]) + [p[|p| - 1]];
      assert p[..|p| - 1][|p| - 1 - (|b| - 1)..] + [p[|p| - 1]] == p[|p| - |b|..];
      b
  }

  /** `path.basename(p, '.md')`: the suffix is removed unless it is the
      whole base name; a path that is exactly `.md` gives the empty name. */
  function BaseNameWithoutMd(p: string): string
  {
    if p == ".md" then ""
    else
      var b := BaseName(p);
      if |b| > 3 && EndsWith(b, ".md") then b[..|b| - 3] else b
  }

  /** The title of a synthesised frontmatter block: the file name without
      `.md` and without a leading `digits-`, split on `-` only, each word
      capitalised, joined with spaces. */
  function FrontmatterTitle(repoPath: string): (t: string)
    ensures var stem := StripNumericPrefix(BaseNameWithoutMd(repoPath));
            |t| == |stem| && forall i :: 0 <= i < |stem| ==> t[i] == TitleChar(stem, i, {'-'})
  {
    CapitaliseWordsCharwise(StripNumericPrefix(BaseNameWithoutMd(repoPath)), {'-'});
    CapitaliseWords(StripNumericPrefix(BaseNameWithoutMd(repoPath)), {'-'})
  }

  function FrontmatterBlock(title: string): string
  {
    "---\ntitle: \"" + title + "\"\n---\n\n"
  }

  /** `content.trim().startsWith('---')`. Trimming the end cannot remove
      a leading `---`, so trimming the start is enough. */
  predicate HasFrontmatter(content: string)
  {
    StartsWith(TrimStart(content), "---")
  }

  /** The frontmatter step: content with a frontmatter block passes
      through, other content gets one in front. */
  function WithFrontmatter(repoPath: string, content: string): (r: string)
    ensures HasFrontmatter(content) ==> r == content
    ensures !HasFrontmatter(content) ==> r == FrontmatterBlock(FrontmatterTitle(repoPath)) + content
  {
    if HasFrontmatter(content) then content
    else FrontmatterBlock(FrontmatterTitle(repoPath)) + content
  }

  /** What the file download returned: the decoded content, or the error
      the command threw. */
  datatype Download = Downloaded(content: string) | DownloadFailed(error: Thrown)

  /** What `downloadFile` writes, or the message of the error it throws. */
  function PrepareDocument(repoPath: string, download: Download, productId: string): (r: Result<string, string>)
    ensures r.Err? <==> download.DownloadFailed? || Contains(download.content, "\0")
    ensures r.Err? && download.Downloaded? ==> r.error == "File " + repoPath + " appears to be binary, not markdown"
  {
    match download
    case DownloadFailed(e) => Err("Failed to download " + repoPath + ": " + Describe(e))
    case Downloaded(content) =>
      if Contains(content, "\0") then Err("File " + repoPath + " appears to be binary, not markdown")
      else Ok(RewriteMarkdownLinks(WithFrontmatter(repoPath, content), repoPath, productId))
  }

  /** A text document that already has frontmatter and links to no
      markdown file is written exactly as downloaded. */
  lemma {:induction false} PlainDocumentUnchanged(repoPath: string, content: string, productId: string)
    requires !Contains(content, "\0") && HasFrontmatter(content) && !Contains(content, ".md)")
    ensures PrepareDocument(repoPath, Downloaded(content), productId) == Ok(content)
  {
    RewriteWithoutMdLinks(content, repoPath, productId);
  }

  lemma {:induction false} BaseNameOfJoin(dir: string, name: string)
    requires AllIn(name, Except({'/'}))
    ensures BaseName(dir + "/" + name) == name
    decreases |name|
  {
    var p := dir + "/" + name;
    if name != [] {
      var init := name[..|name| - 1];
      assert p[..|p| - 1] == dir + "/" + init;
      BaseNameOfJoin(dir, init);
      assert init + [name[|name| - 1]] == name;
    }
  }

  /** The title splits on `-` only: an `_` stays, as in `My_topic` for
      `03-my_topic.md`, and no `-` is left. */
  lemma {:induction false} TitleSplitsOnDashOnly(repoPath: string)
    ensures var stem := StripNumericPrefix(BaseNameWithoutMd(repoPath));
            var t := FrontmatterTitle(repoPath);
            && (forall i :: 0 <= i < |stem| && stem[i] == '_' ==> t[i] == '_')
            && (forall i :: 0 <= i < |t| ==> t[i] != '-')
  {
    var stem := StripNumericPrefix(BaseNameWithoutMd(repoPath));
    var t := FrontmatterTitle(repoPath);
    forall i | 0 <= i < |t| ensures t[i] != '-' {
      assert t[i] == TitleChar(stem, i, {'-'});
    }
  }

  /** A numbered markdown file in any directory is titled by the rest of
      its name, capitalised word by word at each `-`. */
  lemma {:induction false} TitleOfNumberedFile(dir: string, digits: string, name: string)
    requires digits != [] && AllDigits(digits) && AllIn(name, Except({'/'}))
    ensures FrontmatterTitle(dir + "/" + digits + "-" + name + ".md") == CapitaliseWords(name, {'-'})
  {
    var stem := digits + "-" + name;
    NumberedNameNoSlash(digits, name);
    assert dir + "/" + digits + "-" + name + ".md" == dir + "/" + stem + ".md";
    BaseNameWithoutMdOfJoin(dir, stem);
    StripPrefixed(digits, name);
  }

  lemma {:induction false} NumberedNameNoSlash(digits: string, name: string)
    requires AllDigits(digits) && AllIn(name, Except({'/'}))
    ensures AllIn(digits + "-" + name, Except({'/'}))
  {
    var stem := digits + "-" + name;
    forall k | 0 <= k < |stem| ensures InClass(stem[k], Except({'/'})) {
      if k < |digits| {
        assert stem[k] == digits[k] && IsDigit(digits[k]);
      } else if |digits| < k {
        assert stem[k] == name[k - |digits| - 1];
      }
    }
  }

  lemma {:induction false} BaseNameWithoutMdOfJoin(dir: string, stem: string)
    requires stem != [] && AllIn(stem, Except({'/'}))
    ensures BaseNameWithoutMd(dir + "/" + stem + ".md") == stem
  {
    var file := stem + ".md";
    assert dir + "/" + stem + ".md" == dir + "/" + file;
    MdNameNoSlash(stem);
    BaseNameOfJoin(dir, file);
    assert |dir + "/" + file| > 3;
    assert file[..|file| - 3] == stem;
  }

  lemma {:induction false} MdNameNoSlash(stem: string)
    requires AllIn(stem, Except({'/'}))
    ensures AllIn(stem + ".md", Except({'/'}))
  {
    var file := stem + ".md";
    forall k | 0 <= k < |file| ensures InClass(file[k], Except({'/'})) {
      if k < |stem| {
        assert file[k] == stem[k];
      }
    }
  }

  lemma {:induction false} StripPrefixed(digits: string, name: string)
    requires digits != [] && AllDigits(digits)
    ensures StripNumericPrefix(digits + "-" + name) == name
  {
    var stem := digits + "-" + name;
    assert stem[..|digits|] == digits;
    assert IsNumericPrefix(stem, |digits|);
    assert stem[|digits| + 1..] == name;
  }

  lemma {:induction false} MyTopicWords()
    ensures CapitaliseWords("my_topic", {'-'}) == "My_topic"
  {
    SplitNoSeparator("my_topic", {'-'});
  }

  /** A synthesised block starts with `---`, so the step leaves its own
      output alone. */
  lemma {:induction false} WithFrontmatterIdempotent(repoPath: string, content: string)
    ensures HasFrontmatter(WithFrontmatter(repoPath, content))
    ensures WithFrontmatter(repoPath, WithFrontmatter(repoPath, content)) == WithFrontmatter(repoPath, content)
  {
    if !HasFrontmatter(content) {
      BlockHasFrontmatter(FrontmatterTitle(repoPath), content);
    }
  }

  lemma {:induction false} BlockHasFrontmatter(title: string, content: string)
    ensures HasFrontmatter(FrontmatterBlock(title) + content)
  {
    var r := FrontmatterBlock(title) + content;
    assert r[0] == '-' && !IsWhiteSpace(r[0]);
    assert TrimStart(r) == r;
    assert r[..3] == "---";
  }

  // The remote tree. Each entry carries what the `gh` call for it
  // returned: the download for a file, the listing for a directory.

  /** An entry of a directory listing: its `name`, its repository `path`
      and what it is. */
  datatype Item = Item(name: string, path: string, node: Node)

  /** `type` is `file`, `dir` or anything else (a symlink or a
      submodule), which the sync skips. */
  datatype Node = FileNode(download: Download) | DirNode(listing: Listing) | OtherNode

  /** What `fetchDirectoryContents` returned. */
  datatype Listing = Listed(items: seq<Item>) | ListingFailed(failure: CallFailure)

  /** The message of the error a failed listing of `remotePath` throws. */
  function ListingError(repo: string, remotePath: string, failure: CallFailure): string
  {
    ErrorMessage(ContentsEndpoint(repo, remotePath), Caught(failure))
  }

  /** A file written by the sync: its local path and its content. */
  datatype Write = Write(path: string, content: string)

  /** The store after the writes, in order: a later write to a path
      replaces an earlier one. */
  function Apply(files: map<string, string>, writes: seq<Write>): map<string, string>
    decreases |writes|
  {
    if writes == [] then files
    else Apply(files[writes[0].path := writes[0].content], writes[1..])
  }

  /** `downloadFile`: the prepared document is written at `outputPath`,
      or nothing is written and an error is thrown. */
  function DownloadStep(repoPath: string, outputPath: string, productId: string, download: Download)
    : (seq<Write>, Outcome<string>)
  {
    match PrepareDocument(repoPath, download, productId)
    case Ok(content) => ([Write(outputPath, content)], Pass)
    case Err(message) => ([], Fail(message))
  }

  /** `syncDirectory`: the files written, in order, when mirroring
      `listing` into `localPath`, and whether an error was thrown. The
      first error stops the whole sync. Nothing the sync does depends on
      what the store already holds. */
  function SyncDir(repo: string, remotePath: string, localPath: string, productId: string, listing: Listing)
    : (seq<Write>, Outcome<string>)
    decreases listing, 1, 0
  {
    match listing
    case ListingFailed(failure) => ([], Fail(ListingError(repo, remotePath, failure)))
    case Listed(items) => SyncItems(repo, localPath, productId, listing, 0)
  }

  /** The loop of `syncDirectory` from entry `i` on. */
  function SyncItems(repo: string, localPath: string, productId: string, listing: Listing, i: nat)
    : (seq<Write>, Outcome<string>)
    requires listing.Listed? && i <= |listing.items|
    decreases listing, 0, |listing.items| - i
  {
    if i == |listing.items| then ([], Pass)
    else
      var step := SyncItem(repo, localPath, productId, listing, i);
      if step.1.Fail? then step
      else
        var rest := SyncItems(repo, localPath, productId, listing, i + 1);
        (step.0 + rest.0, rest.1)
  }

  /** One entry of the loop: a file is downloaded to, and a directory
      mirrored into, `join(localPath, item.name)`. */
  function SyncItem(repo: string, localPath: string, productId: string, listing: Listing, i: nat)
    : (seq<Write>, Outcome<string>)
    requires listing.Listed? && i < |listing.items|
    decreases listing, 0, 0
  {
    var item := listing.items[i];
    var itemLocalPath := PathJoin(localPath, item.name);
    match item.node
    case FileNode(download) => DownloadStep(item.path, itemLocalPath, productId, download)
    case DirNode(child) =>
      assert child < item.node < item < listing;
      SyncDir(repo, item.path, itemLocalPath, productId, child)
    case OtherNode => ([], Pass)
  }

  /** A product whose documentation is fetched. */
  datatype Product = Product(id: string, name: string, docsRepo: string, docsPath: string)

  /** How `fetchProductDocs` ends: the sync completed, the sync failed but
      the output directory was not empty (it returns normally), or the
      error is rethrown. */
  datatype FetchOutcome = Synced | CacheKept(error: string) | Propagated(error: string)

  function OutputDir(product: Product): string
  {
    "./src/content/" + product.id
  }

  /** `k` lies inside the directory `dir`. */
  predicate Under(k: string, dir: string)
  {
    StartsWith(k, dir + "/")
  }

  /** What `fs.rm(dir, { recursive: true, force: true })` deletes: the
      entry at `dir` itself, a regular file included, and all below it. */
  predicate Removed(k: string, dir: string)
  {
    k == dir || Under(k, dir)
  }

  /** `fs.rm(dir, { recursive: true, force: true })` followed by
      `fs.mkdir(dir)`. */
  function Cleared(files: map<string, string>, dir: string): (r: map<string, string>)
    ensures forall k :: k in r <==> k in files && !Removed(k, dir)
    ensures forall k :: k in r ==> r[k] == files[k]
  {
    map k | k in files && !Removed(k, dir) :: files[k]
  }

  /** `fetchProductDocs`: clear the output directory, sync into it and,
      when the sync fails, keep whatever the directory holds if it is not
      empty. Directories are only created for files written into them, so
      the directory is empty exactly when no file under it is stored. */
  function FetchDocs(files: map<string, string>, product: Product, root: Listing): (map<string, string>, FetchOutcome)
  {
    var dir := OutputDir(product);
    var synced := SyncDir(product.docsRepo, product.docsPath, dir, product.id, root);
    var stored := Apply(Cleared(files, dir), synced.0);
    if synced.1.Pass? then (stored, Synced)
    else if exists k :: k in stored && Under(k, dir) then (stored, CacheKept(synced.1.error))
    else (stored, Propagated(synced.1.error))
  }

  /** The local file system, as a map from file path to content. */
  class ContentStore {
    var files: map<string, string>

    constructor ()
      ensures files == map[]
    {
      files := map[];
    }

    /** `downloadFile`: the content is checked, given a frontmatter block
        when it has none, rewritten and written. */
    method DownloadFile(repoPath: string, outputPath: string, productId: string, download: Download)
      returns (r: Outcome<string>)
      modifies this
      ensures var step := DownloadStep(repoPath, outputPath, productId, download);
              files == Apply(old(files), step.0) && r == step.1
    {
      var content: string;
      match download {
        case DownloadFailed(e) =>
          return Fail("Failed to download " + repoPath + ": " + Describe(e));
        case Downloaded(c) =>
          content := c;
      }
      if Contains(content, "\0") {
        return Fail("File " + repoPath + " appears to be binary, not markdown");
      }
      if !StartsWith(TrimStart(content), "---") {
        var title := FrontmatterTitle(repoPath);
        content := "---\ntitle: \"" + title + "\"\n---\n\n" + content;
      }
      content := RewriteMarkdownLinks(content, repoPath, productId);
      ApplyOne(files, outputPath, content);
      files := files[outputPath := content];
      r := Pass;
    }

    /** `syncDirectory`: each file entry is downloaded and each directory
        entry mirrored, depth first in listing order; the first error
        ends the sync. */
    method SyncDirectory(repo: string, remotePath: string, localPath: string, productId: string, listing: Listing)
      returns (r: Outcome<string>)
      modifies this
      ensures var sync := SyncDir(repo, remotePath, localPath, productId, listing);
              files == Apply(old(files), sync.0) && r == sync.1
      decreases listing, 1
    {
      if listing.ListingFailed? {
        return Fail(ListingError(repo, remotePath, listing.failure));
      }
      var i := 0;
      ghost var done: seq<Write> := [];
      while i < |listing.items|
        invariant 0 <= i <= |listing.items|
        invariant files == Apply(old(files), done)
        invariant SyncItems(repo, localPath, productId, listing, 0).0 == done + SyncItems(repo, localPath, productId, listing, i).0
        invariant SyncItems(repo, localPath, productId, listing, 0).1 == SyncItems(repo, localPath, productId, listing, i).1
      {
        ghost var before := files;
        var step := SyncEntry(repo, localPath, productId, listing, i);
        ApplyConcat(old(files), done, SyncItem(repo, localPath, productId, listing, i).0);
        if step.Fail? {
          return step;
        }
        SyncItemsPass(repo, localPath, productId, listing, i, done);
        done := done + SyncItem(repo, localPath, productId, listing, i).0;
        i := i + 1;
      }
      assert done + [] == done;
      r := Pass;
    }

    /** The body of the loop of `syncDirectory` for entry `i`. */
    method SyncEntry(repo: string, localPath: string, productId: string, listing: Listing, i: nat)
      returns (r: Outcome<string>)
      requires listing.Listed? && i < |listing.items|
      modifies this
      ensures var step := SyncItem(repo, localPath, productId, listing, i);
              files == Apply(old(files), step.0) && r == step.1
      decreases listing, 0
    {
      var item := listing.items[i];
      var itemLocalPath := PathJoin(localPath, item.name);
      r := Pass;
      match item.node {
        case FileNode(download) =>
          r := DownloadFile(item.path, itemLocalPath, productId, download);
        case DirNode(child) =>
          assert child < item.node < item < listing;
          r := SyncDirectory(repo, item.path, itemLocalPath, productId, child);
        case OtherNode =>
      }
    }

    /** `fetchProductDocs` over the listing of the product's docs path. */
    method FetchProductDocs(product: Product, root: Listing) returns (r: FetchOutcome)
      modifies this
      ensures var fetched := FetchDocs(old(files), product, root);
              files == fetched.0 && r == fetched.1
    {
      var dir := OutputDir(product);
      files := map k | k in files && !Removed(k, dir) :: files[k];
      var synced := SyncDirectory(product.docsRepo, product.docsPath, dir, product.id, root);
      if synced.Pass? {
        return Synced;
      }
      if exists k :: k in files && Under(k, dir) {
        return CacheKept(synced.error);
      }
      return Propagated(synced.error);
    }
  }

  // Writes.

  lemma {:induction false} ApplyOne(files: map<string, string>, path: string, content: string)
    ensures Apply(files, [Write(path, content)]) == files[path := content]
  {
    assert [Write(path, content)][1..] == [];
  }

  /** Applying two runs of writes is applying their concatenation. */
  lemma {:induction false} ApplyConcat(files: map<string, string>, a: seq<Write>, b: seq<Write>)
    ensures Apply(files, a + b) == Apply(Apply(files, a), b)
    decreases |a|
  {
    if a == [] {
      assert a + b == b;
    } else {
      assert (a + b)[1..] == a[1..] + b;
      ApplyConcat(files[a[0].path := a[0].content], a[1..], b);
    }
  }

  /** One more entry of the loop, when it passes, extends the writes of
      the loop so far. */
  lemma {:induction false} SyncItemsPass(repo: string, localPath: string, productId: string, listing: Listing, i: nat, done: seq<Write>)
    requires listing.Listed? && i < |listing.items|
    requires SyncItem(repo, localPath, productId, listing, i).1.Pass?
    requires SyncItems(repo, localPath, productId, listing, 0).0 == done + SyncItems(repo, localPath, productId, listing, i).0
    requires SyncItems(repo, localPath, productId, listing, 0).1 == SyncItems(repo, localPath, productId, listing, i).1
    ensures SyncItems(repo, localPath, productId, listing, 0).0
            == (done + SyncItem(repo, localPath, productId, listing, i).0) + SyncItems(repo, localPath, productId, listing, i + 1).0
    ensures SyncItems(repo, localPath, productId, listing, 0).1 == SyncItems(repo, localPath, productId, listing, i + 1).1
  {
    var step := SyncItem(repo, localPath, productId, listing, i);
    var rest := SyncItems(repo, localPath, productId, listing, i + 1);
    SyncItemsUnfold(repo, localPath, productId, listing, i, i + 1);
    assert done + (step.0 + rest.0) == (done + step.0) + rest.0;
  }

  /** `SyncItems` at a failing entry stops with that entry's result. */
  lemma {:induction false} SyncItemsStops(repo: string, localPath: string, productId: string, listing: Listing, i: nat)
    requires listing.Listed? && i < |listing.items|
    requires SyncItem(repo, localPath, productId, listing, i).1.Fail?
    ensures SyncItems(repo, localPath, productId, listing, i).0 == SyncItem(repo, localPath, productId, listing, i).0
  {
  }

  /** `SyncItems` at a passing entry, one component at a time. */
  lemma {:induction false} SyncItemsUnfold(repo: string, localPath: string, productId: string, listing: Listing, i: nat, next: nat)
    requires listing.Listed? && i < |listing.items| && next == i + 1
    requires SyncItem(repo, localPath, productId, listing, i).1.Pass?
    ensures SyncItems(repo, localPath, productId, listing, i).0
            == SyncItem(repo, localPath, productId, listing, i).0 + SyncItems(repo, localPath, productId, listing, next).0
    ensures SyncItems(repo, localPath, productId, listing, i).1 == SyncItems(repo, localPath, productId, listing, next).1
  {
  }

  // Where a sync writes.

  /** `a` and `b` hold the same files outside `dir`. */
  ghost predicate AgreeOutside(a: map<string, string>, b: map<string, string>, dir: string)
  {
    forall k :: !Removed(k, dir) ==> (k in a <==> k in b) && (k in a ==> a[k] == b[k])
  }

  /** Every write lands inside `dir`. */
  predicate AllUnder(writes: seq<Write>, dir: string)
  {
    forall j :: 0 <= j < |writes| ==> Under(writes[j].path, dir)
  }

  lemma {:induction false} JoinIsUnder(dir: string, name: string)
    ensures Under(PathJoin(dir, name), dir)
  {
    assert PathJoin(dir, name)[..|dir + "/"|] == dir + "/";
  }

  lemma {:induction false} UnderNested(dir: string, name: string)
    ensures forall k :: Under(k, PathJoin(dir, name)) ==> Under(k, dir)
  {
    forall k | Under(k, PathJoin(dir, name)) ensures Under(k, dir) {
      var d := PathJoin(dir, name) + "/";
      assert k[..|d|] == d;
      assert k[..|dir + "/"|] == d[..|dir + "/"|] == dir + "/";
    }
  }

  lemma {:induction false} AllUnderConcat(a: seq<Write>, b: seq<Write>, dir: string)
    requires AllUnder(a, dir) && AllUnder(b, dir)
    ensures AllUnder(a + b, dir)
  {
    forall j | 0 <= j < |a + b| ensures Under((a + b)[j].path, dir) {
      if j >= |a| {
        assert (a + b)[j] == b[j - |a|];
      }
    }
  }

  /** A sync writes only inside the directory it mirrors into. */
  lemma {:induction false} SyncDirWritesUnder(repo: string, remotePath: string, localPath: string, productId: string, listing: Listing)
    ensures AllUnder(SyncDir(repo, remotePath, localPath, productId, listing).0, localPath)
    decreases listing, 1, 0
  {
    if listing.Listed? {
      SyncItemsWritesUnder(repo, localPath, productId, listing, 0);
    }
  }

  lemma {:induction false} SyncItemsWritesUnder(repo: string, localPath: string, productId: string, listing: Listing, i: nat)
    requires listing.Listed? && i <= |listing.items|
    ensures AllUnder(SyncItems(repo, localPath, productId, listing, i).0, localPath)
    decreases listing, 0, |listing.items| - i
  {
    if i < |listing.items| {
      SyncItemWritesUnder(repo, localPath, productId, listing, i);
      if SyncItem(repo, localPath, productId, listing, i).1.Pass? {
        var next := i + 1;
        SyncItemsUnfold(repo, localPath, productId, listing, i, next);
        SyncItemsWritesUnder(repo, localPath, productId, listing, next);
        AllUnderJoined(SyncItem(repo, localPath, productId, listing, i).0, SyncItems(repo, localPath, productId, listing, next).0,
                       SyncItems(repo, localPath, productId, listing, i).0, localPath);
      } else {
        SyncItemsStops(repo, localPath, productId, listing, i);
      }
    }
  }

  lemma {:induction false} AllUnderJoined(a: seq<Write>, b: seq<Write>, whole: seq<Write>, dir: string)
    requires AllUnder(a, dir) && AllUnder(b, dir) && whole == a + b
    ensures AllUnder(whole, dir)
  {
    AllUnderConcat(a, b, dir);
  }

  lemma {:induction false} SyncItemWritesUnder(repo: string, localPath: string, productId: string, listing: Listing, i: nat)
    requires listing.Listed? && i < |listing.items|
    ensures AllUnder(SyncItem(repo, localPath, productId, listing, i).0, localPath)
    decreases listing, 0, 0
  {
    var item := listing.items[i];
    var itemLocalPath := PathJoin(localPath, item.name);
    match item.node
    case FileNode(download) =>
      JoinIsUnder(localPath, item.name);
    case DirNode(child) =>
      assert child < item.node < item < listing;
      SyncDirWritesUnder(repo, item.path, itemLocalPath, productId, child);
      UnderNested(localPath, item.name);
    case OtherNode =>
  }

  /** Writes inside `dir` change nothing outside it. */
  lemma {:induction false} ApplyLocal(files: map<string, string>, writes: seq<Write>, dir: string)
    requires AllUnder(writes, dir)
    ensures AgreeOutside(Apply(files, writes), files, dir)
    ensures dir in Apply(files, writes) <==> dir in files
    ensures dir in files ==> Apply(files, writes)[dir] == files[dir]
    decreases |writes|
  {
    if writes != [] {
      var next := files[writes[0].path := writes[0].content];
      assert Under(writes[0].path, dir);
      assert writes[0].path != dir by {
        assert |writes[0].path| >= |dir + "/"|;
      }
      assert AllUnder(writes[1..], dir) by {
        forall j | 0 <= j < |writes[1..]| ensures Under(writes[1..][j].path, dir) {
          assert writes[1..][j] == writes[j + 1];
        }
      }
      ApplyLocal(next, writes[1..], dir);
    }
  }

  /** A written path stays in the store, whatever is written after it. */
  lemma {:induction false} ApplyKeeps(files: map<string, string>, writes: seq<Write>, k: string)
    requires k in files
    ensures k in Apply(files, writes)
    decreases |writes|
  {
    if writes != [] {
      ApplyKeeps(files[writes[0].path := writes[0].content], writes[1..], k);
    }
  }

  lemma {:induction false} UnionUpdate(files: map<string, string>, g: map<string, string>, k: string, v: string)
    ensures (files + g)[k := v] == files + g[k := v]
  {
  }

  /** Writes laid over `files + g` are the writes laid over `g`, with
      `files` underneath. */
  lemma {:induction false} ApplyFrame(files: map<string, string>, g: map<string, string>, writes: seq<Write>)
    ensures Apply(files + g, writes) == files + Apply(g, writes)
    decreases |writes|
  {
    if writes != [] {
      var w := writes[0];
      UnionUpdate(files, g, w.path, w.content);
      ApplyFrame(files, g[w.path := w.content], writes[1..]);
    }
  }

  /** `fetchProductDocs` as a whole: the output directory afterwards
      holds exactly what the sync wrote, over the files outside it. A
      failed sync is survived exactly when it wrote at least one file
      before failing; otherwise its error is rethrown. */
  lemma {:induction false} FetchPolicy(files: map<string, string>, product: Product, root: Listing)
    ensures var dir := OutputDir(product);
            var sync := SyncDir(product.docsRepo, product.docsPath, dir, product.id, root);
            FetchDocs(files, product, root).0 == Cleared(files, dir) + Apply(map[], sync.0)
    ensures var dir := OutputDir(product);
            var sync := SyncDir(product.docsRepo, product.docsPath, dir, product.id, root);
            FetchDocs(files, product, root).1
            == if sync.1.Pass? then Synced
               else if sync.0 != [] then CacheKept(sync.1.error)
               else Propagated(sync.1.error)
  {
    var dir := OutputDir(product);
    var cleared := Cleared(files, dir);
    var sync := SyncDir(product.docsRepo, product.docsPath, dir, product.id, root);
    var stored := Apply(cleared, sync.0);
    ApplyFrame(cleared, map[], sync.0);
    assert cleared + map[] == cleared;
    if sync.0 != [] {
      var w := sync.0[0];
      SyncDirWritesUnder(product.docsRepo, product.docsPath, dir, product.id, root);
      ApplyKeeps(cleared[w.path := w.content], sync.0[1..], w.path);
      assert w.path in stored && Under(w.path, dir);
    } else {
      assert stored == cleared;
    }
  }

  /** When the listing of the docs path itself fails, nothing is written,
      so the listing error is rethrown and the output directory is left
      empty. */
  lemma {:induction false} RootListingFailurePropagates(files: map<string, string>, product: Product, failure: CallFailure)
    ensures var dir := OutputDir(product);
            var fetched := FetchDocs(files, product, ListingFailed(failure));
            fetched.0 == Cleared(files, dir)
            && fetched.1 == Propagated(ListingError(product.docsRepo, product.docsPath, failure))
  {
    FetchPolicy(files, product, ListingFailed(failure));
  }

  /** Fetching one product changes no file outside its output directory,
      and removes a file that sat at the directory's own path. */
  lemma {:induction false} FetchKeepsOtherFiles(files: map<string, string>, product: Product, root: Listing)
    ensures AgreeOutside(FetchDocs(files, product, root).0, files, OutputDir(product))
    ensures OutputDir(product) !in FetchDocs(files, product, root).0
  {
    var dir := OutputDir(product);
    var sync := SyncDir(product.docsRepo, product.docsPath, dir, product.id, root);
    SyncDirWritesUnder(product.docsRepo, product.docsPath, dir, product.id, root);
    ApplyLocal(Cleared(files, dir), sync.0, dir);
  }
}
