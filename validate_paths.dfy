/** `getPathFromFile` of `scripts/validate-links.ts`: the site path a
    content file is served at, found by two regular expressions tried in
    turn. Each expression is a matcher over positions: the search for the
    leftmost start, then the greedy choices of its groups. */
module SitePaths {
  import opened Text
  import opened Wrappers

  /** The literal every content path match starts with. */
  const ContentRoot: string := "src/content/moat/"

  /** The groups of `\/\d+-(.+)\.md$` when the `/` is at `q` of the text
      `r` after the root, with `r[..q]` as the category: a maximal run of
      digits, `-`, a non-empty name and `.md` at the very end. */
  function NumberedAt(r: string, q: nat): (m: Option<(string, string)>)
    requires q < |r|
    ensures m.Some? ==> EndsWith(r, ".md") && 4 <= |r|
  {
    if q == 0 || r[q] != '/' then None
    else
      var d := Span(r, q + 1, Digits);
      if d == q + 1 || d == |r| || r[d] != '-' || !EndsWith(r, ".md") || |r| - 3 < d + 2 then None
      else Some((r[..q], r[d + 1..|r| - 3]))
  }

  /** The greedy `(.+)` of the category: the last `/` below `n` after which
      the rest matches. */
  function LastNumberedBelow(r: string, n: nat): (m: Option<(string, string)>)
    requires n <= |r|
    ensures m.Some? ==> EndsWith(r, ".md") && 4 <= |r|
  {
    if n == 0 then None
    else
      var m := NumberedAt(r, n - 1);
      if m.Some? then m else LastNumberedBelow(r, n - 1)
  }

  /** A `src/content/moat/` starts at position `p` of `s`. */
  predicate RootAt(s: string, p: nat)
  {
    IsPrefixAt(s, ContentRoot, p)
  }

  /** `/src\/content\/moat\/(.+)\/\d+-(.+)\.md$/` searched from `p`: the
      category and name of the leftmost match. The two `(.+)` groups and
      the digits between them cannot hold a line terminator, so the whole
      text after the root must be free of them. */
  function NumberedFrom(s: string, p: nat): (m: Option<(string, string)>)
    requires p <= |s|
    decreases |s| - p
  {
    var here :=
      if RootAt(s, p) && AllIn(s[p + |ContentRoot|..], AnyButLineTerminator)
      then LastNumberedBelow(s[p + |ContentRoot|..], |s| - p - |ContentRoot|)
      else None;
    if here.Some? || p == |s| then here else NumberedFrom(s, p + 1)
  }

  /** `/src\/content\/moat\/(.+?)\.md$/` can match at `p`: the root, at
      least one character without a line terminator, `.md` at the end. */
  predicate PlainCandidate(s: string, p: nat)
    requires p <= |s|
  {
    && RootAt(s, p)
    && |s| - p - |ContentRoot| >= 4
    && EndsWith(s, ".md")
    && AllIn(s[p + |ContentRoot|..], AnyButLineTerminator)
  }

  /** The lazy group of the second expression at the leftmost start: the
      `$` anchor leaves it only one choice, everything up to `.md`. */
  function PlainFrom(s: string, p: nat): (m: Option<string>)
    requires p <= |s|
    decreases |s| - p
  {
    if PlainCandidate(s, p) then Some(s[p + |ContentRoot|..|s| - 3])
    else if p == |s| then None
    else PlainFrom(s, p + 1)
  }

  /** `getPathFromFile`. */
  function GetPathFromFile(filePath: string): (r: string)
    ensures r == [] || StartsWith(r, "/moat/")
  {
    match NumberedFrom(filePath, 0)
    case Some(groups) =>
      assert ("/moat/" + groups.0 + "/" + groups.1)[..6] == "/moat/";
      "/moat/" + groups.0 + "/" + groups.1
    case None =>
      match PlainFrom(filePath, 0)
      case Some(pathPart) =>
        assert ("/moat/" + pathPart)[..6] == "/moat/";
        "/moat/" + pathPart
      case None => ""
  }

  // The empty path.

  lemma {:induction false} PlainFromNone(s: string, p: nat)
    requires p <= |s|
    ensures PlainFrom(s, p).None? <==> forall q :: p <= q <= |s| ==> !PlainCandidate(s, q)
    decreases |s| - p
  {
    if !PlainCandidate(s, p) && p < |s| {
      PlainFromNone(s, p + 1);
    }
  }

  lemma {:induction false} NumberedIsCandidate(s: string, p: nat)
    requires p <= |s| && NumberedFrom(s, p).Some?
    ensures PlainFrom(s, p).Some?
    decreases |s| - p
  {
    if !PlainCandidate(s, p) {
      if RootAt(s, p) && AllIn(s[p + |ContentRoot|..], AnyButLineTerminator) {
        var r := s[p + |ContentRoot|..];
        var m := LastNumberedBelow(r, |s| - p - |ContentRoot|);
        if m.Some? {
          assert false;
        }
      }
      NumberedIsCandidate(s, p + 1);
    }
  }

  /** A file gets no site path exactly when no `src/content/moat/` in
      its path is followed by a name ending the path in `.md`. */
  lemma {:induction false} EmptyPathIffNoContentFile(filePath: string)
    ensures GetPathFromFile(filePath) == [] <==> forall p :: 0 <= p <= |filePath| ==> !PlainCandidate(filePath, p)
  {
    PlainFromNone(filePath, 0);
    if NumberedFrom(filePath, 0).Some? {
      NumberedIsCandidate(filePath, 0);
    }
  }

  // The two documented forms.

  /** The root cannot start inside a prefix that does not contain it:
      its first character `s` occurs nowhere else in it. */
  lemma {:induction false} RootNotBefore(pre: string, tail: string, p: nat)
    requires !Contains(pre, ContentRoot) && p < |pre|
    ensures !RootAt(pre + ContentRoot + tail, p)
  {
    var s := pre + ContentRoot + tail;
    if p + |ContentRoot| <= |pre| {
      if RootAt(s, p) {
        assert pre[p..p + |ContentRoot|] == s[p..p + |ContentRoot|];
        ContainsAt(pre, ContentRoot, p);
      }
    } else {
      var k := |pre| - p;
      assert s[|pre|] == 's';
      assert ContentRoot[k] != 's';
      MismatchNotPrefix(s, ContentRoot, p, k);
    }
  }

  lemma {:induction false} NumberedSkip(s: string, p: nat, k: nat)
    requires p <= k <= |s|
    requires forall q :: p <= q < k ==> !RootAt(s, q)
    ensures NumberedFrom(s, p) == NumberedFrom(s, k)
    decreases k - p
  {
    if p < k {
      NumberedSkip(s, p + 1, k);
    }
  }

  lemma {:induction false} PlainSkip(s: string, p: nat, k: nat)
    requires p <= k <= |s|
    requires forall q :: p <= q < k ==> !RootAt(s, q)
    ensures PlainFrom(s, p) == PlainFrom(s, k)
    decreases k - p
  {
    if p < k {
      PlainSkip(s, p + 1, k);
    }
  }

  lemma {:induction false} LastNumberedSkip(r: string, n: nat, k: nat)
    requires k <= n <= |r|
    requires forall q :: k <= q < n ==> NumberedAt(r, q).None?
    ensures LastNumberedBelow(r, n) == LastNumberedBelow(r, k)
    decreases n - k
  {
    if k < n {
      LastNumberedSkip(r, n - 1, k);
    }
  }

  /** With no root in `pre`, both searches start at the root after it. */
  lemma {:induction false} SearchFromRoot(pre: string, tail: string)
    requires !Contains(pre, ContentRoot)
    ensures var s := pre + ContentRoot + tail;
            && NumberedFrom(s, 0) == NumberedFrom(s, |pre|)
            && PlainFrom(s, 0) == PlainFrom(s, |pre|)
            && RootAt(s, |pre|) && s[|pre| + |ContentRoot|..] == tail
  {
    var s := pre + ContentRoot + tail;
    forall q | 0 <= q < |pre| ensures !RootAt(s, q) {
      RootNotBefore(pre, tail, q);
    }
    NumberedSkip(s, 0, |pre|);
    PlainSkip(s, 0, |pre|);
    assert s[|pre|..|pre| + |ContentRoot|] == ContentRoot;
    assert s[|pre| + |ContentRoot|..] == tail;
  }

  /** The text after the root of a numbered file. */
  function NumberedTail(category: string, digits: string, name: string): string
  {
    category + "/" + digits + "-" + name + ".md"
  }

  lemma {:induction false} NumberedTailChars(category: string, digits: string, name: string)
    requires AllIn(category, AnyButLineTerminator) && AllDigits(digits)
    requires AllIn(name, AnyButLineTerminator) && AllIn(name, Except({'/'}))
    ensures var t := NumberedTail(category, digits, name);
            && AllIn(t, AnyButLineTerminator)
            && forall q :: |category| < q < |t| ==> t[q] != '/'
  {
    var t := NumberedTail(category, digits, name);
    var d := |category| + 1 + |digits|;
    forall q | 0 <= q < |t| ensures InClass(t[q], AnyButLineTerminator) && (|category| < q ==> t[q] != '/') {
      if q < |category| {
        assert t[q] == category[q];
      } else if q == |category| {
      } else if q < d {
        assert t[q] == digits[q - |category| - 1];
      } else if q == d {
      } else if q < d + 1 + |name| {
        assert t[q] == name[q - d - 1];
      } else {
        assert t[q] == ".md"[q - d - 1 - |name|];
      }
    }
  }

  lemma {:induction false} NumberedTailGroups(category: string, digits: string, name: string)
    requires category != [] && digits != [] && AllDigits(digits) && name != []
    ensures NumberedAt(NumberedTail(category, digits, name), |category|) == Some((category, name))
  {
    var t := NumberedTail(category, digits, name);
    var d := |category| + 1 + |digits|;
    assert t[|category| + 1..d] == digits;
    assert t[d] == '-';
    SpanOver(t, |category| + 1, digits, Digits);
    assert t[|t| - 3..] == ".md";
    assert t[..|category|] == category;
    assert t[d + 1..|t| - 3] == name;
  }

  /** `src/content/moat/<category>/<digits>-<name>.md` is served at
      `/moat/<category>/<name>`, as for `concepts/01-sandboxing.md` and
      `/moat/concepts/sandboxing`. The name holds no `/`, or a later `/`
      would end the greedy category instead. */
  lemma {:induction false} NumberedFileServed(pre: string, category: string, digits: string, name: string)
    requires !Contains(pre, ContentRoot)
    requires category != [] && AllIn(category, AnyButLineTerminator)
    requires digits != [] && AllDigits(digits)
    requires name != [] && AllIn(name, AnyButLineTerminator) && AllIn(name, Except({'/'}))
    ensures GetPathFromFile(pre + ContentRoot + NumberedTail(category, digits, name)) == "/moat/" + category + "/" + name
  {
    var t := NumberedTail(category, digits, name);
    var s := pre + ContentRoot + t;
    SearchFromRoot(pre, t);
    NumberedTailChars(category, digits, name);
    NumberedTailGroups(category, digits, name);
    LastNumberedSkip(t, |t|, |category| + 1);
    assert NumberedFrom(s, |pre|) == Some((category, name));
  }

  /** From `from` on, no `/` in `s` is followed by a digit. */
  predicate NoSlashDigit(s: string, from: nat)
  {
    forall j :: from <= j < |s| - 1 && s[j] == '/' ==> !IsDigit(s[j + 1])
  }

  lemma {:induction false} NoNumberedBelow(r: string, n: nat)
    requires n <= |r| && NoSlashDigit(r, 1)
    ensures LastNumberedBelow(r, n).None?
  {
    if n > 0 {
      var q := n - 1;
      if q > 0 && r[q] == '/' && q + 1 < |r| {
        assert !IsDigit(r[q + 1]);
      }
      NoNumberedBelow(r, n - 1);
    }
  }

  lemma {:induction false} NoNumberedFrom(s: string, from: nat, p: nat)
    requires p <= |s| && from <= p + |ContentRoot| && NoSlashDigit(s, from)
    ensures NumberedFrom(s, p).None?
    decreases |s| - p
  {
    if RootAt(s, p) {
      var r := s[p + |ContentRoot|..];
      forall q | 1 <= q < |r| - 1 && r[q] == '/' ensures !IsDigit(r[q + 1]) {
        assert r[q] == s[p + |ContentRoot| + q] && r[q + 1] == s[p + |ContentRoot| + q + 1];
      }
      NoNumberedBelow(r, |s| - p - |ContentRoot|);
    }
    if p < |s| {
      NoNumberedFrom(s, from, p + 1);
    }
  }

  lemma {:induction false} PlainTailChars(pre: string, path: string)
    requires AllIn(path, AnyButLineTerminator)
    requires forall j :: 0 <= j < |path| - 1 && path[j] == '/' ==> !IsDigit(path[j + 1])
    ensures AllIn(path + ".md", AnyButLineTerminator)
    ensures NoSlashDigit(pre + ContentRoot + path + ".md", |pre| + |ContentRoot|)
  {
    var t := path + ".md";
    var s := pre + ContentRoot + t;
    assert s == pre + ContentRoot + path + ".md";
    var b := |pre| + |ContentRoot|;
    forall q | 0 <= q < |t| ensures InClass(t[q], AnyButLineTerminator) && (q >= |path| ==> t[q] != '/') {
      if q < |path| {
        assert t[q] == path[q];
      } else {
        assert t[q] == ".md"[q - |path|];
      }
    }
    forall j | b <= j < |s| - 1 && s[j] == '/' ensures !IsDigit(s[j + 1]) {
      assert s[j] == t[j - b] && s[j + 1] == t[j + 1 - b];
      if j + 1 - b < |path| {
        assert t[j - b] == path[j - b] && t[j + 1 - b] == path[j + 1 - b];
      }
    }
  }

  /** A file whose path below the root has no `/` followed by a digit is
      served at its path without `.md`, as `getting-started/introduction.md`
      is at `/moat/getting-started/introduction`. */
  lemma {:induction false} PlainFileServed(pre: string, path: string)
    requires !Contains(pre, ContentRoot)
    requires path != [] && AllIn(path, AnyButLineTerminator)
    requires forall j :: 0 <= j < |path| - 1 && path[j] == '/' ==> !IsDigit(path[j + 1])
    ensures GetPathFromFile(pre + ContentRoot + path + ".md") == "/moat/" + path
  {
    var t := path + ".md";
    var s := pre + ContentRoot + t;
    assert s == pre + ContentRoot + path + ".md";
    SearchFromRoot(pre, t);
    PlainTailChars(pre, path);
    NoNumberedFrom(s, |pre| + |ContentRoot|, |pre|);
    assert PlainCandidate(s, |pre|);
    assert s[|pre| + |ContentRoot|..|s| - 3] == path;
  }

  /** A numbered file directly under the root keeps its number: the
      first expression needs a `/` before the digits. */
  lemma {:induction false} TopLevelKeepsNumber(pre: string, digits: string, name: string)
    requires !Contains(pre, ContentRoot)
    requires AllDigits(digits) && AllIn(name, AnyButLineTerminator) && AllIn(name, Except({'/'}))
    ensures GetPathFromFile(pre + ContentRoot + digits + "-" + name + ".md") == "/moat/" + digits + "-" + name
  {
    var path := digits + "-" + name;
    forall j | 0 <= j < |path| ensures path[j] != '/' {
      if j < |digits| {
        assert path[j] == digits[j];
      } else if j > |digits| {
        assert path[j] == name[j - |digits| - 1];
      }
    }
    forall j | 0 <= j < |path| ensures InClass(path[j], AnyButLineTerminator) {
      if j < |digits| {
        assert path[j] == digits[j];
      } else if j > |digits| {
        assert path[j] == name[j - |digits| - 1];
      }
    }
    PlainFileServed(pre, path);
    assert pre + ContentRoot + path + ".md" == pre + ContentRoot + digits + "-" + name + ".md";
  }
}
