/** The global replacements of `rewriteMarkdownLinks` in
    `scripts/fetch-docs.ts` are local: a match is decided by the text from
    where it starts up to where it ends, so a document can be rewritten
    piece by piece wherever no match runs across the seam. The category
    pattern's `[^\/\.]+` also runs over `]`, `(`, `#`, spaces and line
    breaks, so a `](` without a later `/` or `.` opens a match that runs
    into the next link; `ClosedBefore` is the condition that rules this out. */
module FetchScan {
  import opened Text
  import opened Wrappers
  import opened FetchRewrite

  // Positions below are passed as named parameters tied to each other by
  // `requires`, so that the facts a proof combines speak of the same
  // positions literally.

  // A literal at a position, in a longer, a shorter and a shifted text.

  lemma {:induction false} PrefixExtends(x: string, y: string, t: string, i: nat)
    requires IsPrefixAt(x, t, i)
    ensures IsPrefixAt(x + y, t, i)
  {
    assert (x + y)[i..i + |t|] == x[i..i + |t|];
  }

  lemma {:induction false} PrefixRestricts(x: string, y: string, t: string, i: nat)
    requires IsPrefixAt(x + y, t, i) && i + |t| <= |x|
    ensures IsPrefixAt(x, t, i)
  {
    assert (x + y)[i..i + |t|] == x[i..i + |t|];
  }

  lemma {:induction false} PrefixShifts(x: string, y: string, t: string, j: nat, i: nat)
    requires i == |x| + j
    ensures IsPrefixAt(x + y, t, i) <==> IsPrefixAt(y, t, j)
  {
    if j + |t| <= |y| {
      assert (x + y)[i..i + |t|] == y[j..j + |t|];
    }
  }

  lemma {:induction false} SpanShifts(x: string, y: string, j: nat, i: nat, cls: CharClass)
    requires j <= |y| && i == |x| + j
    ensures Span(x + y, i, cls) == |x| + Span(y, j, cls)
  {
    SpanShift(x, y, j, cls);
  }

  lemma {:induction false} SliceShifts(x: string, y: string, a: nat, b: nat, a2: nat, b2: nat)
    requires a <= b <= |y| && a2 == |x| + a && b2 == |x| + b
    ensures (x + y)[a2..b2] == y[a..b]
  {
  }

  // The slug tail `(\d+-)?([\w-]+)\.md\)`.

  /** The tail pattern, given where its word run ends. */
  lemma {:induction false} TailIs(s: string, i: nat, f: nat, e: nat)
    requires i <= f <= |s| && f == Span(s, i, WordChars) && e == f + 4
    ensures TailAt(s, i) == if i < f && IsPrefixAt(s, ".md)", f) then Some((e, SlugCapture(s[i..f]))) else None
  {
  }

  lemma {:induction false} TailExtends(x: string, y: string, i: nat)
    requires i <= |x| && TailAt(x, i).Some?
    ensures TailAt(x + y, i) == TailAt(x, i)
  {
    var f := Span(x, i, WordChars);
    var e := f + 4;
    TailIs(x, i, f, e);
    SpanPrefix(x, y, i, WordChars);
    TailIs(x + y, i, f, e);
    PrefixExtends(x, y, ".md)", f);
    assert (x + y)[i..f] == x[i..f];
  }

  lemma {:induction false} TailRestricts(x: string, y: string, i: nat)
    requires i <= |x| && TailAt(x + y, i).Some? && TailAt(x + y, i).value.0 <= |x|
    ensures TailAt(x, i) == TailAt(x + y, i)
  {
    var f := Span(x + y, i, WordChars);
    var e := f + 4;
    TailIs(x + y, i, f, e);
    SpanPrefix(x, y, i, WordChars);
    TailIs(x, i, f, e);
    PrefixRestricts(x, y, ".md)", f);
    assert (x + y)[i..f] == x[i..f];
  }

  lemma {:induction false} TailShifts(x: string, y: string, j: nat, i: nat)
    requires j <= |y| && i == |x| + j
    ensures TailAt(y, j).None? ==> TailAt(x + y, i).None?
    ensures TailAt(y, j).Some? ==> TailAt(x + y, i) == Some((TailAt(y, j).value.0 + |x|, TailAt(y, j).value.1))
  {
    var f := Span(y, j, WordChars);
    var f2 := Span(x + y, i, WordChars);
    SpanShifts(x, y, j, i, WordChars);
    var e, e2 := f + 4, f2 + 4;
    TailIs(y, j, f, e);
    TailIs(x + y, i, f2, e2);
    PrefixShifts(x, y, ".md)", f, f2);
    SliceShifts(x, y, j, f, i, f2);
  }

  /** A match moved `d` characters to the right. */
  function Shifted(m: Option<LinkMatch>, d: nat): (r: Option<LinkMatch>)
    ensures r.Some? <==> m.Some?
    ensures r.Some? ==> r.value == LinkMatch(m.value.end + d, m.value.category, m.value.slug)
  {
    match m
    case None => None
    case Some(k) => Some(LinkMatch(k.end + d, k.category, k.slug))
  }

  lemma {:induction false} WithCategoryShifts(t: Option<(nat, string)>, u: Option<(nat, string)>, category: string, d: nat)
    requires t.None? ==> u.None?
    requires t.Some? ==> u == Some((t.value.0 + d, t.value.1))
    ensures WithCategory(u, category) == Shifted(WithCategory(t, category), d)
  {
  }

  // A category run, a `/` and the tail.

  /** The category pattern, given where its run ends. */
  lemma {:induction false} CategoryTailIs(s: string, i: nat, seps: set<char>, e: nat, e1: nat)
    requires i <= e <= |s| && e == Span(s, i, Except(seps)) && e1 == e + 1
    ensures CategoryThenTail(s, i, seps)
            == if e == i || e == |s| || s[e] != '/' then None else WithCategory(TailAt(s, e1), s[i..e])
  {
  }

  lemma {:induction false} CategoryTailExtends(x: string, y: string, i: nat, seps: set<char>)
    requires i <= |x| && CategoryThenTail(x, i, seps).Some?
    ensures CategoryThenTail(x + y, i, seps) == CategoryThenTail(x, i, seps)
  {
    var e := Span(x, i, Except(seps));
    var e1 := e + 1;
    CategoryTailIs(x, i, seps, e, e1);
    SpanPrefix(x, y, i, Except(seps));
    CategoryTailIs(x + y, i, seps, e, e1);
    assert (x + y)[e] == x[e] && (x + y)[i..e] == x[i..e];
    TailExtends(x, y, e1);
  }

  lemma {:induction false} CategoryTailRestricts(x: string, y: string, i: nat, seps: set<char>)
    requires i <= |x| && CategoryThenTail(x + y, i, seps).Some? && CategoryThenTail(x + y, i, seps).value.end <= |x|
    ensures CategoryThenTail(x, i, seps) == CategoryThenTail(x + y, i, seps)
  {
    var e := Span(x + y, i, Except(seps));
    var e1 := e + 1;
    CategoryTailIs(x + y, i, seps, e, e1);
    SpanPrefix(x, y, i, Except(seps));
    CategoryTailIs(x, i, seps, e, e1);
    TailRestricts(x, y, e1);
    assert (x + y)[e] == x[e] && (x + y)[i..e] == x[i..e];
  }

  lemma {:induction false} CategoryTailShifts(x: string, y: string, j: nat, i: nat, seps: set<char>)
    requires j <= |y| && i == |x| + j
    ensures CategoryThenTail(x + y, i, seps) == Shifted(CategoryThenTail(y, j, seps), |x|)
  {
    var e := Span(y, j, Except(seps));
    var e2 := Span(x + y, i, Except(seps));
    SpanShifts(x, y, j, i, Except(seps));
    var e1, e21 := e + 1, e2 + 1;
    CategoryTailIs(y, j, seps, e, e1);
    CategoryTailIs(x + y, i, seps, e2, e21);
    if e < |y| {
      assert (x + y)[e2] == y[e];
    }
    if e != j && e != |y| && y[e] == '/' {
      SliceShifts(x, y, j, e, i, e2);
      TailShifts(x, y, e1, e21);
      WithCategoryShifts(TailAt(y, e1), TailAt(x + y, e21), y[j..e], |x|);
    }
  }

  // The three patterns.

  /** The first pattern, given where its category run starts. */
  lemma {:induction false} ParentIs(s: string, i: nat, a: nat)
    requires i <= |s| && a == i + 5
    ensures ParentMatchAt(s, i) == if IsPrefixAt(s, "](../", i) then CategoryThenTail(s, a, {'/'}) else None
  {
  }

  /** The second pattern, given where its category run starts. */
  lemma {:induction false} CategoryIs(s: string, i: nat, a: nat)
    requires i <= |s| && a == i + 2
    ensures CategoryMatchAt(s, i) == if IsPrefixAt(s, "](", i) then CategoryThenTail(s, a, {'/', '.'}) else None
  {
  }

  /** The third pattern, given where it expects its `/` and its tail. */
  lemma {:induction false} SameCategoryIs(s: string, i: nat, a: nat, slash: nat, t: nat)
    requires i <= |s| && a == i + 2 && slash == SlashAfterDot(s, a) && t == slash + 1
    ensures SameCategoryMatchAt(s, i)
            == if IsPrefixAt(s, "](", i) && slash < |s| && s[slash] == '/' then WithCategory(TailAt(s, t), "") else None
  {
  }

  lemma {:induction false} ParentExtends(x: string, y: string, i: nat)
    requires i <= |x| && ParentMatchAt(x, i).Some?
    ensures ParentMatchAt(x + y, i) == ParentMatchAt(x, i)
  {
    var a := i + 5;
    ParentIs(x, i, a);
    ParentIs(x + y, i, a);
    PrefixExtends(x, y, "](../", i);
    CategoryTailExtends(x, y, a, {'/'});
  }

  lemma {:induction false} CategoryExtends(x: string, y: string, i: nat)
    requires i <= |x| && CategoryMatchAt(x, i).Some?
    ensures CategoryMatchAt(x + y, i) == CategoryMatchAt(x, i)
  {
    var a := i + 2;
    CategoryIs(x, i, a);
    CategoryIs(x + y, i, a);
    PrefixExtends(x, y, "](", i);
    CategoryTailExtends(x, y, a, {'/', '.'});
  }

  lemma {:induction false} SameCategoryExtends(x: string, y: string, i: nat)
    requires i <= |x| && SameCategoryMatchAt(x, i).Some?
    ensures SameCategoryMatchAt(x + y, i) == SameCategoryMatchAt(x, i)
  {
    var a := i + 2;
    var slash := SlashAfterDot(x, a);
    var t := slash + 1;
    SameCategoryIs(x, i, a, slash, t);
    assert a < |x| && (x + y)[a] == x[a] && (x + y)[slash] == x[slash];
    SameCategoryIs(x + y, i, a, slash, t);
    PrefixExtends(x, y, "](", i);
    TailExtends(x, y, t);
  }

  /** A match found in `x` is found in any continuation of `x`. */
  lemma {:induction false} MatchExtends(p: LinkPattern, x: string, y: string, i: nat)
    requires i <= |x| && MatchAt(p, x, i).Some?
    ensures MatchAt(p, x + y, i) == MatchAt(p, x, i)
  {
    match p
    case ParentLink => ParentExtends(x, y, i);
    case CategoryLink => CategoryExtends(x, y, i);
    case SameCategoryLink => SameCategoryExtends(x, y, i);
  }

  lemma {:induction false} ParentRestricts(x: string, y: string, i: nat)
    requires i <= |x| && ParentMatchAt(x + y, i).Some? && ParentMatchAt(x + y, i).value.end <= |x|
    ensures ParentMatchAt(x, i) == ParentMatchAt(x + y, i)
  {
    var a := i + 5;
    ParentIs(x + y, i, a);
    ParentIs(x, i, a);
    PrefixRestricts(x, y, "](../", i);
    CategoryTailRestricts(x, y, a, {'/'});
  }

  lemma {:induction false} CategoryRestricts(x: string, y: string, i: nat)
    requires i <= |x| && CategoryMatchAt(x + y, i).Some? && CategoryMatchAt(x + y, i).value.end <= |x|
    ensures CategoryMatchAt(x, i) == CategoryMatchAt(x + y, i)
  {
    var a := i + 2;
    CategoryIs(x + y, i, a);
    CategoryIs(x, i, a);
    PrefixRestricts(x, y, "](", i);
    CategoryTailRestricts(x, y, a, {'/', '.'});
  }

  lemma {:induction false} SameCategoryRestricts(x: string, y: string, i: nat)
    requires i <= |x| && SameCategoryMatchAt(x + y, i).Some? && SameCategoryMatchAt(x + y, i).value.end <= |x|
    ensures SameCategoryMatchAt(x, i) == SameCategoryMatchAt(x + y, i)
  {
    var a := i + 2;
    var slash := SlashAfterDot(x + y, a);
    var t := slash + 1;
    SameCategoryIs(x + y, i, a, slash, t);
    assert (x + y)[a] == x[a] && (x + y)[slash] == x[slash];
    SameCategoryIs(x, i, a, slash, t);
    PrefixRestricts(x, y, "](", i);
    TailRestricts(x, y, t);
  }

  /** A match that ends within `x` is found in `x` alone. */
  lemma {:induction false} MatchRestricts(p: LinkPattern, x: string, y: string, i: nat)
    requires i <= |x| && MatchAt(p, x + y, i).Some? && MatchAt(p, x + y, i).value.end <= |x|
    ensures MatchAt(p, x, i) == MatchAt(p, x + y, i)
  {
    match p
    case ParentLink => ParentRestricts(x, y, i);
    case CategoryLink => CategoryRestricts(x, y, i);
    case SameCategoryLink => SameCategoryRestricts(x, y, i);
  }

  lemma {:induction false} ParentShifts(x: string, y: string, j: nat, i: nat)
    requires j <= |y| && i == |x| + j
    ensures ParentMatchAt(x + y, i) == Shifted(ParentMatchAt(y, j), |x|)
  {
    var a, b := j + 5, i + 5;
    ParentIs(y, j, a);
    ParentIs(x + y, i, b);
    PrefixShifts(x, y, "](../", j, i);
    if IsPrefixAt(y, "](../", j) {
      CategoryTailShifts(x, y, a, b, {'/'});
    }
  }

  lemma {:induction false} CategoryShifts(x: string, y: string, j: nat, i: nat)
    requires j <= |y| && i == |x| + j
    ensures CategoryMatchAt(x + y, i) == Shifted(CategoryMatchAt(y, j), |x|)
  {
    var a, b := j + 2, i + 2;
    CategoryIs(y, j, a);
    CategoryIs(x + y, i, b);
    PrefixShifts(x, y, "](", j, i);
    if IsPrefixAt(y, "](", j) {
      CategoryTailShifts(x, y, a, b, {'/', '.'});
    }
  }

  lemma {:induction false} SlashShifts(x: string, y: string, j: nat, i: nat)
    requires i == |x| + j
    ensures SlashAfterDot(x + y, i) == |x| + SlashAfterDot(y, j)
  {
    if j < |y| {
      assert (x + y)[i] == y[j];
    }
  }

  lemma {:induction false} SameCategoryShifts(x: string, y: string, j: nat, i: nat)
    requires j <= |y| && i == |x| + j
    ensures SameCategoryMatchAt(x + y, i) == Shifted(SameCategoryMatchAt(y, j), |x|)
  {
    var a, b := j + 2, i + 2;
    var slash, slash2 := SlashAfterDot(y, a), SlashAfterDot(x + y, b);
    SlashShifts(x, y, a, b);
    var t, t2 := slash + 1, slash2 + 1;
    SameCategoryIs(y, j, a, slash, t);
    SameCategoryIs(x + y, i, b, slash2, t2);
    PrefixShifts(x, y, "](", j, i);
    if slash < |y| {
      assert (x + y)[slash2] == y[slash];
      TailShifts(x, y, t, t2);
      WithCategoryShifts(TailAt(y, t), TailAt(x + y, t2), "", |x|);
    }
  }

  /** Text in front moves a match and changes nothing else. */
  lemma {:induction false} MatchShifts(p: LinkPattern, x: string, y: string, j: nat, i: nat)
    requires j <= |y| && i == |x| + j
    ensures MatchAt(p, x + y, i) == Shifted(MatchAt(p, y, j), |x|)
  {
    match p
    case ParentLink => ParentShifts(x, y, j, i);
    case CategoryLink => CategoryShifts(x, y, j, i);
    case SameCategoryLink => SameCategoryShifts(x, y, j, i);
  }

  // The scan.

  /** Text in front of a scan position is never looked at again. */
  lemma {:induction false} ReplaceShifts(p: LinkPattern, x: string, y: string, j: nat, i: nat, productId: string, cc: string)
    requires j <= |y| && i == |x| + j
    ensures ReplaceFrom(p, x + y, i, productId, cc) == ReplaceFrom(p, y, j, productId, cc)
    decreases |y| - j, 1
  {
    if j == |y| {
      assert i == |x + y|;
    } else if MatchAt(p, y, j).Some? {
      ShiftsAfterMatch(p, x, y, j, i, MatchAt(p, y, j).value, productId, cc);
    } else {
      ShiftsAfterCopy(p, x, y, j, i, productId, cc);
    }
  }

  lemma {:induction false} ShiftsAfterMatch(p: LinkPattern, x: string, y: string, j: nat, i: nat, m: LinkMatch, productId: string, cc: string)
    requires j < |y| && i == |x| + j && MatchAt(p, y, j) == Some(m)
    ensures ReplaceFrom(p, x + y, i, productId, cc) == ReplaceFrom(p, y, j, productId, cc)
    decreases |y| - j, 0
  {
    var k := ShiftedMatch(p, x, y, j, i, m);
    ReplaceAtMatch(p, x + y, i, k, productId, cc);
    ReplaceAtMatch(p, y, j, m, productId, cc);
    SubstituteIgnoresEnd(p, k, m, productId, cc);
    ReplaceShifts(p, x, y, m.end, k.end, productId, cc);
  }

  lemma {:induction false} ShiftsAfterCopy(p: LinkPattern, x: string, y: string, j: nat, i: nat, productId: string, cc: string)
    requires j < |y| && i == |x| + j && MatchAt(p, y, j).None?
    ensures ReplaceFrom(p, x + y, i, productId, cc) == ReplaceFrom(p, y, j, productId, cc)
    decreases |y| - j, 0
  {
    MatchShifts(p, x, y, j, i);
    assert (x + y)[i] == y[j];
    var j1, i1 := j + 1, i + 1;
    ReplaceCopies(p, x + y, i, i1, productId, cc);
    ReplaceCopies(p, y, j, j1, productId, cc);
    ReplaceShifts(p, x, y, j1, i1, productId, cc);
  }

  /** The match at `i` in `x + y`: the match at `j` in `y`, moved by `|x|`. */
  lemma {:induction false} ShiftedMatch(p: LinkPattern, x: string, y: string, j: nat, i: nat, m: LinkMatch) returns (k: LinkMatch)
    requires j < |y| && i == |x| + j && MatchAt(p, y, j) == Some(m)
    ensures MatchAt(p, x + y, i) == Some(k)
    ensures k.end == |x| + m.end && j < m.end <= |y|
    ensures k.category == m.category && k.slug == m.slug
  {
    MatchShifts(p, x, y, j, i);
    k := LinkMatch(m.end + |x|, m.category, m.slug);
  }

  lemma {:induction false} SubstituteIgnoresEnd(p: LinkPattern, k: LinkMatch, m: LinkMatch, productId: string, cc: string)
    requires k.category == m.category && k.slug == m.slug
    ensures Substitute(p, k, productId, cc) == Substitute(p, m, productId, cc)
  {
  }

  /** A replacing step: the substitute, then the scan from the end of the match. */
  lemma {:induction false} ReplaceAtMatch(p: LinkPattern, s: string, n: nat, m: LinkMatch, productId: string, cc: string)
    requires n < |s| && MatchAt(p, s, n) == Some(m)
    ensures n < m.end <= |s|
    ensures ReplaceFrom(p, s, n, productId, cc) == Substitute(p, m, productId, cc) + ReplaceFrom(p, s, m.end, productId, cc)
  {
  }

  /** No match of `p` starts before `n` and ends after it. */
  predicate NoMatchAcross(p: LinkPattern, s: string, n: nat)
  {
    n <= |s| && forall j: nat :: j < n ==> MatchAt(p, s, j).None? || MatchAt(p, s, j).value.end <= n
  }

  lemma {:induction false} ReplaceLocal(p: LinkPattern, x: string, y: string, i: nat, productId: string, cc: string)
    requires i <= |x| && NoMatchAcross(p, x + y, |x|)
    ensures ReplaceFrom(p, x + y, i, productId, cc) == ReplaceFrom(p, x, i, productId, cc) + ReplaceAll(p, y, productId, cc)
    decreases |x| - i
  {
    if i == |x| {
      ReplaceShifts(p, x, y, 0, i, productId, cc);
    } else if MatchAt(p, x + y, i).Some? {
      var m := MatchAt(p, x + y, i).value;
      MatchRestricts(p, x, y, i);
      ReplaceAtMatch(p, x + y, i, m, productId, cc);
      ReplaceAtMatch(p, x, i, m, productId, cc);
      ReplaceLocal(p, x, y, m.end, productId, cc);
      ConcatAssoc(Substitute(p, m, productId, cc), ReplaceFrom(p, x, m.end, productId, cc), ReplaceAll(p, y, productId, cc));
    } else {
      if MatchAt(p, x, i).Some? {
        MatchExtends(p, x, y, i);
      }
      assert (x + y)[i] == x[i];
      var i1 := i + 1;
      ReplaceCopies(p, x + y, i, i1, productId, cc);
      ReplaceCopies(p, x, i, i1, productId, cc);
      ReplaceLocal(p, x, y, i1, productId, cc);
      ConcatAssoc([x[i]], ReplaceFrom(p, x, i1, productId, cc), ReplaceAll(p, y, productId, cc));
    }
  }

  /** A global replace splits where no match runs across the seam. */
  lemma {:induction false} ReplaceSplit(p: LinkPattern, x: string, y: string, productId: string, cc: string)
    requires NoMatchAcross(p, x + y, |x|)
    ensures ReplaceAll(p, x + y, productId, cc) == ReplaceAll(p, x, productId, cc) + ReplaceAll(p, y, productId, cc)
  {
    ReplaceLocal(p, x, y, 0, productId, cc);
  }

  /** A match that covers exactly `t` is replaced, and the scan goes on
      with what follows as if it stood alone. */
  lemma {:induction false} ReplaceHeadMatch(p: LinkPattern, t: string, post: string, productId: string, cc: string)
    requires t != [] && MatchAt(p, t + post, 0).Some? && MatchAt(p, t + post, 0).value.end == |t|
    ensures ReplaceAll(p, t + post, productId, cc)
            == Substitute(p, MatchAt(p, t + post, 0).value, productId, cc) + ReplaceAll(p, post, productId, cc)
  {
    ReplaceShifts(p, t, post, 0, |t|, productId, cc);
  }

  /** Where no match starts within `t`, `t` is copied. */
  lemma {:induction false} ReplaceHeadCopy(p: LinkPattern, t: string, post: string, productId: string, cc: string)
    requires forall j :: 0 <= j < |t| ==> MatchAt(p, t + post, j).None?
    ensures ReplaceAll(p, t + post, productId, cc) == t + ReplaceAll(p, post, productId, cc)
  {
    ReplaceSkip(p, t + post, 0, |t|, productId, cc);
    ReplaceShifts(p, t, post, 0, |t|, productId, cc);
    assert (t + post)[0..|t|] == t;
  }

  // When a match cannot run across a `]`.

  /** Every `](../` in `x` has a `/` after it within `x`, so the category
      run of the first pattern stops inside `x`. */
  predicate ParentClosed(x: string)
  {
    forall j: nat :: j < |x| && IsPrefixAt(x, "](../", j) ==> Span(x, j + 5, Except({'/'})) < |x|
  }

  /** Every `](` in `x` has a `/` or `.` after it within `x`, so the
      category run of the second pattern stops inside `x`. */
  predicate CategoryClosed(x: string)
  {
    forall j: nat :: j < |x| && IsPrefixAt(x, "](", j) ==> Span(x, j + 2, Except({'/', '.'})) < |x|
  }

  /** No match of the first two replacements that starts in `pre` runs past
      its end, whatever follows it. */
  predicate ClosedBefore(pre: string, productId: string, cc: string)
  {
    ParentClosed(pre) && CategoryClosed(ReplaceAll(ParentLink, pre, productId, cc))
  }

  /** A slug tail that starts before a `]` ends before it. */
  lemma {:induction false} TailBefore(s: string, n: nat, i: nat)
    requires i <= n < |s| && s[n] == ']'
    ensures TailAt(s, i).Some? ==> TailAt(s, i).value.0 <= n
  {
    var f := Span(s, i, WordChars);
    SpanFacts(s, i, WordChars);
    assert f <= n;
    if f + 4 > n {
      // the `]` at n would have to be one of `.md)`
      MismatchNotPrefix(s, ".md)", f, n - f);
    }
  }

  /** `](` before a `]` at `n` ends before `n`. */
  lemma {:induction false} OpenerBefore(s: string, n: nat, j: nat, a: nat)
    requires j < n < |s| && s[n] == ']' && IsPrefixAt(s, "](", j) && a == j + 2
    ensures a <= n
  {
    assert s[j + 1] == s[j..j + 2][1];
  }

  /** In a closed text, the category run after `](` stops inside it. */
  lemma {:induction false} CategoryRunCloses(x: string, j: nat, a: nat)
    requires CategoryClosed(x) && j < |x| && IsPrefixAt(x, "](", j) && a == j + 2
    ensures a <= |x| && Span(x, a, Except({'/', '.'})) < |x|
  {
  }

  /** In a closed text, the category run after `](../` stops inside it. */
  lemma {:induction false} ParentRunCloses(x: string, j: nat, a: nat)
    requires ParentClosed(x) && j < |x| && IsPrefixAt(x, "](../", j) && a == j + 5
    ensures a <= |x| && Span(x, a, Except({'/'})) < |x|
  {
  }

  lemma {:induction false} SameCategoryBefore(x: string, y: string, j: nat)
    requires y != [] && y[0] == ']' && j < |x|
    requires MatchAt(SameCategoryLink, x + y, j).Some?
    ensures MatchAt(SameCategoryLink, x + y, j).value.end <= |x|
  {
    var s, n := x + y, |x|;
    assert s[n] == ']';
    var a := j + 2;
    var slash := SlashAfterDot(s, a);
    var t := slash + 1;
    SameCategoryIs(s, j, a, slash, t);
    OpenerBefore(s, n, j, a);
    TailBefore(s, n, t);
  }

  lemma {:induction false} CategoryBefore(x: string, y: string, j: nat)
    requires y != [] && y[0] == ']' && j < |x| && CategoryClosed(x)
    requires MatchAt(CategoryLink, x + y, j).Some?
    ensures MatchAt(CategoryLink, x + y, j).value.end <= |x|
  {
    var s, n := x + y, |x|;
    assert s[n] == ']';
    var a := j + 2;
    CategoryIs(s, j, a);
    OpenerBefore(s, n, j, a);
    PrefixRestricts(x, y, "](", j);
    CategoryRunCloses(x, j, a);
    SpanPrefix(x, y, a, Except({'/', '.'}));
    var e := Span(s, a, Except({'/', '.'}));
    var e1 := e + 1;
    CategoryTailIs(s, a, {'/', '.'}, e, e1);
    TailBefore(s, n, e1);
  }

  lemma {:induction false} ParentBefore(x: string, y: string, j: nat)
    requires y != [] && y[0] == ']' && j < |x| && ParentClosed(x)
    requires MatchAt(ParentLink, x + y, j).Some?
    ensures MatchAt(ParentLink, x + y, j).value.end <= |x|
  {
    var s, n := x + y, |x|;
    assert s[n] == ']';
    var a := j + 5;
    ParentIs(s, j, a);
    if a > n {
      // the `]` at n would have to be one of `(../`
      MismatchNotPrefix(s, "](../", j, n - j);
    }
    PrefixRestricts(x, y, "](../", j);
    ParentRunCloses(x, j, a);
    SpanPrefix(x, y, a, Except({'/'}));
    var e := Span(s, a, Except({'/'}));
    var e1 := e + 1;
    CategoryTailIs(s, a, {'/'}, e, e1);
    TailBefore(s, n, e1);
  }

  /** Before a `]`, only an unclosed `](` can start a match that runs on. */
  lemma {:induction false} AcrossBracket(p: LinkPattern, x: string, y: string)
    requires y != [] && y[0] == ']'
    requires p == ParentLink ==> ParentClosed(x)
    requires p == CategoryLink ==> CategoryClosed(x)
    ensures NoMatchAcross(p, x + y, |x|)
  {
    forall j: nat | j < |x| && MatchAt(p, x + y, j).Some?
      ensures MatchAt(p, x + y, j).value.end <= |x|
    {
      match p
      case ParentLink => ParentBefore(x, y, j);
      case CategoryLink => CategoryBefore(x, y, j);
      case SameCategoryLink => SameCategoryBefore(x, y, j);
    }
  }

  /** A replacement leaves a leading `]` in front. */
  lemma {:induction false} ReplaceKeepsBracket(p: LinkPattern, t: string, productId: string, cc: string)
    requires t != [] && t[0] == ']'
    ensures var r := ReplaceAll(p, t, productId, cc); r != [] && r[0] == ']'
  {
    match MatchAt(p, t, 0)
    case Some(m) =>
      var sub := Substitute(p, m, productId, cc);
      assert sub[0] == ']';
      assert ReplaceAll(p, t, productId, cc) == sub + ReplaceFrom(p, t, m.end, productId, cc);
    case None =>
  }

  /** `rewriteMarkdownLinks` rewrites a document piece by piece: at a `]`
      whose preceding text is closed, the two sides are rewritten apart. */
  lemma {:induction false} RewriteSplits(x: string, y: string, filePath: string, productId: string)
    requires y != [] && y[0] == ']'
    requires ClosedBefore(x, productId, CurrentCategory(filePath))
    ensures RewriteMarkdownLinks(x + y, filePath, productId)
            == RewriteMarkdownLinks(x, filePath, productId) + RewriteMarkdownLinks(y, filePath, productId)
  {
    var cc := CurrentCategory(filePath);
    AcrossBracket(ParentLink, x, y);
    ReplaceSplit(ParentLink, x, y, productId, cc);
    var x1 := ReplaceAll(ParentLink, x, productId, cc);
    var y1 := ReplaceAll(ParentLink, y, productId, cc);
    ReplaceKeepsBracket(ParentLink, y, productId, cc);
    AcrossBracket(CategoryLink, x1, y1);
    ReplaceSplit(CategoryLink, x1, y1, productId, cc);
    var x2 := ReplaceAll(CategoryLink, x1, productId, cc);
    var y2 := ReplaceAll(CategoryLink, y1, productId, cc);
    ReplaceKeepsBracket(CategoryLink, y1, productId, cc);
    AcrossBracket(SameCategoryLink, x2, y2);
    ReplaceSplit(SameCategoryLink, x2, y2, productId, cc);
  }
}
