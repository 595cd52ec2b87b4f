/** The slug and title helpers of `src/utils/strings.ts`. */
module Strings {
  import opened Text

  /** `s` starts with the digits `s[..k]` followed by `-`: what `/^\d+-/`
      matches (the digit run before a dash is always the whole run). */
  predicate IsNumericPrefix(s: string, k: nat)
  {
    0 < k < |s| && AllDigits(s[..k]) && s[k] == '-'
  }

  /** `s.replace(/^\d+-/, '')`: drops one leading `digits-` prefix. */
  function StripNumericPrefix(s: string): (r: string)
    ensures forall k :: IsNumericPrefix(s, k) ==> r == s[k + 1..]
    ensures r != s ==> exists k :: IsNumericPrefix(s, k)
  {
    var d := Span(s, 0, Digits);
    SpanFacts(s, 0, Digits);
    if 0 < d < |s| && s[d] == '-' then
      assert s[..d] == s[..d] && IsNumericPrefix(s, d);
      s[d + 1..]
    else s
  }

  /** `s.replace(/\.md$/, '')`: drops one trailing `.md`. */
  function StripMdSuffix(s: string): (r: string)
    ensures EndsWith(s, ".md") ==> r + ".md" == s
    ensures !EndsWith(s, ".md") ==> r == s
  {
    if EndsWith(s, ".md") then s[..|s| - 3] else s
  }

  /** `slugify`: the file name without its ordering prefix and extension. */
  function Slugify(filename: string): string
  {
    StripMdSuffix(StripNumericPrefix(filename))
  }

  /** A name with one `digits-` prefix and the `.md` extension gives the
      rest of the name, whatever that rest is: a second prefix stays. */
  lemma {:induction false} SlugifyPrefixed(digits: string, name: string)
    requires digits != [] && AllDigits(digits)
    ensures Slugify(digits + "-" + name + ".md") == name
  {
    var s := digits + "-" + name + ".md";
    assert s[..|digits|] == digits && s[|digits|] == '-';
    assert IsNumericPrefix(s, |digits|);
    assert s[|digits| + 1..] == name + ".md";
    assert (name + ".md")[|name|..] == ".md";
  }

  /** A name without the prefix only loses its extension. */
  lemma {:induction false} SlugifyUnprefixed(name: string)
    requires name == [] || !IsDigit(name[0])
    ensures Slugify(name + ".md") == name
  {
    var s := name + ".md";
    assert s[0] == if name == [] then '.' else name[0];
    SpanIs(s, 0, Digits, 0);
    assert StripNumericPrefix(s) == s;
    assert s[|name|..] == ".md";
  }

  /** `r` sits in `s` at `i`, preceded by nothing or by one `digits-`
      prefix, and followed by nothing or by `.md`. */
  predicate InfixAt(s: string, r: string, i: nat)
  {
    && (i == 0 || IsNumericPrefix(s, i - 1))
    && i + |r| <= |s|
    && s[i..i + |r|] == r
    && (i + |r| == |s| || s[i + |r|..] == ".md")
  }

  /** `slugify` removes at most one `digits-` prefix and at most one `.md`
      suffix: its result is the rest of the name, unchanged. */
  lemma {:induction false} SlugifyIsInfix(s: string)
    ensures exists i: nat :: InfixAt(s, Slugify(s), i)
    ensures (forall k :: !IsNumericPrefix(s, k)) && !EndsWith(s, ".md") ==> Slugify(s) == s
  {
    var u := StripNumericPrefix(s);
    var i := |s| - |u|;
    if u != s {
      var k: nat :| IsNumericPrefix(s, k);
      assert u == s[k + 1..] && i == k + 1;
    }
    assert s[i..] == u;
    var r := Slugify(s);
    if EndsWith(u, ".md") {
      assert s[i..i + |r|] == u[..|r|] == r;
      assert s[i + |r|..] == u[|r|..] == ".md";
    } else {
      assert r == u && i + |r| == |s|;
      assert s[i..i + |r|] == s[i..] == r;
    }
    assert InfixAt(s, r, i);
  }

  /** A `digits-` prefix of a name ending in `.md` lies before the `.md`. */
  lemma {:induction false} NumericPrefixBeforeMd(s: string, k: nat)
    requires IsNumericPrefix(s, k) && EndsWith(s, ".md")
    ensures k + 3 < |s| && IsNumericPrefix(s[..|s| - 3], k)
  {
    forall j | 0 <= j < k ensures IsDigit(s[j]) {
      assert s[..k][j] == s[j];
    }
    assert s[|s| - 3] == s[|s| - 3..][0] == '.';
    assert k < |s| - 3;
    assert s[..|s| - 3][..k] == s[..k];
  }

  /** A `digits-` prefix stays one when text is appended. */
  lemma {:induction false} NumericPrefixExtends(v: string, t: string, k: nat)
    requires IsNumericPrefix(v, k)
    ensures IsNumericPrefix(v + t, k)
  {
    assert (v + t)[..k] == v[..k];
  }

  /** The two removals commute (the remark plugin applies them in both
      orders): the characters they remove are disjoint. */
  lemma {:induction false} StripsCommute(s: string)
    ensures StripMdSuffix(StripNumericPrefix(s)) == StripNumericPrefix(StripMdSuffix(s))
  {
    var u := StripNumericPrefix(s);
    var v := StripMdSuffix(s);
    if EndsWith(s, ".md") {
      assert v + ".md" == s;
      if u != s {
        var k: nat :| IsNumericPrefix(s, k);
        NumericPrefixBeforeMd(s, k);
        assert s[..|s| - 3] == v;
        assert u[|u| - 3..] == s[|s| - 3..];
        assert u[..|u| - 3] == v[k + 1..];
      } else if StripNumericPrefix(v) != v {
        var k: nat :| IsNumericPrefix(v, k);
        NumericPrefixExtends(v, ".md", k);
      }
    } else if u != s {
      assert s[|s| - |u|..] == u;
    }
  }

  /** `word.charAt(0).toUpperCase() + word.slice(1)`. */
  function Capitalise(w: string): string
  {
    if w == [] then [] else [ToUpper(w[0])] + w[1..]
  }

  /** `.map(Capitalise)`. */
  function CapitaliseAll(ws: seq<string>): (r: seq<string>)
    ensures |r| == |ws|
  {
    if ws == [] then [] else [Capitalise(ws[0])] + CapitaliseAll(ws[1..])
  }

  /** `s.split(seps).map(Capitalise).join(' ')`, the chain behind
      `titleCase` and the synthesised front-matter title. */
  function CapitaliseWords(s: string, seps: set<char>): string
  {
    Join(CapitaliseAll(Split(s, seps)), " ")
  }

  /** What the chain does at position `i`, independently of how words are
      cut out: a separator becomes a space, the first character of a word
      is upper-cased, every other character is kept. */
  function TitleChar(s: string, i: nat, seps: set<char>): char
    requires i < |s|
  {
    if s[i] in seps then ' '
    else if i == 0 || s[i - 1] in seps then ToUpper(s[i])
    else s[i]
  }

  lemma {:induction false} JoinCons(w: string, ws: seq<string>, sep: string)
    requires |ws| >= 1
    ensures Join([w] + ws, sep) == w + sep + Join(ws, sep)
  {
    assert ([w] + ws)[1..] == ws;
  }

  /** The split/map/join chain equals the character-wise description: it
      keeps the length, and keeps empty words (two separators in a row give
      two spaces). */
  lemma {:induction false} CapitaliseWordsCharwise(s: string, seps: set<char>)
    ensures |CapitaliseWords(s, seps)| == |s|
    ensures forall i :: 0 <= i < |s| ==> CapitaliseWords(s, seps)[i] == TitleChar(s, i, seps)
    decreases |s|
  {
    var k := Span(s, 0, Except(seps));
    SpanFacts(s, 0, Except(seps));
    var r := CapitaliseWords(s, seps);
    if k == |s| {
      assert Split(s, seps) == [s];
      assert r == Capitalise(s);
    } else {
      var rest := s[k + 1..];
      WordsStep(s, seps);
      CapitaliseWordsCharwise(rest, seps);
      CharwiseStep(s, seps, k, CapitaliseWords(rest, seps));
    }
  }

  /** The first word is capitalised, the separator after it becomes a
      space, and the rest is handled alike. */
  lemma {:induction false} WordsStep(s: string, seps: set<char>)
    requires Span(s, 0, Except(seps)) < |s|
    ensures var k := Span(s, 0, Except(seps));
            CapitaliseWords(s, seps) == Capitalise(s[..k]) + " " + CapitaliseWords(s[k + 1..], seps)
  {
    var k := Span(s, 0, Except(seps));
    var a, rest := s[..k], s[k + 1..];
    assert Split(s, seps) == [a] + Split(rest, seps);
    var tail := CapitaliseAll(Split(rest, seps));
    assert CapitaliseAll([a] + Split(rest, seps)) == [Capitalise(a)] + tail;
    JoinCons(Capitalise(a), tail, " ");
  }

  lemma {:induction false} CharwiseStep(s: string, seps: set<char>, k: nat, t: string)
    requires k < |s| && s[k] in seps && forall i :: 0 <= i < k ==> s[i] !in seps
    requires |t| == |s| - k - 1 && forall j :: 0 <= j < |t| ==> t[j] == TitleChar(s[k + 1..], j, seps)
    ensures var r := Capitalise(s[..k]) + " " + t;
            |r| == |s| && forall i :: 0 <= i < |s| ==> r[i] == TitleChar(s, i, seps)
  {
    var rest := s[k + 1..];
    var r := Capitalise(s[..k]) + " " + t;
    forall i | 0 <= i < |s| ensures r[i] == TitleChar(s, i, seps) {
      if i < k {
        assert s[i] !in seps;
        assert i > 0 ==> s[i - 1] !in seps;
      } else if i == k {
        assert s[k] in seps;
      } else {
        assert r[i] == t[i - k - 1];
        assert rest[i - k - 1] == s[i];
        assert i - k - 1 > 0 ==> rest[i - k - 2] == s[i - 1];
      }
    }
  }

  /** `titleCase`: words separated by `-` or `_`, each capitalised, joined
      with single spaces. */
  function TitleCase(s: string): (r: string)
    ensures |r| == |s|
    ensures forall i :: 0 <= i < |s| ==> r[i] == TitleChar(s, i, {'-', '_'})
    ensures forall i :: 0 <= i < |r| ==> r[i] != '-' && r[i] != '_'
  {
    CapitaliseWordsCharwise(s, {'-', '_'});
    CapitaliseWords(s, {'-', '_'})
  }

  /** Two words joined by `-` or `_` are capitalised and joined by one
      space: `getting-started` gives `Getting Started`. */
  lemma {:induction false} TitleCaseTwoWords(a: string, c: char, b: string)
    requires c in {'-', '_'}
    requires AllIn(a, Except({'-', '_'})) && AllIn(b, Except({'-', '_'}))
    ensures TitleCase(a + [c] + b) == Capitalise(a) + " " + Capitalise(b)
  {
    var seps := {'-', '_'};
    SplitAtFirstSeparator(a, c, b, seps);
    SplitNoSeparator(b, seps);
    assert Split(a + [c] + b, seps) == [a, b];
    assert [a, b][1..] == [b];
    assert CapitaliseAll([a, b]) == [Capitalise(a), Capitalise(b)];
    JoinCons(Capitalise(a), [Capitalise(b)], " ");
  }

  lemma {:induction false} CapitaliseWithEmptyWord()
    ensures CapitaliseAll(["a", "", "b"]) == ["A", "", "B"]
  {
    assert ["a", "", "b"][1..] == ["", "b"];
    assert ["", "b"][1..] == ["b"];
    assert Capitalise("a") == "A";
    assert Capitalise("") == "";
    assert Capitalise("b") == "B";
    assert CapitaliseAll(["b"]) == ["B"];
    assert CapitaliseAll(["", "b"]) == ["", "B"];
  }

  lemma {:induction false} SplitWithEmptyWord()
    ensures Split("a--b", {'-', '_'}) == ["a", "", "b"]
  {
    var seps := {'-', '_'};
    SplitNoSeparator("b", seps);
    assert Span("-b", 0, Except(seps)) == 0;
    assert "-b"[1..] == "b";
    assert Span("a--b", 0, Except(seps)) == 1;
    assert "a--b"[..1] == "a" && "a--b"[2..] == "-b";
  }

  /** Empty words are kept: each separator becomes exactly one space. */
  lemma {:induction false} TitleCaseKeepsEmptyWords()
    ensures TitleCase("a--b") == "A  B"
    ensures TitleCase("") == ""
  {
    SplitWithEmptyWord();
    CapitaliseWithEmptyWord();
    assert Join(["A", "", "B"], " ") == "A  B";
    SplitNoSeparator("", {'-', '_'});
  }
}
