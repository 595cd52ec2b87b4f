/** Character classes and string operations of JavaScript that the scripts
    rely on, stated over `string` (a sequence of characters). */
module Text {
  import opened Wrappers

  predicate IsDigit(c: char) { '0' <= c <= '9' }

  predicate IsAsciiLetter(c: char) { 'a' <= c <= 'z' || 'A' <= c <= 'Z' }

  /** The regular-expression class `[\w-]` (no `u` flag): ASCII letters,
      digits, `_` and `-`. */
  predicate IsWordChar(c: char) { IsAsciiLetter(c) || IsDigit(c) || c == '_' || c == '-' }

  /** Characters that `.` in a regular expression does not match. */
  predicate IsLineTerminator(c: char)
  {
    c == '\n' || c == '\r' || c == '\U{2028}' || c == '\U{2029}'
  }

  /** The characters `String.prototype.trim` removes: white space and
      line terminators. */
  predicate IsWhiteSpace(c: char)
  {
    || c == '\t' || c == '\U{000B}' || c == '\U{000C}' || c == ' '
    || c == '\U{00A0}' || c == '\U{FEFF}' || c == '\U{1680}'
    || ('\U{2000}' <= c <= '\U{200A}')
    || c == '\U{202F}' || c == '\U{205F}' || c == '\U{3000}'
    || IsLineTerminator(c)
  }

  /** The classes that the regular expressions, written out as matchers, repeat
      with `+`: `\d`, `[\w-]`, a negated class `[^...]`, and `.`. */
  datatype CharClass = Digits | WordChars | Except(excluded: set<char>) | AnyButLineTerminator

  predicate InClass(c: char, cls: CharClass)
  {
    match cls
    case Digits => IsDigit(c)
    case WordChars => IsWordChar(c)
    case Except(excluded) => c !in excluded
    case AnyButLineTerminator => !IsLineTerminator(c)
  }

  predicate AllIn(s: string, cls: CharClass)
  {
    forall k :: 0 <= k < |s| ==> InClass(s[k], cls)
  }

  predicate IsWord(s: string) { AllIn(s, WordChars) }

  predicate AllDigits(s: string) { AllIn(s, Digits) }

  /** The end of the longest run of `cls` characters starting at `i`: what a
      greedy `cls+` (or `cls*`) consumes. Its two defining facts are
      `SpanFacts`. */
  function Span(s: string, i: nat, cls: CharClass): (j: nat)
    requires i <= |s|
    ensures i <= j <= |s|
    decreases |s| - i
  {
    if i == |s| || !InClass(s[i], cls) then i else Span(s, i + 1, cls)
  }

  /** Every character of the run is in the class, and the one after it is
      not. */
  lemma {:induction false} SpanFacts(s: string, i: nat, cls: CharClass)
    requires i <= |s|
    ensures forall k :: i <= k < Span(s, i, cls) ==> InClass(s[k], cls)
    ensures Span(s, i, cls) < |s| ==> !InClass(s[Span(s, i, cls)], cls)
    decreases |s| - i
  {
    if i < |s| && InClass(s[i], cls) {
      SpanFacts(s, i + 1, cls);
    }
  }

  /** The run is determined by those two facts. */
  lemma {:induction false} SpanIs(s: string, i: nat, cls: CharClass, j: nat)
    requires i <= j <= |s|
    requires forall k :: i <= k < j ==> InClass(s[k], cls)
    requires j < |s| ==> !InClass(s[j], cls)
    ensures Span(s, i, cls) == j
    decreases j - i
  {
    if i < j {
      SpanIs(s, i + 1, cls, j);
    }
  }

  /** The run itself, as a slice. */
  lemma {:induction false} SpanRun(s: string, i: nat, cls: CharClass)
    requires i <= |s|
    ensures AllIn(s[i..Span(s, i, cls)], cls)
  {
    var j := Span(s, i, cls);
    SpanFacts(s, i, cls);
    forall k | 0 <= k < j - i ensures InClass(s[i..j][k], cls) {
      assert s[i..j][k] == s[i + k];
    }
  }

  /** A run that sits at `i` as a slice and is not continued. */
  lemma {:induction false} SpanOver(s: string, i: nat, run: string, cls: CharClass)
    requires i + |run| <= |s| && s[i..i + |run|] == run && AllIn(run, cls)
    requires i + |run| < |s| ==> !InClass(s[i + |run|], cls)
    ensures Span(s, i, cls) == i + |run|
  {
    forall k | i <= k < i + |run| ensures InClass(s[k], cls) {
      assert s[k] == s[i..i + |run|][k - i];
    }
    SpanIs(s, i, cls, i + |run|);
  }

  /** Text in front does not change a run, only where it lies. */
  lemma {:induction false} SpanShift(x: string, y: string, j: nat, cls: CharClass)
    requires j <= |y|
    ensures Span(x + y, |x| + j, cls) == |x| + Span(y, j, cls)
    decreases |y| - j
  {
    if j < |y| {
      assert (x + y)[|x| + j] == y[j];
      if InClass(y[j], cls) {
        SpanShift(x, y, j + 1, cls);
      }
    }
  }

  /** Text behind a run matters only when the run reaches it. */
  lemma {:induction false} SpanPrefix(x: string, y: string, i: nat, cls: CharClass)
    requires i <= |x|
    ensures Span(x + y, i, cls) == if Span(x, i, cls) < |x| then Span(x, i, cls) else |x| + Span(y, 0, cls)
    decreases |x| - i
  {
    if i == |x| {
      SpanShift(x, y, 0, cls);
    } else {
      assert (x + y)[i] == x[i];
      if InClass(x[i], cls) {
        SpanPrefix(x, y, i + 1, cls);
      }
    }
  }

  predicate IsPrefixAt(s: string, t: string, i: nat)
  {
    i + |t| <= |s| && s[i..i + |t|] == t
  }

  predicate StartsWith(s: string, t: string) { IsPrefixAt(s, t, 0) }

  /** A piece of an occurrence is an occurrence of the piece. */
  lemma {:induction false} SliceOfSlice(s: string, n: nat, t: string, a: nat, b: nat)
    requires n + |t| <= |s| && s[n..n + |t|] == t && a <= b <= |t|
    ensures s[n + a..n + b] == t[a..b]
  {
    forall j | 0 <= j < b - a ensures s[n + a..n + b][j] == t[a..b][j] {
      assert s[n + a..n + b][j] == s[n + a + j];
      assert t[a..b][j] == t[a + j] == s[n..n + |t|][a + j];
    }
  }

  lemma {:induction false} SliceCons(s: string, i: nat, k: nat)
    requires i < k <= |s|
    ensures s[i..k] == [s[i]] + s[i + 1..k]
  {
    assert forall j :: 0 <= j < k - i ==> s[i..k][j] == ([s[i]] + s[i + 1..k])[j];
  }

  predicate EndsWith(s: string, t: string)
  {
    |t| <= |s| && s[|s| - |t|..] == t
  }

  /** One differing character rules an occurrence out. */
  lemma {:induction false} MismatchNotPrefix(s: string, t: string, j: nat, i: nat)
    requires i < |t| && (j + i < |s| ==> s[j + i] != t[i])
    ensures !IsPrefixAt(s, t, j)
  {
    if j + |t| <= |s| {
      assert s[j..j + |t|][i] == s[j + i];
    }
  }

  /** `String.prototype.includes`. */
  predicate Contains(s: string, t: string)
  {
    exists i :: 0 <= i <= |s| && IsPrefixAt(s, t, i)
  }

  lemma {:induction false} ContainsAt(s: string, t: string, i: nat)
    requires IsPrefixAt(s, t, i)
    ensures Contains(s, t)
  {
  }

  /** The first `n` characters, as `substring(0, n)` gives them. */
  function Take(s: string, n: nat): (r: string)
    ensures |r| == if n < |s| then n else |s|
    ensures StartsWith(s, r)
  {
    if n < |s| then s[..n] else s
  }

  /** The pattern `lead[seps]([^seps]+)[seps]` tried at position `i`: the
      lead, a separator, a non-empty run without separators (the captured
      segment), and a separator after it. */
  function SegmentAfterAt(path: string, lead: string, seps: set<char>, i: nat): (c: Option<string>)
    ensures c.Some? ==> c.value != [] && AllIn(c.value, Except(seps))
  {
    var k := i + |lead|;
    if !(IsPrefixAt(path, lead, i) && k < |path| && path[k] in seps) then None
    else
      var e := Span(path, k + 1, Except(seps));
      if e == k + 1 || e == |path| then None
      else
        SpanRun(path, k + 1, Except(seps));
        Some(path[k + 1..e])
  }

  /** The leftmost match of that pattern at or after `from`, as `match`
      finds it. */
  function FirstSegmentAfter(path: string, lead: string, seps: set<char>, from: nat): (c: Option<string>)
    ensures c.Some? ==> c.value != [] && AllIn(c.value, Except(seps))
    decreases |path| - from
  {
    if from > |path| then None
    else if SegmentAfterAt(path, lead, seps, from).Some? then SegmentAfterAt(path, lead, seps, from)
    else FirstSegmentAfter(path, lead, seps, from + 1)
  }

  /** It is the match at the first position that has one, and there is
      none when no position has one. */
  lemma {:induction false} FirstSegmentLeftmost(path: string, lead: string, seps: set<char>, from: nat)
    ensures var c := FirstSegmentAfter(path, lead, seps, from);
            c.Some? ==> exists i :: from <= i <= |path| && SegmentAfterAt(path, lead, seps, i) == c
                                    && forall j :: from <= j < i ==> SegmentAfterAt(path, lead, seps, j).None?
    ensures var c := FirstSegmentAfter(path, lead, seps, from);
            c.None? ==> forall j :: from <= j <= |path| ==> SegmentAfterAt(path, lead, seps, j).None?
    decreases |path| - from
  {
    if from <= |path| && SegmentAfterAt(path, lead, seps, from).None? {
      FirstSegmentLeftmost(path, lead, seps, from + 1);
    }
  }

  /** Positions without a match do not change the leftmost match. */
  lemma {:induction false} FirstSegmentSkips(path: string, lead: string, seps: set<char>, from: nat, upto: nat)
    requires from <= upto <= |path|
    requires forall j :: from <= j < upto ==> SegmentAfterAt(path, lead, seps, j).None?
    ensures FirstSegmentAfter(path, lead, seps, from) == FirstSegmentAfter(path, lead, seps, upto)
    decreases upto - from
  {
    if from < upto {
      assert SegmentAfterAt(path, lead, seps, from).None?;
      assert FirstSegmentAfter(path, lead, seps, from) == FirstSegmentAfter(path, lead, seps, from + 1);
      FirstSegmentSkips(path, lead, seps, from + 1, upto);
    }
  }

  /** `String.prototype.split` with a separator that matches one character
      of `seps`: the pieces between separators, empty ones included. */
  function Split(s: string, seps: set<char>): (parts: seq<string>)
    ensures |parts| >= 1
    ensures forall n :: 0 <= n < |parts| ==> AllIn(parts[n], Except(seps))
    decreases |s|
  {
    var k := Span(s, 0, Except(seps));
    if k == |s| then
      SplitWhole(s, seps);
      [s]
    else
      SpanRun(s, 0, Except(seps));
      assert s[0..k] == s[..k];
      [s[..k]] + Split(s[k + 1..], seps)
  }

  lemma {:induction false} SplitWhole(s: string, seps: set<char>)
    requires Span(s, 0, Except(seps)) == |s|
    ensures AllIn(s, Except(seps))
  {
    SpanRun(s, 0, Except(seps));
    assert s[0..|s|] == s;
  }

  /** `Array.prototype.join`. */
  function Join(parts: seq<string>, sep: string): string
  {
    if |parts| == 0 then ""
    else if |parts| == 1 then parts[0]
    else parts[0] + sep + Join(parts[1..], sep)
  }

  lemma {:induction false} SplitNoSeparator(s: string, seps: set<char>)
    requires AllIn(s, Except(seps))
    ensures Split(s, seps) == [s]
  {
    SpanIs(s, 0, Except(seps), |s|);
  }

  lemma {:induction false} SplitAtFirstSeparator(a: string, c: char, b: string, seps: set<char>)
    requires AllIn(a, Except(seps)) && c in seps
    ensures Split(a + [c] + b, seps) == [a] + Split(b, seps)
  {
    var s := a + [c] + b;
    SpanIs(s, 0, Except(seps), |a|);
    assert s[..|a|] == a;
    assert s[|a| + 1..] == b;
  }

  /** The last piece of a split is what follows the last separator. */
  lemma {:induction false} SplitLastPiece(a: string, c: char, t: string, seps: set<char>)
    requires c in seps && AllIn(t, Except(seps))
    ensures |Split(a + [c] + t, seps)| >= 2
    ensures Split(a + [c] + t, seps)[|Split(a + [c] + t, seps)| - 1] == t
    decreases |a|
  {
    var s := a + [c] + t;
    var k := Span(s, 0, Except(seps));
    SpanFacts(s, 0, Except(seps));
    assert s[|a|] == c;
    if k == |a| {
      assert s[..k] == a && s[k + 1..] == t;
      SplitNoSeparator(t, seps);
    } else {
      assert s[k + 1..] == a[k + 1..] + [c] + t;
      SplitLastPiece(a[k + 1..], c, t, seps);
    }
  }

  /** What `trim()` leaves at the front: the string from its first
      non-white-space character on. */
  function TrimStart(s: string): (r: string)
    ensures EndsWith(s, r)
    ensures r == [] || !IsWhiteSpace(r[0])
    ensures forall k :: 0 <= k < |s| - |r| ==> IsWhiteSpace(s[k])
    decreases |s|
  {
    if s != [] && IsWhiteSpace(s[0]) then TrimStart(s[1..]) else s
  }

  /** `toUpperCase` of one character, over ASCII. */
  function ToUpper(c: char): (u: char)
    ensures 'a' <= c <= 'z' ==> 'A' <= u <= 'Z'
    ensures !('a' <= c <= 'z') ==> u == c
  {
    if 'a' <= c <= 'z' then (c as int - 32) as char else c
  }

  /** `path.join(dir, name)` for a name that is one plain path segment. */
  function PathJoin(dir: string, name: string): string
  {
    dir + "/" + name
  }
}
