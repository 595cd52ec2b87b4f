/** `ghApiCall` of `scripts/fetch-docs.ts`: how the result of running
    `gh api <endpoint>` becomes either a parsed response or one of five
    error messages. Running the command and parsing JSON are not modelled:
    what they did is a parameter. */
module GhApi {
  import opened Text
  import opened Wrappers

  /** A value caught by a `catch`: an `Error` with its message, or anything
      else, given by its string conversion. */
  datatype Thrown = ErrorObject(message: string) | NonError(text: string)

  /** The template-literal rendering `${error}`: `Error.prototype.toString`
      for an error, the string conversion otherwise. */
  function Describe(e: Thrown): (d: string)
    ensures e.ErrorObject? && e.message != [] ==> d == "Error: " + e.message
    ensures e.ErrorObject? && e.message == [] ==> d == "Error"
    ensures e.NonError? ==> d == e.text
  {
    match e
    case ErrorObject(m) =>
      if m == [] then "Error"
      else
        assert ("Error: " + m)[..7] == "Error: ";
        "Error: " + m
    case NonError(t) => t
  }

  /** Why a call produced no usable response: the command threw, or its
      output did not parse to a JSON object. */
  datatype CallFailure = Threw(error: Thrown) | Unparsable(stdout: string)

  /** What running the command did: output that parsed to a JSON object,
      or a failure. */
  datatype Exec = Parsed(stdout: string) | Failed(failure: CallFailure)

  /** The four recognised failure kinds, in the order the cascade checks them. */
  datatype FailureKind = ToolMissing | AuthFailed | RateLimited | NotFound

  function Rank(k: FailureKind): nat
  {
    match k
    case ToolMissing => 0
    case AuthFailed => 1
    case RateLimited => 2
    case NotFound => 3
  }

  /** The two substrings that identify each kind. */
  function Needles(k: FailureKind): (string, string)
  {
    match k
    case ToolMissing => ("command not found", "gh: not found")
    case AuthFailed => ("authentication", "401")
    case RateLimited => ("rate limit", "403")
    case NotFound => ("Not Found", "404")
  }

  predicate Mentions(message: string, k: FailureKind)
  {
    Contains(message, Needles(k).0) || Contains(message, Needles(k).1)
  }

  /** The cascade of `if (error.message.includes(...))` tests: the first
      kind the message mentions, none when it mentions none. */
  function ClassifyMessage(message: string): (r: Option<FailureKind>)
    ensures r.Some? ==> Mentions(message, r.value)
    ensures r.Some? ==> forall k :: Rank(k) < Rank(r.value) ==> !Mentions(message, k)
    ensures r.None? ==> forall k :: !Mentions(message, k)
  {
    if Mentions(message, ToolMissing) then Some(ToolMissing)
    else if Mentions(message, AuthFailed) then Some(AuthFailed)
    else if Mentions(message, RateLimited) then Some(RateLimited)
    else if Mentions(message, NotFound) then Some(NotFound)
    else None
  }

  /** The message of the error thrown for a recognised kind. */
  function KindMessage(k: FailureKind, endpoint: string): string
  {
    match k
    case ToolMissing =>
      "\U{2717} GitHub CLI not found.\n"
      + "  Install with: brew install gh (macOS) or see https://cli.github.com/manual/installation"
    case AuthFailed =>
      "\U{2717} GitHub authentication failed.\n"
      + "  Run: gh auth login\n"
      + "  Or set GH_TOKEN environment variable"
    case RateLimited =>
      "\U{2717} GitHub API rate limit exceeded.\n"
      + "  Wait or authenticate with MOAT_DOCS_TOKEN secret."
    case NotFound =>
      "\U{2717} Resource not found: " + endpoint + "\n"
      + "  Check if the repository exists and is accessible."
  }

  /** The message that replaces a parse failure: the fixed prefix followed by
      the first 200 characters of the output, or all of it when shorter. */
  function ParseFailureMessage(stdout: string): (m: string)
    ensures StartsWith(m, ParseFailurePrefix)
    ensures |m| == |ParseFailurePrefix| + (if |stdout| < 200 then |stdout| else 200)
    ensures StartsWith(stdout, m[|ParseFailurePrefix|..])
  {
    assert (ParseFailurePrefix + Take(stdout, 200))[..|ParseFailurePrefix|] == ParseFailurePrefix;
    ParseFailurePrefix + Take(stdout, 200)
  }

  const ParseFailurePrefix: string := "Failed to parse GitHub API response: "

  /** The error the outer `catch` sees: the thrown value itself, or the
      parse-failure error made by the inner `catch`. */
  function Caught(f: CallFailure): Thrown
  {
    match f
    case Threw(e) => e
    case Unparsable(stdout) => ErrorObject(ParseFailureMessage(stdout))
  }

  /** The message of the error `ghApiCall` throws after catching `e`. */
  function ErrorMessage(endpoint: string, e: Thrown): (m: string)
    ensures e.ErrorObject? && ClassifyMessage(e.message).Some? ==>
              m == KindMessage(ClassifyMessage(e.message).value, endpoint)
    ensures e.NonError? || ClassifyMessage(e.message).None? ==>
              m == "GitHub API call failed for " + endpoint + ": " + Describe(e)
  {
    if e.ErrorObject? && ClassifyMessage(e.message).Some? then
      KindMessage(ClassifyMessage(e.message).value, endpoint)
    else
      "GitHub API call failed for " + endpoint + ": " + Describe(e)
  }

  /** `ghApiCall`: the parsed output, or the error message it throws. */
  function GhApiCall(endpoint: string, exec: Exec): (r: Result<string, string>)
    ensures r.Ok? <==> exec.Parsed?
    ensures r.Ok? ==> r.value == exec.stdout
    ensures r.Err? ==> r.error == ErrorMessage(endpoint, Caught(exec.failure))
  {
    match exec
    case Parsed(stdout) => Ok(stdout)
    case Failed(f) => Err(ErrorMessage(endpoint, Caught(f)))
  }

  /** The endpoint `fetchDirectoryContents` calls. */
  function ContentsEndpoint(repo: string, repoPath: string): string
  {
    "repos/" + repo + "/contents/" + repoPath
  }

  lemma {:induction false} ContainsInSuffix(a: string, t: string, needle: string)
    requires Contains(t, needle)
    ensures Contains(a + t, needle)
  {
    var i :| 0 <= i <= |t| && IsPrefixAt(t, needle, i);
    assert (a + t)[|a| + i..|a| + i + |needle|] == t[i..i + |needle|];
    ContainsAt(a + t, needle, |a| + i);
  }

  /** Only the not-found and generic messages depend on the endpoint, and
      both name it. */
  lemma {:induction false} ErrorMessageEndpoint(endpoint: string, other: string, e: Thrown)
    ensures e.ErrorObject? && ClassifyMessage(e.message).Some? && ClassifyMessage(e.message) != Some(NotFound) ==>
              ErrorMessage(endpoint, e) == ErrorMessage(other, e)
    ensures !(e.ErrorObject? && ClassifyMessage(e.message).Some? && ClassifyMessage(e.message) != Some(NotFound)) ==>
              Contains(ErrorMessage(endpoint, e), endpoint)
  {
    var m := ErrorMessage(endpoint, e);
    if e.ErrorObject? && ClassifyMessage(e.message) == Some(NotFound) {
      assert m == KindMessage(NotFound, endpoint);
      NotFoundNamesEndpoint(endpoint);
    } else if e.NonError? || ClassifyMessage(e.message).None? {
      GenericNamesEndpoint(endpoint, Describe(e));
    }
  }

  lemma {:induction false} NotFoundNamesEndpoint(endpoint: string)
    ensures Contains(KindMessage(NotFound, endpoint), endpoint)
  {
    var m := KindMessage(NotFound, endpoint);
    var pre := "\U{2717} Resource not found: ";
    assert m[|pre|..|pre| + |endpoint|] == endpoint;
    ContainsAt(m, endpoint, |pre|);
  }

  lemma {:induction false} GenericNamesEndpoint(endpoint: string, description: string)
    ensures Contains("GitHub API call failed for " + endpoint + ": " + description, endpoint)
  {
    var m := "GitHub API call failed for " + endpoint + ": " + description;
    var pre := "GitHub API call failed for ";
    assert m[|pre|..|pre| + |endpoint|] == endpoint;
    ContainsAt(m, endpoint, |pre|);
  }

  /** A parse failure goes through the cascade: when the quoted output
      mentions a recognised kind, the message is that kind's or an earlier
      one's, never the generic one. */
  lemma {:induction false} ParseFailureClassified(endpoint: string, stdout: string, k: FailureKind)
    requires Mentions(Take(stdout, 200), k)
    ensures exists k' :: Rank(k') <= Rank(k)
                         && GhApiCall(endpoint, Failed(Unparsable(stdout))) == Err(KindMessage(k', endpoint))
  {
    var m := ParseFailureMessage(stdout);
    MentionsAfterPrefix(stdout, k);
    MentionedKindClassified(m, k);
    var k' := ClassifyMessage(m).value;
    UnparsableClassified(endpoint, stdout, k');
  }

  lemma {:induction false} MentionsAfterPrefix(stdout: string, k: FailureKind)
    requires Mentions(Take(stdout, 200), k)
    ensures Mentions(ParseFailureMessage(stdout), k)
  {
    if Contains(Take(stdout, 200), Needles(k).0) {
      ContainsInSuffix(ParseFailurePrefix, Take(stdout, 200), Needles(k).0);
    } else {
      ContainsInSuffix(ParseFailurePrefix, Take(stdout, 200), Needles(k).1);
    }
  }

  lemma {:induction false} MentionedKindClassified(m: string, k: FailureKind)
    requires Mentions(m, k)
    ensures ClassifyMessage(m).Some? && Rank(ClassifyMessage(m).value) <= Rank(k)
  {
  }

  lemma {:induction false} UnparsableClassified(endpoint: string, stdout: string, k: FailureKind)
    requires ClassifyMessage(ParseFailureMessage(stdout)) == Some(k)
    ensures GhApiCall(endpoint, Failed(Unparsable(stdout))) == Err(KindMessage(k, endpoint))
  {
    var e := Caught(Unparsable(stdout));
    assert e == ErrorObject(ParseFailureMessage(stdout));
    assert ErrorMessage(endpoint, e) == KindMessage(k, endpoint);
  }
}
