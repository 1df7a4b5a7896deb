/** The deterministic pieces of tools.py: what `search_github` and
    `find_files_from_sentry_issue` make of the browser agent's answer, the
    result text and upload decision of `create_daytona_workspace_with_fix`,
    and the repository name, file path, branch name and commit message that
    `create_draft_pr` derives before it calls the GitHub API. */
module Tools {
  import opened Wrappers
  import opened Text
  import opened Decimal
  import opened JsonValues

  // ----- search_github -----

  const MaxSearchResults := 5

  /** What `search_github` returns once `json.loads` has run (`None` when it
      raised): `issues[:5]` slices a list or a string; slicing anything else
      raises, and the bare `except` answers `[]` for every failure. */
  function SearchResult(parsed: Option<Json>): Json {
    match parsed
    case Some(Array(items)) => Array(Take(items, MaxSearchResults))
    case Some(Str(s)) => Str(Take(s, MaxSearchResults))
    case _ => Array([])
  }

  /** At most five results, the first ones of the parsed list, and `[]`
      when the output does not parse or cannot be sliced. */
  lemma SearchResultBounded(parsed: Option<Json>)
    ensures var r := SearchResult(parsed);
      && (r.Array? || r.Str?)
      && (r.Array? ==> |r.items| <= MaxSearchResults)
      && (r.Str? ==> |r.s| <= MaxSearchResults)
    ensures parsed.Some? && parsed.value.Array? ==>
      var items := parsed.value.items; var r := SearchResult(parsed).items;
      && r == items[..|r|]
      && |r| == if |items| < MaxSearchResults then |items| else MaxSearchResults
    ensures parsed.None? || !(parsed.value.Array? || parsed.value.Str?) ==> SearchResult(parsed) == Array([])
  {
  }

  /** Cutting a cut list again changes nothing. */
  lemma SearchResultIdempotent(parsed: Option<Json>)
    ensures SearchResult(Some(SearchResult(parsed))) == SearchResult(parsed)
  {
  }

  // ----- find_files_from_sentry_issue -----

  /** The error type and message read from a Sentry issue or event. */
  datatype ErrorFields = ErrorFields(errorType: Json, errorMessage: Json)

  /** tools.py:56-63 (and the same lines in `propose_fix_node`): the type is
      `type` when true, else `title`, else "Unknown Error"; the message is
      `metadata.value`, replaced by `message` when that is not true.
      `None` where Python raises: `data` or its `metadata` not a dictionary. */
  function ErrorFieldsOf(data: Json): Option<ErrorFields> {
    match data
    case Object(fields) =>
      var errorType := Or(Get(data, "type", Null).value, Get(data, "title", Str("Unknown Error")).value);
      var fromMetadata: Option<Json> :=
        if "metadata" in fields then Get(fields["metadata"], "value", Str("")) else Some(Str(""));
      if fromMetadata.None? then None
      else
        var m := fromMetadata.value;
        var message := if !Truthy(m) && "message" in fields then fields["message"] else m;
        Some(ErrorFields(errorType, message))
    case _ => None
  }

  /** Which field each value comes from. */
  lemma ErrorFieldsSources(data: Json)
    ensures ErrorFieldsOf(data).Some? <==>
      data.Object? && (Has(data, "metadata") ==> data.fields["metadata"].Object?)
    ensures ErrorFieldsOf(data).Some? ==>
      var t := ErrorFieldsOf(data).value.errorType; var fs := data.fields;
      t == if "type" in fs && Truthy(fs["type"]) then fs["type"]
           else if "title" in fs then fs["title"] else Str("Unknown Error")
    ensures ErrorFieldsOf(data).Some? ==>
      var m := ErrorFieldsOf(data).value.errorMessage; var fs := data.fields;
      var meta := if Has(data, "metadata") && Has(fs["metadata"], "value") then fs["metadata"].fields["value"] else Str("");
      m == if Truthy(meta) then meta else if "message" in fs then fs["message"] else meta
  {
  }

  /** A true `metadata.value` makes `message` irrelevant. */
  lemma MetadataWins(fields: map<string, Json>, message: Json)
    requires "metadata" in fields && Has(fields["metadata"], "value")
    requires Truthy(fields["metadata"].fields["value"])
    ensures ErrorFieldsOf(Object(fields)) == ErrorFieldsOf(Object(fields["message" := message]))
    ensures ErrorFieldsOf(Object(fields)).value.errorMessage == fields["metadata"].fields["value"]
  {
  }

  /** What `find_files_from_sentry_issue` returns: the parsed answer, or on
      a JSON decode error (`Failure` with Python's error text) an analysis
      with no files whose summary quotes the error and the first 200
      characters of the raw answer. */
  function FilesAnalysis(parsed: Result<Json, string>, output: string): (r: Json)
    ensures parsed.Success? ==> r == parsed.value
    ensures parsed.Failure? ==> Get(r, "files", Null) == Some(Array([]))
    ensures parsed.Failure? ==> Has(r, "summary") && r.fields["summary"].Str?
  {
    match parsed
    case Success(v) => v
    case Failure(e) =>
      Object(map[
        "files" := Array([]),
        "summary" := Str("Could not parse browser output. Error: " + e + ". Raw output: " + Take(output, 200))])
  }

  // ----- create_daytona_workspace_with_fix -----

  const Cross := "\U{274C}"
  const Tick := "\U{2705}"
  const FailurePrefix := Cross + " Application failed with exit code: "
  const OutputHeading := "\n\nOutput:\n"

  /** tools.py:185: the last `/`-separated piece of the URL with every
      `.git` removed, the sandbox directory the repository is cloned into. */
  function SandboxRepoName(repoUrl: string): (r: string)
    ensures '/' !in r
  {
    var last := LastPiece(repoUrl, "/");
    ContainsChar(last, '/');
    RemoveAll(last, ".git")
  }

  /** tools.py:193: the fix is written only when both the path and the code
      are present and non-empty. */
  predicate ShouldApplyFix(fileToFix: Option<string>, fixedCode: Option<string>) {
    fileToFix.Some? && fileToFix.value != [] && fixedCode.Some? && fixedCode.value != []
  }

  /** The file the sandbox overwrites and what it writes there. */
  datatype Upload = Upload(path: string, content: string)

  /** The write the sandbox makes before running the application: the code
      into `<repo>/<file>` (tools.py:192-200). */
  function PlannedUpload(repoUrl: string, fileToFix: Option<string>, fixedCode: Option<string>): (r: Option<Upload>)
    ensures r.Some? <==> ShouldApplyFix(fileToFix, fixedCode)
    ensures r.Some? ==> r.value.content == fixedCode.value
    ensures r.Some? ==> StartsWith(r.value.path, SandboxRepoName(repoUrl) + "/")
  {
    if ShouldApplyFix(fileToFix, fixedCode) then
      Some(Upload(SandboxRepoName(repoUrl) + "/" + fileToFix.value, fixedCode.value))
    else None
  }

  /** tools.py:216-221: the text reported after running the application;
      `result` is what the process printed, `None` or empty when nothing. */
  function RunReport(exitCode: int, result: Option<string>): string {
    var out := if result.Some? then result.value else "";
    if exitCode != 0 then FailurePrefix + IntToString(exitCode) + OutputHeading + out
    else if out != "" then Tick + " Application ran successfully!" + OutputHeading + out
    else Tick + " Application executed successfully (no output)"
  }

  /** The report starts with a cross exactly when the exit code is not zero,
      and with a tick otherwise. */
  lemma RunReportClassifies(exitCode: int, result: Option<string>)
    ensures var r := RunReport(exitCode, result);
      && (StartsWith(r, Cross) <==> exitCode != 0)
      && (StartsWith(r, Tick) <==> exitCode == 0)
  {
    var r := RunReport(exitCode, result);
    assert r[..1] == if exitCode != 0 then Cross else Tick;
  }

  /** The report ends with the heading and the output whenever there is
      output or the run failed. */
  lemma RunReportShowsOutput(exitCode: int, result: Option<string>)
    ensures var out := if result.Some? then result.value else "";
      out != "" || exitCode != 0 ==> EndsWith(RunReport(exitCode, result), OutputHeading + out)
  {
    var out := if result.Some? then result.value else "";
    if exitCode != 0 {
      EndsWithTail(FailurePrefix + IntToString(exitCode), OutputHeading, out);
    } else if out != "" {
      EndsWithTail(Tick + " Application ran successfully!", OutputHeading, out);
    }
  }

  lemma EndsWithTail(a: string, h: string, o: string)
    ensures EndsWith(a + h + o, h + o)
  {
    assert (a + h + o)[|a|..] == h + o;
  }

  lemma FailureReportShape(a: int, ra: Option<string>)
    requires a != 0
    ensures RunReport(a, ra) == FailurePrefix + (IntToString(a) + (OutputHeading + if ra.Some? then ra.value else ""))
  {
    var oa := if ra.Some? then ra.value else "";
    var x := IntToString(a);
    assert FailurePrefix + x + OutputHeading + oa == FailurePrefix + (x + (OutputHeading + oa));
  }

  /** A failure report gives back the exit code and the output it reports. */
  lemma FailureReportInjective(a: int, ra: Option<string>, b: int, rb: Option<string>)
    requires a != 0 && b != 0 && RunReport(a, ra) == RunReport(b, rb)
    ensures a == b
    ensures (if ra.Some? then ra.value else "") == (if rb.Some? then rb.value else "")
  {
    var oa := if ra.Some? then ra.value else "";
    var ob := if rb.Some? then rb.value else "";
    var x, y := IntToString(a), IntToString(b);
    var s1, s2 := x + (OutputHeading + oa), y + (OutputHeading + ob);
    FailureReportShape(a, ra);
    FailureReportShape(b, rb);
    assert s1 == RunReport(a, ra)[|FailurePrefix|..] == s2;
    IntToStringChars(a);
    IntToStringChars(b);
    assert '\n' !in x && '\n' !in y;
    SplitAtBreak(x, OutputHeading + oa, y, OutputHeading + ob);
    IntToStringInjective(a, b);
    assert oa == (OutputHeading + oa)[|OutputHeading|..] == ob;
  }

  // ----- create_draft_pr -----

  const HttpsPrefix := "https://github.com/"
  const HttpPrefix := "http://github.com/"
  const GitSuffix := ".git"

  /** tools.py:241-244 as written: a repository given as a GitHub web URL
      loses the prefix and `.git`; `replace` deletes every occurrence of
      each, not only the leading and trailing one. Any other form is kept. */
  function ApiRepoNameAsWritten(repo: string): (r: string)
    ensures !StartsWith(repo, HttpsPrefix) && !StartsWith(repo, HttpPrefix) ==> r == repo
    ensures StartsWith(repo, HttpsPrefix) || StartsWith(repo, HttpPrefix) ==> |r| < |repo|
  {
    if StartsWith(repo, HttpsPrefix) then
      PrefixOccurs(repo, HttpsPrefix);
      RemoveAll(RemoveAll(repo, HttpsPrefix), GitSuffix)
    else if StartsWith(repo, HttpPrefix) then
      PrefixOccurs(repo, HttpPrefix);
      RemoveAll(RemoveAll(repo, HttpPrefix), GitSuffix)
    else repo
  }

  /** A `.git` inside the name goes too: with `x` = "o/o" and `y` = "hub.io",
      the GitHub Pages repository `o/o.github.io` is looked up as
      `o/ohub.io`. */
  lemma ApiRepoNameAsWrittenDropsInnerGit(x: string, y: string)
    requires '.' !in x && ':' !in x && ':' !in y && !Contains(y, GitSuffix)
    ensures ApiRepoNameAsWritten(HttpsPrefix + (x + GitSuffix + y)) == x + y
  {
    var name := x + GitSuffix + y;
    NoColon(name);
    AsWrittenHttps(name);
    NoGitWithin(x, y);
    RemoveOnce(x, GitSuffix, y);
  }

  /** Without a dot in `x`, no `.git` starts inside it. */
  lemma NoGitWithin(x: string, y: string)
    requires '.' !in x
    ensures forall j: nat :: j < |x| ==> !OccursAt(x + GitSuffix + y, GitSuffix, j)
  {
    var name := x + GitSuffix + y;
    forall j: nat | j < |x|
      ensures !OccursAt(name, GitSuffix, j)
    {
      assert name[j] == x[j] != '.';
      if j + 4 <= |name| {
        assert name[j..j + 4][0] == name[j];
      }
    }
  }

  /** The prefix holds a colon, so a name without one does not contain it. */
  lemma NoColon(s: string)
    requires ':' !in s
    ensures !Contains(s, HttpsPrefix)
  {
    forall j: nat
      ensures !OccursAt(s, HttpsPrefix, j)
    {
      if j + |HttpsPrefix| <= |s| {
        assert s[j..j + |HttpsPrefix|][5] == s[j + 5];
      }
    }
  }

  /** Behind the https prefix, the code as written deletes every `.git`. */
  lemma AsWrittenHttps(name: string)
    requires !Contains(name, HttpsPrefix)
    ensures ApiRepoNameAsWritten(HttpsPrefix + name) == RemoveAll(name, GitSuffix)
  {
    UnderPrefix(HttpsPrefix, name);
    RemoveLeading(HttpsPrefix, name);
  }

  /** Behind the http prefix, likewise: the prefix goes and so does every `.git`. */
  lemma AsWrittenHttp(name: string)
    requires !Contains(name, HttpPrefix)
    ensures ApiRepoNameAsWritten(HttpPrefix + name) == RemoveAll(name, GitSuffix)
  {
    HttpIsNotHttps(name);
    UnderPrefix(HttpPrefix, name);
    RemoveLeading(HttpPrefix, name);
  }

  /** The name without a trailing `.git`. */
  function DropGitSuffix(name: string): (r: string)
    ensures EndsWith(name, GitSuffix) ==> r + GitSuffix == name
    ensures !EndsWith(name, GitSuffix) ==> r == name
  {
    if EndsWith(name, GitSuffix) then
      assert name[..|name| - |GitSuffix|] + GitSuffix == name;
      name[..|name| - |GitSuffix|]
    else name
  }

  /** The repository name the API needs, as the comment at tools.py:240
      describes it: a GitHub web URL loses its prefix and a trailing
      `.git`; any other form is kept. */
  function ApiRepoName(repo: string): (r: string)
    ensures !StartsWith(repo, HttpsPrefix) && !StartsWith(repo, HttpPrefix) ==> r == repo
    ensures StartsWith(repo, HttpsPrefix) || StartsWith(repo, HttpPrefix) ==> |r| < |repo|
  {
    if StartsWith(repo, HttpsPrefix) then DropGitSuffix(repo[|HttpsPrefix|..])
    else if StartsWith(repo, HttpPrefix) then DropGitSuffix(repo[|HttpPrefix|..])
    else repo
  }

  /** The owner/name written after either prefix, with or without `.git`,
      comes back unchanged. */
  lemma ApiRepoNameRoundTrip(name: string)
    requires !EndsWith(name, GitSuffix)
    ensures ApiRepoName(HttpsPrefix + name) == name
    ensures ApiRepoName(HttpsPrefix + name + GitSuffix) == name
    ensures ApiRepoName(HttpPrefix + name) == name
    ensures ApiRepoName(HttpPrefix + name + GitSuffix) == name
  {
    UnderPrefix(HttpsPrefix, name);
    UnderPrefix(HttpsPrefix, name + GitSuffix);
    assert (HttpsPrefix + name + GitSuffix) == HttpsPrefix + (name + GitSuffix);
    assert (name + GitSuffix)[..|name|] == name;
    HttpIsNotHttps(name);
    HttpIsNotHttps(name + GitSuffix);
    UnderPrefix(HttpPrefix, name);
    UnderPrefix(HttpPrefix, name + GitSuffix);
    assert (HttpPrefix + name + GitSuffix) == HttpPrefix + (name + GitSuffix);
  }

  lemma UnderPrefix(p: string, s: string)
    ensures StartsWith(p + s, p) && (p + s)[|p|..] == s
  {
    assert (p + s)[..|p|] == p;
  }

  lemma HttpIsNotHttps(s: string)
    ensures !StartsWith(HttpPrefix + s, HttpsPrefix)
  {
    assert (HttpPrefix + s)[4] == ':' && HttpsPrefix[4] == 's';
  }

  /** Where the name holds neither the prefix nor `.git`, the code as
      written and the intended reading agree. */
  lemma ApiRepoNameAgrees(name: string)
    requires !Contains(name, HttpsPrefix) && !Contains(name, GitSuffix)
    ensures ApiRepoNameAsWritten(HttpsPrefix + name) == ApiRepoName(HttpsPrefix + name) == name
  {
    AsWrittenHttps(name);
    UnderPrefix(HttpsPrefix, name);
    SuffixOccurs(name, GitSuffix);
  }

  lemma SuffixOccurs(s: string, p: string)
    ensures EndsWith(s, p) ==> Contains(s, p)
  {
    if EndsWith(s, p) {
      assert OccursAt(s, p, |s| - |p|);
    }
  }

  lemma PrefixOccurs(s: string, p: string)
    requires StartsWith(s, p)
    ensures Contains(s, p)
  {
    assert OccursAt(s, p, 0);
  }

  /** The three quote characters the path is cleaned of. */
  predicate IsQuote(c: char) {
    c == '`' || c == '"' || c == '\''
  }

  /** The quote half of the path cleaning: backticks, then double quotes,
      then single quotes, each stripped from both ends in turn. */
  function StripQuotes(s: string): (r: string)
    ensures |r| <= |s|
    ensures r != [] ==> r[0] != '\'' && r[|r| - 1] != '\''
  {
    Strip(Strip(Strip(s, {'`'}), {'"'}), {'\''})
  }

  /** A string with no quote at either end goes through unchanged. */
  lemma StripQuotesKeeps(s: string)
    requires s != [] && !IsQuote(s[0]) && !IsQuote(s[|s| - 1])
    ensures StripQuotes(s) == s
  {
    StripKeepsEnds(s, {'`'});
    StripKeepsEnds(s, {'"'});
    StripKeepsEnds(s, {'\''});
  }

  /** The strips run in a fixed order, so quotes inside other quotes
      survive: a backtick-quoted text inside double quotes keeps its
      backticks. */
  lemma StripQuotesNested(x: string)
    ensures StripQuotes("\"`" + x + "`\"") == "`" + x + "`"
  {
    var s := "\"`" + x + "`\"";
    assert s[0] == '"' && s[1] == '`' && s[|s| - 1] == '"' && s[|s| - 2] == '`';
    var b := Strip(s, {'`'});
    assert b == s;
    TrimStartOne(s, {'"'});
    var t := s[1..];
    TrimEndOne(t, {'"'});
    var c := Strip(b, {'"'});
    assert c == t[..|t| - 1];
    assert c == "`" + x + "`";
    assert Strip(c, {'\''}) == c;
  }

  /** tools.py:247-249: a non-empty path is stripped of whitespace, then of
      backticks, then of double quotes, then of single quotes, each at both
      ends only; a missing or empty path is passed on as it is. */
  function CleanFilePath(path: Option<string>): (r: Option<string>)
    ensures r.Some? <==> path.Some?
    ensures r.Some? && r.value != [] ==> r.value[0] != '\'' && r.value[|r.value| - 1] != '\''
  {
    match path
    case None => None
    case Some(p) =>
      if p == [] then path
      else Some(StripQuotes(Strip(p, Whitespace)))
  }

  /** The cleaned path is a piece of the given one. */
  lemma CleanFilePathInfix(p: string)
    ensures Contains(p, CleanFilePath(Some(p)).value)
  {
    if p == [] {
      assert OccursAt(p, p, 0);
    } else {
      var a := Strip(p, Whitespace);
      var b := Strip(a, {'`'});
      var c := Strip(b, {'"'});
      var d := Strip(c, {'\''});
      StripIsInfix(p, Whitespace);
      StripIsInfix(a, {'`'});
      StripIsInfix(b, {'"'});
      StripIsInfix(c, {'\''});
      ContainsTrans(p, a, b);
      ContainsTrans(p, b, c);
      ContainsTrans(p, c, d);
    }
  }

  /** A path with nothing to strip at its ends is kept as it is. */
  lemma CleanFilePathKeepsClean(p: string)
    requires p != []
    requires p[0] !in Whitespace && !IsQuote(p[0])
    requires p[|p| - 1] !in Whitespace && !IsQuote(p[|p| - 1])
    ensures CleanFilePath(Some(p)) == Some(p)
  {
    assert Strip(p, Whitespace) == p;
    StripQuotesKeeps(p);
  }

  /** A double-quoted text has no whitespace at its ends to strip. */
  lemma QuotedKeepsSpace(p: string)
    requires p != [] && p[0] == '"' && p[|p| - 1] == '"'
    ensures Strip(p, Whitespace) == p
  {
  }

  /** A path written as "`x`" comes out as `x`, backticks kept. */
  lemma CleanFilePathOrder(x: string)
    ensures CleanFilePath(Some("\"`" + x + "`\"")) == Some("`" + x + "`")
  {
    QuotedKeepsSpace("\"`" + x + "`\"");
    StripQuotesNested(x);
  }

  /** The characters `[a-zA-Z0-9_/-]` a branch name may keep. */
  predicate IsBranchChar(c: char) {
    ('a' <= c <= 'z') || ('A' <= c <= 'Z') || ('0' <= c <= '9') || c == '_' || c == '/' || c == '-'
  }

  /** Every character of `b` is one a branch name may keep. */
  predicate AllBranchChars(b: string) {
    forall k :: 0 <= k < |b| ==> IsBranchChar(b[k])
  }

  /** `re.sub(r'[^a-zA-Z0-9_/-]', '-', branch)`: each disallowed character
      becomes one `-`. */
  function ReplaceDisallowed(branch: string): (r: string)
    ensures |r| == |branch|
    ensures forall k :: 0 <= k < |r| ==> r[k] == if IsBranchChar(branch[k]) then branch[k] else '-'
  {
    if branch == [] then []
    else [if IsBranchChar(branch[0]) then branch[0] else '-'] + ReplaceDisallowed(branch[1..])
  }

  const FallbackBranch := "bugfix/patch"

  /** tools.py:251-256: disallowed characters replaced, then `/` stripped
      from both ends, then `-`, and "bugfix/patch" when nothing is left. */
  function SanitiseBranch(branch: string): string {
    var replaced := ReplaceDisallowed(branch);
    var stripped := Strip(Strip(replaced, {'/'}), {'-'});
    if stripped == [] then FallbackBranch else stripped
  }

  /** A name `create_draft_pr` accepts: non-empty, made of allowed
      characters, and neither starting nor ending with `-`. */
  predicate ValidBranch(r: string) {
    r != [] && AllBranchChars(r) && r[0] != '-' && r[|r| - 1] != '-'
  }

  /** The sanitised name is never empty, holds only allowed characters,
      neither starts nor ends with `-`, and is no longer than the given
      name or the fallback. */
  lemma SanitiseBranchValid(branch: string)
    ensures ValidBranch(SanitiseBranch(branch))
    ensures |SanitiseBranch(branch)| <= |branch| || SanitiseBranch(branch) == FallbackBranch
  {
    var replaced := ReplaceDisallowed(branch);
    var b := Strip(Strip(replaced, {'/'}), {'-'});
    if b == [] {
      assert SanitiseBranch(branch) == FallbackBranch;
      FallbackValid();
    } else {
      assert SanitiseBranch(branch) == b;
      ReplacedValid(branch);
      StrippedBranchValid(replaced);
    }
  }

  lemma FallbackValid()
    ensures ValidBranch(FallbackBranch)
  {
    assert FallbackBranch[0] == 'b' && FallbackBranch[11] == 'h';
  }

  lemma ReplacedValid(branch: string)
    ensures AllBranchChars(ReplaceDisallowed(branch))
  {
  }

  /** Stripping `/` and then `-` keeps only characters already there, and
      leaves no `-` at either end. */
  lemma StrippedBranchValid(replaced: string)
    requires AllBranchChars(replaced)
    ensures var b := Strip(Strip(replaced, {'/'}), {'-'});
      b != [] ==> ValidBranch(b)
  {
    var a := Strip(replaced, {'/'});
    StripIsInfix(replaced, {'/'});
    StripIsInfix(a, {'-'});
    var b := Strip(a, {'-'});
    forall k | 0 <= k < |b|
      ensures IsBranchChar(b[k])
    {
      assert b[k] in b;
      assert b[k] in replaced;
    }
  }

  /** `/` is stripped before `-`, so a `/` behind a leading `-` survives,
      and sanitising twice can change the name again. */
  lemma SanitiseBranchKeepsSlash()
    ensures SanitiseBranch("-/x") == "/x"
    ensures SanitiseBranch(SanitiseBranch("-/x")) == "x"
  {
    assert "-/x" == "-" + "/x";
    SanitiseBranchDashSlash("/x");
    SanitiseBranchSlash();
  }

  /** A leading `-` shields the `/` behind it from the `/` strip: the `-`
      goes, the `/` stays. */
  lemma SanitiseBranchDashSlash(x: string)
    requires |x| >= 2 && x[0] == '/' && AllBranchChars(x) && x[|x| - 1] !in {'/', '-'}
    ensures SanitiseBranch("-" + x) == x
  {
    DashAllowed(x);
    assert Strip("-" + x, {'/'}) == "-" + x;
    StripOneDash(x);
  }

  /** Stripping `-` from a name with one leading `-` and none at its end
      removes just that one. */
  lemma StripOneDash(x: string)
    requires |x| >= 2 && x[0] != '-' && x[|x| - 1] != '-'
    ensures Strip("-" + x, {'-'}) == x
  {
    var s := "-" + x;
    TrimStartOne(s, {'-'});
    assert s[1..] == x;
  }

  /** Putting a `-` in front keeps a name of allowed characters so, and the
      replacement then changes nothing. */
  lemma DashAllowed(x: string)
    requires AllBranchChars(x)
    ensures ReplaceDisallowed("-" + x) == "-" + x
  {
    var s := "-" + x;
    forall k | 0 <= k < |s|
      ensures IsBranchChar(s[k])
    {
      if k > 0 { assert s[k] == x[k - 1]; }
    }
    ReplaceKeepsAllowed(s);
  }

  /** A name of allowed characters survives the replacement unchanged. */
  lemma ReplaceKeepsAllowed(s: string)
    requires AllBranchChars(s)
    ensures ReplaceDisallowed(s) == s
  {
  }

  /** A leading `/` is stripped. */
  lemma SanitiseBranchSlash()
    ensures SanitiseBranch("/x") == "x"
  {
    assert ReplaceDisallowed("/x") == "/x";
    TrimStartOne("/x", {'/'});
    assert "/x"[1..] == "x";
    assert Strip("x", {'-'}) == "x";
  }

  /** A name made of allowed characters that starts and ends with neither
      `/` nor `-` is kept as it is. */
  lemma SanitiseBranchKeepsValid(branch: string)
    requires branch != [] && forall k :: 0 <= k < |branch| ==> IsBranchChar(branch[k])
    requires branch[0] !in {'/', '-'} && branch[|branch| - 1] !in {'/', '-'}
    ensures SanitiseBranch(branch) == branch
  {
    assert ReplaceDisallowed(branch) == branch;
    assert Strip(branch, {'/'}) == branch;
    assert Strip(branch, {'-'}) == branch;
  }

  const CommitBodyLimit := 500

  /** tools.py:336: the message of the empty commit, with at most the first
      500 characters of the PR body. */
  function CommitMessage(title: string, body: string): string {
    "Fix: " + title + "\n\n" + Take(body, CommitBodyLimit)
  }

  /** For titles without a line break, the message determines the title
      and the first 500 characters of the body, and nothing more. */
  lemma CommitMessageDetermines(t1: string, b1: string, t2: string, b2: string)
    requires '\n' !in t1 && '\n' !in t2
    ensures CommitMessage(t1, b1) == CommitMessage(t2, b2) <==> t1 == t2 && Take(b1, CommitBodyLimit) == Take(b2, CommitBodyLimit)
  {
    var m1, m2 := CommitMessage(t1, b1), CommitMessage(t2, b2);
    if m1 == m2 {
      var c1, c2 := Take(b1, CommitBodyLimit), Take(b2, CommitBodyLimit);
      var s1, s2 := t1 + ("\n\n" + c1), t2 + ("\n\n" + c2);
      assert m1 == "Fix: " + s1 && m2 == "Fix: " + s2;
      assert s1 == m1[5..] == s2;
      SplitAtBreak(t1, "\n\n" + c1, t2, "\n\n" + c2);
      assert c1 == ("\n\n" + c1)[2..] == c2;
    }
  }

  /** The message is at most 507 characters longer than the title. */
  lemma CommitMessageBounded(title: string, body: string)
    ensures |CommitMessage(title, body)| <= |title| + 7 + CommitBodyLimit
  {
  }
}
