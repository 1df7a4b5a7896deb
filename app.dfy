/** The deterministic parts of main.py, the Streamlit front end: the
    normalisation of the configured repository, the choice list built from
    the Sentry issues, and the state an investigation starts from. */
module App {
  import opened Wrappers
  import opened Text
  import opened JsonValues
  import opened Tools
  import opened Agent

  // ----- The repository -----

  /** main.py:14-20: an empty value stays empty, a value starting with
      "http" is kept, `owner/repo` becomes a github.com URL, and anything
      else is dropped with a warning. */
  function NormaliseRepoUrl(url: string): (r: string)
    ensures r == [] || StartsWith(r, "http")
  {
    if url == [] then url
    else if StartsWith(url, "http") then url
    else if '/' in url then
      assert (HttpsPrefix + url)[..4] == "http";
      HttpsPrefix + url
    else []
  }

  /** Which values are kept, which are completed and which are dropped;
      normalising twice is normalising once. */
  lemma NormaliseRepoUrlCases(url: string)
    ensures StartsWith(url, "http") ==> NormaliseRepoUrl(url) == url
    ensures !StartsWith(url, "http") && '/' in url ==> NormaliseRepoUrl(url) == HttpsPrefix + url
    ensures NormaliseRepoUrl(url) == [] <==> url == [] || (!StartsWith(url, "http") && '/' !in url)
    ensures NormaliseRepoUrl(NormaliseRepoUrl(url)) == NormaliseRepoUrl(url)
  {
    if !StartsWith(url, "http") && '/' in url {
      assert (HttpsPrefix + url)[..4] == "http";
    }
  }

  /** A completed `owner/repo` is what `create_draft_pr` turns back into
      the API's `owner/repo`, less a trailing ".git". */
  lemma NormalisedRepoRoundTrip(name: string)
    requires '/' in name && !StartsWith(name, "http")
    ensures ApiRepoName(NormaliseRepoUrl(name)) == DropGitSuffix(name)
  {
    var url := HttpsPrefix + name;
    assert NormaliseRepoUrl(name) == url;
    UnderPrefix(HttpsPrefix, name);
  }

  /** The code as written gives the same `owner/repo` back when the name
      holds no `.git` at all. */
  lemma NormalisedRepoAsWritten(name: string)
    requires '/' in name && !StartsWith(name, "http")
    requires !Contains(name, HttpsPrefix) && !Contains(name, GitSuffix)
    ensures ApiRepoNameAsWritten(NormaliseRepoUrl(name)) == name
  {
    assert NormaliseRepoUrl(name) == HttpsPrefix + name;
    ApiRepoNameAgrees(name);
  }

  /** With a `.git` inside the name, the code as written loses it: the
      completed `o/o.github.io` comes back as `o/ohub.io`. */
  lemma NormalisedRepoAsWrittenDropsInnerGit(x: string, y: string)
    requires '/' in x && '.' !in x && ':' !in x && ':' !in y && !Contains(y, GitSuffix)
    requires !StartsWith(x + GitSuffix + y, "http")
    ensures ApiRepoNameAsWritten(NormaliseRepoUrl(x + GitSuffix + y)) == x + y
  {
    var name := x + GitSuffix + y;
    var i :| 0 <= i < |x| && x[i] == '/';
    assert name[i] == '/';
    assert NormaliseRepoUrl(name) == HttpsPrefix + name;
    ApiRepoNameAsWrittenDropsInnerGit(x, y);
  }

  // ----- The issue list -----

  /** The fields of a Sentry issue that main.py:51-54 reads, already as the
      text the f-string shows; `None` when the issue lacks the key. */
  datatype Issue = Issue(title: Option<string>, id: Option<string>, shortId: Option<string>, count: Option<string>)

  const MaxIssues := 50
  const TitleLimit := 60

  /** main.py:51-56: the display text of an issue. A title longer than 60
      characters is cut to 60 and marked with "...". */
  function DisplayText(issue: Issue): (r: string)
    ensures StartsWith(r, issue.shortId.GetOr("") + ": ")
    ensures EndsWith(r, " (" + issue.count.GetOr("0") + " events)")
  {
    var title := issue.title.GetOr("Unknown Issue");
    var shown := if |title| > TitleLimit then Take(title, TitleLimit) + "..." else title;
    var head := issue.shortId.GetOr("") + ": ";
    var tail := " (" + issue.count.GetOr("0") + " events)";
    var r := head + shown + tail;
    assert r[..|head|] == head;
    assert r[|r| - |tail|..] == tail;
    r
  }

  /** The text between the id and the count: the whole title when it has
      at most 60 characters, otherwise its first 60 and "...". */
  lemma DisplayTextTitle(issue: Issue)
    ensures var title := issue.title.GetOr("Unknown Issue");
      var r := DisplayText(issue);
      var head := issue.shortId.GetOr("") + ": ";
      var tail := " (" + issue.count.GetOr("0") + " events)";
      && |head| + |tail| <= |r|
      && r[|head|..|r| - |tail|] == (if |title| <= TitleLimit then title else title[..TitleLimit] + "...")
      && |r| <= |head| + TitleLimit + 3 + |tail|
  {
    var title := issue.title.GetOr("Unknown Issue");
    var head := issue.shortId.GetOr("") + ": ";
    var tail := " (" + issue.count.GetOr("0") + " events)";
    var shown := if |title| > TitleLimit then Take(title, TitleLimit) + "..." else title;
    var r := DisplayText(issue);
    assert r == head + shown + tail;
    assert r[|head|..|r| - |tail|] == shown;
  }

  /** The choices after the first `issues` have been offered: each display
      text maps to the id of the last issue shown with it. */
  function OptionsOf(issues: seq<Issue>): map<string, string>
    decreases |issues|
  {
    if issues == [] then map[]
    else
      var last := issues[|issues| - 1];
      OptionsOf(issues[..|issues| - 1])[DisplayText(last) := last.id.GetOr("")]
  }

  /** main.py:49-57: the loop that fills `issue_options` from the first 50
      issues. */
  method BuildIssueOptions(issues: seq<Issue>) returns (options: map<string, string>)
    ensures options == OptionsOf(Take(issues, MaxIssues))
  {
    var offered := Take(issues, MaxIssues);
    options := map[];
    var i := 0;
    while i < |offered|
      invariant i <= |offered|
      invariant options == OptionsOf(offered[..i])
    {
      var issue := offered[i];
      assert offered[..i + 1][..i] == offered[..i];
      options := options[DisplayText(issue) := issue.id.GetOr("")];
      i := i + 1;
    }
    assert offered[..i] == offered;
  }

  /** The display texts of the issues. */
  function Texts(issues: seq<Issue>): set<string> {
    set i | 0 <= i < |issues| :: DisplayText(issues[i])
  }

  /** The choices are exactly the display texts of the offered issues. */
  lemma {:induction false} OptionsKeys(issues: seq<Issue>)
    ensures OptionsOf(issues).Keys == Texts(issues)
    decreases |issues|
  {
    if issues != [] {
      var n := |issues| - 1;
      var front := issues[..n];
      OptionsKeys(front);
      TextsSnoc(issues);
    }
  }

  /** The texts of a non-empty list: those of all but the last, and the last one's. */
  lemma TextsSnoc(issues: seq<Issue>)
    requires issues != []
    ensures Texts(issues) == Texts(issues[..|issues| - 1]) + {DisplayText(issues[|issues| - 1])}
  {
    var n := |issues| - 1;
    var front := issues[..n];
    forall k | k in Texts(issues)
      ensures k in Texts(front) + {DisplayText(issues[n])}
    {
      var i :| 0 <= i < |issues| && DisplayText(issues[i]) == k;
      if i < n {
        assert front[i] == issues[i];
      }
    }
    forall k | k in Texts(front)
      ensures k in Texts(issues)
    {
      var i :| 0 <= i < |front| && DisplayText(front[i]) == k;
      assert issues[i] == front[i];
    }
  }

  /** No later issue shows the same text as issue `i`. */
  predicate LastOfItsText(issues: seq<Issue>, i: nat)
    requires i < |issues|
  {
    forall j :: i < j < |issues| ==> DisplayText(issues[j]) != DisplayText(issues[i])
  }

  /** Issues with the same display text overwrite each other: a text leads
      to the id of the last issue that shows it. */
  lemma {:induction false} OptionsLastWins(issues: seq<Issue>, i: nat)
    requires i < |issues| && LastOfItsText(issues, i)
    ensures DisplayText(issues[i]) in OptionsOf(issues)
    ensures OptionsOf(issues)[DisplayText(issues[i])] == issues[i].id.GetOr("")
    decreases |issues|
  {
    var n := |issues| - 1;
    if i < n {
      var front := issues[..n];
      assert front[i] == issues[i];
      assert LastOfItsText(front, i) by {
        forall j | i < j < |front|
          ensures DisplayText(front[j]) != DisplayText(front[i])
        {
          assert front[j] == issues[j];
        }
      }
      OptionsLastWins(front, i);
      assert DisplayText(issues[n]) != DisplayText(issues[i]);
    }
  }

  /** No more choices than issues. */
  lemma {:induction false} OptionsBounded(issues: seq<Issue>)
    ensures |OptionsOf(issues).Keys| <= |issues|
    decreases |issues|
  {
    if issues != [] {
      var front := issues[..|issues| - 1];
      OptionsBounded(front);
      assert OptionsOf(issues).Keys == OptionsOf(front).Keys + {DisplayText(issues[|issues| - 1])};
    }
  }

  /** At most 50 choices, however many issues Sentry returned. */
  lemma OfferedBounded(issues: seq<Issue>)
    ensures |OptionsOf(Take(issues, MaxIssues)).Keys| <= MaxIssues
  {
    OptionsBounded(Take(issues, MaxIssues));
  }

  // ----- The investigation -----

  /** main.py:91-98: the state an investigation starts from. */
  function InitialState(errorId: string, repoUrl: string, sentryData: Json): (s: AgentState)
    ensures s.messages == Some([]) && s.needsApproval == Some(false)
    ensures s.relevantFiles == Some(Object(map[]))
    ensures s.errorId == Some(errorId) && s.repoUrl == Some(repoUrl) && s.sentryData == Some(sentryData)
    ensures Keys(s) == {ErrorIdKey, RepoUrlKey, SentryDataKey, MessagesKey, NeedsApprovalKey, RelevantFilesKey}
  {
    NoKeys.(
      errorId := Some(errorId), repoUrl := Some(repoUrl), sentryData := Some(sentryData),
      messages := Some([]), needsApproval := Some(false), relevantFiles := Some(Object(map[])))
  }

  /** main.py:71-74: an investigation starts only for a selected issue and
      a repository that survived normalisation. */
  predicate StartsInvestigation(errorId: string, repoUrl: string) {
    errorId != [] && repoUrl != []
  }

  /** From the front end's initial state the run gets through exactly when
      the Sentry data and the browser analysis can be read; it then ends
      with `needs_approval` true and the PR already requested, although the
      state started with `needs_approval` false. */
  lemma InvestigationRun(errorId: string, repoUrl: string, sentryData: Json, svc: Services)
    requires StartsInvestigation(errorId, repoUrl)
    ensures var s := InitialState(errorId, repoUrl, sentryData);
      Run(s, svc).Some? <==>
        && ErrorFieldsOf(sentryData).Some?
        && FilesCount(AnalysisOf(svc)).Some?
        && FilesIterable(Get(AnalysisOf(svc), "files", Array([])).value)
    ensures var s := InitialState(errorId, repoUrl, sentryData);
      Run(s, svc).Some? ==>
        && Run(s, svc).value.needsApproval == Some(true)
        && Run(s, svc).value.messages == Some([PrMessage(svc.prOutcome)])
        && Run(s, svc).value.finalPrUrl.Some?
  {
    var s := InitialState(errorId, repoUrl, sentryData);
    RunSteps(s, svc);
    if RunCompletes(s, svc) {
      RunResult(s, svc);
    }
  }
}
