/** The pipeline of agent.py: the state record, the five nodes as functions
    from a state (and what the outside services answered) to the keys they
    return, the merge of those keys into the state, and the fixed order in
    which the graph runs the nodes.

    The services (the browser agent, the language model, the sandbox and
    GitHub) are parameters: each node receives what its service answered.
    A node that raises is `None`. */
module Agent {
  import opened Wrappers
  import opened Text
  import opened Decimal
  import opened JsonValues
  import opened FixParser
  import opened ParserFacts
  import opened Tools

  // ----- The state -----

  /** agent.py:16-28. A `TypedDict` need not hold every key, so each field
      is optional and `None` is a missing key. The same record stands for
      the partial dictionaries the nodes return. */
  datatype AgentState = AgentState(
    errorId: Option<string>,
    sentryData: Option<Json>,
    repoUrl: Option<string>,
    workspaceId: Option<string>,
    reproductionSteps: Option<string>,
    proposedFix: Option<string>,
    githubIssues: Option<Json>,
    finalPrUrl: Option<string>,
    prNumber: Option<int>,
    messages: Option<seq<string>>,
    needsApproval: Option<bool>,
    relevantFiles: Option<Json>)

  /** The empty dictionary. */
  const NoKeys := AgentState(None, None, None, None, None, None, None, None, None, None, None, None)

  /** The keys of `AgentState`, one per field. */
  datatype Key =
    | ErrorIdKey | SentryDataKey | RepoUrlKey | WorkspaceIdKey | ReproductionStepsKey | ProposedFixKey
    | GithubIssuesKey | FinalPrUrlKey | PrNumberKey | MessagesKey | NeedsApprovalKey | RelevantFilesKey

  /** The state or update holds key `k`. */
  predicate Holds(s: AgentState, k: Key) {
    match k
    case ErrorIdKey => s.errorId.Some?
    case SentryDataKey => s.sentryData.Some?
    case RepoUrlKey => s.repoUrl.Some?
    case WorkspaceIdKey => s.workspaceId.Some?
    case ReproductionStepsKey => s.reproductionSteps.Some?
    case ProposedFixKey => s.proposedFix.Some?
    case GithubIssuesKey => s.githubIssues.Some?
    case FinalPrUrlKey => s.finalPrUrl.Some?
    case PrNumberKey => s.prNumber.Some?
    case MessagesKey => s.messages.Some?
    case NeedsApprovalKey => s.needsApproval.Some?
    case RelevantFilesKey => s.relevantFiles.Some?
  }

  /** The keys a state or an update holds. */
  function Keys(s: AgentState): set<Key> {
    set k: Key | Holds(s, k)
  }

  function Pick<T>(before: Option<T>, after: Option<T>): (r: Option<T>)
    ensures r.Some? <==> before.Some? || after.Some?
  {
    if after.Some? then after else before
  }

  /** How the graph folds a node's answer into the state. No key has a
      reducer, so this is taken to be LangGraph's default for such keys:
      each returned key replaces the old value and the others stay. */
  function Merge(s: AgentState, u: AgentState): AgentState {
    AgentState(
      Pick(s.errorId, u.errorId),
      Pick(s.sentryData, u.sentryData),
      Pick(s.repoUrl, u.repoUrl),
      Pick(s.workspaceId, u.workspaceId),
      Pick(s.reproductionSteps, u.reproductionSteps),
      Pick(s.proposedFix, u.proposedFix),
      Pick(s.githubIssues, u.githubIssues),
      Pick(s.finalPrUrl, u.finalPrUrl),
      Pick(s.prNumber, u.prNumber),
      Pick(s.messages, u.messages),
      Pick(s.needsApproval, u.needsApproval),
      Pick(s.relevantFiles, u.relevantFiles))
  }

  /** The merged state holds the keys of both sides and no others. */
  lemma MergeKeys(s: AgentState, u: AgentState)
    ensures Keys(Merge(s, u)) == Keys(s) + Keys(u)
  {
    MergeHolds(s, u);
  }

  /** Each key is held after the merge exactly when either side holds it. */
  lemma MergeHolds(s: AgentState, u: AgentState)
    ensures forall k: Key :: Holds(Merge(s, u), k) <==> Holds(s, k) || Holds(u, k)
  {
  }

  /** An empty answer changes nothing, merging a state into itself changes
      nothing, and merging the same answer twice is merging it once. */
  lemma MergeNeutral(s: AgentState, u: AgentState)
    ensures Merge(s, NoKeys) == s
    ensures Merge(NoKeys, s) == s
    ensures Merge(s, s) == s
    ensures Merge(Merge(s, u), u) == Merge(s, u)
  {
  }

  /** Merging two answers one after the other is merging their merge. */
  lemma MergeAssociative(s: AgentState, u: AgentState, v: AgentState)
    ensures Merge(Merge(s, u), v) == Merge(s, Merge(u, v))
  {
  }

  // ----- sentry_analysis -----

  /** `len(files_analysis.get('files', []))`; `None` where Python raises:
      the analysis is not a dictionary, or its `files` has no length. */
  function FilesCount(analysis: Json): Option<nat> {
    match Get(analysis, "files", Array([]))
    case None => None
    case Some(files) => Len(files)
  }

  function FoundMessage(count: nat): string {
    "Found " + NatToString(count) + " relevant files using browser analysis"
  }

  /** agent.py:30-41. `parsed` and `output` are the browser agent's answer
      as `find_files_from_sentry_issue` sees it (tools.py:120-130). The node
      raises on a missing `repo_url` or `sentry_data`, on Sentry data the
      error fields cannot be read from (tools.py:56-63), and on an analysis
      whose files cannot be counted. */
  function SentryAnalysisNode(state: AgentState, parsed: Result<Json, string>, output: string): (r: Option<AgentState>)
    ensures r.Some? <==>
      && state.repoUrl.Some? && state.sentryData.Some?
      && ErrorFieldsOf(state.sentryData.value).Some?
      && FilesCount(FilesAnalysis(parsed, output)).Some?
    ensures r.Some? ==> r.value.relevantFiles == Some(FilesAnalysis(parsed, output))
    ensures r.Some? ==> r.value.messages == Some([FoundMessage(FilesCount(FilesAnalysis(parsed, output)).value)])
  {
    if state.repoUrl.None? || state.sentryData.None? || ErrorFieldsOf(state.sentryData.value).None? then None
    else
      var analysis := FilesAnalysis(parsed, output);
      match FilesCount(analysis)
      case None => None
      case Some(count) =>
        Some(NoKeys.(relevantFiles := Some(analysis), messages := Some([FoundMessage(count)])))
  }

  /** The node answers the analysis and a message, nothing else. */
  lemma SentryAnalysisKeys(state: AgentState, parsed: Result<Json, string>, output: string)
    ensures var r := SentryAnalysisNode(state, parsed, output);
      r.Some? ==> Keys(r.value) == {RelevantFilesKey, MessagesKey}
  {
    var r := SentryAnalysisNode(state, parsed, output);
    if r.Some? {
      forall k: Key
        ensures Holds(r.value, k) <==> k in {RelevantFilesKey, MessagesKey}
      {
      }
    }
  }

  /** When the browser's answer does not parse, the node reports no files. */
  lemma SentryAnalysisUnparsed(state: AgentState, error: string, output: string)
    requires state.repoUrl.Some? && state.sentryData.Some? && ErrorFieldsOf(state.sentryData.value).Some?
    ensures SentryAnalysisNode(state, Failure(error), output).Some?
    ensures SentryAnalysisNode(state, Failure(error), output).value.messages == Some([FoundMessage(0)])
  {
  }

  // ----- propose_fix -----

  /** agent.py:107-116: `for file_info in files_list: file_info.get(...)`
      runs only when the list is true, and then needs a list of dictionaries;
      any other true value raises (a string or a dictionary iterates over
      strings, a number is not iterable). */
  predicate FilesIterable(files: Json) {
    !Truthy(files) || (files.Array? && forall k :: 0 <= k < |files.items| ==> files.items[k].Object?)
  }

  /** What the prompt of agent.py:101-125 reads without raising. */
  predicate PromptReadable(state: AgentState) {
    var relevant := state.relevantFiles.GetOr(Object(map[]));
    && relevant.Object?
    && FilesIterable(Get(relevant, "files", Array([])).value)
    && ErrorFieldsOf(state.sentryData.GetOr(Object(map[]))).Some?
  }

  /** agent.py:97-169. `response` is the language model's answer to the
      prompt; the node stores it and always asks for approval. */
  function ProposeFixNode(state: AgentState, response: string): (r: Option<AgentState>)
    ensures r.Some? <==> PromptReadable(state)
    ensures r.Some? ==> r.value.proposedFix == Some(response) && r.value.needsApproval == Some(true)
  {
    if PromptReadable(state) then Some(NoKeys.(proposedFix := Some(response), needsApproval := Some(true)))
    else None
  }

  /** The node answers the model's text and the approval flag, nothing
      else. */
  lemma ProposeFixKeys(state: AgentState, response: string)
    ensures var r := ProposeFixNode(state, response);
      r.Some? ==> Keys(r.value) == {ProposedFixKey, NeedsApprovalKey}
  {
    var r := ProposeFixNode(state, response);
    if r.Some? {
      forall k: Key
        ensures Holds(r.value, k) <==> k in {ProposedFixKey, NeedsApprovalKey}
      {
      }
    }
  }

  // ----- daytona -----

  const DaytonaPrefix := "Fixed code executed in Daytona. Result: "

  /** What `daytona_node` returns, and the file the sandbox overwrites
      before it runs the application. */
  datatype DaytonaStep = DaytonaStep(update: AgentState, upload: Option<Upload>)

  /** agent.py:43-90, with the sandbox of tools.py:167-231 answering
      `workspaceId`, and the exit code and output of the run. The node
      raises on a missing `repo_url`; the code and file come from the scan
      of the proposed fix (`SandboxTargetOf`), and the message quotes the
      first 100 characters of the report. */
  function DaytonaNode(state: AgentState, workspaceId: string, exitCode: int, runOutput: Option<string>): (r: Option<DaytonaStep>)
    ensures r.Some? <==> state.repoUrl.Some?
    ensures r.Some? ==> r.value.update.workspaceId == Some(workspaceId)
    ensures r.Some? ==> r.value.update.reproductionSteps == Some(RunReport(exitCode, runOutput))
    ensures r.Some? ==> r.value.update.messages == Some([DaytonaMessage(RunReport(exitCode, runOutput))])
    ensures r.Some? ==>
      var target := SandboxTargetOf(state.proposedFix.GetOr(""));
      r.value.upload == PlannedUpload(state.repoUrl.value, target.fileToFix, target.fixedCode)
  {
    match state.repoUrl
    case None => None
    case Some(repoUrl) =>
      var target := SandboxTargetOf(state.proposedFix.GetOr(""));
      Some(DaytonaStep(
        DaytonaUpdate(workspaceId, RunReport(exitCode, runOutput)),
        PlannedUpload(repoUrl, target.fileToFix, target.fixedCode)))
  }

  /** The keys `daytona_node` returns (agent.py:86-90). */
  function DaytonaUpdate(workspaceId: string, report: string): AgentState {
    NoKeys.(workspaceId := Some(workspaceId), reproductionSteps := Some(report),
            messages := Some([DaytonaMessage(report)]))
  }

  /** The daytona message: the fixed prefix, then the start of the report
      (at most 100 characters), then "...". */
  function DaytonaMessage(report: string): (m: string)
    ensures StartsWith(m, DaytonaPrefix) && EndsWith(m, "...")
    ensures |DaytonaPrefix| + 3 <= |m| <= |DaytonaPrefix| + 103
    ensures StartsWith(report, m[|DaytonaPrefix|..|m| - 3])
    ensures |report| <= 100 ==> m[|DaytonaPrefix|..|m| - 3] == report
  {
    var cut := Take(report, 100);
    var m := DaytonaPrefix + cut + "...";
    assert m[|DaytonaPrefix|..|m| - 3] == cut;
    m
  }

  /** The message shows whether the run failed: right after the prefix
      comes the report's cross exactly when the exit code is not zero. */
  lemma DaytonaMessageClassifies(exitCode: int, runOutput: Option<string>)
    ensures var m := DaytonaMessage(RunReport(exitCode, runOutput));
      exitCode != 0 <==> m[|DaytonaPrefix|] == Cross[0]
  {
    var report := RunReport(exitCode, runOutput);
    RunReportClassifies(exitCode, runOutput);
    assert report[0] == if exitCode != 0 then Cross[0] else Tick[0];
    DaytonaMessageStart(report);
  }

  lemma DaytonaMessageStart(report: string)
    requires report != []
    ensures DaytonaMessage(report)[|DaytonaPrefix|] == report[0]
  {
    var m := DaytonaMessage(report);
    assert m[|DaytonaPrefix|..|m| - 3][0] == report[0];
  }

  /** The scan only writes to the sandbox when the proposed fix names a
      file and holds a closed non-empty code block before that file's
      block ends. */
  lemma DaytonaUploads(state: AgentState, workspaceId: string, exitCode: int, runOutput: Option<string>)
    requires state.repoUrl.Some?
    ensures var target := SandboxTargetOf(state.proposedFix.GetOr(""));
      var upload := DaytonaNode(state, workspaceId, exitCode, runOutput).value.upload;
      && (upload.Some? <==> ShouldApplyFix(target.fileToFix, target.fixedCode))
      && (upload.Some? ==> upload.value.content == target.fixedCode.value)
  {
  }

  /** The node answers the workspace, the report and a message, nothing
      else. */
  lemma DaytonaKeys(state: AgentState, workspaceId: string, exitCode: int, runOutput: Option<string>)
    ensures var r := DaytonaNode(state, workspaceId, exitCode, runOutput);
      r.Some? ==> Keys(r.value.update) == {WorkspaceIdKey, ReproductionStepsKey, MessagesKey}
  {
    DaytonaUpdateKeys(workspaceId, RunReport(exitCode, runOutput));
  }

  /** The keys of the daytona answer. */
  lemma DaytonaUpdateKeys(workspaceId: string, report: string)
    ensures Keys(DaytonaUpdate(workspaceId, report)) == {WorkspaceIdKey, ReproductionStepsKey, MessagesKey}
  {
    forall k: Key
      ensures Holds(DaytonaUpdate(workspaceId, report), k) <==> k in {WorkspaceIdKey, ReproductionStepsKey, MessagesKey}
    {
    }
  }

  // ----- approval -----

  /** agent.py:171-176: the node hands back the state it was given. */
  function HumanApprovalNode(state: AgentState): (r: AgentState)
    ensures Keys(r) == Keys(state)
  {
    state
  }

  /** Merging the approval node's answer leaves the state as it was. */
  lemma ApprovalChangesNothing(state: AgentState)
    ensures Merge(state, HumanApprovalNode(state)) == state
  {
    MergeNeutral(state, state);
  }

  // ----- create_pr -----

  const BranchPrefix := "bugfix/"
  const BranchIdLimit := 20

  /** agent.py:241-242: "bugfix/" and the first 20 characters of the error
      id, "bugfix" when the state has none. */
  function BranchFor(errorId: Option<string>): (r: string)
    ensures StartsWith(r, BranchPrefix) && |r| <= |BranchPrefix| + BranchIdLimit
    ensures StartsWith(errorId.GetOr("bugfix"), r[|BranchPrefix|..])
    ensures |errorId.GetOr("bugfix")| <= BranchIdLimit ==> r == BranchPrefix + errorId.GetOr("bugfix")
  {
    var id := errorId.GetOr("bugfix");
    var r := BranchPrefix + Take(id, BranchIdLimit);
    assert r[|BranchPrefix|..] == Take(id, BranchIdLimit);
    r
  }

  /** The arguments `create_draft_pr` works with after its own clean-up
      (tools.py:240-256) and the commit message it sends (tools.py:336).
      The cleaned path and the code are computed but not sent. */
  datatype PrRequest = PrRequest(
    repo: string, branch: string, title: string, body: string,
    filePath: Option<string>, fileContent: Option<string>, commitMessage: string)

  /** agent.py:233-255 with tools.py:240-256 and 336: the PR information is
      extracted from the proposed fix and handed to `create_draft_pr`, as
      written: the title is the one `extract_pr_info` reports and the
      repository name is cleaned as tools.py:241-244 does it. */
  function PrRequestOf(state: AgentState): (r: PrRequest)
    ensures r.title != [] && r.branch != []
    ensures |r.branch| <= |BranchFor(state.errorId)| || r.branch == FallbackBranch
  {
    var info := PrInfoOf(state.proposedFix.GetOr(""));
    TitleClean(state.proposedFix.GetOr(""));
    SanitiseBranchValid(BranchFor(state.errorId));
    PrRequest(
      ApiRepoNameAsWritten(state.repoUrl.GetOr("")),
      SanitiseBranch(BranchFor(state.errorId)),
      info.title,
      info.description,
      CleanFilePath(info.filePath),
      info.code,
      CommitMessage(info.title, info.description))
  }

  /** The request the node evidently means to send: the title takes the
      corrected reading of agent.py:193-194 (`LayoutTitle`) and the
      repository name the corrected reading of tools.py:242 (`ApiRepoName`). */
  function PrRequestCorrected(state: AgentState): (r: PrRequest)
    ensures r.title != [] && r.branch != []
    ensures |r.branch| <= |BranchFor(state.errorId)| || r.branch == FallbackBranch
  {
    var info := PrInfoOf(state.proposedFix.GetOr(""));
    var title := LayoutTitle(state.proposedFix.GetOr(""));
    LayoutTitleClean(state.proposedFix.GetOr(""));
    SanitiseBranchValid(BranchFor(state.errorId));
    PrRequest(
      ApiRepoName(state.repoUrl.GetOr("")),
      SanitiseBranch(BranchFor(state.errorId)),
      title,
      info.description,
      CleanFilePath(info.filePath),
      info.code,
      CommitMessage(title, info.description))
  }

  /** Where the title line of the proposed fix carries its value (or is the
      last line, or is missing) and the repository is a GitHub web URL whose
      name holds neither the prefix nor `.git`, the request as written and
      the corrected one are the same. */
  lemma PrRequestsAgree(state: AgentState, name: string)
    requires state.repoUrl == Some(HttpsPrefix + name)
    requires !Contains(name, HttpsPrefix) && !Contains(name, GitSuffix)
    requires var lines := Split(state.proposedFix.GetOr(""), '\n');
      var k := LastLineWith(lines, |lines|, TitleMarker);
      k.None? || ValueAfter(lines[k.value], TitleMarker) != [] || k.value + 1 == |lines|
    ensures PrRequestOf(state) == PrRequestCorrected(state)
  {
    LayoutTitleAgrees(state.proposedFix.GetOr(""));
    ApiRepoNameAgrees(name);
  }

  /** What `create_draft_pr` did: the URL and number of the draft PR, or
      the text of the exception it raised. */
  datatype PrOutcome = Created(url: string, number: int) | Failed(error: string)

  const CreatedPrefix := Tick + " Draft PR created: "
  const FailedPrefix := Cross + " Failed to create PR: "

  /** The message `create_pr_node` reports: a tick and the URL, or a
      cross and the error. */
  function PrMessage(outcome: PrOutcome): (m: string)
    ensures StartsWith(m, CreatedPrefix) <==> outcome.Created?
    ensures StartsWith(m, FailedPrefix) <==> outcome.Failed?
    ensures outcome.Created? ==> EndsWith(m, outcome.url)
    ensures outcome.Failed? ==> EndsWith(m, outcome.error)
  {
    match outcome
    case Created(url, _) =>
      var m := CreatedPrefix + url;
      assert m[0] != FailedPrefix[0];
      m
    case Failed(e) =>
      var m := FailedPrefix + e;
      assert m[0] != CreatedPrefix[0];
      m
  }

  /** agent.py:231-273: what `create_pr_node` returns once `create_draft_pr`
      has been called with `PrRequestOf(state)` and has answered `outcome`.
      The node never raises: a failure is reported in the message and
      leaves an empty URL. */
  function CreatePrNode(outcome: PrOutcome): (r: AgentState)
    ensures r.finalPrUrl == Some(if outcome.Created? then outcome.url else "")
    ensures r.messages == Some([PrMessage(outcome)])
    ensures r.prNumber.Some? <==> outcome.Created?
    ensures outcome.Created? ==> r.prNumber == Some(outcome.number)
  {
    match outcome
    case Created(url, number) =>
      NoKeys.(finalPrUrl := Some(url), prNumber := Some(number), messages := Some([PrMessage(outcome)]))
    case Failed(e) =>
      NoKeys.(finalPrUrl := Some(""), messages := Some([PrMessage(outcome)]))
  }

  /** The node answers with the URL, the message and, when a PR was
      created, its number; nothing else. */
  lemma CreatePrKeys(outcome: PrOutcome)
    ensures Keys(CreatePrNode(outcome)) ==
      if outcome.Created? then {FinalPrUrlKey, PrNumberKey, MessagesKey} else {FinalPrUrlKey, MessagesKey}
  {
    var expected := if outcome.Created? then {FinalPrUrlKey, PrNumberKey, MessagesKey} else {FinalPrUrlKey, MessagesKey};
    forall k: Key
      ensures Holds(CreatePrNode(outcome), k) <==> k in expected
    {
    }
  }

  // ----- The graph -----

  /** The nodes of agent.py:275-280 and the end marker. */
  datatype Node = SentryAnalysis | ProposeFix | Daytona | Approval | CreatePr | End

  /** agent.py:288: the entry point. */
  const Entry := SentryAnalysis

  /** How many steps a node is from the end. */
  function Rank(n: Node): nat {
    match n
    case SentryAnalysis => 5
    case ProposeFix => 4
    case Daytona => 3
    case Approval => 2
    case CreatePr => 1
    case End => 0
  }

  /** agent.py:282-286: the single outgoing edge of each node. */
  function Next(n: Node): (r: Node)
    ensures n != End ==> Rank(r) == Rank(n) - 1
  {
    match n
    case SentryAnalysis => ProposeFix
    case ProposeFix => Daytona
    case Daytona => Approval
    case Approval => CreatePr
    case CreatePr => End
    case End => End
  }

  /** The nodes a run starting at `n` visits before it reaches the end:
      one step closer to the end each time, so no node comes twice. */
  function Route(n: Node): (r: seq<Node>)
    ensures |r| == Rank(n)
    ensures forall i :: 0 <= i < |r| ==> Rank(r[i]) == Rank(n) - i
    decreases Rank(n)
  {
    if n == End then [] else [n] + Route(Next(n))
  }

  /** A run visits each node once, in the order of the edges, and ends. */
  lemma RouteFromEntry()
    ensures Route(Entry) == [SentryAnalysis, ProposeFix, Daytona, Approval, CreatePr]
    ensures forall i, j :: 0 <= i < j < |Route(Entry)| ==> Route(Entry)[i] != Route(Entry)[j]
  {
    assert Route(CreatePr) == [CreatePr];
    assert Route(Approval) == [Approval, CreatePr];
    assert Route(Daytona) == [Daytona, Approval, CreatePr];
    assert Route(ProposeFix) == [ProposeFix, Daytona, Approval, CreatePr];
  }

  // ----- A run -----

  /** What the outside services answer during one run: the browser agent
      (parsed, or the decode error, and its raw text), the language model,
      the sandbox (its id, the exit code and output of the application)
      and GitHub. */
  datatype Services = Services(
    browserAnswer: Result<Json, string>, browserOutput: string,
    llmResponse: string,
    workspaceId: string, exitCode: int, runOutput: Option<string>,
    prOutcome: PrOutcome)

  /** The keys node `n` answers with in state `s`; `None` when it raises. */
  function Answer(n: Node, s: AgentState, svc: Services): Option<AgentState> {
    match n
    case SentryAnalysis => SentryAnalysisNode(s, svc.browserAnswer, svc.browserOutput)
    case ProposeFix => ProposeFixNode(s, svc.llmResponse)
    case Daytona =>
      (match DaytonaNode(s, svc.workspaceId, svc.exitCode, svc.runOutput)
       case None => None
       case Some(step) => Some(step.update))
    case Approval => Some(HumanApprovalNode(s))
    case CreatePr => Some(CreatePrNode(svc.prOutcome))
    case End => Some(NoKeys)
  }

  /** The nodes run one after the other, each answer merged into the state;
      an exception ends the run. */
  function RunNodes(nodes: seq<Node>, s: AgentState, svc: Services): Option<AgentState>
    decreases |nodes|
  {
    if nodes == [] then Some(s)
    else match Answer(nodes[0], s, svc)
      case None => None
      case Some(u) => RunNodes(nodes[1..], Merge(s, u), svc)
  }

  /** One pass of the compiled graph from the entry point. */
  function Run(initial: AgentState, svc: Services): Option<AgentState> {
    RunNodes(Route(Entry), initial, svc)
  }

  /** The browser analysis the run stores. */
  function AnalysisOf(svc: Services): Json {
    FilesAnalysis(svc.browserAnswer, svc.browserOutput)
  }

  /** When a run gets through: the Sentry data can be read, the state holds
      the repository, and the browser analysis is a dictionary whose files
      can be counted and listed. */
  predicate RunCompletes(initial: AgentState, svc: Services) {
    && initial.repoUrl.Some? && initial.sentryData.Some?
    && ErrorFieldsOf(initial.sentryData.value).Some?
    && FilesCount(AnalysisOf(svc)).Some?
    && FilesIterable(Get(AnalysisOf(svc), "files", Array([])).value)
  }

  /** The state after the three nodes before approval, when they succeed. */
  function BeforeApproval(initial: AgentState, svc: Services): AgentState
    requires RunCompletes(initial, svc)
  {
    var s1 := Merge(initial, SentryAnalysisNode(initial, svc.browserAnswer, svc.browserOutput).value);
    var s2 := Merge(s1, ProposeFixNode(s1, svc.llmResponse).value);
    Merge(s2, DaytonaNode(s2, svc.workspaceId, svc.exitCode, svc.runOutput).value.update)
  }

  /** The last two nodes: approval passes the state on, create_pr's
      answer is merged into it. */
  lemma RunTail(s: AgentState, svc: Services)
    ensures RunNodes([Approval, CreatePr], s, svc) == Some(Merge(s, CreatePrNode(svc.prOutcome)))
  {
    var last := Merge(s, CreatePrNode(svc.prOutcome));
    assert RunNodes([], last, svc) == Some(last);
    assert RunNodes([CreatePr], s, svc) == Some(last) by {
      assert [CreatePr][1..] == [];
    }
    ApprovalChangesNothing(s);
    assert [Approval, CreatePr][1..] == [CreatePr];
  }

  lemma RunFromDaytona(s: AgentState, svc: Services)
    ensures RunNodes([Daytona, Approval, CreatePr], s, svc) ==
      match DaytonaNode(s, svc.workspaceId, svc.exitCode, svc.runOutput)
      case None => None
      case Some(step) => Some(Merge(Merge(s, step.update), CreatePrNode(svc.prOutcome)))
  {
    assert [Daytona, Approval, CreatePr][1..] == [Approval, CreatePr];
    var step := DaytonaNode(s, svc.workspaceId, svc.exitCode, svc.runOutput);
    if step.Some? {
      RunTail(Merge(s, step.value.update), svc);
    }
  }

  lemma RunFromProposeFix(s: AgentState, svc: Services)
    ensures RunNodes([ProposeFix, Daytona, Approval, CreatePr], s, svc) ==
      match ProposeFixNode(s, svc.llmResponse)
      case None => None
      case Some(u) => RunNodes([Daytona, Approval, CreatePr], Merge(s, u), svc)
  {
    assert [ProposeFix, Daytona, Approval, CreatePr][1..] == [Daytona, Approval, CreatePr];
  }

  lemma RunFromEntry(initial: AgentState, svc: Services)
    ensures Run(initial, svc) ==
      match SentryAnalysisNode(initial, svc.browserAnswer, svc.browserOutput)
      case None => None
      case Some(u) => RunNodes([ProposeFix, Daytona, Approval, CreatePr], Merge(initial, u), svc)
  {
    RouteFromEntry();
    assert [SentryAnalysis, ProposeFix, Daytona, Approval, CreatePr][1..] == [ProposeFix, Daytona, Approval, CreatePr];
  }

  /** After a successful sentry_analysis the prompt can be read exactly
      when the stored analysis lists its files as dictionaries. */
  lemma PromptAfterSentry(initial: AgentState, svc: Services)
    requires SentryAnalysisNode(initial, svc.browserAnswer, svc.browserOutput).Some?
    ensures var s1 := Merge(initial, SentryAnalysisNode(initial, svc.browserAnswer, svc.browserOutput).value);
      PromptReadable(s1) <==> RunCompletes(initial, svc)
  {
    var s1 := Merge(initial, SentryAnalysisNode(initial, svc.browserAnswer, svc.browserOutput).value);
    assert s1.relevantFiles == Some(AnalysisOf(svc));
    assert s1.sentryData == initial.sentryData;
  }

  /** The run in steps: it fails exactly when one of the first two nodes
      raises, and otherwise ends with the create_pr answer merged into the
      state the approval node passed on unchanged. */
  lemma RunSteps(initial: AgentState, svc: Services)
    ensures Run(initial, svc).Some? <==> RunCompletes(initial, svc)
    ensures RunCompletes(initial, svc) ==>
      Run(initial, svc) == Some(Merge(BeforeApproval(initial, svc), CreatePrNode(svc.prOutcome)))
  {
    RunFromEntry(initial, svc);
    var u1 := SentryAnalysisNode(initial, svc.browserAnswer, svc.browserOutput);
    if u1.Some? {
      var s1 := Merge(initial, u1.value);
      PromptAfterSentry(initial, svc);
      RunFromProposeFix(s1, svc);
      var u2 := ProposeFixNode(s1, svc.llmResponse);
      if u2.Some? {
        var s2 := Merge(s1, u2.value);
        assert s2.repoUrl == initial.repoUrl;
        RunFromDaytona(s2, svc);
      }
    }
  }

  // ----- What the run produces -----

  /** The state a completed run ends in: the model's answer, the analysis,
      the sandbox report and the PR result are stored; `needs_approval` is
      true; `messages` holds only the create_pr message, since each node's
      list replaces the last; the keys no node sets are as they were. */
  lemma RunResult(initial: AgentState, svc: Services)
    requires RunCompletes(initial, svc)
    ensures Run(initial, svc).Some?
    ensures var f := Run(initial, svc).value;
      && f.needsApproval == Some(true)
      && f.proposedFix == Some(svc.llmResponse)
      && f.relevantFiles == Some(AnalysisOf(svc))
      && f.workspaceId == Some(svc.workspaceId)
      && f.reproductionSteps == Some(RunReport(svc.exitCode, svc.runOutput))
      && f.finalPrUrl == Some(if svc.prOutcome.Created? then svc.prOutcome.url else "")
      && f.prNumber == (if svc.prOutcome.Created? then Some(svc.prOutcome.number) else initial.prNumber)
      && f.messages == Some([PrMessage(svc.prOutcome)])
      && f.errorId == initial.errorId && f.repoUrl == initial.repoUrl
      && f.sentryData == initial.sentryData && f.githubIssues == initial.githubIssues
  {
    RunSteps(initial, svc);
  }

  /** The flag the approval buttons set (main.py:147) is read by no node:
      a run ends in the same state whatever `needs_approval` it starts
      with, and creates the PR without waiting. */
  lemma RunIgnoresApprovalFlag(initial: AgentState, svc: Services, flag: Option<bool>)
    ensures Run(initial.(needsApproval := flag), svc) == Run(initial, svc)
  {
    var other := initial.(needsApproval := flag);
    RunSteps(initial, svc);
    RunSteps(other, svc);
    assert RunCompletes(other, svc) == RunCompletes(initial, svc);
    if RunCompletes(initial, svc) {
      RunResult(initial, svc);
      RunResult(other, svc);
    }
  }

  /** The PR that create_pr asks for is built from the model's answer and
      the error id and repository the run started with. */
  lemma RunRequest(initial: AgentState, svc: Services)
    requires RunCompletes(initial, svc)
    ensures PrRequestOf(BeforeApproval(initial, svc)) == PrRequestOf(initial.(proposedFix := Some(svc.llmResponse)))
  {
    var s3 := BeforeApproval(initial, svc);
    assert s3.proposedFix == Some(svc.llmResponse);
    assert s3.errorId == initial.errorId && s3.repoUrl == initial.repoUrl;
  }

  /** The branch `create_draft_pr` uses starts with "bugfix", holds only
      allowed characters and has at most 27 of them: the prefix "bugfix/"
      survives the clean-up except, when the id adds nothing that stays,
      for its slash. */
  lemma PrBranchShape(errorId: Option<string>)
    ensures var b := SanitiseBranch(BranchFor(errorId));
      && StartsWith(b, "bugfix")
      && (forall k :: 0 <= k < |b| ==> IsBranchChar(b[k]))
      && |b| <= |BranchPrefix| + BranchIdLimit
  {
    var raw := BranchFor(errorId);
    var replaced := ReplaceDisallowed(raw);
    RawBranchHead(errorId);
    var a := Strip(replaced, {'/'});
    StripKeepsHead(replaced, {'/'}, 5);
    var d := Strip(a, {'-'});
    StripKeepsHead(a, {'-'}, 5);
    assert d[..6] == "bugfix";
    assert SanitiseBranch(raw) == d;
    SanitiseBranchValid(raw);
  }

  lemma RawBranchHead(errorId: Option<string>)
    ensures var replaced := ReplaceDisallowed(BranchFor(errorId));
      |replaced| >= 7 && replaced[..6] == "bugfix" && replaced[0] == 'b' && replaced[5] == 'x'
  {
    var raw := BranchFor(errorId);
    assert raw[..7] == BranchPrefix;
    var replaced := ReplaceDisallowed(raw);
    assert forall k :: 0 <= k < 6 ==> replaced[k] == raw[k];
  }

  /** `create_draft_pr` cleans the path again, which changes nothing: the
      path `extract_pr_info` found has no quotes and no surrounding
      whitespace. */
  lemma PrPathUnchanged(proposedFix: string)
    ensures CleanFilePath(PrInfoOf(proposedFix).filePath) == PrInfoOf(proposedFix).filePath
  {
    FilePathClean(proposedFix);
    CleanPathKept(PrInfoOf(proposedFix).filePath);
  }

  lemma CleanPathKept(p: Option<string>)
    requires p.Some? ==>
      && (forall c :: c in p.value ==> c !in Quotes)
      && (p.value == [] || (p.value[0] !in Whitespace && p.value[|p.value| - 1] !in Whitespace))
    ensures CleanFilePath(p) == p
  {
    if p.Some? && p.value != [] {
      var s := p.value;
      assert s[0] in s && s[|s| - 1] in s;
      assert !IsQuote(s[0]) && !IsQuote(s[|s| - 1]);
      CleanFilePathKeepsClean(s);
    }
  }
}
