# BugHunter agent — a Dafny model of its pipeline

The repository is a bug-fixing assistant with a Streamlit front end
(main.py). It lists the unresolved issues of a Sentry project and lets the
user pick one. It then runs a LangGraph pipeline (agent.py) over a shared
state record, in five nodes:

1. `sentry_analysis` asks a browser agent which files of the GitHub
   repository cause the error.
2. `propose_fix` asks Gemini for a fix in a fixed answer layout: file to
   fix, fenced code, PR title and PR description.
3. `daytona` picks the file and the code out of that answer, writes them
   into a Daytona sandbox and runs the application there.
4. `approval` passes the state on unchanged.
5. `create_pr` extracts the PR fields from the answer and opens a draft
   pull request through the GitHub REST API.

tools.py holds the calls to the outside services. It also holds the
deterministic steps around them: cutting the search results, reading the
error fields, building the report of a sandbox run, and cleaning the
repository name, file path, branch name and commit message before GitHub
is called.

This project models those deterministic parts and the pipeline around
them.

- `FixParser` (fix_parser.dfy) models the two parsers of the model's
  answer. Each is a method with the source's loop, proved equal to a
  specification function over the answer's lines (`PrInfoOf`,
  `SandboxTargetOf`).
- `ParserFacts` (parser_facts.dfy) proves what those parsers find.
- `Tools` (tools.dfy) holds the pieces of tools.py.
- `Agent` (agent.dfy) holds the state record, the five nodes, the graph
  and a whole run.
- `App` (app.dfy) holds the pieces of main.py.
- `Text`, `Decimal`, `JsonValues` and `Wrappers` model Python's string
  operations, integer formatting, JSON values, and optional and failing
  results.

Modelling choices:

- **External services are parameters.** The browser agent, the language
  model, the sandbox and GitHub are not modelled as programs. A node
  receives what its service answered, and a whole run receives a
  `Services` record of those answers. Every service is assumed to answer:
  a call that raises or times out is not modelled. So "raises exactly
  when" and "succeeds exactly when" below hold for the given answers.
- **A node that raises is `None`,** and so is a run that one of its nodes
  ends.
- **Merging answers into the state.** The state keys have no reducer, so a
  node's answer is merged key by key: each returned key replaces the old
  value and the others stay. This is how the model reads LangGraph's
  default for such keys. One consequence: `messages` holds only the last
  node's messages.
- **The graph** has the single path sentry_analysis → propose_fix →
  daytona → approval → create_pr → END, with no interrupt. One pass of
  `app.stream` therefore already creates the pull request.
  `needs_approval` is set to true by propose_fix but read by no node.

What the code does not have, and the model therefore does not either:

- **No approval gate.** `human_approval_node` (agent.py:171-176) returns
  the state unchanged. The graph (agent.py:282-288) has no interrupt and no
  branch on a decision. The pull request is requested in the same run,
  whatever flag the state starts with (`Agent.RunIgnoresApprovalFlag`).
- **No append-only log.** `messages` has no reducer, so each node's
  messages replace the last node's.
- **Strip order of the branch name.** tools.py:254 strips `/` from both
  ends first and `-` second, so a `/` behind a leading `-` survives, and
  sanitising twice can change the name again
  (`Tools.SanitiseBranchKeepsSlash`).

## Model

| member | source | states |
|---|---|---|
| FixParser.ValueAfter | agent.py:194 | the text after the last marker, stripped: it holds no marker and has no whitespace at either end |
| FixParser.CleanPath | agent.py:201 | the cleaned path holds no backtick or quote, only characters of the value, and no surrounding whitespace |
| FixParser.LastLineWith | agent.py:191-194 | the line a single-line field is read from is the last one carrying its marker; no later line carries it, and none does when the result is absent |
| FixParser.SectionEnd | agent.py:206-208 | the description stops at the first line that starts with `**` and contains a colon, or at the end; no line before it is such a header |
| FixParser.FirstClose | agent.py:64-76 | the scan stops on a fence line that has an odd number of fences before it and at least one line since the last of them |
| FixParser.LastCodeStep | agent.py:217-220 | a newly closed non-empty block becomes the code; an empty one leaves the earlier code |
| FixParser.MarkerCheck | agent.py:193-194 | after line i, the field holds the value of the last marker line among the first i+1 lines |
| FixParser.FileCheck | agent.py:197-201 | after line i, the file path is the cleaned value of the last file-marker line among the first i+1 lines |
| FixParser.DescriptionCheck | agent.py:204-210 | after line i, the inner loop has added the lines up to the next section header to the collected lines, and the description is their stripped join |
| FixParser.CollectRun | agent.py:206-209 | the inner loop appends exactly the lines after the marker up to the next section header or the end |
| FixParser.FenceLine | agent.py:213-222 | a fence opens or closes a block, other lines inside a block are collected, and a closed block is the next block of the specification |
| FixParser.CodeCheck | agent.py:212-222 | after line i, the code is that of the last non-empty block closed so far |
| FixParser.ExtractPrInfo | agent.py:178-229 | the loop returns exactly `PrInfoOf(proposedFix)`, with the defaults for a missing title or description |
| FixParser.ExtractLine | agent.py:191-222 | one pass of the loop body (title, file, description and fence checks) keeps every field equal to its specification value for the lines read so far |
| FixParser.ScanSandboxTarget | agent.py:50-76 | the loop returns exactly `SandboxTargetOf(proposedFix)`: it stops at the first non-empty block |
| FixParser.ClosesAt | agent.py:70-74 | where the scan stops with a non-empty block open, the result is the file named up to that line and that block's code |
| FixParser.StopsAt | agent.py:72-74 | a fence closing a non-empty block before any other did is the first close of the whole answer, so the `break` stops where `SandboxTargetOf` does |
| FixParser.StaysOpen | agent.py:63-76 | any other line lets the scan go on |
| FixParser.FirstCloseStays | agent.py:74 | once the scan has stopped, later lines do not change where |
| ParserFacts.MarkerValueAt | agent.py:193-194 | a field's value comes from the last line carrying its marker, whatever earlier lines said |
| ParserFacts.LastLineIs | agent.py:191-194 | that last line is found |
| ParserFacts.MarkerAbsent | agent.py:182-185 | without a marker line the field stays unset |
| ParserFacts.NoFences | agent.py:213 | without fence lines no fence is recorded |
| ParserFacts.NoBlocks | agent.py:213-222 | without fence lines no block is closed |
| ParserFacts.LastFence | agent.py:213-216 | the last recorded fence is a fence line and no fence line follows it |
| ParserFacts.BlockBetweenFences | agent.py:213-222 | every closed block is exactly the lines strictly between an opening fence (an even number of fences before it) and the closing fence, the next fence after it |
| ParserFacts.FirstNonEmptyStep | agent.py:72-74 | a new block changes the first non-empty one only when there was none and it is non-empty |
| ParserFacts.FirstCloseIsFirstBlock | agent.py:64-76 | the sandbox scan stops at the line closing the first non-empty block, and runs to the end exactly when there is none |
| ParserFacts.CloseKept | agent.py:74 | after the stop, a further line changes neither where nor which block |
| ParserFacts.FirstBlockKept | agent.py:213-222 | a later line leaves the first non-empty block in place |
| ParserFacts.FirstBlockFound | agent.py:70-74 | before any non-empty block, a line closes the first one exactly when the scan stops there |
| ParserFacts.TargetCodeIsFirst | agent.py:63-76 | the code the sandbox scan finds is that of the first non-empty block, or none when there is none |
| ParserFacts.SandboxKeepsFirstBlock | agent.py:72-74 | the sandbox runs the first non-empty block, while `extract_pr_info` keeps the last |
| ParserFacts.OneBlockSameCode | agent.py:72-74 | with at most one non-empty block, the sandbox runs the code the PR carries |
| ParserFacts.BlockCode | agent.py:219-220 | each non-empty block's joined lines are code between an opening fence and its closing fence |
| ParserFacts.ExtractedCodeIsFenced | agent.py:212-222 | the extracted code is the joined lines between an opening fence and its closing fence |
| ParserFacts.BetweenBlocksIsNotCode | agent.py:213-218 | text between the fence that closes one block and the fence that opens the next is not code |
| ParserFacts.SandboxCodeIsFenced | agent.py:63-76 | the code the sandbox runs is also between an opening fence and its closing fence |
| ParserFacts.NoMarkersNoFences | agent.py:224-229 | an answer with no marker and no fence gives the default title, the whole answer as description, no file and no code; the sandbox scan finds nothing |
| ParserFacts.TitleFacts | agent.py:193-194 | the title is the stripped value on the last title line, or the default when that is empty |
| ParserFacts.DefaultTitleTrimmed | agent.py:225 | the default title has no surrounding whitespace |
| ParserFacts.DefaultTitleLacksMarker | agent.py:225 | the default title holds no title marker |
| ParserFacts.TitleClean | agent.py:225 | the title is never empty, holds no title marker and has no surrounding whitespace |
| ParserFacts.LayoutTitleMissed | agent.py:161-162 | as written, an answer with the title on the line below its marker, as the prompt lays it out, gets the default title |
| ParserFacts.LayoutTitleRead | agent.py:161-162 | read as the layout intends, that answer gets the line below the marker, stripped |
| ParserFacts.LayoutTitleClean | agent.py:193-194 | the title read as the layout intends is never empty, holds no title marker and has no surrounding whitespace |
| ParserFacts.LayoutTitleAgrees | agent.py:193-194 | where the marker's line carries a value, no line follows it, or there is no marker, both readings give the same title |
| ParserFacts.FilePathClean | agent.py:197-201 | the extracted path holds no quote or backtick and has no surrounding whitespace |
| ParserFacts.FilePathAt | agent.py:197-201 | the path is the cleaned value of the last file line; the sandbox, when it finds no code, takes the raw value of the same line |
| ParserFacts.SingleDescription | agent.py:204-210 | with a single description marker, the description is the lines after it up to the next header, joined and stripped, or the whole answer when that is empty |
| ParserFacts.OnlyRun | agent.py:204-209 | one marker collects exactly one run of lines |
| ParserFacts.NoRun | agent.py:189 | without a marker nothing is collected |
| Tools.SearchResultBounded | tools.py:44-49 | at most five results, the first ones of the parsed list, and `[]` when the answer does not parse or cannot be sliced |
| Tools.SearchResultIdempotent | tools.py:46 | cutting an already cut result changes nothing |
| Tools.ErrorFieldsSources | tools.py:56-63 | the fields can be read exactly when the data and its `metadata` are dictionaries; the type is `type` when true, else `title`, else "Unknown Error"; the message is `metadata.value`, else `message` |
| Tools.MetadataWins | tools.py:60-63 | a true `metadata.value` is the message, whatever `message` holds |
| Tools.FilesAnalysis | tools.py:120-130 | a parsed answer is returned as it is; on a decode error, an analysis with no files and a textual summary |
| Tools.SandboxRepoName | tools.py:185 | the directory name holds no `/` |
| Tools.PlannedUpload | tools.py:192-200 | a file is written exactly when both path and code are non-empty; it holds the code, under the repository's directory |
| Tools.RunReportClassifies | tools.py:216-221 | the report starts with a cross exactly when the exit code is not zero, and with a tick otherwise |
| Tools.RunReportShowsOutput | tools.py:216-221 | the report ends with the output heading and the output whenever there is output or the run failed |
| Tools.FailureReportShape | tools.py:219 | a failure report is the prefix, the exit code, the heading and the output |
| Decimal.IntToStringInjective | tools.py:219 | two exit codes that print the same are equal |
| Tools.FailureReportInjective | tools.py:218-219 | a failure report gives back its exit code and output |
| Tools.ApiRepoNameAsWritten | tools.py:241-244 | as written: a GitHub URL becomes shorter, and any other form is kept; its value behind either prefix is stated by `AsWrittenHttps` and `AsWrittenHttp` |
| Tools.ApiRepoNameAsWrittenDropsInnerGit | tools.py:242 | as written, a `.git` inside the name is deleted too |
| Tools.AsWrittenHttps | tools.py:241-242 | behind the https prefix, the code as written deletes every `.git` |
| Tools.AsWrittenHttp | tools.py:243-244 | behind the http prefix, likewise: the prefix goes and every `.git` with it |
| Tools.NoColon | tools.py:241 | a name without a colon does not contain the prefix |
| Tools.DropGitSuffix | tools.py:240 | a trailing `.git` is removed and nothing else |
| Tools.ApiRepoName | tools.py:240-244 | a GitHub URL becomes shorter, and any other form is kept |
| Tools.ApiRepoNameRoundTrip | tools.py:240-244 | `owner/name` written after either prefix, with or without `.git`, comes back unchanged |
| Tools.ApiRepoNameAgrees | tools.py:241-242 | where the name holds no `.git`, the code as written and the corrected version agree |
| Tools.StripQuotes | tools.py:249 | stripping quotes never lengthens the path, and it neither starts nor ends with a single quote |
| Tools.StripQuotesKeeps | tools.py:249 | a path with no quote at either end is unchanged |
| Tools.StripQuotesNested | tools.py:249 | the strips run in a fixed order: backticks inside double quotes survive |
| Tools.CleanFilePath | tools.py:247-249 | a path is present after cleaning exactly when it was given, and it neither starts nor ends with a single quote |
| Tools.CleanFilePathInfix | tools.py:249 | the cleaned path is a piece of the given one |
| Tools.CleanFilePathKeepsClean | tools.py:249 | a path with nothing to strip at its ends is unchanged |
| Tools.QuotedKeepsSpace | tools.py:249 | a double-quoted path has no whitespace at its ends to strip |
| Tools.CleanFilePathOrder | tools.py:249 | a path written as "`x`" comes out with its backticks |
| Tools.ReplaceDisallowed | tools.py:253 | same length; each disallowed character becomes `-` and the others stay |
| Tools.SanitiseBranchValid | tools.py:251-256 | the branch is non-empty, holds only `[a-zA-Z0-9_/-]`, neither starts nor ends with `-`, and is no longer than the given name or is the fallback |
| Tools.FallbackValid | tools.py:256 | the fallback is a valid branch name |
| Tools.ReplacedValid | tools.py:253 | after the replacement only allowed characters are left |
| Tools.SanitiseBranchKeepsSlash | tools.py:254 | `/` is stripped before `-`: "-/x" becomes "/x", and sanitising twice can change the name again |
| Tools.SanitiseBranchKeepsValid | tools.py:251-256 | a valid name without `/` or `-` at its ends is unchanged |
| Tools.CommitMessageDetermines | tools.py:336 | for one-line titles, two commit messages are equal exactly when the titles and the first 500 characters of the bodies are |
| Tools.CommitMessageBounded | tools.py:336 | the message is at most 507 characters longer than the title |
| Agent.MergeHolds | agent.py:275 | a key is set in the merged state exactly when it is set on either side |
| Agent.MergeKeys | agent.py:275 | the merged state's keys are the union of both sides' keys |
| Agent.MergeNeutral | agent.py:275 | an empty answer changes nothing, and merging the same answer twice is merging it once |
| Agent.MergeAssociative | agent.py:275 | two answers merged one after the other are their merge, merged |
| Agent.SentryAnalysisNode | agent.py:30-41 | for the given browser answer, the node raises exactly without a repository or readable Sentry data, or on an analysis whose files cannot be counted; otherwise it answers the analysis and one "Found n relevant files" message |
| Agent.SentryAnalysisKeys | agent.py:38-41 | the node answers `relevant_files` and `messages` and nothing else |
| Agent.SentryAnalysisUnparsed | agent.py:36-40 | an unparsable browser answer is reported as 0 files found |
| Agent.ProposeFixNode | agent.py:97-169 | for the given model answer, the node raises exactly when the prompt cannot be read; otherwise it answers the model's text and `needs_approval` true |
| Agent.ProposeFixKeys | agent.py:168-169 | the node answers `proposed_fix` and `needs_approval` and nothing else |
| Agent.DaytonaNode | agent.py:43-90 | for the given sandbox answer, the node raises exactly without a repository; it answers the workspace id, the run report and one message, and writes the file and code found by the scan |
| Agent.DaytonaKeys | agent.py:86-90 | the node answers `workspace_id`, `reproduction_steps` and `messages` and nothing else |
| Agent.DaytonaMessage | agent.py:89 | the message is the prefix, at most the first 100 characters of the report, and "..." |
| Agent.DaytonaMessageClassifies | agent.py:89 | right after the prefix, the message shows a cross exactly when the run failed |
| Agent.DaytonaMessageStart | agent.py:89 | the message shows the report's first character after the prefix |
| Agent.DaytonaUploads | agent.py:79-84 | the sandbox writes exactly when the scan found a non-empty file and code, and it writes that code |
| Agent.HumanApprovalNode | agent.py:171-176 | the node answers every key of the state |
| Agent.ApprovalChangesNothing | agent.py:171-176 | merging its answer leaves the state as it was |
| Agent.BranchFor | agent.py:241-242 | "bugfix/" followed by a prefix of the id (at most 20 characters), the whole id when short, and "bugfix" when there is none |
| Agent.PrRequestOf | agent.py:233-255 | the request the node sends as written, with the title `extract_pr_info` reports and the repository cleaned as tools.py:241-244 does: its title and branch are never empty, and the branch is no longer than the raw one or is the fallback |
| Agent.PrRequestCorrected | agent.py:233-255 | the request with the corrected title reading and repository name: title and branch never empty, branch no longer than the raw one or the fallback |
| Agent.PrRequestsAgree | tools.py:240-244 | when the title line carries its value (or is last, or is missing) and the repository is a web URL whose name holds no prefix and no `.git`, the request as written and the corrected one are equal |
| Agent.PrMessage | agent.py:257-273 | the message starts with the created prefix exactly on success and with the failure prefix exactly on failure, and ends with the URL or the error |
| Agent.CreatePrNode | agent.py:231-273 | the answer holds the URL ("" on failure), the message, and the PR number exactly on success |
| Agent.CreatePrKeys | agent.py:257-273 | the node answers no other key |
| Agent.Next | agent.py:282-286 | each edge leads one step closer to the end |
| Agent.Route | agent.py:282-288 | the nodes a run visits get one step closer to the end each time |
| Agent.RouteFromEntry | agent.py:282-288 | a run visits sentry_analysis, propose_fix, daytona, approval, create_pr once each, in that order |
| Agent.RunTail | agent.py:284-286 | approval then create_pr is create_pr's answer merged into the state |
| Agent.RunFromDaytona | agent.py:283-286 | from daytona on, the run fails exactly when daytona raises |
| Agent.RunFromProposeFix | agent.py:282-283 | from propose_fix on, the run fails when propose_fix raises |
| Agent.RunFromEntry | agent.py:288 | the run starts with sentry_analysis |
| Agent.PromptAfterSentry | agent.py:101-125 | after a successful analysis, the prompt can be read exactly when the stored files are dictionaries |
| Agent.RunSteps | agent.py:275-289 | for the given service answers, a run succeeds exactly when the Sentry data and the analysis can be read, and then ends with create_pr's answer merged into the state before approval |
| Agent.RunResult | agent.py:275-289 | a completed run stores the answer, analysis, report and PR result; `needs_approval` is true, `messages` holds only the PR message, and the other keys are as they were |
| Agent.RunIgnoresApprovalFlag | agent.py:284-285 | a run ends in the same state whatever `needs_approval` it starts with |
| Agent.RunRequest | agent.py:233-242 | the PR request is built from the model's answer and the error id and repository the run started with |
| Agent.PrBranchShape | agent.py:241-242 | the branch used starts with "bugfix", holds only allowed characters and is at most 27 long |
| Agent.RawBranchHead | agent.py:242 | the raw branch starts with "bugfix" after the replacement |
| Agent.PrPathUnchanged | tools.py:247-249 | the second cleaning of the extracted path changes nothing |
| Agent.CleanPathKept | tools.py:247-249 | a path without quotes or surrounding whitespace is unchanged by the cleaning |
| App.NormaliseRepoUrl | main.py:14-20 | the repository is empty or starts with "http" |
| App.NormaliseRepoUrlCases | main.py:14-20 | an http value is kept, `owner/repo` is completed, anything else empties it; normalising twice is normalising once |
| App.NormalisedRepoRoundTrip | main.py:17 | a completed `owner/repo` is turned back by the corrected repository clean-up into `owner/repo` without a trailing `.git` |
| App.NormalisedRepoAsWritten | main.py:17 | the clean-up as written gives the same `owner/repo` back when it holds no `.git` |
| App.NormalisedRepoAsWrittenDropsInnerGit | main.py:17 | as written, a `.git` inside the completed name is lost: `o/o.github.io` comes back as `o/ohub.io` |
| App.DisplayText | main.py:51-56 | the text starts with the short id and ends with the event count |
| App.DisplayTextTitle | main.py:56 | between them is the whole title when it has at most 60 characters, otherwise its first 60 and "..." |
| App.BuildIssueOptions | main.py:49-57 | the loop builds the choices of the first 50 issues |
| App.OptionsKeys | main.py:57 | the choices are exactly the display texts of the issues |
| App.OptionsLastWins | main.py:57 | a text leads to the id of the last issue showing it |
| App.OptionsBounded | main.py:50-57 | no more choices than issues |
| App.OfferedBounded | main.py:50 | at most 50 choices |
| App.InitialState | main.py:91-98 | the run starts with the id, repository, Sentry data, no messages, `needs_approval` false and no files |
| App.InvestigationRun | main.py:71-100 | for an investigation started with an issue and a repository, and the given service answers, the run from that state succeeds exactly when the Sentry data and analysis can be read, and then ends with `needs_approval` true, the PR message and a PR URL |

## Left out

- The network and HTTP calls are left out: the Sentry REST calls (tools.py:133-164), the Daytona sandbox lifecycle (tools.py:170-182, 189-190, 203-213, 223-231) and the GitHub REST calls and their error paths (tools.py:236-238, 261-436). Their results enter as the `Services` parameters; `PrRequest` is what `create_draft_pr` computes before its first request.
- A service call that raises or times out is not modelled: `asyncio.run` of the browser task (tools.py:118), `llm.invoke` (agent.py:168), and the sandbox's `create`, `wait_for_sandbox_start`, `git.clone` and `process.exec` (tools.py:177-213). Every `Services` answer is assumed to arrive, so the node and run contracts that say when a run fails cover only the failures the code raises on the answers it gets.
- The browser agent (tools.py:11-26), `asyncio` and the Gemini client are external services; the prompt texts they receive (tools.py:29-40, 78-115, agent.py:127-166) are not modelled, only what reading the prompt's inputs can raise.
- The stack-trace reads of `find_files_from_sentry_issue` (tools.py:65-73) and the exceptions they can raise on unusual Sentry data are not modelled.
- `research_node` (agent.py:92-95) is not part of the graph and is not modelled.
- The LangGraph runtime is not modelled: its checkpointer, its stream of per-node updates, and the second `app.stream` the approve button starts (main.py:139-169). Only one pass of the compiled graph is modelled.
- The Streamlit UI and rendering are not modelled: widgets, `st.stop`, the selection box and the issue-details lookup (main.py:59-67).
- `App.DisplayText`: the issue fields are taken as the text the f-string shows; converting a number `count` to text is not modelled.
- `Tools.SandboxRepoName`: states only that the directory name has no `/`. It keeps the repository's deletion of every `.git`, because the sandbox side is not corrected.
- `Agent.PrRequestCorrected` is the request with the corrected readings of `Tools.ApiRepoName` and `FixParser.LayoutTitle` (see Findings); the pipeline (`Agent.CreatePrNode`, the runs in `Agent` and `App`) sends `Agent.PrRequestOf`, as written.
- `App.NormalisedRepoRoundTrip` is proved for the corrected `Tools.ApiRepoName`. The code as written gives the name back only when it holds no `.git` (`App.NormalisedRepoAsWritten`), and otherwise deletes the inner `.git` (`App.NormalisedRepoAsWrittenDropsInnerGit`).
- JSON numbers are integers; floating-point values in Sentry data or browser answers are not modelled.
- Dictionary insertion order (the order of the issue choices) is not modelled: the choices are a map.

## Findings

| source | as written | input that shows it | evidently intended | confidence | as-written member | corrected member |
|---|---|---|---|---|---|---|
| tools.py:242 | `repo.replace(".git", "")` deletes every `.git` in the repository name | "https://github.com/o/o.github.io" is looked up as "o/ohub.io" | remove only a trailing `.git` (the comment at tools.py:240 expects `owner/repo`) | high (not executed) | Tools.ApiRepoNameAsWrittenDropsInnerGit | Tools.ApiRepoNameRoundTrip |
| agent.py:193-194 | the title is read only from the marker's own line | an answer laid out as the prompt at agent.py:161-162 asks, `**PR Title:**` then the title on the next line, gets "Fix: Bug resolution" | read the line below the marker when nothing follows it on its line | medium (not executed) | ParserFacts.LayoutTitleMissed | ParserFacts.LayoutTitleRead |
