/** The fix-proposal parser of agent.py: the scan of a language model's
    free-form answer for the PR title, the file to fix, the PR description
    and the fenced code block (`extract_pr_info`), and the shorter scan
    inside `daytona_node` that picks the file and code to run in the sandbox.

    Each scan is a method with the source's loop; each is proved equal to a
    specification over the answer's lines (`PrInfoOf`, `SandboxTargetOf`),
    which the pipeline model uses and the lemmas in parser_facts.dfy
    describe. The specification functions look at the first `n` lines of
    the answer, so that the loop after `n` steps can be compared with them. */
module FixParser {
  import opened Wrappers
  import opened Text

  const TitleMarker := "**PR Title:**"
  const FileMarker := "**File to Fix:**"
  const DescriptionMarker := "**PR Description:**"
  const FenceMarker := "```"
  const DefaultTitle := "Fix: Bug resolution"
  /** The characters `re.sub(r'[`"\']', '', ...)` deletes from a file path. */
  const Quotes: set<char> := {'`', '"', '\''}

  /** The dictionary `extract_pr_info` returns; `None` stands for Python's `None`. */
  datatype PrInfo = PrInfo(title: string, description: string, filePath: Option<string>, code: Option<string>)

  /** The file and code `daytona_node` hands to the sandbox. */
  datatype SandboxTarget = SandboxTarget(fileToFix: Option<string>, fixedCode: Option<string>)

  /** A line that opens or closes a code block: it contains three backticks anywhere. */
  predicate IsFence(line: string) {
    Contains(line, FenceMarker)
  }

  /** A line that ends a description: it starts with `**` and contains a colon. */
  predicate IsSectionHeader(line: string) {
    StartsWith(line, "**") && Contains(line, ":")
  }

  // ----- Single-line fields -----

  /** Index of the last of the first `n` lines that contains `marker`. */
  function LastLineWith(lines: seq<string>, n: nat, marker: string): (r: Option<nat>)
    requires n <= |lines|
    ensures r.Some? ==> r.value < n && Contains(lines[r.value], marker)
    ensures r.Some? ==> forall k :: r.value < k < n ==> !Contains(lines[k], marker)
    ensures r.None? ==> forall k :: 0 <= k < n ==> !Contains(lines[k], marker)
  {
    if n == 0 then None
    else if Contains(lines[n - 1], marker) then Some(n - 1)
    else LastLineWith(lines, n - 1, marker)
  }

  /** `line.split(marker)[-1].strip()`: the text after the marker, trimmed. */
  function ValueAfter(line: string, marker: string): (r: string)
    requires |marker| > 0
    ensures !Contains(r, marker)
    ensures r == [] || (r[0] !in Whitespace && r[|r| - 1] !in Whitespace)
  {
    var piece := LastPiece(line, marker);
    var r := Strip(piece, Whitespace);
    StripIsInfix(piece, Whitespace);
    InfixLacks(piece, r, marker);
    r
  }

  /** The value on line `at`, if there is one. */
  function ValueOn(lines: seq<string>, at: Option<nat>, marker: string): Option<string>
    requires |marker| > 0 && (at.Some? ==> at.value < |lines|)
  {
    match at
    case None => None
    case Some(k) => Some(ValueAfter(lines[k], marker))
  }

  /** The value of the last of the first `n` lines carrying `marker`: each
      later line overwrites it. */
  function MarkerValue(lines: seq<string>, n: nat, marker: string): Option<string>
    requires n <= |lines| && |marker| > 0
  {
    ValueOn(lines, LastLineWith(lines, n, marker), marker)
  }

  /** agent.py:201: every backtick and quote deleted, then whitespace stripped. */
  function CleanPath(v: string): (r: string)
    ensures forall c :: c in r ==> c !in Quotes && c in v
    ensures r == [] || (r[0] !in Whitespace && r[|r| - 1] !in Whitespace)
  {
    var d := DeleteChars(v, Quotes);
    StripIsInfix(d, Whitespace);
    Strip(d, Whitespace)
  }

  function CleanPathOf(v: Option<string>): Option<string> {
    match v
    case None => None
    case Some(p) => Some(CleanPath(p))
  }

  // ----- The description -----

  /** The first index at or after `from` holding a section header, or the end. */
  function SectionEnd(lines: seq<string>, from: nat): (r: nat)
    requires from <= |lines|
    ensures from <= r <= |lines|
    ensures forall j :: from <= j < r ==> !IsSectionHeader(lines[j])
    ensures r < |lines| ==> IsSectionHeader(lines[r])
    decreases |lines| - from
  {
    if from == |lines| || IsSectionHeader(lines[from]) then from else SectionEnd(lines, from + 1)
  }

  /** The lines a description marker on line `i` collects. */
  function DescriptionRun(lines: seq<string>, i: nat): seq<string>
    requires i < |lines|
  {
    lines[i + 1..SectionEnd(lines, i + 1)]
  }

  /** Everything collected by the description markers among the first `n`
      lines: the source never clears its list between two markers. */
  function DescriptionLines(lines: seq<string>, n: nat): seq<string>
    requires n <= |lines|
  {
    if n == 0 then []
    else DescriptionLines(lines, n - 1)
         + (if Contains(lines[n - 1], DescriptionMarker) then DescriptionRun(lines, n - 1) else [])
  }

  /** The description after the first `n` lines: `None` before any marker. */
  function DescriptionValue(lines: seq<string>, n: nat): Option<string>
    requires n <= |lines|
  {
    if LastLineWith(lines, n, DescriptionMarker).None? then None
    else Some(Strip(Join(DescriptionLines(lines, n), "\n"), Whitespace))
  }

  // ----- Code blocks -----

  /** Indices of the fence lines among the first `n`, in the order they occur. */
  function Fences(lines: seq<string>, n: nat): (r: seq<nat>)
    requires n <= |lines|
    ensures forall a :: 0 <= a < |r| ==> r[a] < n
  {
    if n == 0 then []
    else
      var f := Fences(lines, n - 1);
      if IsFence(lines[n - 1]) then f + [n - 1] else f
  }

  /** An odd count of fences is at least one. */
  lemma OddPositive(k: nat)
    requires k % 2 == 1
    ensures k > 0
  {
  }

  /** The blocks closed within the first `n` lines, in order: a fence line
      closes a block when an odd number of fences precede it, and the block
      is the lines strictly between the fence that opened it and this one.
      A last unpaired fence opens a block that never closes. */
  function Blocks(lines: seq<string>, n: nat): seq<seq<string>>
    requires n <= |lines|
  {
    if n == 0 then []
    else
      var f := Fences(lines, n - 1);
      if IsFence(lines[n - 1]) && |f| % 2 == 1 then Blocks(lines, n - 1) + [lines[f[|f| - 1] + 1..n - 1]]
      else Blocks(lines, n - 1)
  }

  /** Index of the last non-empty block. */
  function LastNonEmpty(blocks: seq<seq<string>>): (r: Option<nat>)
    ensures r.Some? ==> r.value < |blocks| && blocks[r.value] != []
    ensures r.Some? ==> forall m :: r.value < m < |blocks| ==> blocks[m] == []
    ensures r.None? ==> forall m :: 0 <= m < |blocks| ==> blocks[m] == []
    decreases |blocks|
  {
    if |blocks| == 0 then None
    else if blocks[|blocks| - 1] != [] then Some(|blocks| - 1)
    else LastNonEmpty(blocks[..|blocks| - 1])
  }

  /** Index of the first non-empty block. */
  function FirstNonEmpty(blocks: seq<seq<string>>): (r: Option<nat>)
    ensures r.Some? ==> r.value < |blocks| && blocks[r.value] != []
    ensures r.Some? ==> forall m :: 0 <= m < r.value ==> blocks[m] == []
    ensures r.None? ==> forall m :: 0 <= m < |blocks| ==> blocks[m] == []
    decreases |blocks|
  {
    if |blocks| == 0 then None
    else match FirstNonEmpty(blocks[..|blocks| - 1])
      case Some(m) => Some(m)
      case None => if blocks[|blocks| - 1] != [] then Some(|blocks| - 1) else None
  }

  /** The code the last non-empty block holds, its lines joined. */
  function LastCode(blocks: seq<seq<string>>): Option<string> {
    match LastNonEmpty(blocks)
    case None => None
    case Some(m) => Some(Join(blocks[m], "\n"))
  }

  /** The code the first non-empty block holds, its lines joined. */
  function FirstCode(blocks: seq<seq<string>>): Option<string> {
    match FirstNonEmpty(blocks)
    case None => None
    case Some(m) => Some(Join(blocks[m], "\n"))
  }

  lemma LastCodeStep(blocks: seq<seq<string>>, block: seq<string>)
    ensures LastCode(blocks + [block]) == if block != [] then Some(Join(block, "\n")) else LastCode(blocks)
  {
    var bs := blocks + [block];
    assert bs[..|blocks|] == blocks;
    if block == [] {
      match LastNonEmpty(blocks)
      case None =>
      case Some(m) => assert bs[m] == blocks[m];
    }
  }

  // ----- The two results -----

  /** The returned dictionary: a missing or empty title becomes the default
      title, a missing or empty description the whole answer. */
  function Assemble(text: string, title: Option<string>, description: Option<string>,
                    filePath: Option<string>, code: Option<string>): PrInfo {
    PrInfo(
      if title.None? || title.value == "" then DefaultTitle else title.value,
      if description.None? || description.value == "" then text else description.value,
      filePath,
      code)
  }

  /** What `extract_pr_info(text)` returns. */
  function PrInfoOf(text: string): PrInfo {
    var lines := Split(text, '\n');
    var n := |lines|;
    Assemble(text, MarkerValue(lines, n, TitleMarker), DescriptionValue(lines, n),
             CleanPathOf(MarkerValue(lines, n, FileMarker)), LastCode(Blocks(lines, n)))
  }

  /** The title `Assemble` makes of a value: the default when there is none or it is empty. */
  function TitleOr(v: Option<string>): string {
    if v.None? || v.value == "" then DefaultTitle else v.value
  }

  /** The PR title read the way the answer layout of agent.py:161-162 puts
      it: the value after the last title marker or, when nothing follows
      the marker on its line, the line below it. */
  function LayoutTitle(text: string): string {
    TitleOr(LayoutValue(Split(text, '\n')))
  }

  /** The title value on or below the last title line, if there is one. */
  function LayoutValue(lines: seq<string>): (r: Option<string>)
    ensures r.Some? ==> !Contains(r.value, TitleMarker) && Trimmed(r.value)
  {
    match LastLineWith(lines, |lines|, TitleMarker)
    case None => None
    case Some(k) => Some(ValueBelow(lines, k, TitleMarker))
  }

  /** The value after `marker` on line `k` or, when that is empty, line
      `k + 1` stripped. */
  function ValueBelow(lines: seq<string>, k: nat, marker: string): (r: string)
    requires |marker| > 0 && k < |lines|
    requires k + 1 < |lines| ==> !Contains(lines[k + 1], marker)
    ensures !Contains(r, marker) && Trimmed(r)
  {
    var v := ValueAfter(lines[k], marker);
    if v == [] && k + 1 < |lines| then StrippedLine(lines[k + 1], marker) else v
  }

  /** A line without `marker`, stripped: still without it. */
  function StrippedLine(line: string, marker: string): (r: string)
    requires !Contains(line, marker)
    ensures !Contains(r, marker) && Trimmed(r)
  {
    StripLacks(line, Whitespace, marker);
    Strip(line, Whitespace)
  }

  /** The first of the first `n` lines that closes a non-empty block: a fence
      line with an odd number of fences before it and at least one line
      since the last of them. */
  function FirstClose(lines: seq<string>, n: nat): (r: Option<nat>)
    requires n <= |lines|
    ensures r.Some? ==> r.value < n && IsFence(lines[r.value])
    ensures r.Some? ==> var f := Fences(lines, r.value); |f| % 2 == 1 && f[|f| - 1] + 1 < r.value
  {
    if n == 0 then None
    else match FirstClose(lines, n - 1)
      case Some(c) => Some(c)
      case None =>
        var f := Fences(lines, n - 1);
        if IsFence(lines[n - 1]) && |f| % 2 == 1 && f[|f| - 1] + 1 < n - 1 then Some(n - 1) else None
  }

  /** What the scan in `daytona_node` leaves in `file_to_fix` and
      `fixed_code`: it stops on the first fence that closes a non-empty
      block, so the file is the one named last up to that line. */
  function SandboxTargetOf(text: string): SandboxTarget {
    SandboxTargetIn(Split(text, '\n'))
  }

  function SandboxTargetIn(lines: seq<string>): SandboxTarget {
    TargetAt(lines, FirstClose(lines, |lines|))
  }

  /** What the scan leaves when it stops on line `stop`, or runs to the end
      when `stop` is `None`. */
  function TargetAt(lines: seq<string>, stop: Option<nat>): SandboxTarget
    requires stop.Some? ==> stop.value < |lines| && |Fences(lines, stop.value)| > 0
    requires stop.Some? ==> var f := Fences(lines, stop.value); f[|f| - 1] < stop.value
  {
    match stop
    case None => SandboxTarget(MarkerValue(lines, |lines|, FileMarker), None)
    case Some(c) =>
      var f := Fences(lines, c);
      SandboxTarget(MarkerValue(lines, c + 1, FileMarker), Some(Join(lines[f[|f| - 1] + 1..c], "\n")))
  }

  // ----- The loops -----

  /** The check for a single-line field on line `i`: a line carrying
      `marker` replaces the value with the trimmed text after the marker. */
  method MarkerCheck(lines: seq<string>, i: nat, marker: string, value: Option<string>) returns (value': Option<string>)
    requires i < |lines| && |marker| > 0
    requires value == MarkerValue(lines, i, marker)
    ensures value' == MarkerValue(lines, i + 1, marker)
  {
    value' := value;
    var line := lines[i];
    if Contains(line, marker) {
      value' := Some(Strip(LastPiece(line, marker), Whitespace));
    }
  }

  /** The file check of `extract_pr_info` on line `i`: as `MarkerCheck`, and
      the path is then cleaned of quotes and backticks. */
  method FileCheck(lines: seq<string>, i: nat, fileToFix: Option<string>) returns (fileToFix': Option<string>)
    requires i < |lines|
    requires fileToFix == CleanPathOf(MarkerValue(lines, i, FileMarker))
    ensures fileToFix' == CleanPathOf(MarkerValue(lines, i + 1, FileMarker))
  {
    fileToFix' := fileToFix;
    var line := lines[i];
    if Contains(line, FileMarker) {
      var path := Strip(LastPiece(line, FileMarker), Whitespace);
      path := Strip(DeleteChars(path, Quotes), Whitespace);
      fileToFix' := Some(path);
    }
  }

  /** The description check of `extract_pr_info` on line `i`, with its inner
      loop: after a marker, the following lines up to the next section header
      are appended to the lines collected so far, and the description is
      their trimmed join. */
  method DescriptionCheck(lines: seq<string>, i: nat, descriptionLines: seq<string>, prDescription: Option<string>)
    returns (descriptionLines': seq<string>, prDescription': Option<string>)
    requires i < |lines|
    requires descriptionLines == DescriptionLines(lines, i)
    requires prDescription == DescriptionValue(lines, i)
    ensures descriptionLines' == DescriptionLines(lines, i + 1)
    ensures prDescription' == DescriptionValue(lines, i + 1)
  {
    descriptionLines', prDescription' := descriptionLines, prDescription;
    if Contains(lines[i], DescriptionMarker) {
      descriptionLines' := CollectRun(lines, i, descriptionLines);
      prDescription' := Some(Strip(Join(descriptionLines', "\n"), Whitespace));
      DescriptionFound(lines, i);
    } else {
      DescriptionPassed(lines, i);
    }
  }

  /** The inner loop of the description check: the lines after line `i` up
      to the next section header, appended to `collected`. */
  method CollectRun(lines: seq<string>, i: nat, collected: seq<string>) returns (collected': seq<string>)
    requires i < |lines|
    ensures collected' == collected + DescriptionRun(lines, i)
  {
    collected' := collected;
    var j := i + 1;
    while j < |lines| && !IsSectionHeader(lines[j])
      invariant i + 1 <= j <= |lines|
      invariant forall t :: i + 1 <= t < j ==> !IsSectionHeader(lines[t])
      invariant collected' == collected + lines[i + 1..j]
    {
      collected' := collected' + [lines[j]];
      j := j + 1;
    }
    assert j == SectionEnd(lines, i + 1);
  }

  /** A description marker on line `i` appends its run and sets the value. */
  lemma DescriptionFound(lines: seq<string>, i: nat)
    requires i < |lines| && Contains(lines[i], DescriptionMarker)
    ensures DescriptionLines(lines, i + 1) == DescriptionLines(lines, i) + DescriptionRun(lines, i)
    ensures DescriptionValue(lines, i + 1) == Some(Strip(Join(DescriptionLines(lines, i + 1), "\n"), Whitespace))
  {
  }

  /** Any other line changes neither the lines collected nor the value. */
  lemma DescriptionPassed(lines: seq<string>, i: nat)
    requires i < |lines| && !Contains(lines[i], DescriptionMarker)
    ensures DescriptionLines(lines, i + 1) == DescriptionLines(lines, i)
    ensures DescriptionValue(lines, i + 1) == DescriptionValue(lines, i)
  {
    assert DescriptionLines(lines, i + 1) == DescriptionLines(lines, i) + [];
  }

  /** After the first `i` lines, `inCodeBlock` says whether a block is open
      (an odd number of fences so far) and `codeLines` holds its lines. */
  ghost predicate CodeState(lines: seq<string>, i: nat, inCodeBlock: bool, codeLines: seq<string>)
    requires i <= |lines|
  {
    var f := Fences(lines, i);
    && inCodeBlock == (|f| % 2 == 1)
    && (inCodeBlock ==> codeLines == lines[f[|f| - 1] + 1..i])
  }

  /** The fence check both scans make on line `i`: a fence opens a block or
      closes the open one (`closed`); any other line inside a block is
      collected. A closed block is the next block of `Blocks`. */
  method FenceLine(lines: seq<string>, i: nat, inCodeBlock: bool, codeLines: seq<string>)
    returns (inCodeBlock': bool, codeLines': seq<string>, closed: bool)
    requires i < |lines| && CodeState(lines, i, inCodeBlock, codeLines)
    ensures CodeState(lines, i + 1, inCodeBlock', codeLines')
    ensures closed <==> IsFence(lines[i]) && inCodeBlock
    ensures Blocks(lines, i + 1) == Blocks(lines, i) + if closed then [codeLines] else []
  {
    inCodeBlock', codeLines', closed := inCodeBlock, codeLines, false;
    if IsFence(lines[i]) {
      if !inCodeBlock {
        inCodeBlock', codeLines' := true, [];
        Opens(lines, i, codeLines);
      } else {
        inCodeBlock', closed := false, true;
        Closes(lines, i, codeLines);
      }
    } else if inCodeBlock {
      codeLines' := codeLines + [lines[i]];
      Collects(lines, i, codeLines);
    } else {
      Skips(lines, i, codeLines);
    }
  }

  /** A fence outside a block opens an empty one. */
  lemma Opens(lines: seq<string>, i: nat, codeLines: seq<string>)
    requires i < |lines| && IsFence(lines[i]) && CodeState(lines, i, false, codeLines)
    ensures CodeState(lines, i + 1, true, []) && Blocks(lines, i + 1) == Blocks(lines, i)
  {
    assert Fences(lines, i + 1) == Fences(lines, i) + [i];
  }

  /** A fence inside a block closes it as the next block. */
  lemma Closes(lines: seq<string>, i: nat, codeLines: seq<string>)
    requires i < |lines| && IsFence(lines[i]) && CodeState(lines, i, true, codeLines)
    ensures CodeState(lines, i + 1, false, codeLines) && Blocks(lines, i + 1) == Blocks(lines, i) + [codeLines]
  {
    var f := Fences(lines, i);
    OddPositive(|f|);
    assert Fences(lines, i + 1) == f + [i];
    assert Blocks(lines, i + 1) == Blocks(lines, i) + [lines[f[|f| - 1] + 1..i]];
  }

  /** Any other line inside a block joins it. */
  lemma Collects(lines: seq<string>, i: nat, codeLines: seq<string>)
    requires i < |lines| && !IsFence(lines[i]) && CodeState(lines, i, true, codeLines)
    ensures CodeState(lines, i + 1, true, codeLines + [lines[i]]) && Blocks(lines, i + 1) == Blocks(lines, i)
  {
    var f := Fences(lines, i);
    OddPositive(|f|);
    assert Fences(lines, i + 1) == f;
    assert lines[f[|f| - 1] + 1..i + 1] == lines[f[|f| - 1] + 1..i] + [lines[i]];
  }

  /** Any other line outside a block changes nothing. */
  lemma Skips(lines: seq<string>, i: nat, codeLines: seq<string>)
    requires i < |lines| && !IsFence(lines[i]) && CodeState(lines, i, false, codeLines)
    ensures CodeState(lines, i + 1, false, codeLines) && Blocks(lines, i + 1) == Blocks(lines, i)
  {
    assert Fences(lines, i + 1) == Fences(lines, i);
  }

  /** The fence check of `extract_pr_info` on line `i`: closing a non-empty
      block makes it the code found so far. */
  method CodeCheck(lines: seq<string>, i: nat, inCodeBlock: bool, codeLines: seq<string>, fixedCode: Option<string>)
    returns (inCodeBlock': bool, codeLines': seq<string>, fixedCode': Option<string>)
    requires i < |lines| && CodeState(lines, i, inCodeBlock, codeLines)
    requires fixedCode == LastCode(Blocks(lines, i))
    ensures CodeState(lines, i + 1, inCodeBlock', codeLines')
    ensures fixedCode' == LastCode(Blocks(lines, i + 1))
  {
    var closed;
    inCodeBlock', codeLines', closed := FenceLine(lines, i, inCodeBlock, codeLines);
    fixedCode' := fixedCode;
    if closed {
      LastCodeStep(Blocks(lines, i), codeLines);
      if codeLines != [] {
        fixedCode' := Some(Join(codeLines, "\n"));
      }
    }
  }

  /** The variables of `extract_pr_info` after the first `i` lines. */
  ghost predicate ExtractedTo(lines: seq<string>, i: nat, prTitle: Option<string>, fileToFix: Option<string>,
                              descriptionLines: seq<string>, prDescription: Option<string>,
                              inCodeBlock: bool, codeLines: seq<string>, fixedCode: Option<string>)
    requires i <= |lines|
  {
    && (prTitle, fileToFix, descriptionLines, prDescription, fixedCode)
       == (MarkerValue(lines, i, TitleMarker), CleanPathOf(MarkerValue(lines, i, FileMarker)),
           DescriptionLines(lines, i), DescriptionValue(lines, i), LastCode(Blocks(lines, i)))
    && CodeState(lines, i, inCodeBlock, codeLines)
  }

  /** One iteration of `extract_pr_info`'s loop: on line `i`, in order, the
      title check, the file check, the description check (with its inner
      loop) and the fence check. */
  method ExtractLine(lines: seq<string>, i: nat, prTitle: Option<string>, fileToFix: Option<string>,
                     descriptionLines: seq<string>, prDescription: Option<string>,
                     inCodeBlock: bool, codeLines: seq<string>, fixedCode: Option<string>)
    returns (prTitle': Option<string>, fileToFix': Option<string>,
             descriptionLines': seq<string>, prDescription': Option<string>,
             inCodeBlock': bool, codeLines': seq<string>, fixedCode': Option<string>)
    requires i < |lines|
    requires ExtractedTo(lines, i, prTitle, fileToFix, descriptionLines, prDescription, inCodeBlock, codeLines, fixedCode)
    ensures ExtractedTo(lines, i + 1, prTitle', fileToFix', descriptionLines', prDescription', inCodeBlock', codeLines', fixedCode')
  {
    prTitle' := MarkerCheck(lines, i, TitleMarker, prTitle);
    fileToFix' := FileCheck(lines, i, fileToFix);
    descriptionLines', prDescription' := DescriptionCheck(lines, i, descriptionLines, prDescription);
    inCodeBlock', codeLines', fixedCode' := CodeCheck(lines, i, inCodeBlock, codeLines, fixedCode);
  }

  /** `extract_pr_info`: one pass over the lines, then the defaults for a
      missing title or description. */
  method ExtractPrInfo(proposedFix: string) returns (info: PrInfo)
    ensures info == PrInfoOf(proposedFix)
  {
    var lines := Split(proposedFix, '\n');
    var prTitle: Option<string> := None;
    var prDescription: Option<string> := None;
    var fileToFix: Option<string> := None;
    var fixedCode: Option<string> := None;
    var inCodeBlock := false;
    var codeLines: seq<string> := [];
    var descriptionLines: seq<string> := [];
    ExtractedFromStart(lines);
    for i := 0 to |lines|
      invariant ExtractedTo(lines, i, prTitle, fileToFix, descriptionLines, prDescription, inCodeBlock, codeLines, fixedCode)
    {
      prTitle, fileToFix, descriptionLines, prDescription, inCodeBlock, codeLines, fixedCode :=
        ExtractLine(lines, i, prTitle, fileToFix, descriptionLines, prDescription, inCodeBlock, codeLines, fixedCode);
    }
    ExtractedAll(proposedFix, prTitle, fileToFix, descriptionLines, prDescription, inCodeBlock, codeLines, fixedCode);
    info := Assemble(proposedFix, prTitle, prDescription, fileToFix, fixedCode);
  }

  /** Before any line, nothing has been found. */
  lemma ExtractedFromStart(lines: seq<string>)
    ensures ExtractedTo(lines, 0, None, None, [], None, false, [], None)
  {
  }

  /** After the last line, the fields found are those `PrInfoOf` assembles. */
  lemma ExtractedAll(text: string, prTitle: Option<string>, fileToFix: Option<string>,
                     descriptionLines: seq<string>, prDescription: Option<string>,
                     inCodeBlock: bool, codeLines: seq<string>, fixedCode: Option<string>)
    requires var lines := Split(text, '\n');
      ExtractedTo(lines, |lines|, prTitle, fileToFix, descriptionLines, prDescription, inCodeBlock, codeLines, fixedCode)
    ensures Assemble(text, prTitle, prDescription, fileToFix, fixedCode) == PrInfoOf(text)
  {
  }

  /** The scan in `daytona_node`: the file check and the fence check on each
      line, stopping at the end of the first non-empty block. The path is
      trimmed but, unlike in `extract_pr_info`, not cleaned of quotes. */
  method ScanSandboxTarget(proposedFix: string) returns (target: SandboxTarget)
    ensures target == SandboxTargetOf(proposedFix)
  {
    var lines := Split(proposedFix, '\n');
    var fileToFix: Option<string> := None;
    var fixedCode: Option<string> := None;
    var inCodeBlock := false;
    var codeLines: seq<string> := [];
    for i := 0 to |lines|
      invariant fileToFix == MarkerValue(lines, i, FileMarker)
      invariant fixedCode.None? && FirstClose(lines, i).None?
      invariant CodeState(lines, i, inCodeBlock, codeLines)
    {
      fileToFix := MarkerCheck(lines, i, FileMarker, fileToFix);
      var block := codeLines;
      if IsFence(lines[i]) && inCodeBlock && block != [] {
        fixedCode := Some(Join(block, "\n"));
        StopsAt(lines, i, block);
        ClosesAt(lines, i, block);
        break;
      }
      StaysOpen(lines, i, inCodeBlock, block);
      var closed;
      inCodeBlock, codeLines, closed := FenceLine(lines, i, inCodeBlock, codeLines);
    }
    target := SandboxTarget(fileToFix, fixedCode);
  }

  /** Where the scan stops at line `i` with `block` open, the target is the
      file named last up to `i` and that block as the code. */
  lemma ClosesAt(lines: seq<string>, i: nat, block: seq<string>)
    requires i < |lines| && FirstClose(lines, |lines|) == Some(i) && CodeState(lines, i, true, block)
    ensures SandboxTargetIn(lines) == SandboxTarget(MarkerValue(lines, i + 1, FileMarker), Some(Join(block, "\n")))
  {
    var stop := FirstClose(lines, |lines|);
    assert SandboxTargetIn(lines) == TargetAt(lines, stop);
    var f := Fences(lines, i);
    assert lines[f[|f| - 1] + 1..i] == block;
  }

  /** A fence that closes a non-empty block before any other did is where
      the scan stops. */
  lemma StopsAt(lines: seq<string>, i: nat, block: seq<string>)
    requires i < |lines| && IsFence(lines[i]) && block != []
    requires FirstClose(lines, i).None? && CodeState(lines, i, true, block)
    ensures FirstClose(lines, |lines|) == Some(i)
  {
    OpenBlockBounds(lines, i, block);
    ClosesHere(lines, i);
    FirstCloseStays(lines, i + 1, |lines|);
  }

  /** An open block with lines in it starts after its fence and before `i`. */
  lemma OpenBlockBounds(lines: seq<string>, i: nat, block: seq<string>)
    requires i <= |lines| && block != [] && CodeState(lines, i, true, block)
    ensures var f := Fences(lines, i); |f| % 2 == 1 && f[|f| - 1] + 1 < i
  {
    var f := Fences(lines, i);
    OddPositive(|f|);
  }

  /** A fence after an open, non-empty block is the first close when none came before. */
  lemma ClosesHere(lines: seq<string>, i: nat)
    requires i < |lines| && IsFence(lines[i]) && FirstClose(lines, i).None?
    requires var f := Fences(lines, i); |f| % 2 == 1 && f[|f| - 1] + 1 < i
    ensures FirstClose(lines, i + 1) == Some(i)
  {
  }

  /** Any other line leaves the scan going. */
  lemma StaysOpen(lines: seq<string>, i: nat, inCodeBlock: bool, block: seq<string>)
    requires i < |lines| && !(IsFence(lines[i]) && inCodeBlock && block != [])
    requires FirstClose(lines, i).None? && CodeState(lines, i, inCodeBlock, block)
    ensures FirstClose(lines, i + 1).None?
  {
  }

  /** Once the scan has stopped, later lines do not move where it stopped. */
  lemma {:induction false} FirstCloseStays(lines: seq<string>, n: nat, n': nat)
    requires n <= n' <= |lines| && FirstClose(lines, n).Some?
    ensures FirstClose(lines, n') == FirstClose(lines, n)
    decreases n' - n
  {
    if n < n' {
      FirstCloseStays(lines, n, n' - 1);
      FirstCloseKept(lines, n');
    }
  }

  /** A stop the scan has made stays where it is. */
  lemma FirstCloseKept(lines: seq<string>, n: nat)
    requires 0 < n <= |lines| && FirstClose(lines, n - 1).Some?
    ensures FirstClose(lines, n) == FirstClose(lines, n - 1)
  {
  }
}

