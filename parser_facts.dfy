/** What the two fix-proposal scans of agent.py promise, stated over the
    specification functions of `FixParser`: the defaults, the shape of the
    code they extract, which block each keeps, and the clean-up of the
    single-line fields. */
module ParserFacts {
  import opened Wrappers
  import opened Text
  import opened FixParser

  // ----- Markers -----

  /** The value of a single-line field comes from the last line carrying its
      marker, whatever came before. */
  lemma MarkerValueAt(lines: seq<string>, n: nat, marker: string, k: nat)
    requires n <= |lines| && |marker| > 0 && k < n
    requires Contains(lines[k], marker)
    requires forall t :: k < t < n ==> !Contains(lines[t], marker)
    ensures MarkerValue(lines, n, marker) == Some(ValueAfter(lines[k], marker))
  {
    LastLineIs(lines, n, marker, k);
  }

  lemma {:induction false} LastLineIs(lines: seq<string>, n: nat, marker: string, k: nat)
    requires n <= |lines| && k < n
    requires Contains(lines[k], marker)
    requires forall t :: k < t < n ==> !Contains(lines[t], marker)
    ensures LastLineWith(lines, n, marker) == Some(k)
    decreases n
  {
    if n - 1 != k {
      LastLineIs(lines, n - 1, marker, k);
    }
  }

  /** No line carries the marker: the field stays unset. */
  lemma MarkerAbsent(lines: seq<string>, n: nat, marker: string)
    requires n <= |lines| && |marker| > 0
    requires forall t :: 0 <= t < n ==> !Contains(lines[t], marker)
    ensures MarkerValue(lines, n, marker) == None
  {
  }

  /** A marker absent from the text is absent from every line of it. */
  lemma AbsentFromLines(text: string, marker: string)
    requires !Contains(text, marker)
    ensures forall t :: 0 <= t < |Split(text, '\n')| ==> !Contains(Split(text, '\n')[t], marker)
  {
    forall t | 0 <= t < |Split(text, '\n')|
      ensures !Contains(Split(text, '\n')[t], marker)
    {
      if Contains(Split(text, '\n')[t], marker) {
        LineContains(text, '\n', t, marker);
      }
    }
  }

  // ----- Fences and blocks -----

  /** Without fence lines there are no fences. */
  lemma {:induction false} NoFences(lines: seq<string>, n: nat)
    requires n <= |lines|
    requires forall t :: 0 <= t < n ==> !IsFence(lines[t])
    ensures Fences(lines, n) == []
    decreases n
  {
    if n > 0 {
      NoFences(lines, n - 1);
    }
  }

  lemma {:induction false} NoBlocks(lines: seq<string>, n: nat)
    requires n <= |lines|
    requires forall t :: 0 <= t < n ==> !IsFence(lines[t])
    ensures Blocks(lines, n) == []
    decreases n
  {
    if n > 0 {
      NoBlocks(lines, n - 1);
    }
  }

  /** The last fence recorded is a fence line, and no fence line follows it
      among the first `n` lines. */
  lemma {:induction false} LastFence(lines: seq<string>, n: nat)
    requires n <= |lines| && |Fences(lines, n)| > 0
    ensures var f := Fences(lines, n);
      && IsFence(lines[f[|f| - 1]])
      && forall t :: f[|f| - 1] < t < n ==> !IsFence(lines[t])
    decreases n
  {
    if !IsFence(lines[n - 1]) {
      LastFence(lines, n - 1);
    }
  }

  /** Each closed block is exactly the lines strictly between an opening
      fence line `o` (an even number of fences before it) and the fence
      line `e` that closes it (the next fence after `o`): fence lines never
      enter the code, and no block is the text between two blocks. */
  lemma {:induction false} BlockBetweenFences(lines: seq<string>, n: nat, m: nat) returns (o: nat, e: nat)
    requires n <= |lines| && m < |Blocks(lines, n)|
    ensures o < e < n
    ensures IsFence(lines[o]) && IsFence(lines[e])
    ensures forall t :: o < t < e ==> !IsFence(lines[t])
    ensures PairedFences(lines, o, e)
    ensures Blocks(lines, n)[m] == lines[o + 1..e]
    decreases n
  {
    if m < |Blocks(lines, n - 1)| {
      BlocksKept(lines, n, m);
      o, e := BlockBetweenFences(lines, n - 1, m);
    } else {
      o, e := ClosedBlock(lines, n);
    }
  }

  /** A line adds at most one block and changes none before it. */
  lemma BlocksKept(lines: seq<string>, n: nat, m: nat)
    requires 0 < n <= |lines| && m < |Blocks(lines, n - 1)|
    ensures Blocks(lines, n)[m] == Blocks(lines, n - 1)[m]
  {
  }

  /** A block the `n`-th line closes lies between the last fence before it
      and that line. */
  lemma ClosedBlock(lines: seq<string>, n: nat) returns (o: nat, e: nat)
    requires 0 < n <= |lines| && |Blocks(lines, n - 1)| < |Blocks(lines, n)|
    ensures o < e < n && e == n - 1
    ensures IsFence(lines[o]) && IsFence(lines[e])
    ensures forall t :: o < t < e ==> !IsFence(lines[t])
    ensures PairedFences(lines, o, e)
    ensures Blocks(lines, n)[|Blocks(lines, n - 1)|] == lines[o + 1..e]
  {
    var f := Fences(lines, n - 1);
    assert IsFence(lines[n - 1]) && |f| % 2 == 1;
    LastFence(lines, n - 1);
    o, e := f[|f| - 1], n - 1;
    LastFencePaired(lines, n - 1);
  }

  /** When an odd number of fences precede fence line `e`, the last of them
      opens the block that `e` closes. */
  lemma LastFencePaired(lines: seq<string>, e: nat)
    requires e < |lines| && IsFence(lines[e]) && |Fences(lines, e)| % 2 == 1
    ensures var f := Fences(lines, e);
      f[|f| - 1] < e && PairedFences(lines, f[|f| - 1], e)
  {
    var f := Fences(lines, e);
    FencesBefore(lines, e, |f| - 1);
    assert f == f[..|f| - 1] + [f[|f| - 1]];
  }

  /** Fence line `o` opens a block (an even number of fences precede it)
      and fence line `e` is the next fence, the one that closes it. */
  predicate PairedFences(lines: seq<string>, o: nat, e: nat)
    requires o < e < |lines|
  {
    |Fences(lines, o)| % 2 == 0 && Fences(lines, e) == Fences(lines, o) + [o]
  }

  /** The fences before the `k`-th fence are the first `k` fences. */
  lemma {:induction false} FencesBefore(lines: seq<string>, n: nat, k: nat)
    requires n <= |lines| && k < |Fences(lines, n)|
    ensures Fences(lines, Fences(lines, n)[k]) == Fences(lines, n)[..k]
  {
    var f := Fences(lines, n - 1);
    if k < |f| {
      FencesBefore(lines, n - 1, k);
      assert Fences(lines, n)[..k] == f[..k];
    }
  }

  lemma FirstNonEmptyStep(blocks: seq<seq<string>>, block: seq<string>)
    ensures var bs := blocks + [block];
      FirstNonEmpty(bs) == if FirstNonEmpty(blocks).Some? then FirstNonEmpty(blocks)
                           else if block != [] then Some(|blocks|) else None
  {
    assert (blocks + [block])[..|blocks|] == blocks;
  }

  /** The line where the sandbox scan stops among the first `n` closes the
      first non-empty block, and it runs on exactly when there is none. */
  ghost predicate StopsAtFirstBlock(lines: seq<string>, n: nat)
    requires n <= |lines|
  {
    && (FirstClose(lines, n).None? <==> FirstNonEmpty(Blocks(lines, n)).None?)
    && (FirstClose(lines, n).Some? ==>
         var c := FirstClose(lines, n).value;
         var f := Fences(lines, c);
         Blocks(lines, n)[FirstNonEmpty(Blocks(lines, n)).value] == lines[f[|f| - 1] + 1..c])
  }

  lemma {:induction false} FirstCloseIsFirstBlock(lines: seq<string>, n: nat)
    requires n <= |lines|
    ensures StopsAtFirstBlock(lines, n)
    decreases n
  {
    if n > 0 {
      FirstCloseIsFirstBlock(lines, n - 1);
      if FirstClose(lines, n - 1).Some? {
        CloseKept(lines, n);
      } else {
        FirstBlockFound(lines, n);
      }
    }
  }

  /** Once the scan has stopped, a later line changes neither where nor
      which block. */
  lemma CloseKept(lines: seq<string>, n: nat)
    requires 0 < n <= |lines| && FirstClose(lines, n - 1).Some? && StopsAtFirstBlock(lines, n - 1)
    ensures StopsAtFirstBlock(lines, n)
  {
    FirstCloseKept(lines, n);
    var c := FirstClose(lines, n - 1).value;
    assert FirstClose(lines, n) == Some(c);
    FirstBlockKept(lines, n);
    var m := FirstNonEmpty(Blocks(lines, n - 1)).value;
    assert FirstNonEmpty(Blocks(lines, n)) == Some(m);
    assert Blocks(lines, n)[m] == Blocks(lines, n - 1)[m];
  }

  /** A later line leaves the first non-empty block where it is. */
  lemma FirstBlockKept(lines: seq<string>, n: nat)
    requires 0 < n <= |lines| && FirstNonEmpty(Blocks(lines, n - 1)).Some?
    ensures FirstNonEmpty(Blocks(lines, n)) == FirstNonEmpty(Blocks(lines, n - 1))
    ensures var m := FirstNonEmpty(Blocks(lines, n - 1)).value; Blocks(lines, n)[m] == Blocks(lines, n - 1)[m]
  {
    var f := Fences(lines, n - 1);
    var b := Blocks(lines, n - 1);
    if IsFence(lines[n - 1]) && |f| % 2 == 1 {
      FirstNonEmptyStep(b, lines[f[|f| - 1] + 1..n - 1]);
    }
  }

  /** Before any non-empty block, line `n - 1` closes the first one exactly
      when the sandbox scan stops there. */
  lemma FirstBlockFound(lines: seq<string>, n: nat)
    requires 0 < n <= |lines| && FirstClose(lines, n - 1).None? && StopsAtFirstBlock(lines, n - 1)
    ensures StopsAtFirstBlock(lines, n)
  {
    var f := Fences(lines, n - 1);
    var b := Blocks(lines, n - 1);
    if IsFence(lines[n - 1]) && |f| % 2 == 1 {
      var block := lines[f[|f| - 1] + 1..n - 1];
      FirstNonEmptyStep(b, block);
      assert Blocks(lines, n) == b + [block];
    }
  }

  /** `daytona_node` keeps the first non-empty block, where `extract_pr_info`
      keeps the last (`PrInfoOf` uses `LastCode`). */
  lemma SandboxKeepsFirstBlock(text: string)
    ensures var lines := Split(text, '\n');
      SandboxTargetOf(text).fixedCode == FirstCode(Blocks(lines, |lines|))
  {
    var lines := Split(text, '\n');
    TargetCodeIsFirst(lines);
  }

  lemma TargetCodeIsFirst(lines: seq<string>)
    ensures SandboxTargetIn(lines).fixedCode == FirstCode(Blocks(lines, |lines|))
  {
    var stop := FirstClose(lines, |lines|);
    if stop.Some? {
      OddPositive(|Fences(lines, stop.value)|);
      assert SandboxTargetIn(lines) == TargetAt(lines, stop);
      FirstCloseIsFirstBlock(lines, |lines|);
    } else {
      FirstCloseIsFirstBlock(lines, |lines|);
    }
  }

  /** With at most one non-empty block, both scans hand on the same code. */
  lemma OneBlockSameCode(text: string)
    requires var lines := Split(text, '\n'); var bs := Blocks(lines, |lines|);
      forall a, b :: 0 <= a < |bs| && 0 <= b < |bs| && bs[a] != [] && bs[b] != [] ==> a == b
    ensures PrInfoOf(text).code == SandboxTargetOf(text).fixedCode
  {
    SandboxKeepsFirstBlock(text);
    var lines := Split(text, '\n');
    var bs := Blocks(lines, |lines|);
    match FirstNonEmpty(bs)
    case None =>
    case Some(m) =>
      assert LastNonEmpty(bs) == Some(m);
  }

  /** `code` is the lines strictly between an opening fence line (an even
      number of fences before it) and the fence line that closes it,
      joined with newlines. */
  ghost predicate FencedCode(lines: seq<string>, code: string) {
    exists o: nat, e: nat ::
      && o + 1 < e < |lines|
      && IsFence(lines[o]) && IsFence(lines[e])
      && (forall t :: o < t < e ==> !IsFence(lines[t]))
      && PairedFences(lines, o, e)
      && code == Join(lines[o + 1..e], "\n")
  }

  lemma BlockCode(lines: seq<string>, m: nat)
    requires m < |Blocks(lines, |lines|)| && Blocks(lines, |lines|)[m] != []
    ensures FencedCode(lines, Join(Blocks(lines, |lines|)[m], "\n"))
  {
    var o, e := BlockBetweenFences(lines, |lines|, m);
    assert o + 1 < e;
  }

  /** The code `extract_pr_info` extracts is a fenced block. */
  lemma ExtractedCodeIsFenced(text: string)
    ensures PrInfoOf(text).code.Some? ==> FencedCode(Split(text, '\n'), PrInfoOf(text).code.value)
  {
    var lines := Split(text, '\n');
    match LastNonEmpty(Blocks(lines, |lines|))
    case None =>
    case Some(m) => BlockCode(lines, m);
  }

  /** The code `daytona_node` runs is a fenced block. */
  lemma SandboxCodeIsFenced(text: string)
    ensures SandboxTargetOf(text).fixedCode.Some? ==> FencedCode(Split(text, '\n'), SandboxTargetOf(text).fixedCode.value)
  {
    var lines := Split(text, '\n');
    SandboxKeepsFirstBlock(text);
    match FirstNonEmpty(Blocks(lines, |lines|))
    case None =>
    case Some(m) => BlockCode(lines, m);
  }

  /** Prose between two blocks is not code: in the lines
      "```", "a", "```", "b", "```", "c", "```" the "b" sits between the
      fence closing the first block and the fence opening the second. */
  lemma BetweenBlocksIsNotCode()
    ensures var lines := ["```", "a", "```", "b", "```", "c", "```"];
      !FencedCode(lines, "b")
  {
    var lines := ["```", "a", "```", "b", "```", "c", "```"];
    assert IsFence(lines[0]) && !IsFence(lines[1]) && IsFence(lines[2]);
    assert Fences(lines, 0) == [] && Fences(lines, 1) == [0] && Fences(lines, 2) == [0];
    forall o: nat, e: nat | o + 1 < e < |lines| && IsFence(lines[o]) && IsFence(lines[e])
      && (forall t :: o < t < e ==> !IsFence(lines[t])) && PairedFences(lines, o, e)
      ensures Join(lines[o + 1..e], "\n") != "b"
    {
      assert lines[o + 1] != "b";
      assert Join(lines[o + 1..e], "\n")[0] == lines[o + 1][0];
    }
  }

  // ----- Defaults -----

  /** An answer with none of the markers and no fence gives the default
      title, the whole answer as description, and neither file nor code;
      the sandbox scan then finds nothing either. */
  lemma NoMarkersNoFences(text: string)
    requires !Contains(text, TitleMarker) && !Contains(text, FileMarker)
    requires !Contains(text, DescriptionMarker) && !Contains(text, FenceMarker)
    ensures PrInfoOf(text) == PrInfo(DefaultTitle, text, None, None)
    ensures SandboxTargetOf(text) == SandboxTarget(None, None)
  {
    var lines := Split(text, '\n');
    var n := |lines|;
    AbsentFromLines(text, TitleMarker);
    AbsentFromLines(text, FileMarker);
    AbsentFromLines(text, DescriptionMarker);
    AbsentFromLines(text, FenceMarker);
    MarkerAbsent(lines, n, TitleMarker);
    MarkerAbsent(lines, n, FileMarker);
    MarkerAbsent(lines, n, DescriptionMarker);
    assert LastLineWith(lines, n, DescriptionMarker).None?;
    NoFences(lines, n);
    NoBlocks(lines, n);
    FirstCloseIsFirstBlock(lines, n);
  }

  // ----- Single-line fields -----

  /** The title is never empty, carries no title marker and has no
      surrounding whitespace; it is the value on the last title line when
      that value is non-empty. */
  lemma TitleFacts(text: string, k: nat)
    requires var lines := Split(text, '\n');
      && k < |lines|
      && Contains(lines[k], TitleMarker)
      && (forall t :: k < t < |lines| ==> !Contains(lines[t], TitleMarker))
    ensures var title := PrInfoOf(text).title; var v := ValueAfter(Split(text, '\n')[k], TitleMarker);
      title == if v == [] then DefaultTitle else v
  {
    var lines := Split(text, '\n');
    MarkerValueAt(lines, |lines|, TitleMarker, k);
  }

  lemma DefaultTitleTrimmed()
    ensures DefaultTitle[0] !in Whitespace && DefaultTitle[|DefaultTitle| - 1] !in Whitespace
  {
    assert DefaultTitle[0] == 'F' && DefaultTitle[|DefaultTitle| - 1] == 'n';
  }

  lemma DefaultTitleLacksMarker()
    ensures !Contains(DefaultTitle, TitleMarker)
  {
    // The marker starts with `*`, which the default title lacks.
    assert TitleMarker[0] == '*';
    assert '*' !in DefaultTitle;
    LacksHead(DefaultTitle, TitleMarker);
  }

  lemma TitleClean(text: string)
    ensures var title := PrInfoOf(text).title;
      && title != []
      && !Contains(title, TitleMarker)
      && title[0] !in Whitespace && title[|title| - 1] !in Whitespace
  {
    DefaultTitleTrimmed();
    DefaultTitleLacksMarker();
  }

  /** An answer laid out as the prompt asks, with the title on the line
      below its marker, gets the default title: only the marker's own line
      is read, and nothing follows the marker there. */
  lemma LayoutTitleMissed(t: string)
    requires '\n' !in t && !Contains(t, TitleMarker)
    ensures PrInfoOf(TitleMarker + "\n" + t).title == DefaultTitle
  {
    var text := TitleMarker + "\n" + t;
    MarkerLineThenTitle(t);
    PieceAfterWhole(TitleMarker);
    TitleFacts(text, 0);
  }

  /** Read as the layout intends, the same answer gets the line below the
      marker as its title. */
  lemma LayoutTitleRead(t: string)
    requires '\n' !in t && !Contains(t, TitleMarker) && Strip(t, Whitespace) != []
    ensures LayoutTitle(TitleMarker + "\n" + t) == Strip(t, Whitespace)
  {
    MarkerLineThenTitle(t);
    PieceAfterWhole(TitleMarker);
    var lines := [TitleMarker, t];
    assert LastLineWith(lines, 2, TitleMarker) == Some(0);
    assert LayoutValue(lines) == Some(ValueBelow(lines, 0, TitleMarker));
  }

  /** The title marker on a line of its own, then the title line. */
  lemma MarkerLineThenTitle(t: string)
    requires '\n' !in t && !Contains(t, TitleMarker)
    ensures Split(TitleMarker + "\n" + t, '\n') == [TitleMarker, t]
    ensures Contains(TitleMarker, TitleMarker)
  {
    assert TitleMarker + "\n" + t == TitleMarker + ['\n'] + t;
    assert '\n' !in TitleMarker by {
      forall k | 0 <= k < |TitleMarker| ensures TitleMarker[k] != '\n' { }
    }
    SplitAtSeparator(TitleMarker, '\n', t);
    SplitWithoutSeparator(t, '\n');
    assert OccursAt(TitleMarker, TitleMarker, 0);
  }

  /** The title read as the layout intends is never empty, holds no title
      marker and has no surrounding whitespace. */
  lemma LayoutTitleClean(text: string)
    ensures var title := LayoutTitle(text);
      && title != []
      && !Contains(title, TitleMarker)
      && title[0] !in Whitespace && title[|title| - 1] !in Whitespace
  {
    DefaultTitleTrimmed();
    DefaultTitleLacksMarker();
  }

  /** Where the marker's line carries a value, or no line follows it, or
      there is no marker, both readings give the same title. */
  lemma LayoutTitleAgrees(text: string)
    ensures var lines := Split(text, '\n'); var k := LastLineWith(lines, |lines|, TitleMarker);
      (k.None? || ValueAfter(lines[k.value], TitleMarker) != [] || k.value + 1 == |lines|) ==>
        LayoutTitle(text) == PrInfoOf(text).title
  {
    var lines := Split(text, '\n');
    PrInfoTitle(text);
    assert LayoutTitle(text) == TitleOr(LayoutValue(lines));
  }

  /** The title `extract_pr_info` reports is made of the value on the last title line. */
  lemma PrInfoTitle(text: string)
    ensures var lines := Split(text, '\n');
      PrInfoOf(text).title == TitleOr(MarkerValue(lines, |lines|, TitleMarker))
  {
  }

  /** The file path `extract_pr_info` reports holds no quote or backtick and
      has no surrounding whitespace. */
  lemma FilePathClean(text: string)
    ensures var p := PrInfoOf(text).filePath;
      p.Some? ==>
        && (forall c :: c in p.value ==> c !in Quotes)
        && (p.value == [] || (p.value[0] !in Whitespace && p.value[|p.value| - 1] !in Whitespace))
  {
    var lines := Split(text, '\n');
    assert PrInfoOf(text).filePath == CleanPathOf(MarkerValue(lines, |lines|, FileMarker));
  }

  /** The path is the cleaned value on the last file line; when the sandbox
      scan finds no code, it takes the same line's value uncleaned. */
  lemma FilePathAt(text: string, k: nat)
    requires var lines := Split(text, '\n');
      && k < |lines|
      && Contains(lines[k], FileMarker)
      && (forall t :: k < t < |lines| ==> !Contains(lines[t], FileMarker))
    ensures PrInfoOf(text).filePath == Some(CleanPath(ValueAfter(Split(text, '\n')[k], FileMarker)))
    ensures SandboxTargetOf(text).fixedCode.None? ==>
      SandboxTargetOf(text).fileToFix == Some(ValueAfter(Split(text, '\n')[k], FileMarker))
  {
    var lines := Split(text, '\n');
    MarkerValueAt(lines, |lines|, FileMarker, k);
    FirstCloseIsFirstBlock(lines, |lines|);
  }

  // ----- The description -----

  /** With a single description marker, on line `k`, the description is the
      lines after it up to the next section header, joined and stripped,
      or the whole answer when that is empty. */
  lemma SingleDescription(text: string, k: nat)
    requires var lines := Split(text, '\n');
      && k < |lines|
      && forall t :: 0 <= t < |lines| ==> (Contains(lines[t], DescriptionMarker) <==> t == k)
    ensures var lines := Split(text, '\n');
      var d := Strip(Join(lines[k + 1..SectionEnd(lines, k + 1)], "\n"), Whitespace);
      PrInfoOf(text).description == if d == [] then text else d
  {
    var lines := Split(text, '\n');
    OnlyRun(lines, |lines|, k);
    MarkerValueAt(lines, |lines|, DescriptionMarker, k);
  }

  lemma {:induction false} OnlyRun(lines: seq<string>, n: nat, k: nat)
    requires k < n <= |lines|
    requires forall t :: 0 <= t < n ==> (Contains(lines[t], DescriptionMarker) <==> t == k)
    ensures DescriptionLines(lines, n) == DescriptionRun(lines, k)
    decreases n
  {
    if n - 1 > k {
      OnlyRun(lines, n - 1, k);
    } else {
      NoRun(lines, k);
    }
  }

  lemma {:induction false} NoRun(lines: seq<string>, n: nat)
    requires n <= |lines|
    requires forall t :: 0 <= t < n ==> !Contains(lines[t], DescriptionMarker)
    ensures DescriptionLines(lines, n) == []
    decreases n
  {
    if n > 0 {
      NoRun(lines, n - 1);
    }
  }
}
