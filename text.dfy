/** The pieces of Python's string semantics that the modelled code relies on:
    substring search (`p in s`), `startswith`, `split`, `"sep".join`, `strip`,
    `replace(p, "")`, character-class deletion and slicing `s[:n]`.
    Python strings are sequences of code points, as Dafny's `string` is. */
module Text {
  import opened Wrappers

  /** The characters for which Python's `str.isspace()` holds. */
  predicate IsSpace(c: char) {
    ('\t' <= c <= '\r') || ('\U{1C}' <= c <= ' ') || c == '\U{85}' || c == '\U{A0}' || c == '\U{1680}'
    || ('\U{2000}' <= c <= '\U{200A}') || c == '\U{2028}' || c == '\U{2029}' || c == '\U{202F}'
    || c == '\U{205F}' || c == '\U{3000}'
  }

  /** What `strip()` with no argument removes. */
  const Whitespace: set<char> := set c: char | IsSpace(c)

  /** `p` occurs in `s` starting at index `i`. */
  predicate OccursAt(s: string, p: string, i: nat) {
    i + |p| <= |s| && s[i..i + |p|] == p
  }

  /** Index of the leftmost occurrence of `p` in `s` at or after `from`. */
  function IndexFrom(s: string, p: string, from: nat): (r: Option<nat>)
    requires from <= |s|
    ensures r.Some? ==> from <= r.value && OccursAt(s, p, r.value)
    ensures r.Some? ==> forall j: nat :: from <= j < r.value ==> !OccursAt(s, p, j)
    ensures r.None? ==> forall j: nat :: from <= j ==> !OccursAt(s, p, j)
    decreases |s| - from
  {
    if from + |p| > |s| then None
    else if OccursAt(s, p, from) then Some(from)
    else IndexFrom(s, p, from + 1)
  }

  /** Python's `p in s`. */
  predicate Contains(s: string, p: string) {
    IndexFrom(s, p, 0).Some?
  }

  /** Python's `s.startswith(p)`. */
  predicate StartsWith(s: string, p: string) {
    |p| <= |s| && s[..|p|] == p
  }

  /** Python's `s.endswith(p)`. */
  predicate EndsWith(s: string, p: string) {
    |p| <= |s| && s[|s| - |p|..] == p
  }

  lemma OccursInSuffix(s: string, p: string, from: nat)
    requires from <= |s|
    ensures forall j: nat :: OccursAt(s[from..], p, j) <==> OccursAt(s, p, from + j)
  {
    forall j: nat ensures OccursAt(s[from..], p, j) <==> OccursAt(s, p, from + j) {
      if j + |p| <= |s| - from {
        assert s[from..][j..j + |p|] == s[from + j..from + j + |p|];
      }
    }
  }

  /** An occurrence inside an occurrence is an occurrence. */
  lemma OccursTrans(s: string, line: string, p: string, i: nat, j: nat)
    requires OccursAt(s, line, i) && OccursAt(line, p, j)
    ensures OccursAt(s, p, i + j)
  {
    forall k | 0 <= k < |p| ensures s[i + j..i + j + |p|][k] == p[k] {
      assert p[k] == line[j..j + |p|][k] == line[j + k];
      assert line[j + k] == s[i..i + |line|][j + k] == s[i + j + k];
    }
  }

  /** An infix of an infix is an infix. */
  lemma ContainsTrans(s: string, r: string, p: string)
    requires Contains(s, r) && Contains(r, p)
    ensures Contains(s, p)
  {
    OccursTrans(s, r, p, IndexFrom(s, r, 0).value, IndexFrom(r, p, 0).value);
  }

  /** A text lacking the first character of `p` does not contain `p`. */
  lemma LacksHead(s: string, p: string)
    requires p != [] && p[0] !in s
    ensures !Contains(s, p)
  {
    forall i: nat | i + |p| <= |s|
      ensures !OccursAt(s, p, i)
    {
      assert s[i..i + |p|][0] == s[i];
    }
  }

  /** A one-character string occurs exactly where its character does. */
  lemma ContainsChar(s: string, c: char)
    ensures Contains(s, [c]) <==> c in s
  {
    if c in s {
      var k :| 0 <= k < |s| && s[k] == c;
      assert OccursAt(s, [c], k);
    }
    if Contains(s, [c]) {
      var k := IndexFrom(s, [c], 0).value;
      assert s[k..k + 1][0] == s[k];
    }
  }

  lemma ConcatAt(a: string, b: string, i: int)
    ensures 0 <= i < |a| ==> (a + b)[i] == a[i]
    ensures |a| <= i < |a| + |b| ==> (a + b)[i] == b[i - |a|]
  {
  }

  /** Two texts that each start with a piece free of line breaks followed
      by a line break split into the same two parts. */
  lemma SplitAtBreak(x: string, u: string, y: string, v: string)
    requires x + u == y + v
    requires '\n' !in x && '\n' !in y && u != [] && v != [] && u[0] == '\n' && v[0] == '\n'
    ensures x == y && u == v
  {
    var s := x + u;
    if |x| < |y| {
      ConcatAt(x, u, |x|);
      ConcatAt(y, v, |x|);
      assert false;
    } else if |y| < |x| {
      ConcatAt(x, u, |y|);
      ConcatAt(y, v, |y|);
      assert false;
    }
    assert x == s[..|x|] == y;
    assert u == s[|x|..] == v;
  }

  /** A string absent from `s` is absent from every infix of `s`. */
  lemma InfixLacks(s: string, r: string, p: string)
    requires Contains(s, r) && !Contains(s, p)
    ensures !Contains(r, p)
  {
    if Contains(r, p) {
      OccursTrans(s, r, p, IndexFrom(s, r, 0).value, IndexFrom(r, p, 0).value);
    }
  }

  /** The piece after the last separator found by a left-to-right scan from
      `from`: Python's `s[from:].split(sep)[-1]`. */
  function LastPieceFrom(s: string, sep: string, from: nat): (r: string)
    requires |sep| > 0 && from <= |s|
    ensures |r| <= |s| - from && r == s[|s| - |r|..]
    ensures forall j: nat :: !OccursAt(r, sep, j)
    ensures (forall j: nat :: from <= j ==> !OccursAt(s, sep, j)) ==> r == s[from..]
    decreases |s| - from
  {
    match IndexFrom(s, sep, from)
    case None =>
      OccursInSuffix(s, sep, from);
      s[from..]
    case Some(i) =>
      LastPieceFrom(s, sep, i + |sep|)
  }

  /** Python's `s.split(sep)[-1]`: a suffix of `s` in which `sep` does not
      occur, and all of `s` when `sep` does not occur in it. */
  function LastPiece(s: string, sep: string): (r: string)
    requires |sep| > 0
    ensures |r| <= |s| && r == s[|s| - |r|..]
    ensures !Contains(r, sep)
    ensures !Contains(s, sep) ==> r == s
  {
    LastPieceFrom(s, sep, 0)
  }

  /** Nothing follows a separator that is the whole string. */
  lemma PieceAfterWhole(p: string)
    requires |p| > 0
    ensures LastPiece(p, p) == []
  {
    assert p[0..|p|] == p;
    assert IndexFrom(p, p, 0) == Some(0);
  }

  /** Python's `s[from:].replace(p, "")`: every occurrence found by a
      left-to-right scan is deleted. */
  function RemoveFrom(s: string, p: string, from: nat): (r: string)
    requires |p| > 0 && from <= |s|
    ensures |r| <= |s| - from
    ensures forall c :: c in r ==> c in s[from..]
    ensures (forall j: nat :: from <= j ==> !OccursAt(s, p, j)) ==> r == s[from..]
    ensures IndexFrom(s, p, from).Some? ==> |r| <= |s| - from - |p|
    decreases |s| - from
  {
    match IndexFrom(s, p, from)
    case None => s[from..]
    case Some(i) =>
      var rest := RemoveFrom(s, p, i + |p|);
      assert forall c :: c in s[from..i] ==> c in s[from..];
      assert forall c :: c in s[i + |p|..] ==> c in s[from..];
      s[from..i] + rest
  }

  /** Python's `s.replace(p, "")`. */
  function RemoveAll(s: string, p: string): (r: string)
    requires |p| > 0
    ensures |r| <= |s|
    ensures forall c :: c in r ==> c in s
    ensures !Contains(s, p) ==> r == s
    ensures Contains(s, p) ==> |r| <= |s| - |p|
  {
    assert s[0..] == s;
    RemoveFrom(s, p, 0)
  }

  /** `(p + s).replace(p, "")` is `s` when `s` itself holds no `p`: the scan
      deletes the leading copy and resumes behind it. */
  lemma RemoveLeading(p: string, s: string)
    requires |p| > 0 && !Contains(s, p)
    ensures RemoveAll(p + s, p) == s
  {
    var t := p + s;
    assert t[..|p|] == p && OccursAt(t, p, 0);
    assert t[|p|..] == s;
    OccursInSuffix(t, p, |p|);
    assert forall j: nat :: |p| <= j ==> !OccursAt(t, p, j) by {
      forall j: nat | |p| <= j
        ensures !OccursAt(t, p, j)
      {
        assert !OccursAt(s, p, j - |p|);
      }
    }
    assert RemoveFrom(t, p, |p|) == s;
    assert t[0..0] == [];
  }

  /** `(x + p + y).replace(p, "")` is `x + y` when the copy after `x` is the
      first one and `y` holds none. */
  lemma RemoveOnce(x: string, p: string, y: string)
    requires |p| > 0 && !Contains(y, p)
    requires forall j: nat :: j < |x| ==> !OccursAt(x + p + y, p, j)
    ensures RemoveAll(x + p + y, p) == x + y
  {
    var t := x + p + y;
    assert t[|x|..|x| + |p|] == p;
    assert OccursAt(t, p, |x|);
    assert IndexFrom(t, p, 0) == Some(|x|);
    var after := |x| + |p|;
    assert t[after..] == y;
    OccursInSuffix(t, p, after);
    assert forall j: nat :: after <= j ==> !OccursAt(t, p, j) by {
      forall j: nat | after <= j
        ensures !OccursAt(t, p, j)
      {
        assert !OccursAt(y, p, j - after);
      }
    }
    assert RemoveFrom(t, p, after) == y;
    assert t[0..|x|] == x;
  }

  /** Python's `re.sub("[...]", "", s)`: every character of the class `cs` deleted. */
  function DeleteChars(s: string, cs: set<char>): (r: string)
    ensures |r| <= |s|
    ensures forall c :: c in r <==> c in s && c !in cs
  {
    if s == [] then []
    else if s[0] in cs then DeleteChars(s[1..], cs)
    else [s[0]] + DeleteChars(s[1..], cs)
  }

  lemma {:induction false} DeleteNothing(s: string, cs: set<char>)
    ensures (forall c :: c in s ==> c !in cs) ==> DeleteChars(s, cs) == s
    decreases |s|
  {
    if s != [] {
      assert forall c :: c in s[1..] ==> c in s;
      DeleteNothing(s[1..], cs);
    }
  }

  /** Python's `s[:n]` for `n >= 0`. */
  function Take<T>(s: seq<T>, n: nat): (r: seq<T>)
    ensures |r| <= n && |r| <= |s| && r == s[..|r|]
    ensures |s| <= n ==> r == s
  {
    if |s| <= n then s else s[..n]
  }

  /** Python's `s.lstrip(chars)`. */
  function TrimStart(s: string, cs: set<char>): (r: string)
    ensures |r| <= |s| && r == s[|s| - |r|..]
    ensures forall k :: 0 <= k < |s| - |r| ==> s[k] in cs
    ensures r != [] ==> r[0] !in cs
    decreases |s|
  {
    if s != [] && s[0] in cs then TrimStart(s[1..], cs) else s
  }

  /** Python's `s.rstrip(chars)`. */
  function TrimEnd(s: string, cs: set<char>): (r: string)
    ensures |r| <= |s| && r == s[..|r|]
    ensures forall k :: |r| <= k < |s| ==> s[k] in cs
    ensures r != [] ==> r[|r| - 1] !in cs
    decreases |s|
  {
    if s != [] && s[|s| - 1] in cs then TrimEnd(s[..|s| - 1], cs) else s
  }

  /** Python's `s.strip(chars)` (and `s.strip()` with `cs == Whitespace`): the
      longest infix of `s` that neither starts nor ends with a character of `cs`
      (`StripIsInfix` shows it is an infix, `StripEmpty` when it is empty). */
  function Strip(s: string, cs: set<char>): (r: string)
    ensures |r| <= |s|
    ensures r != [] ==> r[0] !in cs && r[|r| - 1] !in cs
    ensures (s == [] || (s[0] !in cs && s[|s| - 1] !in cs)) ==> r == s
  {
    TrimEnd(TrimStart(s, cs), cs)
  }

  /** No whitespace at either end. */
  predicate Trimmed(s: string) {
    s == [] || (s[0] !in Whitespace && s[|s| - 1] !in Whitespace)
  }

  /** Stripping adds no occurrence of a pattern. */
  lemma StripLacks(s: string, cs: set<char>, p: string)
    requires !Contains(s, p)
    ensures !Contains(Strip(s, cs), p)
  {
    StripIsInfix(s, cs);
    InfixLacks(s, Strip(s, cs), p);
  }

  /** A string with neither end in `cs` is left as it is. */
  lemma StripKeepsEnds(s: string, cs: set<char>)
    requires s != [] && s[0] !in cs && s[|s| - 1] !in cs
    ensures Strip(s, cs) == s
  {
  }

  /** `lstrip` removing exactly one character. */
  lemma TrimStartOne(s: string, cs: set<char>)
    requires |s| >= 2 && s[0] in cs && s[1] !in cs
    ensures TrimStart(s, cs) == s[1..]
  {
  }

  /** `rstrip` removing exactly one character. */
  lemma TrimEndOne(s: string, cs: set<char>)
    requires |s| >= 2 && s[|s| - 1] in cs && s[|s| - 2] !in cs
    ensures TrimEnd(s, cs) == s[..|s| - 1]
  {
  }

  /** `rstrip` stops at the last character it may not remove, so it keeps
      every position up to that one. */
  lemma {:induction false} TrimEndKeeps(s: string, cs: set<char>, j: nat)
    requires j < |s| && s[j] !in cs
    ensures j < |TrimEnd(s, cs)|
    decreases |s|
  {
    if s[|s| - 1] in cs {
      TrimEndKeeps(s[..|s| - 1], cs, j);
    }
  }

  /** `strip` on a string that starts with a kept character keeps every
      position up to any other kept character. */
  lemma StripKeepsHead(s: string, cs: set<char>, j: nat)
    requires j < |s| && s[0] !in cs && s[j] !in cs
    ensures j < |Strip(s, cs)| && Strip(s, cs)[..j + 1] == s[..j + 1]
  {
    assert TrimStart(s, cs) == s;
    TrimEndKeeps(s, cs, j);
  }

  /** `strip` gives the empty string exactly when every character is stripped. */
  lemma StripEmpty(s: string, cs: set<char>)
    ensures Strip(s, cs) == [] <==> forall k :: 0 <= k < |s| ==> s[k] in cs
  {
    if Strip(s, cs) == [] {
      // Nothing survives the right strip, so nothing survived the left one.
      assert TrimStart(s, cs) == [];
    }
  }

  /** What `strip` keeps is a contiguous piece of its input, so it holds only
      characters of the input. */
  lemma StripIsInfix(s: string, cs: set<char>)
    ensures Contains(s, Strip(s, cs))
    ensures forall c :: c in Strip(s, cs) ==> c in s
  {
    var t := TrimStart(s, cs);
    var r := TrimEnd(t, cs);
    var a := |s| - |t|;
    assert s[a..a + |r|] == r;
    assert OccursAt(s, r, a);
  }

  /** Python's `sep.join(xs)`. */
  function Join(xs: seq<string>, sep: string): string
  {
    if |xs| == 0 then []
    else if |xs| == 1 then xs[0]
    else xs[0] + sep + Join(xs[1..], sep)
  }

  /** Python's `s.split(d)` for a one-character separator: never empty, and
      no piece contains the separator. */
  function Split(s: string, d: char): (r: seq<string>)
    ensures |r| >= 1
    ensures forall k :: 0 <= k < |r| ==> d !in r[k]
    decreases |s|
  {
    if s == [] then [[]]
    else
      var rest := Split(s[1..], d);
      if s[0] == d then [[]] + rest
      else [[s[0]] + rest[0]] + rest[1..]
  }

  /** Joining the pieces of a split with the separator gives back the text. */
  lemma {:induction false} JoinSplit(s: string, d: char)
    ensures Join(Split(s, d), [d]) == s
    decreases |s|
  {
    if s != [] {
      var rest := Split(s[1..], d);
      JoinSplit(s[1..], d);
      if s[0] != d && |rest| > 1 {
        var r := Split(s, d);
        assert r[1..] == rest[1..];
        calc {
          Join(r, [d]);
          ([s[0]] + rest[0]) + [d] + Join(rest[1..], [d]);
          [s[0]] + (rest[0] + [d] + Join(rest[1..], [d]));
          [s[0]] + s[1..];
        }
      }
    }
  }

  lemma {:induction false} SplitWithoutSeparator(a: string, d: char)
    requires d !in a
    ensures Split(a, d) == [a]
    decreases |a|
  {
    if a != [] {
      SplitWithoutSeparator(a[1..], d);
      assert [a[0]] + a[1..] == a;
    }
  }

  lemma {:induction false} SplitAtSeparator(a: string, d: char, b: string)
    requires d !in a
    ensures Split(a + [d] + b, d) == [a] + Split(b, d)
    decreases |a|
  {
    var s := a + [d] + b;
    if a == [] {
      assert s[1..] == b;
    } else {
      assert s[1..] == a[1..] + [d] + b;
      SplitAtSeparator(a[1..], d, b);
      assert [a[0]] + a[1..] == a;
    }
  }

  /** Splitting a join of separator-free pieces gives back the pieces. */
  lemma {:induction false} SplitJoin(xs: seq<string>, d: char)
    requires |xs| >= 1
    requires forall k :: 0 <= k < |xs| ==> d !in xs[k]
    ensures Split(Join(xs, [d]), d) == xs
    decreases |xs|
  {
    if |xs| == 1 {
      SplitWithoutSeparator(xs[0], d);
    } else {
      SplitJoin(xs[1..], d);
      SplitAtSeparator(xs[0], d, Join(xs[1..], [d]));
      assert [xs[0]] + xs[1..] == xs;
    }
  }

  /** Where piece `k` starts inside `Join(xs, sep)`. */
  function PieceOffset(xs: seq<string>, sep: string, k: nat): nat
    requires k < |xs|
  {
    if k == 0 then 0 else |xs[0]| + |sep| + PieceOffset(xs[1..], sep, k - 1)
  }

  lemma {:induction false} PieceOccurs(xs: seq<string>, sep: string, k: nat)
    requires k < |xs|
    ensures OccursAt(Join(xs, sep), xs[k], PieceOffset(xs, sep, k))
    decreases k
  {
    if k == 0 {
      if |xs| > 1 {
        assert Join(xs, sep) == xs[0] + (sep + Join(xs[1..], sep));
      }
    } else {
      PieceOccurs(xs[1..], sep, k - 1);
      var rest := Join(xs[1..], sep);
      var o := PieceOffset(xs[1..], sep, k - 1);
      var j := Join(xs, sep);
      assert j == (xs[0] + sep) + rest;
      assert j[|xs[0]| + |sep| + o..|xs[0]| + |sep| + o + |xs[k]|] == rest[o..o + |xs[k]|];
    }
  }

  /** A substring of one line of a text is a substring of the text. */
  lemma LineContains(s: string, d: char, k: nat, p: string)
    requires k < |Split(s, d)| && Contains(Split(s, d)[k], p)
    ensures Contains(s, p)
  {
    var lines := Split(s, d);
    JoinSplit(s, d);
    PieceOccurs(lines, [d], k);
    var j := IndexFrom(lines[k], p, 0).value;
    OccursTrans(s, lines[k], p, PieceOffset(lines, [d], k), j);
  }
}
