/** What the two release scripts write: a default changelog for a project that
    has none, and the release block put in place of the entry point line of
    the changelog, once the new version and the sorted commits are known. */
module ScriptRelease {
  import opened Wrappers
  import opened Text
  import opened Values
  import opened DateFormat
  import opened SortedCommits
  import opened Markdown
  import opened RegularExpressions
  import opened StringParsing
  import opened ScriptVersion
  import opened ScriptLog

  /** The entry point line the scripts look for and replace. */
  const Marker: string := EntryPoint + "\n"

  // ---------------------------------------------------------------------
  // getDefaultChangelog
  // ---------------------------------------------------------------------

  /** The line describing one commit type in a new changelog. */
  function TypeLine(t: CommitType): string {
    "- [`" + t.key + "`] " + t.description + "\n"
  }

  function TypeLines(types: seq<CommitType>): (r: seq<string>)
    ensures |r| == |types| && forall i :: 0 <= i < |types| ==> r[i] == TypeLine(types[i])
  {
    seq(|types|, i requires 0 <= i < |types| => TypeLine(types[i]))
  }

  /** The entry point guard: `content.match(marker + "\n")`. The line holds no
      pattern character, so the guard passes exactly when `replace` has an
      occurrence to replace. */
  predicate HasEntryPoint(content: string)
    ensures HasEntryPoint(content) <==> IndexOf(content, Marker).Some?
  {
    Contains(content, Marker)
  }

  /** `getDefaultChangelog`: the fixed head, one line per type in
      configuration order, then an empty line and the entry point line; the
      guard of the release run always passes on it. */
  method DefaultChangelog(types: seq<CommitType>) returns (r: string)
    ensures r == DefaultChangelogContent + Concat(TypeLines(types)) + "\n" + Marker
    ensures EndsWith(r, "\n" + Marker)
    ensures HasEntryPoint(r)
  {
    r := DefaultChangelogContent;
    for i := 0 to |types|
      invariant r == DefaultChangelogContent + Concat(TypeLines(types[..i]))
    {
      assert TypeLines(types[..i + 1]) == TypeLines(types[..i]) + [TypeLine(types[i])];
      ConcatSnoc(TypeLines(types[..i]), TypeLine(types[i]));
      r := r + TypeLine(types[i]);
    }
    assert types[..|types|] == types;
    var head := r;
    r := r + "\n" + Marker;
    AppendAssoc(head, "\n", Marker);
    AppendedOccurs(head, "\n" + Marker);
    AppendedOccurs(head + "\n", Marker);
  }

  // ---------------------------------------------------------------------
  // appendCommitsToSection and genReleaseContentWithSortedSections
  // ---------------------------------------------------------------------

  /** `appendCommitsToSection`: a list item per commit, in order, after the text so far. */
  method AppendCommitsToSection(commits: seq<string>, changeLogPart: string) returns (r: string)
    ensures r == changeLogPart + Concat(CommitsToMarkdown(commits))
  {
    r := changeLogPart;
    for i := 0 to |commits|
      invariant r == changeLogPart + Concat(CommitsToMarkdown(commits[..i]))
    {
      assert CommitsToMarkdown(commits[..i + 1]) == CommitsToMarkdown(commits[..i]) + ["- " + commits[i] + "\n"];
      ConcatSnoc(CommitsToMarkdown(commits[..i]), "- " + commits[i] + "\n");
      r := r + ("- " + commits[i] + "\n");
    }
    assert commits[..|commits|] == commits;
  }

  /** The block a release puts in place of the entry point line: the entry
      point line again, the dated heading, then a one-line titled section per
      bucket that has commits, in key order. */
  function ReleaseBlock(version: string, date: UtcDate, sorted: seq<Bucket>): (r: string)
    ensures OccursAt(r, Marker, 0)
    ensures OccursAt(r, "## [" + version + "]", |Marker|)
  {
    var d := DatedVersionMarkdown(version, date);
    var rest := Sections(sorted, ScriptTitle);
    OccursShifted(Marker, d, rest, "## [" + version + "]", 0);
    AppendAssoc(Marker, d, rest);
    OccursFirst(Marker, d + rest);
    Marker + d + rest
  }

  /** `genReleaseContentWithSortedSections`, with the date as an input; the
      title is written only for buckets with commits, the items for all. */
  method GenReleaseContentWithSortedSections(version: string, sortedCommits: seq<Bucket>, date: UtcDate)
    returns (r: string)
    ensures r == ReleaseBlock(version, date, sortedCommits)
  {
    r := Marker;
    r := r + DatedVersionMarkdown(version, date);
    ghost var head := r;
    for i := 0 to |sortedCommits|
      invariant r == head + Sections(sortedCommits[..i], ScriptTitle)
    {
      var b := sortedCommits[i];
      SectionsStep(head, sortedCommits, i, ScriptTitle, r);
      if |b.commits| > 0 {
        r := r + Title(ScriptTitle, b);
      }
      assert Concat(CommitsToMarkdown([])) == "";
      r := AppendCommitsToSection(b.commits, r);
    }
    assert sortedCommits[..|sortedCommits|] == sortedCommits;
  }

  // ---------------------------------------------------------------------
  // The final replace
  // ---------------------------------------------------------------------

  /** The characters that may follow `$` in a replacement pattern that a
      match without capture groups expands. */
  predicate IsSubstitutionCode(c: char) {
    c == '$' || c == '&' || c == '`' || c == '\''
  }

  /** What `$c` stands for: a dollar, the match, the text before it or the
      text after it. */
  function Substitution(c: char, matched: string, before: string, after: string): string
    requires IsSubstitutionCode(c)
  {
    match c
    case '$' => "$"
    case '&' => matched
    case '`' => before
    case _ => after
  }

  /** `GetSubstitution` for a match with no capture groups, from position `k`
      of the replacement on: `$$`, `$&`, `` $` `` and `$'` are expanded, every
      other character is kept. */
  function ExpandFrom(replacement: string, k: nat, matched: string, before: string, after: string): string
    requires k <= |replacement|
    decreases |replacement| - k
  {
    if k == |replacement| then []
    else if k + 1 < |replacement| && replacement[k] == '$' && IsSubstitutionCode(replacement[k + 1]) then
      Substitution(replacement[k + 1], matched, before, after) + ExpandFrom(replacement, k + 2, matched, before, after)
    else [replacement[k]] + ExpandFrom(replacement, k + 1, matched, before, after)
  }

  /** The expanded replacement; one without `$` is inserted as it is. */
  function Expand(replacement: string, matched: string, before: string, after: string): (r: string)
    ensures '$' !in replacement ==> r == replacement
  {
    if '$' !in replacement then
      assert forall i :: 0 <= i < |replacement| ==> replacement[i] != '$' by {
        assert forall i :: 0 <= i < |replacement| ==> replacement[i] in replacement;
      }
      ExpandFromPlain(replacement, 0, matched, before, after);
      assert replacement[0..] == replacement;
      ExpandFrom(replacement, 0, matched, before, after)
    else ExpandFrom(replacement, 0, matched, before, after)
  }

  /** The scripts' `changelogContent.replace(marker + "\n", newContent)`: the
      first occurrence of the entry point line is replaced by the block, with
      the `$` patterns of the block expanded. */
  function SpliceAsWritten(content: string, block: string): (r: string)
    ensures !HasEntryPoint(content) ==> r == content
  {
    match IndexOf(content, Marker)
    case None => content
    case Some(p) =>
      var after := content[p + |Marker|..];
      content[..p] + Expand(block, Marker, content[..p], after) + after
  }

  /** The replace as intended: the first occurrence of the entry point line is
      replaced by the block exactly as written. */
  function SpliceLiteral(content: string, block: string): (r: string)
    ensures !HasEntryPoint(content) ==> r == content
    ensures HasEntryPoint(content) ==> |r| == |content| - |Marker| + |block|
  {
    match IndexOf(content, Marker)
    case None => content
    case Some(p) => content[..p] + block + content[p + |Marker|..]
  }

  /** A block with no `$` is inserted as written either way. */
  lemma {:induction false} ExpandFromPlain(s: string, k: nat, matched: string, before: string, after: string)
    requires k <= |s| && forall i :: k <= i < |s| ==> s[i] != '$'
    ensures ExpandFrom(s, k, matched, before, after) == s[k..]
    decreases |s| - k
  {
    if k < |s| {
      ExpandFromPlain(s, k + 1, matched, before, after);
      assert s[k..] == [s[k]] + s[k + 1..];
    }
  }

  lemma SpliceAgreesWithoutDollar(content: string, block: string)
    requires '$' !in block
    ensures SpliceAsWritten(content, block) == SpliceLiteral(content, block)
  {
    match IndexOf(content, Marker)
    case None =>
    case Some(p) =>
  }

  /** A commit subject holding `$'` makes the scripts copy the rest of the
      changelog, everything after the entry point, into the middle of the
      new release. */
  lemma SpliceCopiesTail(before: string, after: string, x: string, y: string)
    requires '$' !in x && '$' !in y
    requires forall j :: 0 <= j < |before| ==> !OccursAt(before + Marker + after, Marker, j)
    ensures SpliceAsWritten(before + Marker + after, x + "$'" + y) == before + x + after + y + after
    ensures SpliceLiteral(before + Marker + after, x + "$'" + y) == before + x + "$'" + y + after
  {
    var content := before + Marker + after;
    var block := x + "$'" + y;
    OccursMiddle(before, Marker, after);
    IndexOfIs(content, Marker, |before|);
    SpliceAt(content, block, |before|);
    ExpandAround(x, y, Marker, before, after);
    Regroup(before, x, after, y, after);
    Regroup(before, x, "$'", y, after);
  }

  /** Both splices at the first entry point line, found at `p`. */
  lemma SpliceAt(content: string, block: string, p: nat)
    requires IndexOf(content, Marker) == Some(p)
    ensures p + |Marker| <= |content|
    ensures SpliceAsWritten(content, block) ==
      content[..p] + Expand(block, Marker, content[..p], content[p + |Marker|..]) + content[p + |Marker|..]
    ensures SpliceLiteral(content, block) == content[..p] + block + content[p + |Marker|..]
  {
  }

  /** Expanding up to a single `$'` at position `q`: the characters before it
      are copied, `$'` becomes the text after the match, the rest is copied. */
  lemma {:induction false} ExpandFromAround(s: string, k: nat, q: nat, matched: string, before: string, after: string)
    requires k <= q && q + 2 <= |s| && s[q] == '$' && s[q + 1] == '\''
    requires forall i :: k <= i < |s| && i != q ==> s[i] != '$'
    ensures ExpandFrom(s, k, matched, before, after) == s[k..q] + after + s[q + 2..]
    decreases q - k
  {
    var tail := s[q + 2..];
    if k == q {
      assert Substitution(s[q + 1], matched, before, after) == after;
      assert ExpandFrom(s, q, matched, before, after) == after + ExpandFrom(s, q + 2, matched, before, after);
      ExpandFromPlain(s, q + 2, matched, before, after);
      assert s[k..q] + after + tail == after + tail;
    } else {
      assert s[k] != '$';
      assert ExpandFrom(s, k, matched, before, after) == [s[k]] + ExpandFrom(s, k + 1, matched, before, after);
      ExpandFromAround(s, k + 1, q, matched, before, after);
      assert s[k..q] == [s[k]] + s[k + 1..q];
      AppendAssoc([s[k]], s[k + 1..q], after);
      AppendAssoc([s[k]], s[k + 1..q] + after, tail);
    }
  }

  lemma ExpandAround(x: string, y: string, matched: string, before: string, after: string)
    requires '$' !in x && '$' !in y
    ensures Expand(x + "$'" + y, matched, before, after) == x + after + y
  {
    var s := x + "$'" + y;
    var q := |x|;
    assert s[q] == '$' && s[q + 1] == '\'';
    forall i | 0 <= i < |s| && i != q ensures s[i] != '$' {
      if i < q {
        assert s[i] == x[i] && x[i] in x;
      } else if i == q + 1 {
        assert s[i] == '\'';
      } else {
        assert s[i] == y[i - q - 2] && y[i - q - 2] in y;
      }
    }
    ExpandFromAround(s, 0, q, matched, before, after);
    assert s[0..q] == x && s[q + 2..] == y;
  }

  /** The first occurrence is the one with no occurrence before it. */
  lemma IndexOfIs(s: string, w: string, p: nat)
    requires OccursAt(s, w, p) && forall j :: 0 <= j < p ==> !OccursAt(s, w, j)
    ensures IndexOf(s, w) == Some(p)
  {
    assert Contains(s, w);
    var q := IndexOf(s, w).value;
    assert !(q < p);
    assert !(p < q);
  }

  /** Two texts that agree up to `n` have the same occurrences of `w` ending by `n`. */
  lemma SamePrefixOccurs(r: string, c: string, n: nat, w: string, j: nat)
    requires n <= |r| && n <= |c| && r[..n] == c[..n] && j + |w| <= n
    ensures OccursAt(r, w, j) <==> OccursAt(c, w, j)
  {
    assert r[j..j + |w|] == r[..n][j..j + |w|];
    assert c[j..j + |w|] == c[..n][j..j + |w|];
  }

  /** Replacing an occurrence of `w` at `p` by a block that starts with `w`
      keeps the text up to the end of that occurrence. */
  lemma ReplaceKeepsPrefix(c: string, w: string, p: nat, block: string)
    requires OccursAt(c, w, p) && OccursAt(block, w, 0)
    ensures var r := c[..p] + block + c[p + |w|..];
      |r| >= p + |w| && r[..p + |w|] == c[..p + |w|]
  {
    var r := c[..p] + block + c[p + |w|..];
    forall k | 0 <= k < p + |w| ensures r[k] == c[k] {
      if k >= p {
        assert r[k] == block[k - p] == block[..|w|][k - p];
        assert c[k] == c[p..p + |w|][k - p];
      }
    }
  }

  /** Splicing a block that starts with the entry point line keeps the entry
      point where it was, so the next release goes right above this one and
      the changelog lists releases newest first. Text before the entry point
      and after it is kept; a second entry point further down stays. */
  lemma SpliceKeepsEntryPoint(content: string, block: string)
    requires HasEntryPoint(content) && OccursAt(block, Marker, 0)
    ensures IndexOf(SpliceLiteral(content, block), Marker) == IndexOf(content, Marker)
    ensures var p := IndexOf(content, Marker).value;
      var r := SpliceLiteral(content, block);
      r[..p] == content[..p] && EndsWith(r, content[p + |Marker|..])
  {
    var p := IndexOf(content, Marker).value;
    var r := SpliceLiteral(content, block);
    var m := |Marker|;
    var tail := content[p + m..];
    assert r == content[..p] + block + tail;
    ReplaceKeepsPrefix(content, Marker, p, block);
    forall j | 0 <= j <= p ensures OccursAt(r, Marker, j) <==> OccursAt(content, Marker, j) {
      SamePrefixOccurs(r, content, p + m, Marker, j);
    }
    IndexOfIs(r, Marker, p);
    assert r[..p] == r[..p + m][..p];
    assert r[|r| - |tail|..] == tail;
  }

  /** The `n` characters from position `k` on hold no `$`. */
  predicate DollarFreeFrom(s: string, k: nat, n: nat)
    requires k + n <= |s|
    decreases n
  {
    n == 0 || (s[k] != '$' && DollarFreeFrom(s, k + 1, n - 1))
  }

  lemma {:induction false} DollarFreeFromAll(s: string, k: nat, n: nat)
    requires k + n <= |s| && forall i :: k <= i < k + n ==> s[i] != '$'
    ensures DollarFreeFrom(s, k, n)
    decreases n
  {
    if n > 0 {
      DollarFreeFromAll(s, k + 1, n - 1);
    }
  }

  /** A `$`-free stretch of the replacement is copied as it is. */
  lemma {:induction false} ExpandFromPlainPrefix(s: string, k: nat, n: nat, matched: string, before: string, after: string)
    requires k + n <= |s| && DollarFreeFrom(s, k, n)
    ensures ExpandFrom(s, k, matched, before, after) == s[k..k + n] + ExpandFrom(s, k + n, matched, before, after)
    decreases n
  {
    if n == 0 {
      assert s[k..k] == [];
    } else {
      var e0 := ExpandFrom(s, k, matched, before, after);
      var e1 := ExpandFrom(s, k + 1, matched, before, after);
      var rest := ExpandFrom(s, k + n, matched, before, after);
      assert e0 == [s[k]] + e1 by {
        ExpandFromPlainStep(s, k, matched, before, after);
      }
      assert e1 == s[k + 1..k + n] + rest by {
        ExpandFromPlainPrefix(s, k + 1, n - 1, matched, before, after);
      }
      assert s[k..k + n] == [s[k]] + s[k + 1..k + n] by {
        ConsSlice(s, k, k + n);
      }
      Glue(s[k], s[k + 1..k + n], s[k..k + n], rest, e0, e1);
    }
  }

  /** A character other than `$` is copied. */
  lemma ExpandFromPlainStep(s: string, k: nat, matched: string, before: string, after: string)
    requires k < |s| && s[k] != '$'
    ensures ExpandFrom(s, k, matched, before, after) == [s[k]] + ExpandFrom(s, k + 1, matched, before, after)
  {
  }

  lemma Glue(x: char, t: string, u: string, rest: string, e: string, f: string)
    requires e == [x] + f && f == t + rest && u == [x] + t
    ensures e == u + rest
  {
  }

  lemma ConsSlice(s: string, i: nat, j: nat)
    requires i < j <= |s|
    ensures s[i..j] == [s[i]] + s[i + 1..j]
  {
  }

  /** A word lying, with all that comes before it, in the `$`-free start of a
      replacement is found at the same place in its expansion. */
  lemma ExpandKeepsPlainOccurrence(block: string, w: string, i: nat, matched: string, before: string, after: string)
    requires OccursAt(block, w, i) && DollarFreeFrom(block, 0, i + |w|)
    ensures OccursAt(Expand(block, matched, before, after), w, i)
  {
    var n := i + |w|;
    ExpandFromPlainPrefix(block, 0, n, matched, before, after);
    OccursInPrefix(block, w, i);
    assert block[0..n] == block[..n];
    OccursBefore(block[..n], ExpandFrom(block, n, matched, before, after), w, i);
    assert Expand(block, matched, before, after) == ExpandFrom(block, 0, matched, before, after);
  }

  /** A word lying, with all that comes before it, in the `$`-free start of the
      block is found in the scripts' result at the entry point plus its offset. */
  lemma SplicedPlainOccurs(content: string, block: string, p: nat, w: string, i: nat)
    requires IndexOf(content, Marker) == Some(p)
    requires OccursAt(block, w, i) && forall k :: 0 <= k < i + |w| ==> block[k] != '$'
    ensures OccursAt(SpliceAsWritten(content, block), w, p + i)
  {
    var c := content[..p];
    var after := content[p + |Marker|..];
    SpliceAt(content, block, p);
    DollarFreeFromAll(block, 0, i + |w|);
    ExpandKeepsPlainOccurrence(block, w, i, Marker, c, after);
    OccursShifted(c, Expand(block, Marker, c, after), after, w, i);
  }

  /** A text that agrees with `content` up to its first entry point line, and
      has an entry point line there too, has its first one there. */
  lemma FirstEntryPointKept(content: string, r: string, p: nat)
    requires IndexOf(content, Marker) == Some(p)
    requires p <= |r| && r[..p] == content[..p] && OccursAt(r, Marker, p)
    ensures IndexOf(r, Marker) == Some(p)
  {
    var m := |Marker|;
    assert r[..p + m] == content[..p + m] by {
      forall k | 0 <= k < p + m ensures r[k] == content[k] {
        if k < p {
          assert r[k] == r[..p][k] == content[..p][k] == content[k];
        } else {
          assert r[k] == r[p..p + m][k - p] == content[p..p + m][k - p] == content[k];
        }
      }
    }
    forall j | 0 <= j < p ensures !OccursAt(r, Marker, j) {
      SamePrefixOccurs(r, content, p + m, Marker, j);
    }
    IndexOfIs(r, Marker, p);
  }

  /** The scripts' splice, with its `$` expansion, still keeps the first entry
      point line where it was, the text above it and the text after it: the
      entry point line holds no `$`, so it is copied as it is. */
  lemma SpliceAsWrittenKeepsEntryPoint(content: string, block: string)
    requires HasEntryPoint(content) && OccursAt(block, Marker, 0)
    ensures IndexOf(SpliceAsWritten(content, block), Marker) == IndexOf(content, Marker)
    ensures var p := IndexOf(content, Marker).value;
      var r := SpliceAsWritten(content, block);
      r[..p] == content[..p] && EndsWith(r, content[p + |Marker|..])
  {
    var p := IndexOf(content, Marker).value;
    var m := |Marker|;
    var after := content[p + m..];
    var e := Expand(block, Marker, content[..p], after);
    SpliceAt(content, block, p);
    MarkerChars();
    forall k | 0 <= k < m ensures block[k] != '$' {
      assert block[k] == block[0..m][k] == Marker[k];
    }
    SplicedPlainOccurs(content, block, p, Marker, 0);
    OccursMiddle(content[..p], e, after);
    AppendedOccurs(content[..p] + e, after);
    FirstEntryPointKept(content, SpliceAsWritten(content, block), p);
  }

  // ---------------------------------------------------------------------
  // The release run
  // ---------------------------------------------------------------------

  /** Why a run ends without writing: the version prompt was cancelled, the
      entry point is missing, or no log line was left untyped. */
  datatype ReleaseError = Cancelled | EntryPointNotFound | Unclassified(reason: ClassifyError)

  /** What a run after the prompts writes, as the scripts do it: the last
      release read with their one-digit pattern, bumped by editing characters,
      the entry point checked, the stop-pattern prompt answered (an empty or
      cancelled answer, `patternGiven` false, ends the run; `stop` is where the
      pattern first matches the log), the cleaned log sorted, and the release block
      put in place of the entry point line by `replace`, which expands the `$`
      patterns of the block. The entry point line stays where it was. */
  function ReleaseRun(content: string, types: seq<CommitType>, selector: int,
                      patternGiven: bool, gitLogs: string, stop: Option<nat>, date: UtcDate): (r: Result<string, ReleaseError>)
    requires stop.Some? ==> stop.value <= |gitLogs|
    ensures selector !in {1, 2, 3} ==> r == Failure(Cancelled)
    ensures selector in {1, 2, 3} && !HasEntryPoint(content) ==> r == Failure(EntryPointNotFound)
    ensures selector in {1, 2, 3} && HasEntryPoint(content) && !patternGiven ==> r == Failure(Cancelled)
    ensures r.Failure? && r.error == Unclassified(NoUntypedLine) <==>
      selector in {1, 2, 3} && HasEntryPoint(content) && patternGiven
      && UntaggedLines(types, Lines(GitLogsFilterMerge(gitLogs, stop))) == []
    ensures r.Success? <==>
      selector in {1, 2, 3} && HasEntryPoint(content) && patternGiven
      && UntaggedLines(types, Lines(GitLogsFilterMerge(gitLogs, stop))) != []
    ensures r.Success? ==> HasEntryPoint(content) && IndexOf(r.value, Marker) == IndexOf(content, Marker)
  {
    match ScriptBumped(ScriptLastReleaseVersion(content), selector)
    case None => Failure(Cancelled)
    case Some(version) =>
      if !HasEntryPoint(content) then Failure(EntryPointNotFound)
      else if !patternGiven then Failure(Cancelled)
      else
        var lines := Lines(GitLogsFilterMerge(gitLogs, stop));
        if UntaggedLines(types, lines) == [] then Failure(Unclassified(NoUntypedLine))
        else
          var block := ReleaseBlock(version, date, LogBuckets(types, lines));
          SpliceAsWrittenKeepsEntryPoint(content, block);
          Success(SpliceAsWritten(content, block))
  }

  /** The run once the prompts are answered, step by step as the scripts take it. */
  method GenerateRelease(changelogContent: string, types: seq<CommitType>, selector: int,
                         patternGiven: bool, gitLogs: string, stop: Option<nat>, date: UtcDate)
    returns (r: Result<string, ReleaseError>)
    requires DistinctKeys(types)
    requires stop.Some? ==> stop.value <= |gitLogs|
    ensures r == ReleaseRun(changelogContent, types, selector, patternGiven, gitLogs, stop, date)
  {
    var lastReleaseVersion := ScriptLastReleaseVersion(changelogContent);
    var wantedReleaseVersion := ComputeNewVersionNumber(lastReleaseVersion, selector);
    if wantedReleaseVersion.None? {
      assert ReleaseRun(changelogContent, types, selector, patternGiven, gitLogs, stop, date) == Failure(Cancelled);
      return Failure(Cancelled);
    }
    if !HasEntryPoint(changelogContent) {
      assert ReleaseRun(changelogContent, types, selector, patternGiven, gitLogs, stop, date) == Failure(EntryPointNotFound);
      return Failure(EntryPointNotFound);
    }
    if !patternGiven {
      assert ReleaseRun(changelogContent, types, selector, patternGiven, gitLogs, stop, date) == Failure(Cancelled);
      return Failure(Cancelled);
    }
    var gitLogsToLastRelease := GitLogsFilterMerge(gitLogs, stop);
    var sortedCommits := SortLogsPerCommitType(types, gitLogsToLastRelease);
    if sortedCommits.Failure? {
      assert ReleaseRun(changelogContent, types, selector, patternGiven, gitLogs, stop, date) == Failure(Unclassified(NoUntypedLine));
      assert sortedCommits.error.NoUntypedLine?;
      return Failure(Unclassified(sortedCommits.error));
    }
    var newContent := GenReleaseContentWithSortedSections(wantedReleaseVersion.value, sortedCommits.value, date);
    r := Success(SpliceAsWritten(changelogContent, newContent));
    assert r == ReleaseRun(changelogContent, types, selector, patternGiven, gitLogs, stop, date) by {
      var lines := Lines(gitLogsToLastRelease);
      assert sortedCommits.value == LogBuckets(types, lines);
      assert UntaggedLines(types, lines) != [];
    }
  }

  /** A successful run keeps the text above the entry point and writes, right
      below the entry point line, the heading of the version the character
      edits made: "## [1.1003]" after "## [1.9.3]" with the minor selector. */
  lemma ReleaseRunWritesHeading(content: string, types: seq<CommitType>, selector: int,
                                patternGiven: bool, gitLogs: string, stop: Option<nat>, date: UtcDate)
    requires stop.Some? ==> stop.value <= |gitLogs|
    requires ReleaseRun(content, types, selector, patternGiven, gitLogs, stop, date).Success?
    ensures HasEntryPoint(content) && ScriptBumped(ScriptLastReleaseVersion(content), selector).Some?
    ensures var p := IndexOf(content, Marker).value;
      var version := ScriptBumped(ScriptLastReleaseVersion(content), selector).value;
      var r := ReleaseRun(content, types, selector, patternGiven, gitLogs, stop, date).value;
      r[..p] == content[..p] && OccursAt(r, Marker, p) && OccursAt(r, "## [" + version + "]", p + |Marker|)
  {
    var p := IndexOf(content, Marker).value;
    var m := |Marker|;
    var version := ScriptBumped(ScriptLastReleaseVersion(content), selector).value;
    var lines := Lines(GitLogsFilterMerge(gitLogs, stop));
    var block := ReleaseBlock(version, date, LogBuckets(types, lines));
    var h := "## [" + version + "]";
    assert ReleaseRun(content, types, selector, patternGiven, gitLogs, stop, date).value == SpliceAsWritten(content, block);
    ScriptBumpedDigitsAndDots(ScriptLastReleaseVersion(content), selector);
    HeadingDollarFree(version);
    BlockHeadDollarFree(block, h);
    SpliceAsWrittenKeepsEntryPoint(content, block);
    SplicedPlainOccurs(content, block, p, h, m);
  }

  /** A block that starts with the entry point line and then a `$`-free
      heading holds no `$` up to the end of that heading. */
  lemma BlockHeadDollarFree(block: string, h: string)
    requires OccursAt(block, Marker, 0) && OccursAt(block, h, |Marker|)
    requires forall k :: 0 <= k < |h| ==> h[k] != '$'
    ensures forall k :: 0 <= k < |Marker| + |h| ==> block[k] != '$'
  {
    var m := |Marker|;
    MarkerChars();
    forall k | 0 <= k < m + |h| ensures block[k] != '$' {
      if k < m {
        assert block[k] == block[0..m][k] == Marker[k];
      } else {
        assert block[k] == block[m..m + |h|][k - m] == h[k - m];
      }
    }
  }

  /** The heading of a version of digits and dots holds no `$`. */
  lemma HeadingDollarFree(version: string)
    requires DigitsAndDots(version)
    ensures forall k :: 0 <= k < |"## [" + version + "]"| ==> ("## [" + version + "]")[k] != '$'
  {
    var h := "## [" + version + "]";
    forall k | 0 <= k < |h| ensures h[k] != '$' {
      if 4 <= k < 4 + |version| {
        assert h[k] == version[k - 4];
      }
    }
  }

  /** The run as intended: the helpers' digit-run reader, the numeric bump and
      the literal splice. */
  function ReleaseRunCorrected(content: string, types: seq<CommitType>, selector: int,
                               patternGiven: bool, gitLogs: string, stop: Option<nat>, date: UtcDate): (r: Result<string, ReleaseError>)
    requires stop.Some? ==> stop.value <= |gitLogs|
    ensures selector !in {1, 2, 3} ==> r == Failure(Cancelled)
    ensures selector in {1, 2, 3} && !HasEntryPoint(content) ==> r == Failure(EntryPointNotFound)
    ensures selector in {1, 2, 3} && HasEntryPoint(content) && !patternGiven ==> r == Failure(Cancelled)
    ensures r.Failure? && r.error == Unclassified(NoUntypedLine) <==>
      selector in {1, 2, 3} && HasEntryPoint(content) && patternGiven
      && UntaggedLines(types, Lines(GitLogsFilterMerge(gitLogs, stop))) == []
    ensures r.Success? <==>
      selector in {1, 2, 3} && HasEntryPoint(content) && patternGiven
      && UntaggedLines(types, Lines(GitLogsFilterMerge(gitLogs, stop))) != []
    ensures r.Success? ==> HasEntryPoint(content) && IndexOf(r.value, Marker) == IndexOf(content, Marker)
  {
    match Incremented(ChangelogLastReleaseVersion(content), SelectorType(selector))
    case None => Failure(Cancelled)
    case Some(version) =>
      if !HasEntryPoint(content) then Failure(EntryPointNotFound)
      else if !patternGiven then Failure(Cancelled)
      else
        var lines := Lines(GitLogsFilterMerge(gitLogs, stop));
        if UntaggedLines(types, lines) == [] then Failure(Unclassified(NoUntypedLine))
        else
          var block := ReleaseBlock(version, date, LogBuckets(types, lines));
          SpliceKeepsEntryPoint(content, block);
          Success(SpliceLiteral(content, block))
  }

  /** A successful corrected run raises the version: the next run reads back exactly
      the version this one wrote, and it is above the one it started from,
      provided no release heading sits above the entry point. */
  lemma ReleaseRunAdvancesVersion(content: string, types: seq<CommitType>, selector: int,
                                  patternGiven: bool, gitLogs: string, stop: Option<nat>, date: UtcDate)
    requires stop.Some? ==> stop.value <= |gitLogs|
    requires HasEntryPoint(content)
    requires forall j :: 0 <= j < IndexOf(content, Marker).value ==> !OccursAt(content, "## [", j)
    requires ReleaseRunCorrected(content, types, selector, patternGiven, gitLogs, stop, date).Success?
    ensures var last := ChangelogLastReleaseVersion(content);
      var next := ChangelogLastReleaseVersion(ReleaseRunCorrected(content, types, selector, patternGiven, gitLogs, stop, date).value);
      IsVersion(next) && Below(Numbers(last), Numbers(next))
  {
    var last := ChangelogLastReleaseVersion(content);
    var version := Incremented(last, SelectorType(selector)).value;
    var lines := Lines(GitLogsFilterMerge(gitLogs, stop));
    NextRunReadsRelease(content, version, date, LogBuckets(types, lines));
    IncrementedNumbers(last, SelectorType(selector));
  }

  /** The next run reads back the version this run wrote, provided no release
      heading sits above the entry point; with the bump, versions only grow
      from run to run. */
  lemma NextRunReadsRelease(content: string, version: string, date: UtcDate, sorted: seq<Bucket>)
    requires IsVersion(version) && HasEntryPoint(content)
    requires forall j :: 0 <= j < IndexOf(content, Marker).value ==> !OccursAt(content, "## [", j)
    ensures ChangelogLastReleaseVersion(SpliceLiteral(content, ReleaseBlock(version, date, sorted))) == version
  {
    SplicedBlockReadBack(content, version, ReleaseBlock(version, date, sorted));
  }

  /** Any block that opens with the entry point line and then the heading of
      `version` is read back as `version` once spliced in. */
  lemma SplicedBlockReadBack(content: string, version: string, block: string)
    requires IsVersion(version) && HasEntryPoint(content)
    requires forall j :: 0 <= j < IndexOf(content, Marker).value ==> !OccursAt(content, "## [", j)
    requires OccursAt(block, Marker, 0) && OccursAt(block, "## [" + version + "]", |Marker|)
    ensures ChangelogLastReleaseVersion(SpliceLiteral(content, block)) == version
  {
    var p := IndexOf(content, Marker).value;
    var r := SpliceLiteral(content, block);
    SpliceLayout(content, block);
    OccursInside(r, block, p, "## [" + version + "]", |Marker|);
    OccursInside(r, block, p, Marker, 0);
    NoHeadingBeforeBlock(r, content, p);
    HeadingReadBack(r, p + |Marker|, version);
  }

  /** Where the block lands: in place of the first entry point line. */
  lemma SpliceLayout(content: string, block: string)
    requires HasEntryPoint(content)
    ensures var p := IndexOf(content, Marker).value;
      var r := SpliceLiteral(content, block);
      p + |block| <= |r| && r[..p] == content[..p] && r[p..p + |block|] == block
  {
    var p := IndexOf(content, Marker).value;
    MiddleSlice(content[..p], block, content[p + |Marker|..], 0, |block|);
  }

  /** An occurrence inside a block is an occurrence in the text holding it. */
  lemma OccursInside(r: string, block: string, p: nat, w: string, i: nat)
    requires p + |block| <= |r| && r[p..p + |block|] == block && OccursAt(block, w, i)
    ensures OccursAt(r, w, p + i) && r[p + i..p + i + |w|] == w
  {
    forall k | 0 <= k < |w| ensures r[p + i + k] == w[k] {
      assert r[p + i + k] == r[p..p + |block|][i + k] == block[i + k] == block[i..i + |w|][k];
    }
    assert r[p + i..p + i + |w|] == w;
  }

  lemma MiddleSlice(a: string, b: string, c: string, i: nat, j: nat)
    requires i <= j <= |b|
    ensures (a + b + c)[|a| + i..|a| + j] == b[i..j]
  {
  }

  /** The first `## [` of a text opening the heading of a version is read as that version. */
  lemma HeadingReadBack(r: string, q: nat, version: string)
    requires IsVersion(version) && OccursAt(r, "## [" + version + "]", q)
    requires forall j :: 0 <= j < q ==> !OccursAt(r, "## [", j)
    ensures ChangelogLastReleaseVersion(r) == version
  {
    var w := "## [" + version + "]";
    var x := r[..q];
    var rest := r[q + |w|..];
    assert r == x + w + rest by {
      assert r == r[..q] + r[q..q + |w|] + r[q + |w|..];
    }
    assert x + w + rest == x + "## [" + version + "]" + rest;
    ChangelogVersionReadBack(x, version, rest);
    forall j | 0 <= j < q ensures MatchAt(ChangelogVersionRe, r, j).None? {
      assert !OccursAt(r, "## [", j);
    }
    MatchIsLeftmost(ChangelogVersionRe, r, q);
  }

  /** No `## [` starts above the end of the entry point line: none starts in
      the old text above it, and the entry point line holds no `#` and no `[`. */
  lemma NoHeadingBeforeBlock(r: string, content: string, p: nat)
    requires p <= |content| && p + |Marker| <= |r|
    requires r[..p] == content[..p] && r[p..p + |Marker|] == Marker
    requires forall j :: 0 <= j < p ==> !OccursAt(content, "## [", j)
    ensures forall j :: 0 <= j < p + |Marker| ==> !OccursAt(r, "## [", j)
  {
    var m := |Marker|;
    MarkerChars();
    EntryPointPieces();
    assert m > 4;
    forall j | 0 <= j < p + m ensures !OccursAt(r, "## [", j) {
      if j + 4 <= p {
        SamePrefixOccurs(r, content, p, "## [", j);
      } else if j < p {
        assert r[j + 3] == r[p..p + m][j + 3 - p] != '[';
        assert "## ["[3] == '[';
        assert j + 4 > |r| || r[j..j + 4][3] == r[j + 3];
      } else {
        assert r[j] == r[p..p + m][j - p] != '#';
        assert "## ["[0] == '#';
        assert j + 4 > |r| || r[j..j + 4][0] == r[j];
      }
    }
  }

  /** No `#` and no `[`, so no heading starts inside; no `$`, so `replace` copies it as it is. */
  predicate SpecialFree(s: string) {
    forall k :: 0 <= k < |s| ==> s[k] != '#' && s[k] != '[' && s[k] != '$'
  }

  lemma SpecialFreeAppend(x: string, y: string)
    requires SpecialFree(x) && SpecialFree(y)
    ensures SpecialFree(x + y)
  {
  }

  lemma EntryPointPieces()
    ensures Marker == "_---> " + "Here is " + "the next " + "release entry" + " point <---_" + "\n"
  {
  }

  lemma PieceChars()
    ensures SpecialFree("_---> ") && SpecialFree("Here is ") && SpecialFree("the next ")
    ensures SpecialFree("release entry") && SpecialFree(" point <---_") && SpecialFree("\n")
  {
  }

  /** The entry point line holds no `#`, no `[` and no `$`. */
  lemma MarkerChars()
    ensures SpecialFree(Marker)
  {
    EntryPointPieces();
    PieceChars();
    var a, b, c, d, e, f := "_---> ", "Here is ", "the next ", "release entry", " point <---_", "\n";
    SpecialFreeAppend(a, b);
    SpecialFreeAppend(a + b, c);
    SpecialFreeAppend(a + b + c, d);
    SpecialFreeAppend(a + b + c + d, e);
    SpecialFreeAppend(a + b + c + d + e, f);
  }
}
