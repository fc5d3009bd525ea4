/** How the two release scripts turn `git log` output into sorted commits: the
    log is cut at the stop commit, cleaned of merge lines and of the quoting
    its format adds, and every line is filed under the type whose `[key]` it
    starts with, or under "untyped". */
module ScriptLog {
  import opened Wrappers
  import opened Text
  import opened Values
  import opened SortedCommits
  import opened RegularExpressions

  /** One entry of the commit types configuration: `key: description`. */
  datatype CommitType = CommitType(key: string, description: string)

  const RegexMetacharacters: set<char> := {'\\', '^', '$', '.', '|', '?', '*', '+', '(', ')', '[', ']', '{', '}'}

  /** A key that stands for itself once spliced into a regular expression. */
  predicate PlainKey(key: string) {
    forall i :: 0 <= i < |key| ==> key[i] !in RegexMetacharacters && !IsLineTerminator(key[i])
  }

  predicate PlainKeys(types: seq<CommitType>) {
    forall i :: 0 <= i < |types| ==> PlainKey(types[i].key)
  }

  /** The keys of an object are distinct. */
  predicate DistinctKeys(types: seq<CommitType>) {
    forall i, j :: 0 <= i < j < |types| ==> types[i].key != types[j].key
  }

  lemma ConcatSnoc(parts: seq<string>, last: string)
    ensures Concat(parts + [last]) == Concat(parts) + last
  {
    ConcatAppend(parts, [last]);
    assert Concat([last]) == last + Concat([]);
  }

  // ---------------------------------------------------------------------
  // getNegativeCommitRegexp
  // ---------------------------------------------------------------------

  /** The negative lookahead `(?!\[key\])` for one key. */
  function Lookahead(key: string): string {
    "(?!\\[" + key + "\\])"
  }

  function Lookaheads(types: seq<CommitType>): (r: seq<string>)
    ensures |r| == |types| && forall i :: 0 <= i < |types| ==> r[i] == Lookahead(types[i].key)
  {
    seq(|types|, i requires 0 <= i < |types| => Lookahead(types[i].key))
  }

  /** `getNegativeCommitRegexp`, the pattern text: `^`, one lookahead per key
      in configuration order, then `.*`. What the pattern matches is
      `Untagged` below. */
  method NegativeCommitPattern(types: seq<CommitType>) returns (pattern: string)
    ensures pattern == "^" + Concat(Lookaheads(types)) + ".*"
  {
    pattern := "^";
    for i := 0 to |types|
      invariant pattern == "^" + Concat(Lookaheads(types[..i]))
    {
      assert Lookaheads(types[..i + 1]) == Lookaheads(types[..i]) + [Lookahead(types[i].key)];
      ConcatSnoc(Lookaheads(types[..i]), Lookahead(types[i].key));
      pattern := pattern + Lookahead(types[i].key);
    }
    assert types[..|types|] == types;
    pattern := pattern + ".*";
  }

  /** Every configured key is excluded by its own lookahead, in order. */
  lemma NegativePatternExcludesEveryKey(types: seq<CommitType>, i: nat)
    requires i < |types|
    ensures Contains("^" + Concat(Lookaheads(types)) + ".*", Lookahead(types[i].key))
  {
    var ls := Lookaheads(types);
    var c1, w, c2 := Concat(ls[..i]), ls[i], Concat(ls[i + 1..]);
    assert ls == ls[..i] + [w] + ls[i + 1..];
    ConcatAppend(ls[..i] + [w], ls[i + 1..]);
    ConcatSnoc(ls[..i], w);
    assert Concat(ls) == c1 + w + c2;
    Regroup("^", c1, w, c2, ".*");
    AppendAssoc("^" + c1 + w, c2, ".*");
    OccursMiddle("^" + c1, w, c2 + ".*");
    var s := "^" + Concat(ls) + ".*";
    assert OccursAt(s, w, |"^" + c1|);
  }

  // ---------------------------------------------------------------------
  // getGitLogsFilterMerge
  // ---------------------------------------------------------------------

  /** What the log format `"- %s by @%an"` puts before every entry. */
  const EntryPrefix: string := "\"- "

  /** The log up to the first match of the stop pattern, or all of it when the
      pattern is not found; the match position is an input. */
  function TruncatedLog(gitLogs: string, stop: Option<nat>): (r: string)
    requires stop.Some? ==> stop.value <= |gitLogs|
    ensures |r| <= |gitLogs| && r == gitLogs[..|r|]
    ensures stop.None? ==> |r| == |gitLogs|
    ensures stop.Some? ==> |r| == stop.value
  {
    match stop
    case None => gitLogs
    case Some(i) => gitLogs[..i]
  }

  /** `"- ` removed from the very start of a text. */
  function StripLineStart(s: string): (r: string)
    ensures OccursAt(s, EntryPrefix, 0) ==> s == EntryPrefix + r
    ensures !OccursAt(s, EntryPrefix, 0) ==> r == s
  {
    if OccursAt(s, EntryPrefix, 0) then
      assert s == s[..3] + s[3..];
      s[3..]
    else s
  }

  /** `.replace(/^"- /gm, '')`: the prefix goes from the start of every line,
      once per line. */
  function StripEntryPrefixes(s: string): (r: string)
    ensures |r| <= |s|
    decreases |s|
  {
    var t := StripLineStart(s);
    match FirstTerminator(t)
    case None => t
    case Some(q) => t[..q + 1] + StripEntryPrefixes(t[q + 1..])
  }

  /** `.replace(/"\n/g, '\n')`: the quote closing a line goes. */
  function UnquoteLineEnds(s: string): (r: string)
    ensures |r| <= |s|
    decreases |s|
  {
    if s == [] then []
    else if |s| >= 2 && s[0] == '"' && s[1] == '\n' then "\n" + UnquoteLineEnds(s[2..])
    else [s[0]] + UnquoteLineEnds(s[1..])
  }

  /** The three replacements of `getGitLogsFilterMerge`, in order. */
  function CleanLog(s: string): (r: string)
    ensures |r| <= |s|
  {
    UnquoteLineEnds(StripEntryPrefixes(DropMergeLines(s)))
  }

  /** `getGitLogsFilterMerge` once `git log` has run and the stop pattern has
      been searched for. */
  function GitLogsFilterMerge(gitLogs: string, stop: Option<nat>): (r: string)
    requires stop.Some? ==> stop.value <= |gitLogs|
    ensures |r| <= |gitLogs|
    ensures stop.Some? ==> |r| <= stop.value
  {
    CleanLog(TruncatedLog(gitLogs, stop))
  }

  /** One entry as the log format writes it: `"- subject by @author"`. */
  function Formatted(entry: string): string {
    EntryPrefix + entry + "\""
  }

  /** `git log --pretty=format:...` output: the formatted entries separated
      by line feeds, with no line feed after the last. */
  function FormattedLog(entries: seq<string>): string
    requires |entries| >= 1
    decreases |entries|
  {
    if |entries| == 1 then Formatted(entries[0])
    else Formatted(entries[0]) + "\n" + FormattedLog(entries[1..])
  }

  predicate IsMerge(entry: string) {
    Contains(entry, "Merge branch")
  }

  /** The entries that are not merges, each on its own line. */
  function KeptEntries(entries: seq<string>): string
    decreases |entries|
  {
    if entries == [] then ""
    else (if IsMerge(entries[0]) then "" else entries[0] + "\n") + KeptEntries(entries[1..])
  }

  /** Cleaning a log gives back its entries without merges, one per line; the
      last entry is never dropped and, with no line feed after it, keeps its
      closing quote. */
  lemma {:induction false} CleanFormattedLog(entries: seq<string>)
    requires |entries| >= 1
    requires forall i :: 0 <= i < |entries| ==> NoLineTerminator(entries[i])
    ensures CleanLog(FormattedLog(entries)) == KeptEntries(entries[..|entries| - 1]) + entries[|entries| - 1] + "\""
    decreases |entries|
  {
    if |entries| == 1 {
      CleanSingle(entries[0]);
      assert FormattedLog(entries) == Formatted(entries[0]);
      assert KeptEntries(entries[..0]) == "" by {
        assert entries[..0] == [];
      }
      assert "" + entries[0] + "\"" == entries[0] + "\"";
    } else {
      var tail := entries[1..];
      assert forall i :: 0 <= i < |tail| ==> NoLineTerminator(tail[i]) by {
        assert forall i :: 0 <= i < |tail| ==> tail[i] == entries[i + 1];
      }
      CleanFormattedLog(tail);
      assert tail[|tail| - 1] == entries[|entries| - 1];
      assert |tail| - 1 == |entries| - 2;
      CleanStep(entries);
    }
  }

  /** The inductive step: one more entry in front of a log already cleaned. */
  lemma CleanStep(entries: seq<string>)
    requires |entries| >= 2 && NoLineTerminator(entries[0])
    requires CleanLog(FormattedLog(entries[1..])) == KeptEntries(entries[1..][..|entries| - 2]) + entries[|entries| - 1] + "\""
    ensures CleanLog(FormattedLog(entries)) == KeptEntries(entries[..|entries| - 1]) + entries[|entries| - 1] + "\""
  {
    var e := entries[0];
    var last := entries[|entries| - 1];
    var tail := entries[1..];
    var kept := KeptEntries(tail[..|tail| - 1]);
    var pre := if IsMerge(e) then "" else e + "\n";
    KeptFront(entries);
    AppendAssoc(kept, last, "\"");
    CleanCons(e, FormattedLog(tail), kept, last + "\"");
    assert FormattedLog(entries) == Formatted(e) + "\n" + FormattedLog(tail);
    calc {
      CleanLog(FormattedLog(entries));
      pre + kept + (last + "\"");
      { AppendAssoc(pre + kept, last, "\""); }
      pre + kept + last + "\"";
      KeptEntries(entries[..|entries| - 1]) + last + "\"";
    }
  }

  /** A log of one entry keeps its closing quote. */
  lemma CleanSingle(e: string)
    requires NoLineTerminator(e)
    ensures CleanLog(Formatted(e)) == e + "\""
  {
    FormattedHasNoTerminator(e);
    NoTerminatorKeptWhole(Formatted(e));
    StripFormattedLast(e);
    UnquoteNoLineFeed(e + "\"");
  }

  /** One more entry in front of a cleaned log. */
  lemma CleanCons(e: string, rest: string, kept: string, end: string)
    requires NoLineTerminator(e) && CleanLog(rest) == kept + end
    ensures CleanLog(Formatted(e) + "\n" + rest) == (if IsMerge(e) then "" else e + "\n") + kept + end
  {
    if IsMerge(e) {
      CleanMergeStep(e, rest);
      assert "" + kept == kept;
    } else {
      CleanKeptStep(e, rest);
      AppendAssoc(e + "\n", kept, end);
    }
  }

  /** Unfolding the kept entries of all but the last entry once. */
  lemma KeptFront(entries: seq<string>)
    requires |entries| >= 2
    ensures KeptEntries(entries[..|entries| - 1])
         == (if IsMerge(entries[0]) then "" else entries[0] + "\n") + KeptEntries(entries[1..][..|entries| - 2])
  {
    var front := entries[..|entries| - 1];
    assert front[0] == entries[0];
    assert front[1..] == entries[1..][..|entries| - 2];
  }

  /** A merge entry followed by a line feed disappears. */
  lemma CleanMergeStep(e: string, rest: string)
    requires NoLineTerminator(e) && IsMerge(e)
    ensures CleanLog(Formatted(e) + "\n" + rest) == CleanLog(rest)
  {
    FormattedHasNoTerminator(e);
    MergeFormatted(e);
    DropMergeLinesStep(Formatted(e), rest);
    var d := DropMergeLines(rest);
    assert DropMergeLines(Formatted(e) + "\n" + rest) == "" + d;
    assert "" + d == d;
  }

  /** Any other entry followed by a line feed comes out as itself on its line. */
  lemma CleanKeptStep(e: string, rest: string)
    requires NoLineTerminator(e) && !IsMerge(e)
    ensures CleanLog(Formatted(e) + "\n" + rest) == e + "\n" + CleanLog(rest)
  {
    FormattedHasNoTerminator(e);
    MergeFormatted(e);
    DropMergeLinesStep(Formatted(e), rest);
    var d := DropMergeLines(rest);
    assert DropMergeLines(Formatted(e) + "\n" + rest) == Formatted(e) + "\n" + d;
    StripFormattedLine(e, d);
    UnquoteLine(e, StripEntryPrefixes(d));
  }

  lemma FormattedHasNoTerminator(e: string)
    requires NoLineTerminator(e)
    ensures NoLineTerminator(Formatted(e)) && NoLineTerminator(e + "\"")
  {
  }

  /** A text with no line terminator has no line for the merge filter to drop. */
  lemma NoTerminatorKeptWhole(s: string)
    requires NoLineTerminator(s)
    ensures DropMergeLines(s) == s
  {
  }

  /** The quoting around an entry never makes or hides a merge. */
  lemma MergeFormatted(e: string)
    ensures Contains(Formatted(e), "Merge branch") <==> IsMerge(e)
  {
    var w := "Merge branch";
    assert Formatted(e) == EntryPrefix + e + "\"";
    if IsMerge(e) {
      var i :| 0 <= i <= |e| - |w| && OccursAt(e, w, i);
      OccursShifted(EntryPrefix, e, "\"", w, i);
    }
    if Contains(Formatted(e), w) {
      var i :| 0 <= i <= |Formatted(e)| - |w| && OccursAt(Formatted(e), w, i);
      assert w[0] == 'M' && w[|w| - 1] == 'h';
      OccursBetween(EntryPrefix, e, "\"", w, i);
    }
  }

  /** A formatted entry followed by a line feed loses its prefix only. */
  lemma StripFormattedLine(e: string, rest: string)
    requires NoLineTerminator(e)
    ensures StripEntryPrefixes(Formatted(e) + "\n" + rest) == e + "\"\n" + StripEntryPrefixes(rest)
  {
    var s := Formatted(e) + "\n" + rest;
    assert OccursAt(s, EntryPrefix, 0);
    var t := e + "\"" + "\n" + rest;
    assert s == EntryPrefix + t;
    assert StripLineStart(s) == t;
    FormattedHasNoTerminator(e);
    FirstTerminatorAt(e + "\"", '\n', rest);
    assert t[..|e| + 2] == e + "\"\n";
    assert t[|e| + 2..] == rest;
  }

  /** The last formatted entry loses its prefix only. */
  lemma StripFormattedLast(e: string)
    requires NoLineTerminator(e)
    ensures StripEntryPrefixes(Formatted(e)) == e + "\""
  {
    var s := Formatted(e);
    assert OccursAt(s, EntryPrefix, 0);
    assert s == EntryPrefix + (e + "\"");
    FormattedHasNoTerminator(e);
  }

  /** A line ending in a quote before its line feed loses that quote. */
  lemma {:induction false} UnquoteLine(e: string, rest: string)
    requires NoLineTerminator(e)
    ensures UnquoteLineEnds(e + "\"\n" + rest) == e + "\n" + UnquoteLineEnds(rest)
    decreases |e|
  {
    var s := e + "\"\n" + rest;
    if e == [] {
      assert s == "\"\n" + rest;
      assert s[2..] == rest;
    } else {
      var t := e[1..] + "\"\n" + rest;
      var u := UnquoteLineEnds(rest);
      assert s[0] == e[0] && s[1..] == t;
      assert s[1] != '\n' by {
        if |e| > 1 { assert s[1] == e[1]; } else { assert s[1] == '"'; }
      }
      assert UnquoteLineEnds(s) == [e[0]] + UnquoteLineEnds(t);
      UnquoteLine(e[1..], rest);
      AppendAssoc([e[0]], e[1..] + "\n", u);
      AppendAssoc([e[0]], e[1..], "\n");
      assert [e[0]] + e[1..] == e;
    }
  }

  /** Text with no line feed keeps its quotes. */
  lemma {:induction false} UnquoteNoLineFeed(s: string)
    requires NoLineTerminator(s)
    ensures UnquoteLineEnds(s) == s
    decreases |s|
  {
    if s != [] {
      UnquoteNoLineFeed(s[1..]);
      assert s == [s[0]] + s[1..];
    }
  }

  // ---------------------------------------------------------------------
  // sortLogsPerCommitType
  // ---------------------------------------------------------------------

  function Tag(key: string): string {
    "[" + key + "]"
  }

  /** The line matches `^\[key\].*$`: it starts with the key's tag. */
  predicate HasTag(line: string, key: string) {
    OccursAt(line, Tag(key), 0)
  }

  /** `gitLogs.match(/^\[key\].*$/gm)` with `[key] ` then removed from each
      match (its first occurrence, wherever it is); no match gives `[]`. */
  function Tagged(lines: seq<string>, key: string): (r: seq<string>)
    ensures |r| <= |lines|
    decreases |lines|
  {
    if lines == [] then []
    else (if HasTag(lines[0], key) then [Untag(lines[0], key)] else []) + Tagged(lines[1..], key)
  }

  /** A tagged line as it is filed: its first `[key] ` removed. */
  function Untag(line: string, key: string): string {
    RemoveFirst(line, Tag(key) + " ")
  }

  /** The bucket of a key holds exactly the lines that carry its tag, each
      with its first `[key] ` removed. */
  lemma {:induction false} TaggedMembers(lines: seq<string>, key: string)
    ensures forall c :: c in Tagged(lines, key) <==> exists l :: l in lines && HasTag(l, key) && c == Untag(l, key)
    decreases |lines|
  {
    if lines != [] {
      var rest := lines[1..];
      TaggedMembers(rest, key);
      var h := if HasTag(lines[0], key) then [Untag(lines[0], key)] else [];
      assert Tagged(lines, key) == h + Tagged(rest, key);
      forall c | c in Tagged(lines, key)
        ensures exists l :: l in lines && HasTag(l, key) && c == Untag(l, key)
      {
        if c in h {
          assert lines[0] in lines;
        } else {
          var l :| l in rest && HasTag(l, key) && c == Untag(l, key);
          assert l in lines;
        }
      }
      forall c | exists l :: l in lines && HasTag(l, key) && c == Untag(l, key)
        ensures c in Tagged(lines, key)
      {
        var l :| l in lines && HasTag(l, key) && c == Untag(l, key);
        if l != lines[0] {
          assert l in rest;
        }
      }
    }
  }

  /** The bucket keeps the order of the lines: the lines of a longer log are
      filed after those of its first part. */
  lemma {:induction false} TaggedAppend(a: seq<string>, b: seq<string>, key: string)
    ensures Tagged(a + b, key) == Tagged(a, key) + Tagged(b, key)
    decreases |a|
  {
    if a == [] {
      assert a + b == b;
    } else {
      assert (a + b)[0] == a[0];
      assert (a + b)[1..] == a[1..] + b;
      TaggedAppend(a[1..], b, key);
      var h := if HasTag(a[0], key) then [Untag(a[0], key)] else [];
      assert h + (Tagged(a[1..], key) + Tagged(b, key)) == h + Tagged(a[1..], key) + Tagged(b, key);
    }
  }

  /** A single line is filed, untagged, exactly when it carries the tag. */
  lemma TaggedSingle(line: string, key: string)
    ensures Tagged([line], key) == if HasTag(line, key) then [Untag(line, key)] else []
  {
    assert [line][1..] == [];
  }

  /** The negative pattern matches the line: no configured tag starts it. */
  predicate Untagged(types: seq<CommitType>, line: string) {
    forall i :: 0 <= i < |types| ==> !HasTag(line, types[i].key)
  }

  /** `gitLogs.match(getNegativeCommitRegexp(types))`, as the list of lines
      it matches, empty lines included. */
  function UntaggedLines(types: seq<CommitType>, lines: seq<string>): (r: seq<string>)
    ensures |r| <= |lines|
    ensures forall l :: l in r <==> l in lines && Untagged(types, l)
    decreases |lines|
  {
    if lines == [] then []
    else (if Untagged(types, lines[0]) then [lines[0]] else []) + UntaggedLines(types, lines[1..])
  }

  /** `.filter(commit => commit !== '')`. */
  function NonEmptyLines(lines: seq<string>): (r: seq<string>)
    ensures |r| <= |lines|
    ensures forall l :: l in r <==> l in lines && l != ""
    decreases |lines|
  {
    if lines == [] then []
    else (if lines[0] != "" then [lines[0]] else []) + NonEmptyLines(lines[1..])
  }

  /** One bucket per configured type, in configuration order. */
  function TagBuckets(types: seq<CommitType>, lines: seq<string>): (r: seq<Bucket>)
    ensures |r| == |types|
  {
    seq(|types|, j requires 0 <= j < |types| =>
      Bucket(types[j].key, types[j].description, Tagged(lines, types[j].key)))
  }

  function UntypedBucket(types: seq<CommitType>, lines: seq<string>): Bucket {
    Bucket(UntypedKey, NotRecognizedDescription, NonEmptyLines(UntaggedLines(types, lines)))
  }

  /** The object `sortLogsPerCommitType` returns when it returns: a bucket
      per type, and one more unless a type is itself named "untyped". */
  function LogBuckets(types: seq<CommitType>, lines: seq<string>): (r: seq<Bucket>)
    ensures |r| == (if Configures(types, UntypedKey) then |types| else |types| + 1)
  {
    ConfiguresTagBucket(types, lines, UntypedKey);
    Put(TagBuckets(types, lines), UntypedBucket(types, lines))
  }

  /** When every line, the empty last one included, starts with a tag, the
      negative pattern matches nothing and `.filter` is called on `null`. */
  datatype ClassifyError = NoUntypedLine

  lemma TagBucketsStep(types: seq<CommitType>, i: nat, lines: seq<string>)
    requires DistinctKeys(types) && i < |types|
    ensures Put(TagBuckets(types[..i], lines), Bucket(types[i].key, types[i].description, Tagged(lines, types[i].key)))
         == TagBuckets(types[..i + 1], lines)
  {
    var m := TagBuckets(types[..i], lines);
    assert forall j :: 0 <= j < |m| ==> m[j].key == types[j].key != types[i].key;
    assert !HasKey(m, types[i].key);
  }

  /** `sortLogsPerCommitType`: the typed buckets in configuration order, then
      the untyped lines, empty ones dropped, under "untyped" (replacing a
      configured "untyped" bucket in place). Keys are read literally. */
  method SortLogsPerCommitType(types: seq<CommitType>, gitLogs: string) returns (r: Result<seq<Bucket>, ClassifyError>)
    requires DistinctKeys(types)
    ensures r.Failure? <==> UntaggedLines(types, Lines(gitLogs)) == []
    ensures r.Success? ==> r.value == LogBuckets(types, Lines(gitLogs))
  {
    var lines := Lines(gitLogs);
    var sortedCommits: seq<Bucket> := [];
    for i := 0 to |types|
      invariant sortedCommits == TagBuckets(types[..i], lines)
    {
      var trimmedMatchedCommits := Tagged(lines, types[i].key);
      TagBucketsStep(types, i, lines);
      sortedCommits := Put(sortedCommits, Bucket(types[i].key, types[i].description, trimmedMatchedCommits));
    }
    assert types[..|types|] == types;
    var matched := UntaggedLines(types, lines);
    if matched == [] {
      return Failure(NoUntypedLine);
    }
    var notRecognizedCommits := NonEmptyLines(matched);
    sortedCommits := Put(sortedCommits, Bucket(UntypedKey, NotRecognizedDescription, notRecognizedCommits));
    r := Success(sortedCommits);
  }

  predicate Configures(types: seq<CommitType>, key: string) {
    exists i :: 0 <= i < |types| && types[i].key == key
  }

  /** A key has a typed bucket exactly when a type is configured under it. */
  lemma ConfiguresTagBucket(types: seq<CommitType>, lines: seq<string>, key: string)
    ensures HasKey(TagBuckets(types, lines), key) <==> Configures(types, key)
  {
    var tb := TagBuckets(types, lines);
    if Configures(types, key) {
      var i :| 0 <= i < |types| && types[i].key == key;
      assert tb[i].key == key;
    }
  }

  /** The shape of the sorted object: unique keys, each type's tagged lines
      at its position, the untyped lines last or at a configured "untyped". */
  lemma LogBucketsShape(types: seq<CommitType>, lines: seq<string>)
    requires DistinctKeys(types)
    ensures var m := LogBuckets(types, lines);
      && UniqueKeys(m)
      && |m| == (if Configures(types, UntypedKey) then |types| else |types| + 1)
      && (forall i :: 0 <= i < |types| && types[i].key != UntypedKey ==>
            m[i] == Bucket(types[i].key, types[i].description, Tagged(lines, types[i].key)))
      && (forall i :: 0 <= i < |types| && types[i].key == UntypedKey ==> m[i] == UntypedBucket(types, lines))
      && (!Configures(types, UntypedKey) ==> m[|types|] == UntypedBucket(types, lines))
  {
    var tb := TagBuckets(types, lines);
    var u := UntypedBucket(types, lines);
    assert UniqueKeys(tb);
    PutProperties(tb, u);
    if Configures(types, UntypedKey) {
      var k :| 0 <= k < |types| && types[k].key == UntypedKey;
      assert HasKey(tb, UntypedKey) by {
        assert tb[k].key == UntypedKey;
      }
      assert KeyIndex(tb, UntypedKey) == k;
    } else {
      assert !HasKey(tb, UntypedKey);
    }
  }

  /** How many configured tags start the line. */
  function TagCount(types: seq<CommitType>, line: string): (r: nat)
    decreases |types|
  {
    if types == [] then 0
    else (if HasTag(line, types[0].key) then 1 else 0) + TagCount(types[1..], line)
  }

  /** A plain key's tag ends at the first `]` of the line. */
  lemma TagEnd(line: string, key: string)
    requires PlainKey(key) && HasTag(line, key)
    ensures |key| + 1 < |line| && line[|key| + 1] == ']'
    ensures forall m :: 1 <= m <= |key| ==> line[m] == key[m - 1] != ']'
  {
    assert forall m :: 0 <= m < |key| + 2 ==> line[m] == Tag(key)[m];
  }

  /** Different plain keys never tag the same line. */
  lemma TagsDiffer(line: string, k1: string, k2: string)
    requires PlainKey(k1) && PlainKey(k2) && k1 != k2 && HasTag(line, k1)
    ensures !HasTag(line, k2)
  {
    TagEnd(line, k1);
    var t := Tag(k2);
    if |k2| + 2 <= |line| {
      if |k2| < |k1| {
        assert line[|k2| + 1] != t[|k2| + 1];
      } else if |k1| < |k2| {
        assert line[|k1| + 1] != t[|k1| + 1];
      } else {
        var m :| 0 <= m < |k1| && k1[m] != k2[m];
        assert line[m + 1] != t[m + 1];
      }
    }
  }

  /** With distinct plain keys, a line starts with at most one tag, and with
      none exactly when the negative pattern matches it. */
  lemma {:induction false} AtMostOneTag(types: seq<CommitType>, line: string)
    requires DistinctKeys(types) && PlainKeys(types)
    ensures TagCount(types, line) <= 1
    ensures TagCount(types, line) == 0 <==> Untagged(types, line)
    decreases |types|
  {
    if types != [] {
      var rest := types[1..];
      AtMostOneTag(rest, line);
      assert Untagged(types, line) <==> !HasTag(line, types[0].key) && Untagged(rest, line) by {
        assert forall i :: 1 <= i < |types| ==> types[i] == rest[i - 1];
      }
      if HasTag(line, types[0].key) {
        forall i | 0 <= i < |rest| ensures !HasTag(line, rest[i].key) {
          assert types[0].key != types[i + 1].key;
          TagsDiffer(line, types[0].key, rest[i].key);
        }
      }
    }
  }

  /** How many lines the typed buckets hold altogether. */
  function TotalTagged(types: seq<CommitType>, lines: seq<string>): (r: nat)
    decreases |types|
  {
    if types == [] then 0 else |Tagged(lines, types[0].key)| + TotalTagged(types[1..], lines)
  }

  lemma {:induction false} TotalTaggedCons(types: seq<CommitType>, line: string, rest: seq<string>)
    ensures TotalTagged(types, [line] + rest) == TagCount(types, line) + TotalTagged(types, rest)
    decreases |types|
  {
    assert ([line] + rest)[1..] == rest;
    if types != [] {
      TotalTaggedCons(types[1..], line, rest);
    }
  }

  /** No line is lost or counted twice: with distinct plain keys, the typed
      buckets and the lines the negative pattern matches add up to all the
      lines of the log. */
  lemma {:induction false} EveryLineSortedOnce(types: seq<CommitType>, lines: seq<string>)
    requires DistinctKeys(types) && PlainKeys(types)
    ensures TotalTagged(types, lines) + |UntaggedLines(types, lines)| == |lines|
    decreases |lines|
  {
    if lines != [] {
      var rest := lines[1..];
      assert lines == [lines[0]] + rest;
      TotalTaggedCons(types, lines[0], rest);
      AtMostOneTag(types, lines[0]);
      EveryLineSortedOnce(types, rest);
    } else {
      TotalTaggedEmpty(types);
    }
  }

  /** Base case of `EveryLineSortedOnce`: no lines, no tags. */
  lemma {:induction false} TotalTaggedEmpty(types: seq<CommitType>)
    ensures TotalTagged(types, []) == 0
    decreases |types|
  {
    if types != [] {
      TotalTaggedEmpty(types[1..]);
    }
  }

  /** A tagged line lands, without its `[key] ` prefix, in its type's bucket. */
  lemma {:induction false} TaggedLineFiled(lines: seq<string>, key: string, line: string)
    requires line in lines && HasTag(line, key)
    ensures Untag(line, key) in Tagged(lines, key)
    decreases |lines|
  {
    if lines[0] != line {
      TaggedLineFiled(lines[1..], key, line);
    }
  }
}
