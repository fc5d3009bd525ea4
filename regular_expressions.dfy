/** The fixed regular expressions of the generator, as recognisers: the
    changelog and package.json version patterns, the package.json indentation
    pattern, the single-digit heading pattern the two scripts use, and the
    "Merge branch" line filter. Each recogniser answers, for a start position,
    what a match there captures; `Match` picks the leftmost start, as
    `String.prototype.match` does without the global flag. */
module RegularExpressions {
  import opened Wrappers
  import opened Text

  /** Three dot-separated runs of digits, the text `\d+\.\d+\.\d+` matches. */
  predicate IsVersion(v: string) {
    var p := Split(v, '.');
    |p| == 3 && IsDigits(p[0]) && IsDigits(p[1]) && IsDigits(p[2])
  }

  function VersionOf(major: string, minor: string, patch: string): string {
    major + "." + minor + "." + patch
  }

  /** Three digit runs joined by dots form a version whose parts are those runs. */
  lemma VersionParts(major: string, minor: string, patch: string)
    requires IsDigits(major) && IsDigits(minor) && IsDigits(patch)
    ensures Split(VersionOf(major, minor, patch), '.') == [major, minor, patch]
    ensures IsVersion(VersionOf(major, minor, patch))
  {
    SplitByNone(patch, {'.'});
    SplitByAfter(minor, '.', patch, {'.'});
    assert VersionOf(major, minor, patch) == major + ['.'] + (minor + ['.'] + patch);
    SplitByAfter(major, '.', minor + ['.'] + patch, {'.'});
  }

  /** Every version is three digit runs joined by dots. */
  lemma VersionShape(v: string)
    requires IsVersion(v)
    ensures v == VersionOf(Split(v, '.')[0], Split(v, '.')[1], Split(v, '.')[2])
  {
    var p := Split(v, '.');
    JoinSplit(v, '.');
    assert p[1..][1..] == [p[2]];
    assert Join(p[1..][1..], '.') == p[2];
    assert Join(p[1..], '.') == p[1] + ['.'] + p[2];
    assert Join(p, '.') == p[0] + ['.'] + (p[1] + ['.'] + p[2]);
  }

  /** Exactly what `\d\.\d\.\d` matches: single-digit components. */
  predicate IsShortVersion(v: string) {
    |v| == 5 && IsDigit(v[0]) && v[1] == '.' && IsDigit(v[2]) && v[3] == '.' && IsDigit(v[4])
  }

  lemma ShortVersionIsVersion(v: string)
    requires IsShortVersion(v)
    ensures IsVersion(v) && Split(v, '.') == [v[..1], v[2..3], v[4..]]
  {
    VersionParts(v[..1], v[2..3], v[4..]);
    assert v == VersionOf(v[..1], v[2..3], v[4..]);
  }

  /** The length of the run of digits starting at `i`: greedy `\d*`. */
  function DigitRun(s: string, i: nat): (n: nat)
    requires i <= |s|
    ensures i + n <= |s|
    ensures forall k :: i <= k < i + n ==> IsDigit(s[k])
    ensures i + n < |s| ==> !IsDigit(s[i + n])
    decreases |s| - i
  {
    if i < |s| && IsDigit(s[i]) then 1 + DigitRun(s, i + 1) else 0
  }

  /** Where `(\d+\.\d+\.\d+)` followed by `close` ends when it starts at `a`:
      the position of `close`. A shorter digit run is followed by a digit,
      not by `.` or `close`, so the greedy runs are the only candidates. */
  function TripleEnd(s: string, a: nat, close: char): (r: Option<nat>)
    requires a <= |s|
    ensures r.Some? ==> a < r.value < |s| && s[r.value] == close && IsVersion(s[a..r.value])
  {
    var n1 := DigitRun(s, a);
    if n1 == 0 || a + n1 == |s| || s[a + n1] != '.' then None
    else
      var b := a + n1 + 1;
      var n2 := DigitRun(s, b);
      if n2 == 0 || b + n2 == |s| || s[b + n2] != '.' then None
      else
        var c := b + n2 + 1;
        var n3 := DigitRun(s, c);
        if n3 == 0 || c + n3 == |s| || s[c + n3] != close then None
        else
          RunDigits(s, a, n1);
          RunDigits(s, b, n2);
          RunDigits(s, c, n3);
          TripleIsVersion(s, a, n1, n2, n3);
          Some(c + n3)
  }

  /** A stretch of digits, as a slice, is a digit string. */
  lemma RunDigits(s: string, i: nat, n: nat)
    requires 0 < n && i + n <= |s| && forall k :: i <= k < i + n ==> IsDigit(s[k])
    ensures IsDigits(s[i..i + n])
  {
    var x := s[i..i + n];
    forall m | 0 <= m < n ensures IsDigit(x[m]) {
      assert x[m] == s[i + m];
    }
  }

  /** Three digit strings separated by dots, read off `s` from `a`, form a version. */
  lemma TripleIsVersion(s: string, a: nat, n1: nat, n2: nat, n3: nat)
    requires a + n1 + n2 + n3 + 2 <= |s|
    requires IsDigits(s[a..a + n1]) && s[a + n1] == '.'
    requires IsDigits(s[a + n1 + 1..a + n1 + 1 + n2]) && s[a + n1 + 1 + n2] == '.'
    requires IsDigits(s[a + n1 + n2 + 2..a + n1 + n2 + 2 + n3])
    ensures IsVersion(s[a..a + n1 + n2 + n3 + 2])
  {
    var b := a + n1 + 1;
    var c := b + n2 + 1;
    var e := c + n3;
    var x, y, z := s[a..a + n1], s[b..b + n2], s[c..e];
    VersionParts(x, y, z);
    SliceSplit(s, a, a + n1, e);
    SliceSplit(s, a + n1, b, e);
    SliceSplit(s, b, b + n2, e);
    SliceSplit(s, b + n2, c, e);
    assert s[a + n1..b] == "." && s[b + n2..c] == ".";
    Nest(x, ".", y, ".", z);
  }

  predicate IsQuote(c: char) {
    c == '"' || c == '\''
  }

  /** The lazy `(.+?)` followed by `(?:"|')`, starting at `j` and already `k`
      characters long: the shortest length at which a quote follows. */
  function LazyRunToQuote(s: string, j: nat, k: nat): (r: Option<nat>)
    requires 1 <= k && j + k <= |s|
    ensures r.Some? ==> k <= r.value && j + r.value < |s| && IsQuote(s[j + r.value])
    ensures r.Some? ==> forall m :: j + k - 1 <= m < j + r.value ==> !IsLineTerminator(s[m])
    ensures r.Some? ==> forall m :: j + k <= m < j + r.value ==> !IsQuote(s[m])
    decreases |s| - j - k
  {
    if j + k == |s| || IsLineTerminator(s[j + k - 1]) then None
    else if IsQuote(s[j + k]) then Some(k)
    else LazyRunToQuote(s, j, k + 1)
  }

  /** The fixed patterns of the generator. */
  datatype FixedPattern =
    | ChangelogVersionRe      // /## \[(\d+\.\d+\.\d+)\]/
    | PackageVersionRe        // /"version": "(\d+\.\d+\.\d+)"/
    | IndentationRe           // /{\n(.+?)(?:"|')/
    | ShortChangelogVersionRe // /## \[(\d\.\d\.\d)\]/, the scripts' own pattern

  const PackageVersionPrefix: string := "\"version\": \""

  /** What a match of `re` starting at position `i` captures, if one starts there. */
  function MatchAt(re: FixedPattern, s: string, i: nat): (r: Option<string>)
    ensures r.Some? ==> i < |s|
    ensures r.Some? && re != IndentationRe ==> IsVersion(r.value)
    ensures r.Some? && re == ShortChangelogVersionRe ==> IsShortVersion(r.value)
    ensures r.Some? && re == IndentationRe ==>
      && OccursAt(s, "{\n", i) && |r.value| >= 1 && NoLineTerminator(r.value)
      && (forall m :: 1 <= m < |r.value| ==> !IsQuote(r.value[m]))
      && OccursAt(s, r.value, i + 2) && i + 2 + |r.value| < |s| && IsQuote(s[i + 2 + |r.value|])
  {
    match re
    case ChangelogVersionRe =>
      if OccursAt(s, "## [", i) then
        match TripleEnd(s, i + 4, ']')
        case None => None
        case Some(e) => Some(s[i + 4..e])
      else None
    case PackageVersionRe =>
      if OccursAt(s, PackageVersionPrefix, i) then
        match TripleEnd(s, i + |PackageVersionPrefix|, '"')
        case None => None
        case Some(e) => Some(s[i + |PackageVersionPrefix|..e])
      else None
    case ShortChangelogVersionRe =>
      if i + 10 <= |s| && OccursAt(s, "## [", i) && IsShortVersion(s[i + 4..i + 9]) && s[i + 9] == ']'
      then
        ShortVersionIsVersion(s[i + 4..i + 9]);
        Some(s[i + 4..i + 9])
      else None
    case IndentationRe =>
      if OccursAt(s, "{\n", i) && i + 3 <= |s| then
        match LazyRunToQuote(s, i + 2, 1)
        case None => None
        case Some(k) => Some(s[i + 2..i + 2 + k])
      else None
  }

  /** The leftmost position at or after `from` where a match of `re` starts. */
  function Search(re: FixedPattern, s: string, from: nat): (r: Option<nat>)
    ensures r.Some? ==> from <= r.value && MatchAt(re, s, r.value).Some?
    ensures r.Some? ==> forall j :: from <= j < r.value ==> MatchAt(re, s, j).None?
    ensures r.None? ==> forall j: nat :: from <= j ==> MatchAt(re, s, j).None?
    decreases |s| - from
  {
    if from >= |s| then None
    else if MatchAt(re, s, from).Some? then Some(from)
    else Search(re, s, from + 1)
  }

  /** `s.match(re)`, reduced to its capture group: the capture of the leftmost match. */
  function Match(re: FixedPattern, s: string): (r: Option<string>)
    ensures r.None? <==> forall j: nat :: MatchAt(re, s, j).None?
    ensures r.Some? ==> exists i: nat :: MatchAt(re, s, i) == r && forall j :: 0 <= j < i ==> MatchAt(re, s, j).None?
  {
    match Search(re, s, 0)
    case None => None
    case Some(i) => MatchAt(re, s, i)
  }

  /** A match at a position no earlier match precedes is the one `match` returns. */
  lemma MatchIsLeftmost(re: FixedPattern, s: string, i: nat)
    requires MatchAt(re, s, i).Some?
    requires forall j :: 0 <= j < i ==> MatchAt(re, s, j).None?
    ensures Match(re, s) == MatchAt(re, s, i)
  {
  }

  /** A digit run followed by a non-digit is measured exactly. */
  lemma {:induction false} DigitRunOf(s: string, i: nat, n: nat)
    requires i + n <= |s|
    requires forall k :: i <= k < i + n ==> IsDigit(s[k])
    requires i + n == |s| || !IsDigit(s[i + n])
    ensures DigitRun(s, i) == n
    decreases n
  {
    if n > 0 {
      DigitRunOf(s, i + 1, n - 1);
    }
  }

  /** The triple ends at `close` once its three runs and separators are known. */
  lemma TripleEndAt(s: string, a: nat, close: char, n1: nat, n2: nat, n3: nat)
    requires a + n1 + n2 + n3 + 2 < |s|
    requires 0 < n1 && DigitRun(s, a) == n1 && s[a + n1] == '.'
    requires 0 < n2 && DigitRun(s, a + n1 + 1) == n2 && s[a + n1 + 1 + n2] == '.'
    requires 0 < n3 && DigitRun(s, a + n1 + n2 + 2) == n3 && s[a + n1 + n2 + 2 + n3] == close
    ensures TripleEnd(s, a, close) == Some(a + n1 + n2 + n3 + 2)
  {
  }

  /** A run of digits copied into `s` at `i` and followed by a non-digit is measured exactly. */
  lemma DigitRunAt(s: string, i: nat, d: string)
    requires i + |d| < |s| && s[i..i + |d|] == d && AllDigits(d) && !IsDigit(s[i + |d|])
    ensures DigitRun(s, i) == |d|
  {
    forall k | i <= k < i + |d| ensures IsDigit(s[k]) {
      assert s[k] == s[i..i + |d|][k - i];
    }
    DigitRunOf(s, i, |d|);
  }

  /** Three digit runs written after `x` and followed by `close` are found
      as one triple ending at `close`. */
  lemma TripleReadBackParts(x: string, a: string, b: string, c: string, close: char, rest: string)
    requires IsDigits(a) && IsDigits(b) && IsDigits(c) && !IsDigit(close) && close != '.'
    ensures TripleEnd(x + VersionOf(a, b, c) + [close] + rest, |x|, close) == Some(|x| + |VersionOf(a, b, c)|)
  {
    var s := x + VersionOf(a, b, c) + [close] + rest;
    var i0 := |x|;
    var i1 := i0 + |a| + 1;
    var i2 := i1 + |b| + 1;
    var e := i2 + |c|;
    assert s[i0..i0 + |a|] == a;
    assert s[i0 + |a|] == '.';
    assert s[i1..i1 + |b|] == b;
    assert s[i1 + |b|] == '.';
    assert s[i2..i2 + |c|] == c;
    assert s[e] == close;
    DigitRunAt(s, i0, a);
    DigitRunAt(s, i1, b);
    DigitRunAt(s, i2, c);
    TripleEndAt(s, |x|, close, |a|, |b|, |c|);
  }

  /** A version written after `x` and followed by `close` is captured whole:
      the `\d+\.\d+\.\d+` patterns read back what they match. */
  lemma TripleReadBack(x: string, v: string, close: char, rest: string)
    requires IsVersion(v) && !IsDigit(close) && close != '.'
    ensures TripleEnd(x + v + [close] + rest, |x|, close) == Some(|x| + |v|)
  {
    var p := Split(v, '.');
    VersionShape(v);
    TripleReadBackParts(x, p[0], p[1], p[2], close, rest);
  }

  /** A changelog heading `## [v]` is read back as `v`. */
  lemma ChangelogVersionReadBack(x: string, v: string, rest: string)
    requires IsVersion(v)
    ensures MatchAt(ChangelogVersionRe, x + "## [" + v + "]" + rest, |x|) == Some(v)
  {
    var s := x + "## [" + v + "]" + rest;
    TripleReadBack(x + "## [", v, ']', rest);
    Tail3(x, "## [", v, "]", rest);
    OccursMiddle(x, "## [", v + "]" + rest);
    AppendAssoc(x + "## [" + v, "]", rest);
    OccursMiddle(x + "## [", v, "]" + rest);
  }

  /** A package.json field `"version": "v"` is read back as `v`. */
  lemma PackageVersionReadBack(x: string, v: string, rest: string)
    requires IsVersion(v)
    ensures MatchAt(PackageVersionRe, x + PackageVersionPrefix + v + "\"" + rest, |x|) == Some(v)
  {
    var s := x + PackageVersionPrefix + v + "\"" + rest;
    TripleReadBack(x + PackageVersionPrefix, v, '"', rest);
    Tail3(x, PackageVersionPrefix, v, "\"", rest);
    OccursMiddle(x, PackageVersionPrefix, v + "\"" + rest);
    AppendAssoc(x + PackageVersionPrefix + v, "\"", rest);
    OccursMiddle(x + PackageVersionPrefix, v, "\"" + rest);
  }

  /** An indentation free of line ends and quotes, after `{` and a newline and
      before a quoted key, is captured whole. */
  lemma IndentationReadBack(indent: string, rest: string)
    requires |indent| >= 1 && NoLineTerminator(indent)
    requires forall m :: 0 <= m < |indent| ==> !IsQuote(indent[m])
    ensures Match(IndentationRe, "{\n" + indent + "\"" + rest) == Some(indent)
  {
    var s := "{\n" + indent + "\"" + rest;
    var r := MatchAt(IndentationRe, s, 0);
    assert OccursAt(s, "{\n", 0);
    var k := LazyRunToQuote(s, 2, 1);
    assert s[2 + |indent|] == '"';
    LazyRunStops(s, 2, 1, |indent|);
    assert s[2..2 + |indent|] == indent;
    MatchIsLeftmost(IndentationRe, s, 0);
  }

  lemma {:induction false} LazyRunStops(s: string, j: nat, k: nat, n: nat)
    requires 1 <= k <= n && j + n < |s|
    requires forall m :: j <= m < j + n ==> !IsLineTerminator(s[m])
    requires forall m :: j < m < j + n ==> !IsQuote(s[m])
    requires IsQuote(s[j + n])
    ensures LazyRunToQuote(s, j, k) == Some(n)
    decreases n - k
  {
    if k < n {
      LazyRunStops(s, j, k + 1, n);
    }
  }

  /** `.replace(/.*Merge branch.*\n/g, "")`: every line that contains
      "Merge branch" and ends with a line feed is deleted with its line feed. */
  function DropMergeLines(s: string): (r: string)
    ensures |r| <= |s|
    decreases |s|
  {
    match FirstTerminator(s)
    case None => s
    case Some(q) =>
      if s[q] == '\n' && Contains(s[..q], "Merge branch") then DropMergeLines(s[q + 1..])
      else s[..q + 1] + DropMergeLines(s[q + 1..])
  }

  /** One line and its line feed: dropped when it names a merge, kept otherwise. */
  lemma DropMergeLinesStep(line: string, rest: string)
    requires NoLineTerminator(line)
    ensures DropMergeLines(line + "\n" + rest)
         == (if Contains(line, "Merge branch") then "" else line + "\n") + DropMergeLines(rest)
  {
    var s := line + "\n" + rest;
    FirstTerminatorAt(line, '\n', rest);
    assert s[..|line|] == line;
    assert s[|line| + 1..] == rest;
    assert s[..|line| + 1] == line + "\n";
  }

  /** The first terminator of a line followed by a terminator is that terminator. */
  lemma {:induction false} FirstTerminatorAt(line: string, t: char, rest: string)
    requires NoLineTerminator(line) && IsLineTerminator(t)
    ensures FirstTerminator(line + [t] + rest) == Some(|line|)
  {
    if line != [] {
      assert (line + [t] + rest)[1..] == line[1..] + [t] + rest;
      FirstTerminatorAt(line[1..], t, rest);
    }
  }

  /** Text in which no line names a merge is left as it is. */
  lemma {:induction false} DropMergeLinesNoMerge(s: string)
    requires !Contains(s, "Merge branch")
    ensures DropMergeLines(s) == s
    decreases |s|
  {
    match FirstTerminator(s)
    case None =>
    case Some(q) =>
      NotContainedInSlice(s, 0, q, "Merge branch");
      NotContainedInSlice(s, q + 1, |s|, "Merge branch");
      assert s[q + 1..|s|] == s[q + 1..];
      DropMergeLinesNoMerge(s[q + 1..]);
      assert s[..q + 1] + s[q + 1..] == s;
  }

  /** Text with no line feed is left as it is: a last line without its line
      feed is never dropped. */
  lemma {:induction false} DropMergeLinesSingleLine(s: string)
    requires '\n' !in s
    ensures DropMergeLines(s) == s
    decreases |s|
  {
    match FirstTerminator(s)
    case None =>
    case Some(q) =>
      assert s[q] in s;
      assert forall c :: c in s[q + 1..] ==> c in s;
      DropMergeLinesSingleLine(s[q + 1..]);
      assert s[..q + 1] + s[q + 1..] == s;
  }

  /** Dropping merge lines twice drops nothing more. */
  lemma {:induction false} DropMergeLinesIdempotent(s: string)
    ensures DropMergeLines(DropMergeLines(s)) == DropMergeLines(s)
    decreases |s|
  {
    match FirstTerminator(s)
    case None =>
    case Some(q) =>
      DropMergeLinesIdempotent(s[q + 1..]);
      if !(s[q] == '\n' && Contains(s[..q], "Merge branch")) {
        var kept := s[..q + 1];
        var tail := DropMergeLines(s[q + 1..]);
        assert kept == s[..q] + [s[q]];
        FirstTerminatorAt(s[..q], s[q], tail);
        assert (kept + tail)[..q] == s[..q];
        assert (kept + tail)[q + 1..] == tail;
        assert (kept + tail)[..q + 1] == kept;
      }
  }

  lemma NotContainedInSlice(s: string, a: nat, b: nat, w: string)
    requires a <= b <= |s| && !Contains(s, w)
    ensures !Contains(s[a..b], w)
  {
    if Contains(s[a..b], w) {
      var i :| 0 <= i <= |s[a..b]| - |w| && OccursAt(s[a..b], w, i);
      forall k | i <= k < i + |w| ensures s[a..b][k] == s[a + k] { }
      assert s[a + i..a + i + |w|] == s[a..b][i..i + |w|];
      assert OccursAt(s, w, a + i);
    }
  }

  /** `filterOutUselessCommits`: the merge-line filter applied to each element. */
  function FilterOutUselessCommits(commits: seq<string>): (r: seq<string>)
    ensures |r| == |commits|
  {
    seq(|commits|, i requires 0 <= i < |commits| => DropMergeLines(commits[i]))
  }

  /** Elements that name no merge, and elements with no line feed, come out
      unchanged; on the single lines a split log yields, the filter removes nothing. */
  lemma FilterOutUselessCommitsKeeps(commits: seq<string>)
    ensures forall i :: 0 <= i < |commits| && !Contains(commits[i], "Merge branch") ==> FilterOutUselessCommits(commits)[i] == commits[i]
    ensures forall i :: 0 <= i < |commits| && '\n' !in commits[i] ==> FilterOutUselessCommits(commits)[i] == commits[i]
  {
    forall i | 0 <= i < |commits| && !Contains(commits[i], "Merge branch") {
      DropMergeLinesNoMerge(commits[i]);
    }
    forall i | 0 <= i < |commits| && '\n' !in commits[i] {
      DropMergeLinesSingleLine(commits[i]);
    }
  }
}
