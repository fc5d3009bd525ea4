/** The refactored helpers that turn a commit log into a release block: the
    version bump, the log truncation, the per-type sorting of commits, the
    release block and default changelog renderers, and the two reads of
    package.json (its version and its indentation). */
module StringParsing {
  import opened Wrappers
  import opened Text
  import opened Values
  import opened DateFormat
  import opened SortedCommits
  import opened Markdown
  import opened RegularExpressions

  // ---------------------------------------------------------------------
  // incrementVersion
  // ---------------------------------------------------------------------

  /** The bump the user selects; `Other` stands for any value that is none
      of the three. */
  datatype VersionType = Major | Minor | Patch | Other

  /** The three numbers of a version, as `Number` reads its components. */
  function Numbers(v: string): (n: (nat, nat, nat))
    requires IsVersion(v)
  {
    var p := Split(v, '.');
    (ParseDigits(p[0]), ParseDigits(p[1]), ParseDigits(p[2]))
  }

  /** Version order: by major, then minor, then patch number. */
  predicate Below(a: (nat, nat, nat), b: (nat, nat, nat)) {
    a.0 < b.0 || (a.0 == b.0 && (a.1 < b.1 || (a.1 == b.1 && a.2 < b.2)))
  }

  /** What `incrementVersion` returns: the selected component read as a
      decimal number and increased by one, the components after it reset to
      0, those before it kept as written; nothing for any other selector. */
  function Incremented(version: string, versionType: VersionType): (r: Option<string>)
    requires IsVersion(version)
    ensures r.None? <==> versionType == Other
    ensures r.Some? ==> IsVersion(r.value)
  {
    var p := Split(version, '.');
    match versionType
    case Major =>
      VersionParts(NatToString(ParseDigits(p[0]) + 1), "0", "0");
      Some(VersionOf(NatToString(ParseDigits(p[0]) + 1), "0", "0"))
    case Minor =>
      VersionParts(p[0], NatToString(ParseDigits(p[1]) + 1), "0");
      Some(VersionOf(p[0], NatToString(ParseDigits(p[1]) + 1), "0"))
    case Patch =>
      VersionParts(p[0], p[1], NatToString(ParseDigits(p[2]) + 1));
      Some(VersionOf(p[0], p[1], NatToString(ParseDigits(p[2]) + 1)))
    case Other => None
  }

  /** The bump in numbers: one component goes up by one, those after it
      become 0, those before it are kept character for character, and the
      new version is above the old one. */
  lemma IncrementedNumbers(version: string, versionType: VersionType)
    requires IsVersion(version) && versionType != Other
    ensures Below(Numbers(version), Numbers(Incremented(version, versionType).value))
    ensures versionType == Major ==>
      Numbers(Incremented(version, versionType).value) == (Numbers(version).0 + 1, 0, 0)
    ensures versionType == Minor ==>
      && Numbers(Incremented(version, versionType).value) == (Numbers(version).0, Numbers(version).1 + 1, 0)
      && Split(Incremented(version, versionType).value, '.')[0] == Split(version, '.')[0]
    ensures versionType == Patch ==>
      && Numbers(Incremented(version, versionType).value) == (Numbers(version).0, Numbers(version).1, Numbers(version).2 + 1)
      && Split(Incremented(version, versionType).value, '.')[..2] == Split(version, '.')[..2]
  {
    var p := Split(version, '.');
    var r := Incremented(version, versionType).value;
    assert ParseDigits("0") == 0 by {
      assert "0"[..0] == [];
    }
    match versionType
    case Major =>
      var a := NatToString(ParseDigits(p[0]) + 1);
      VersionParts(a, "0", "0");
      ParseNatToString(ParseDigits(p[0]) + 1);
    case Minor =>
      var b := NatToString(ParseDigits(p[1]) + 1);
      VersionParts(p[0], b, "0");
      ParseNatToString(ParseDigits(p[1]) + 1);
    case Patch =>
      var c := NatToString(ParseDigits(p[2]) + 1);
      VersionParts(p[0], p[1], c);
      ParseNatToString(ParseDigits(p[2]) + 1);
      assert Split(r, '.')[..2] == [p[0], p[1]];
  }

  /** Components are numbers, not characters: a minor 9 becomes 10. */
  lemma IncrementedCarries()
    ensures Incremented("1.9.3", Minor) == Some("1.10.0")
  {
    var p := Split("1.9.3", '.');
    assert p == ["1", "9", "3"] by {
      VersionParts("1", "9", "3");
      assert "1.9.3" == VersionOf("1", "9", "3");
    }
    assert ParseDigits(p[1]) == 9 by {
      assert "9"[..0] == [];
    }
    assert NatToString(10) == "10" by {
      assert NatToString(1) == ['1'];
      assert NatToString(10) == NatToString(1) + [DigitChar(0)];
    }
    assert Incremented("1.9.3", Minor) == Some(VersionOf(p[0], NatToString(ParseDigits(p[1]) + 1), "0"));
    assert VersionOf("1", "10", "0") == "1.10.0";
  }

  lemma JoinThree(a: string, b: string, c: string)
    ensures Join([a, b, c], '.') == VersionOf(a, b, c)
  {
    assert [a, b, c][1..] == [b, c];
    assert [b, c][1..] == [c];
    assert Join([b, c], '.') == b + ['.'] + c;
    assert Join([a, b, c], '.') == a + ['.'] + (b + ['.'] + c);
  }

  /** `incrementVersion`: the parts of the version are edited in place in an
      array and joined again. */
  method IncrementVersion(version: string, versionType: VersionType) returns (r: Option<string>)
    requires IsVersion(version)
    ensures r == Incremented(version, versionType)
  {
    var p := Split(version, '.');
    var versionParts := new string[3];
    versionParts[0], versionParts[1], versionParts[2] := p[0], p[1], p[2];
    match versionType {
      case Major =>
        versionParts[0] := NatToString(ParseDigits(versionParts[0]) + 1);
        versionParts[1] := "0";
        versionParts[2] := "0";
      case Minor =>
        versionParts[1] := NatToString(ParseDigits(versionParts[1]) + 1);
        versionParts[2] := "0";
      case Patch =>
        versionParts[2] := NatToString(ParseDigits(versionParts[2]) + 1);
      case Other =>
        return None;
    }
    assert versionParts[..] == [versionParts[0], versionParts[1], versionParts[2]];
    JoinThree(versionParts[0], versionParts[1], versionParts[2]);
    r := Some(Join(versionParts[..], '.'));
  }

  // ---------------------------------------------------------------------
  // getGitCommits
  // ---------------------------------------------------------------------

  /** `getGitCommits`, with the log text and the index `search` returned for
      the stop pattern (`None` for -1) as inputs: the text before the first
      match, or the whole log when there is none, split at line feeds. */
  function GitCommits(log: string, firstMatch: Option<nat>): (r: seq<string>)
    requires firstMatch.Some? ==> firstMatch.value <= |log|
    ensures |r| >= 1
    ensures Join(r, '\n') == (if firstMatch.Some? then log[..firstMatch.value] else log)
    ensures forall k, i :: 0 <= k < |r| && 0 <= i < |r[k]| ==> r[k][i] != '\n'
    ensures firstMatch == Some(0) ==> r == [""]
  {
    var retrievedCommitsString := if firstMatch.Some? then log[..firstMatch.value] else log;
    JoinSplit(retrievedCommitsString, '\n');
    SplitByParts(retrievedCommitsString, {'\n'});
    Split(retrievedCommitsString, '\n')
  }

  /** Splitting is undone by joining: a log of separate lines comes back as
      those lines when no stop pattern is found. */
  lemma GitCommitsLines(lines: seq<string>)
    requires |lines| >= 1
    requires forall k, i :: 0 <= k < |lines| && 0 <= i < |lines[k]| ==> lines[k][i] != '\n'
    ensures GitCommits(Join(lines, '\n'), None) == lines
  {
    SplitJoin(lines, '\n');
  }

  // ---------------------------------------------------------------------
  // sortCommitsPerType
  // ---------------------------------------------------------------------

  /** A configured type's regular expression, abstracted: its source text as
      `toString` gives it, whether `commit.match(new RegExp(regex, "gm"))`
      finds anything in a commit, and what `commit.replace(regex, "")` leaves. */
  datatype Pattern = Pattern(text: string, matches: string -> bool, strip: string -> string)

  /** One entry of the configuration object: its key, its regex and its description. */
  datatype TypeConfig = TypeConfig(name: string, regex: Pattern, description: string)

  /** The keys of an object are distinct. */
  predicate UniqueNames(config: seq<TypeConfig>) {
    forall i, j :: 0 <= i < j < |config| ==> config[i].name != config[j].name
  }

  predicate Configures(config: seq<TypeConfig>, name: string) {
    exists i :: 0 <= i < |config| && config[i].name == name
  }

  /** `commits.filter(commit => commit.match(regex))`. */
  function Matching(p: Pattern, commits: seq<string>): (r: seq<string>)
    ensures |r| <= |commits|
  {
    if commits == [] then []
    else (if p.matches(commits[0]) then [commits[0]] else []) + Matching(p, commits[1..])
  }

  /** Filtering keeps exactly the commits the type's regex matches. */
  lemma {:induction false} MatchingMembers(p: Pattern, commits: seq<string>)
    ensures forall c :: c in Matching(p, commits) <==> c in commits && p.matches(c)
  {
    if commits != [] {
      MatchingMembers(p, commits[1..]);
      var h := if p.matches(commits[0]) then [commits[0]] else [];
      assert Matching(p, commits) == h + Matching(p, commits[1..]);
      assert commits == [commits[0]] + commits[1..];
    }
  }

  /** Filtering keeps input order: it distributes over concatenation. */
  lemma {:induction false} MatchingAppend(p: Pattern, a: seq<string>, b: seq<string>)
    ensures Matching(p, a + b) == Matching(p, a) + Matching(p, b)
  {
    if a != [] {
      var h := if p.matches(a[0]) then [a[0]] else [];
      assert (a + b)[0] == a[0] && (a + b)[1..] == a[1..] + b;
      assert Matching(p, a + b) == h + Matching(p, a[1..] + b);
      MatchingAppend(p, a[1..], b);
      assert Matching(p, a) == h + Matching(p, a[1..]);
      assert h + (Matching(p, a[1..]) + Matching(p, b)) == (h + Matching(p, a[1..])) + Matching(p, b);
    } else {
      assert a + b == b;
    }
  }

  /** `matched.map(commit => commit.replace(regex, ""))`. */
  function Stripped(p: Pattern, matched: seq<string>): (r: seq<string>)
    ensures |r| == |matched|
  {
    seq(|matched|, i requires 0 <= i < |matched| => p.strip(matched[i]))
  }

  /** The commits of a type's bucket: those its regex matches, in order, each
      with its first match removed. */
  function TypeLess(p: Pattern, commits: seq<string>): seq<string> {
    Stripped(p, Matching(p, commits))
  }

  /** `untyped.filter(commit => !matched.includes(commit))`. */
  function Excluding(untyped: seq<string>, matched: seq<string>): (r: seq<string>)
    ensures forall c :: c in r <==> c in untyped && c !in matched
  {
    if untyped == [] then []
    else (if untyped[0] !in matched then [untyped[0]] else []) + Excluding(untyped[1..], matched)
  }

  /** The commits `p` does not match, in order. */
  function NotMatching(p: Pattern, commits: seq<string>): seq<string> {
    if commits == [] then []
    else (if !p.matches(commits[0]) then [commits[0]] else []) + NotMatching(p, commits[1..])
  }

  predicate MatchesAny(config: seq<TypeConfig>, c: string) {
    exists i :: 0 <= i < |config| && config[i].regex.matches(c)
  }

  /** The commits no configured type matches, in input order. */
  function Unmatched(config: seq<TypeConfig>, commits: seq<string>): (r: seq<string>)
    ensures forall c :: c in r <==> c in commits && !MatchesAny(config, c)
    ensures config == [] ==> r == commits
  {
    if commits == [] then []
    else (if !MatchesAny(config, commits[0]) then [commits[0]] else []) + Unmatched(config, commits[1..])
  }

  /** Excluding by value what a type matched among all commits is the same as
      dropping, from a selection of those commits, the ones the type matches. */
  lemma {:induction false} ExcludingMatched(untyped: seq<string>, p: Pattern, commits: seq<string>)
    requires forall c :: c in untyped ==> c in commits
    ensures Excluding(untyped, Matching(p, commits)) == NotMatching(p, untyped)
  {
    MatchingMembers(p, commits);
    if untyped != [] {
      ExcludingMatched(untyped[1..], p, commits);
    }
  }

  /** A commit matches one more type when it matches the old ones or the new one. */
  lemma MatchesAnyAppend(config: seq<TypeConfig>, t: TypeConfig, c: string)
    ensures MatchesAny(config + [t], c) <==> MatchesAny(config, c) || t.regex.matches(c)
  {
    if MatchesAny(config, c) {
      var i :| 0 <= i < |config| && config[i].regex.matches(c);
      assert (config + [t])[i] == config[i];
    }
    if t.regex.matches(c) {
      assert (config + [t])[|config|] == t;
    }
  }

  /** The untyped commits after one more type are the earlier untyped commits
      that type does not match. */
  lemma {:induction false} UnmatchedStep(config: seq<TypeConfig>, t: TypeConfig, commits: seq<string>)
    ensures NotMatching(t.regex, Unmatched(config, commits)) == Unmatched(config + [t], commits)
  {
    if commits != [] {
      UnmatchedStep(config, t, commits[1..]);
      MatchesAnyAppend(config, t, commits[0]);
      var head := if !MatchesAny(config, commits[0]) then [commits[0]] else [];
      NotMatchingAppend(t.regex, head, Unmatched(config, commits[1..]));
      if head != [] {
        assert head[1..] == [];
      }
    }
  }

  lemma {:induction false} NotMatchingAppend(p: Pattern, a: seq<string>, b: seq<string>)
    ensures NotMatching(p, a + b) == NotMatching(p, a) + NotMatching(p, b)
  {
    if a != [] {
      var h := if !p.matches(a[0]) then [a[0]] else [];
      assert (a + b)[0] == a[0] && (a + b)[1..] == a[1..] + b;
      assert NotMatching(p, a + b) == h + NotMatching(p, a[1..] + b);
      NotMatchingAppend(p, a[1..], b);
      assert NotMatching(p, a) == h + NotMatching(p, a[1..]);
      assert h + (NotMatching(p, a[1..]) + NotMatching(p, b)) == (h + NotMatching(p, a[1..])) + NotMatching(p, b);
    } else {
      assert a + b == b;
    }
  }

  /** The buckets of the configured types, in configuration order. */
  function TypeBuckets(config: seq<TypeConfig>, commits: seq<string>): (r: seq<Bucket>)
    ensures |r| == |config|
  {
    seq(|config|, j requires 0 <= j < |config| =>
      Bucket(config[j].name, config[j].description, TypeLess(config[j].regex, commits)))
  }

  lemma UntypedStep(config: seq<TypeConfig>, i: nat, untyped: seq<string>, commits: seq<string>)
    requires i < |config| && untyped == Unmatched(config[..i], commits)
    ensures Excluding(untyped, Matching(config[i].regex, commits)) == Unmatched(config[..i + 1], commits)
  {
    ExcludingMatched(untyped, config[i].regex, commits);
    UnmatchedStep(config[..i], config[i], commits);
    assert config[..i + 1] == config[..i] + [config[i]];
  }

  /** Sorting one more type appends its bucket: its key is new. */
  lemma TypeBucketsStep(config: seq<TypeConfig>, i: nat, commits: seq<string>)
    requires UniqueNames(config) && i < |config|
    ensures Put(TypeBuckets(config[..i], commits),
                Bucket(config[i].name, config[i].description, Stripped(config[i].regex, Matching(config[i].regex, commits))))
         == TypeBuckets(config[..i + 1], commits)
  {
    var m := TypeBuckets(config[..i], commits);
    var b := Bucket(config[i].name, config[i].description, Stripped(config[i].regex, Matching(config[i].regex, commits)));
    assert forall j :: 0 <= j < |m| ==> m[j].key == config[j].name != config[i].name;
    assert !HasKey(m, config[i].name);
    assert Put(m, b) == m + [b];
    var n := TypeBuckets(config[..i + 1], commits);
    assert |n| == |m| + 1;
    forall j | 0 <= j < |n| ensures n[j] == (m + [b])[j] {
      if j < i {
        assert n[j] == Bucket(config[j].name, config[j].description, TypeLess(config[j].regex, commits));
      } else {
        assert n[j] == Bucket(config[i].name, config[i].description, TypeLess(config[i].regex, commits));
      }
    }
  }

  /** Storing the untyped bucket after the type buckets. */
  lemma PutUntyped(config: seq<TypeConfig>, commits: seq<string>)
    requires UniqueNames(config)
    ensures var m := Put(TypeBuckets(config, commits), Bucket(UntypedKey, NotRecognizedDescription, Unmatched(config, commits)));
      && UniqueKeys(m)
      && |m| == (if Configures(config, UntypedKey) then |config| else |config| + 1)
      && (forall i :: 0 <= i < |config| && config[i].name != UntypedKey ==>
            m[i] == Bucket(config[i].name, config[i].description, TypeLess(config[i].regex, commits)))
      && (forall i :: 0 <= i < |config| && config[i].name == UntypedKey ==>
            m[i] == Bucket(UntypedKey, NotRecognizedDescription, Unmatched(config, commits)))
      && (!Configures(config, UntypedKey) ==>
            m[|config|] == Bucket(UntypedKey, NotRecognizedDescription, Unmatched(config, commits)))
  {
    var tb := TypeBuckets(config, commits);
    var untyped := Bucket(UntypedKey, NotRecognizedDescription, Unmatched(config, commits));
    assert UniqueKeys(tb);
    PutProperties(tb, untyped);
    if Configures(config, UntypedKey) {
      var k :| 0 <= k < |config| && config[k].name == UntypedKey;
      assert HasKey(tb, UntypedKey) by {
        assert tb[k].key == UntypedKey;
      }
      assert KeyIndex(tb, UntypedKey) == k;
    } else {
      assert !HasKey(tb, UntypedKey);
    }
  }

  /** `sortCommitsPerType`: one bucket per configured type, in configuration
      order, holding the commits its regex matches with that match removed;
      then the commits no type matched, unmodified, under "untyped". A key
      "untyped" in the configuration has its bucket replaced by those. */
  method SortCommitsPerType(config: seq<TypeConfig>, commits: seq<string>) returns (sorted: seq<Bucket>)
    requires UniqueNames(config)
    ensures UniqueKeys(sorted)
    ensures |sorted| == if Configures(config, UntypedKey) then |config| else |config| + 1
    ensures forall i :: 0 <= i < |config| && config[i].name != UntypedKey ==>
      sorted[i] == Bucket(config[i].name, config[i].description, TypeLess(config[i].regex, commits))
    ensures forall i :: 0 <= i < |config| && config[i].name == UntypedKey ==>
      sorted[i] == Bucket(UntypedKey, NotRecognizedDescription, Unmatched(config, commits))
    ensures !Configures(config, UntypedKey) ==>
      sorted[|config|] == Bucket(UntypedKey, NotRecognizedDescription, Unmatched(config, commits))
  {
    sorted := [];
    var untypedCommits := commits;
    for i := 0 to |config|
      invariant sorted == TypeBuckets(config[..i], commits)
      invariant untypedCommits == Unmatched(config[..i], commits)
    {
      var t := config[i];
      var matchedCommits := Matching(t.regex, commits);
      UntypedStep(config, i, untypedCommits, commits);
      untypedCommits := Excluding(untypedCommits, matchedCommits);
      var typeLessMatchedCommits := Stripped(t.regex, matchedCommits);
      TypeBucketsStep(config, i, commits);
      sorted := Put(sorted, Bucket(t.name, t.description, typeLessMatchedCommits));
    }
    assert config[..|config|] == config;
    PutUntyped(config, commits);
    sorted := Put(sorted, Bucket(UntypedKey, NotRecognizedDescription, untypedCommits));
  }

  /** No commit is lost and there is no tie-break: a commit no type matches
      is untyped, and a commit that matches types is, with that match removed,
      in the bucket of every one of them. */
  lemma EveryCommitSorted(config: seq<TypeConfig>, commits: seq<string>, c: string)
    requires c in commits
    ensures !MatchesAny(config, c) <==> c in Unmatched(config, commits)
    ensures forall i :: 0 <= i < |config| && config[i].regex.matches(c) ==>
      config[i].regex.strip(c) in TypeLess(config[i].regex, commits)
  {
    forall i | 0 <= i < |config| && config[i].regex.matches(c)
      ensures config[i].regex.strip(c) in TypeLess(config[i].regex, commits)
    {
      var p := config[i].regex;
      var m := Matching(p, commits);
      MatchingMembers(p, commits);
      var k :| 0 <= k < |m| && m[k] == c;
      assert Stripped(p, m)[k] == p.strip(c);
    }
  }

  // ---------------------------------------------------------------------
  // genReleaseContent
  // ---------------------------------------------------------------------

  /** `genReleaseContent`, with the date as an input: the entry point line,
      the dated heading, then a titled section per bucket that has commits,
      in key order. The current changelog `content` plays no part. */
  method GenReleaseContent(version: string, content: string, sortedCommits: seq<Bucket>, date: UtcDate)
    returns (r: string)
    ensures r == EntryPoint + "\n" + DatedVersionMarkdown(version, date) + Sections(sortedCommits, HelperTitle)
  {
    var heading := DatedVersionMarkdown(version, date);
    r := EntryPoint + "\n";
    r := r + heading;
    ghost var head := r;
    for i := 0 to |sortedCommits|
      invariant r == head + Sections(sortedCommits[..i], HelperTitle)
    {
      SectionsStep(head, sortedCommits, i, HelperTitle, r);
      if |sortedCommits[i].commits| > 0 {
        var sectionTitleMarkdown := SectionTitleMarkdown(sortedCommits[i]);
        r := r + sectionTitleMarkdown;
        r := r + Concat(CommitsToMarkdown(sortedCommits[i].commits));
      }
    }
    assert sortedCommits[..|sortedCommits|] == sortedCommits;
  }

  // ---------------------------------------------------------------------
  // getDefaultChangelogHeader
  // ---------------------------------------------------------------------

  /** The line describing one configured type in a new changelog. */
  function HeaderLine(t: TypeConfig): string {
    "- `" + t.regex.text + "` " + t.description + "\n"
  }

  function HeaderLines(config: seq<TypeConfig>): (r: seq<string>)
    ensures |r| == |config|
  {
    seq(|config|, i requires 0 <= i < |config| => HeaderLine(config[i]))
  }

  /** `getDefaultChangelogHeader`: the fixed head, a line per configured type
      in configuration order, then an empty line and the entry point line, so
      a new changelog always ends with the entry point. */
  method DefaultChangelogHeader(config: seq<TypeConfig>) returns (r: string)
    ensures r == DefaultChangelogContent + Concat(HeaderLines(config)) + "\n" + EntryPoint + "\n"
    ensures EndsWith(r, "\n" + EntryPoint + "\n")
    ensures Contains(r, EntryPoint + "\n")
  {
    r := DefaultChangelogContent;
    for i := 0 to |config|
      invariant r == DefaultChangelogContent + Concat(HeaderLines(config[..i]))
    {
      assert HeaderLines(config[..i + 1]) == HeaderLines(config[..i]) + [HeaderLine(config[i])];
      ConcatAppend(HeaderLines(config[..i]), [HeaderLine(config[i])]);
      assert Concat([HeaderLine(config[i])]) == HeaderLine(config[i]);
      r := r + HeaderLine(config[i]);
    }
    assert config[..|config|] == config;
    var head := r;
    r := r + "\n" + EntryPoint + "\n";
    AppendAssoc(head + "\n", EntryPoint, "\n");
    AppendedOccurs(head + "\n", EntryPoint + "\n");
    AppendAssoc(head, "\n", EntryPoint);
    AppendAssoc(head, "\n" + EntryPoint, "\n");
    AppendedOccurs(head, "\n" + EntryPoint + "\n");
  }

  // ---------------------------------------------------------------------
  // getLastReleaseVersion and getPackageJsonTabulationFormat
  // ---------------------------------------------------------------------

  /** Step of both version readers: their fallback is a version. */
  lemma DefaultVersionIsVersion()
    ensures IsVersion(DefaultVersion)
  {
    VersionParts("0", "0", "0");
    assert DefaultVersion == VersionOf("0", "0", "0");
  }

  /** `getLastReleaseVersion` on package.json: the first `"version": "X.Y.Z"`
      capture, or "0.0.0" when there is none; a version either way. */
  function LastReleaseVersion(content: string): (r: string)
    ensures IsVersion(r)
    ensures Match(PackageVersionRe, content).None? ==> r == DefaultVersion
    ensures Match(PackageVersionRe, content).Some? ==> r == Match(PackageVersionRe, content).value
  {
    DefaultVersionIsVersion();
    match Match(PackageVersionRe, content)
    case Some(v) => v
    case None => DefaultVersion
  }

  /** The version written in the first version field is the one read. */
  lemma LastReleaseVersionReadBack(x: string, v: string, rest: string)
    requires IsVersion(v)
    requires forall j :: 0 <= j < |x| ==> !OccursAt(x + PackageVersionPrefix, PackageVersionPrefix, j)
    ensures LastReleaseVersion(x + PackageVersionPrefix + v + "\"" + rest) == v
  {
    var s := x + PackageVersionPrefix + v + "\"" + rest;
    PackageVersionReadBack(x, v, rest);
    forall j | 0 <= j < |x| ensures MatchAt(PackageVersionRe, s, j).None? {
      assert !OccursAt(x + PackageVersionPrefix, PackageVersionPrefix, j);
      assert s[j..j + |PackageVersionPrefix|] == (x + PackageVersionPrefix)[j..j + |PackageVersionPrefix|];
      assert !OccursAt(s, PackageVersionPrefix, j);
    }
    MatchIsLeftmost(PackageVersionRe, s, |x|);
  }

  /** With no version field at all, the default version is read. */
  lemma LastReleaseVersionDefault(content: string)
    requires !Contains(content, PackageVersionPrefix)
    ensures LastReleaseVersion(content) == DefaultVersion
  {
    forall j: nat ensures MatchAt(PackageVersionRe, content, j).None? {
      assert !OccursAt(content, PackageVersionPrefix, j);
    }
  }

  /** `getPackageJsonTabulationFormat`: the indentation captured after the
      opening brace, or a tab when there is none; never empty, never across
      a line end. */
  function PackageJsonTabulationFormat(content: string): (r: string)
    ensures |r| >= 1 && NoLineTerminator(r)
    ensures Match(IndentationRe, content).None? ==> r == "\t"
    ensures Match(IndentationRe, content).Some? ==> r == Match(IndentationRe, content).value
  {
    match Match(IndentationRe, content)
    case Some(indent) => indent
    case None => "\t"
  }

  /** The indentation in front of the first quoted key is the one read. */
  lemma TabulationReadBack(indent: string, rest: string)
    requires |indent| >= 1 && NoLineTerminator(indent)
    requires forall m :: 0 <= m < |indent| ==> !IsQuote(indent[m])
    ensures PackageJsonTabulationFormat("{\n" + indent + "\"" + rest) == indent
  {
    IndentationReadBack(indent, rest);
  }

  /** A file whose first key is not indented still matches: the lazy group
      takes the opening quote and the key, up to the closing quote. */
  lemma TabulationOfUnindented(key: string, rest: string)
    requires NoLineTerminator(key) && forall m :: 0 <= m < |key| ==> !IsQuote(key[m])
    ensures PackageJsonTabulationFormat("{\n\"" + key + "\"" + rest) == "\"" + key
  {
    var s := "{\n\"" + key + "\"" + rest;
    var n := 1 + |key|;
    assert OccursAt(s, "{\n", 0);
    assert s[2 + n] == '"';
    assert forall m :: 2 < m < 2 + n ==> s[m] == key[m - 3];
    LazyRunStops(s, 2, 1, n);
    assert s[2..2 + n] == "\"" + key;
    MatchIsLeftmost(IndentationRe, s, 0);
  }
}
