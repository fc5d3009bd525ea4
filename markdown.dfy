/** The markdown pieces of a release block: the dated version heading, a
    section title per commit type and one list item per commit. */
module Markdown {
  import opened Text
  import opened DateFormat
  import opened SortedCommits

  /** `getDatedVersionMarkdown`, with the date as an input: the heading of
      the version, then the date. */
  function DatedVersionMarkdown(version: string, date: UtcDate): (r: string)
    ensures OccursAt(r, "## [" + version + "]", 0)
  {
    var p := TwoDigitsDate(date);
    var heading := "## [" + version + "]";
    var r := heading + " - " + p.year + "-" + p.month + "-" + p.day + "\n";
    assert r[..|heading|] == heading;
    r
  }

  /** `getSectionTitleMarkdown`: the key and commit count, then the description in italics.
      The title is a level-three heading that opens with the key and ends a line. */
  function SectionTitleMarkdown(b: Bucket): (r: string)
    ensures OccursAt(r, "### " + b.key + ": ", 0) && r[|r| - 1] == '\n'
  {
    var head := "### " + b.key + ": ";
    var r := head + NatToString(|b.commits|) + "\n>_" + b.description + "_\n";
    assert r[..|head|] == head;
    r
  }

  /** `commitsToMarkdown`: one list item per commit, in order. */
  function CommitsToMarkdown(commits: seq<string>): (r: seq<string>)
    ensures |r| == |commits|
  {
    seq(|commits|, i requires 0 <= i < |commits| => "- " + commits[i] + "\n")
  }

  function Item(commit: string): string {
    "- " + commit + "\n"
  }

  /** Which section title a renderer writes: the helpers' two-line title, or
      the scripts' one-line title "### N key: _description_". */
  datatype TitleStyle = HelperTitle | ScriptTitle

  function Title(style: TitleStyle, b: Bucket): string {
    match style
    case HelperTitle => SectionTitleMarkdown(b)
    case ScriptTitle => "### " + NatToString(|b.commits|) + " " + b.key + ": _" + b.description + "_\n"
  }

  /** The section of one bucket: nothing when it has no commits, otherwise its
      title followed by its list items. */
  function Section(b: Bucket, style: TitleStyle): string {
    if |b.commits| > 0 then Title(style, b) + Concat(CommitsToMarkdown(b.commits)) else ""
  }

  /** The sections of all buckets, in key order; they are empty exactly when
      no bucket has a commit. */
  function Sections(bs: seq<Bucket>, style: TitleStyle): (r: string)
    ensures r == "" <==> forall i :: 0 <= i < |bs| ==> |bs[i].commits| == 0
    decreases |bs|
  {
    if bs == [] then "" else Sections(bs[..|bs| - 1], style) + Section(bs[|bs| - 1], style)
  }

  /** The buckets that have commits, in order. */
  function NonEmpty(bs: seq<Bucket>): (r: seq<Bucket>)
    ensures |r| <= |bs|
    ensures forall i :: 0 <= i < |r| ==> |r[i].commits| > 0
  {
    if bs == [] then []
    else if |bs[0].commits| > 0 then [bs[0]] + NonEmpty(bs[1..])
    else NonEmpty(bs[1..])
  }

  /** The item texts, split at their line ends, are the commits behind a "- "
      mark, in order, followed by the empty text after the last line end. */
  lemma {:induction false} ItemsSplit(commits: seq<string>)
    requires forall k, i :: 0 <= k < |commits| && 0 <= i < |commits[k]| ==> commits[k][i] != '\n'
    ensures |Split(Concat(CommitsToMarkdown(commits)), '\n')| == |commits| + 1
    ensures Split(Concat(CommitsToMarkdown(commits)), '\n')[|commits|] == ""
    ensures forall i :: 0 <= i < |commits| ==> Split(Concat(CommitsToMarkdown(commits)), '\n')[i] == "- " + commits[i]
  {
    var items := CommitsToMarkdown(commits);
    if commits == [] {
      assert Concat(items) == "";
    } else {
      var rest := commits[1..];
      assert items == [Item(commits[0])] + CommitsToMarkdown(rest);
      assert Concat(items) == Item(commits[0]) + Concat(CommitsToMarkdown(rest));
      ItemsSplit(rest);
      var head := "- " + commits[0];
      assert Concat(items) == head + ['\n'] + Concat(CommitsToMarkdown(rest));
      SplitByAfter(head, '\n', Concat(CommitsToMarkdown(rest)), {'\n'});
    }
  }

  /** A section title is two lines, the count reads back as the bucket's number
      of commits, and the second line is the description in italics. */
  lemma SectionTitleLines(b: Bucket)
    requires '\n' !in b.key && '\n' !in b.description
    ensures Split(SectionTitleMarkdown(b), '\n') == ["### " + b.key + ": " + NatToString(|b.commits|), ">_" + b.description + "_", ""]
    ensures ParseDigits(NatToString(|b.commits|)) == |b.commits|
  {
    var first := "### " + b.key + ": " + NatToString(|b.commits|);
    var second := ">_" + b.description + "_";
    assert '\n' !in first by {
      assert forall i :: 0 <= i < |NatToString(|b.commits|)| ==> IsDigit(NatToString(|b.commits|)[i]);
    }
    assert SectionTitleMarkdown(b) == first + ['\n'] + (second + ['\n'] + "");
    SplitByAfter(first, '\n', second + ['\n'] + "", {'\n'});
    SplitByAfter(second, '\n', "", {'\n'});
    ParseNatToString(|b.commits|);
  }

  /** Concatenating bucket lists concatenates their sections. */
  lemma {:induction false} SectionsAppend(a: seq<Bucket>, b: seq<Bucket>, style: TitleStyle)
    ensures Sections(a + b, style) == Sections(a, style) + Sections(b, style)
    decreases |b|
  {
    if b == [] {
      assert a + b == a;
    } else {
      var front := b[..|b| - 1];
      var last := b[|b| - 1];
      assert (a + b)[..|a + b| - 1] == a + front;
      assert (a + b)[|a + b| - 1] == last;
      SectionsAppend(a, front, style);
      AppendAssoc(Sections(a, style), Sections(front, style), Section(last, style));
    }
  }

  lemma SectionsSingle(b: Bucket, style: TitleStyle)
    ensures Sections([b], style) == Section(b, style)
  {
    assert [b][..0] == [];
  }

  /** Buckets without commits contribute nothing: rendering only the non-empty
      buckets gives the same text. */
  lemma {:induction false} SectionsSkipEmpty(bs: seq<Bucket>, style: TitleStyle)
    ensures Sections(bs, style) == Sections(NonEmpty(bs), style)
    decreases |bs|
  {
    if bs != [] {
      var head := [bs[0]];
      var rest := bs[1..];
      assert bs == head + rest;
      SectionsAppend(head, rest, style);
      SectionsSingle(bs[0], style);
      SectionsSkipEmpty(rest, style);
      if |bs[0].commits| > 0 {
        assert NonEmpty(bs) == head + NonEmpty(rest);
        SectionsAppend(head, NonEmpty(rest), style);
      } else {
        assert NonEmpty(bs) == NonEmpty(rest);
        assert Section(bs[0], style) == "";
        assert Sections(bs, style) == "" + Sections(rest, style);
      }
    }
  }

  lemma SectionsSnoc(bs: seq<Bucket>, i: nat, style: TitleStyle)
    requires i < |bs|
    ensures Sections(bs[..i + 1], style) == Sections(bs[..i], style) + Section(bs[i], style)
  {
    assert bs[..i + 1][..i] == bs[..i];
  }

  lemma AppendStep(head: string, s0: string, s1: string, sec: string, r: string, t: string, items: string)
    requires s1 == s0 + sec && sec == t + items && r == head + s0
    ensures r + t + items == head + s1
  {
  }

  /** One step of a renderer that walks the buckets in order: appending the
      next bucket's title and items when it has commits, and nothing
      otherwise, extends the sections by that bucket. */
  lemma SectionsStep(head: string, bs: seq<Bucket>, i: nat, style: TitleStyle, r: string)
    requires i < |bs| && r == head + Sections(bs[..i], style)
    ensures |bs[i].commits| > 0 ==>
      r + Title(style, bs[i]) + Concat(CommitsToMarkdown(bs[i].commits)) == head + Sections(bs[..i + 1], style)
    ensures |bs[i].commits| == 0 ==> r == head + Sections(bs[..i + 1], style)
  {
    SectionsSnoc(bs, i, style);
    if |bs[i].commits| > 0 {
      AppendStep(head, Sections(bs[..i], style), Sections(bs[..i + 1], style), Section(bs[i], style), r,
        Title(style, bs[i]), Concat(CommitsToMarkdown(bs[i].commits)));
    } else {
      AppendStep(head, Sections(bs[..i], style), Sections(bs[..i + 1], style), Section(bs[i], style), r, [], []);
    }
  }

  /** Each bucket with commits shows up in the sections as its title followed
      by its list items. */
  lemma SectionsShowEach(bs: seq<Bucket>, i: nat, style: TitleStyle)
    requires i < |bs| && |bs[i].commits| > 0
    ensures Contains(Sections(bs, style), Title(style, bs[i]) + Concat(CommitsToMarkdown(bs[i].commits)))
  {
    var before := Sections(bs[..i], style);
    var w := Section(bs[i], style);
    var after := Sections(bs[i + 1..], style);
    assert bs == bs[..i] + [bs[i]] + bs[i + 1..];
    SectionsAppend(bs[..i] + [bs[i]], bs[i + 1..], style);
    SectionsAppend(bs[..i], [bs[i]], style);
    SectionsSingle(bs[i], style);
    assert Sections(bs, style) == before + w + after;
    OccursMiddle(before, w, after);
  }
}
