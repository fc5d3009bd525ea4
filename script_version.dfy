/** The version handling of the two release scripts: the previous release is
    read from the first `## [d.d.d]` heading of the changelog, and the new one
    is made by overwriting characters of that text with `setCharAt`. */
module ScriptVersion {
  import opened Wrappers
  import opened Text
  import opened Values
  import opened RegularExpressions
  import opened StringParsing

  /** `setCharAt`: the text with the character at `index` replaced by
      `character`, which may be several characters long; the text itself when
      `index` is past its end. */
  function SetCharAt(str: string, index: nat, character: string): (r: string)
    ensures index >= |str| ==> r == str
    ensures index < |str| ==>
      && |r| == |str| - 1 + |character|
      && r[..index] == str[..index]
      && r[index..index + |character|] == character
      && r[index + |character|..] == str[index + 1..]
  {
    if index > |str| - 1 then str
    else
      var r := str[..index] + character + str[index + 1..];
      assert r[index..index + |character|] == character;
      r
  }

  /** `Number(c) + 1` for a digit character, as the text `concat` makes of it. */
  function NextDigitText(c: char): (r: string)
    requires IsDigit(c)
    ensures c != '9' ==> r == [DigitChar(DigitValue(c) + 1)]
    ensures c == '9' ==> r == "10"
  {
    if c == '9' then
      assert NatToString(1) == "1";
      assert NatToString(10) == NatToString(1) + [DigitChar(0)];
      NatToString(DigitValue(c) + 1)
    else NatToString(DigitValue(c) + 1)
  }

  /** The new version `askAndComputeNewVersionNumber` computes from the
      previous `d.d.d` for selector 1 (major), 2 (minor) or 3 (patch); any
      other selector gives nothing. Positions 0, 2 and 4 are edited as
      characters, so a major or minor digit 9 turns into the two characters
      "10" and the later edits land on the wrong characters. */
  function ScriptBumped(v: string, selector: int): (r: Option<string>)
    requires IsShortVersion(v)
    ensures selector !in {1, 2, 3} <==> r.None?
    ensures selector == 1 && v[0] != '9' ==> r == Some([DigitChar(DigitValue(v[0]) + 1)] + ".0.0")
    ensures selector == 1 && v[0] == '9' ==> r == Some("100" + [v[2]] + "0" + [v[4]])
    ensures selector == 2 && v[2] != '9' ==> r == Some([v[0], '.', DigitChar(DigitValue(v[2]) + 1)] + ".0")
    ensures selector == 2 && v[2] == '9' ==> r == Some([v[0]] + ".100" + [v[4]])
    ensures selector == 3 ==> r == Some(v[..4] + NatToString(DigitValue(v[4]) + 1))
  {
    if selector == 1 then
      MajorEdits(v);
      Some(SetCharAt(SetCharAt(SetCharAt(v, 0, NextDigitText(v[0])), 2, "0"), 4, "0"))
    else if selector == 2 then
      MinorEdits(v);
      Some(SetCharAt(SetCharAt(v, 2, NextDigitText(v[2])), 4, "0"))
    else if selector == 3 then
      PatchEdits(v);
      Some(SetCharAt(v, 4, NextDigitText(v[4])))
    else None
  }

  /** The three edits of a major bump: after a 9 the text is one longer, so
      the last two edits overwrite the first dot and the second digit. */
  lemma MajorEdits(v: string)
    requires IsShortVersion(v)
    ensures var r := SetCharAt(SetCharAt(SetCharAt(v, 0, NextDigitText(v[0])), 2, "0"), 4, "0");
      && (v[0] != '9' ==> r == [DigitChar(DigitValue(v[0]) + 1)] + ".0.0")
      && (v[0] == '9' ==> r == "100" + [v[2]] + "0" + [v[4]])
  {
    assert v == [v[0], '.', v[2], '.', v[4]];
    var n := NextDigitText(v[0]);
    var w := SetCharAt(v, 0, n);
    assert w == n + ['.', v[2], '.', v[4]];
    var w' := SetCharAt(w, 2, "0");
    var r := SetCharAt(w', 4, "0");
    if v[0] == '9' {
      assert w == ['1', '0', '.', v[2], '.', v[4]];
      assert w' == ['1', '0', '0', v[2], '.', v[4]];
      assert r == ['1', '0', '0', v[2], '0', v[4]];
      assert r == "100" + [v[2]] + "0" + [v[4]];
    } else {
      assert w == [n[0], '.', v[2], '.', v[4]];
      assert w' == [n[0], '.', '0', '.', v[4]];
      assert r == [n[0], '.', '0', '.', '0'];
      assert r == [DigitChar(DigitValue(v[0]) + 1)] + ".0.0";
    }
  }

  /** The two edits of a minor bump: after a 9 the last edit overwrites the second dot. */
  lemma MinorEdits(v: string)
    requires IsShortVersion(v)
    ensures var r := SetCharAt(SetCharAt(v, 2, NextDigitText(v[2])), 4, "0");
      && (v[2] != '9' ==> r == [v[0], '.', DigitChar(DigitValue(v[2]) + 1)] + ".0")
      && (v[2] == '9' ==> r == [v[0]] + ".100" + [v[4]])
  {
    assert v == [v[0], '.', v[2], '.', v[4]];
    var n := NextDigitText(v[2]);
    var w := SetCharAt(v, 2, n);
    assert w == [v[0], '.'] + n + ['.', v[4]];
    var r := SetCharAt(w, 4, "0");
    if v[2] == '9' {
      assert w == [v[0], '.', '1', '0', '.', v[4]];
      assert r == [v[0], '.', '1', '0', '0', v[4]];
      assert r == [v[0]] + ".100" + [v[4]];
    } else {
      assert w == [v[0], '.', n[0], '.', v[4]];
      assert r == [v[0], '.', n[0], '.', '0'];
      assert r == [v[0], '.', DigitChar(DigitValue(v[2]) + 1)] + ".0";
    }
  }

  /** The one edit of a patch bump: the last digit becomes its successor's text. */
  lemma PatchEdits(v: string)
    requires IsShortVersion(v)
    ensures SetCharAt(v, 4, NextDigitText(v[4])) == v[..4] + NatToString(DigitValue(v[4]) + 1)
  {
    var r := SetCharAt(v, 4, NextDigitText(v[4]));
    assert r == v[..4] + NextDigitText(v[4]);
  }

  /** Digits and dots only: the characters of every version the scripts write. */
  predicate DigitsAndDots(s: string) {
    forall k :: 0 <= k < |s| ==> IsDigit(s[k]) || s[k] == '.'
  }

  /** Overwriting with digits and dots keeps a text of digits and dots. */
  lemma SetCharAtDigitsAndDots(str: string, index: nat, character: string)
    requires DigitsAndDots(str) && DigitsAndDots(character)
    ensures DigitsAndDots(SetCharAt(str, index, character))
  {
    if index < |str| {
      var r := SetCharAt(str, index, character);
      assert r == str[..index] + character + str[index + 1..];
      forall k | 0 <= k < |r| ensures IsDigit(r[k]) || r[k] == '.' {
        if k < index {
          assert r[k] == str[k];
        } else if k < index + |character| {
          assert r[k] == character[k - index];
        } else {
          assert r[k] == str[k - |character| + 1];
        }
      }
    }
  }

  /** Whatever the selector, the scripts' new version is made of digits and dots. */
  lemma ScriptBumpedDigitsAndDots(v: string, selector: int)
    requires IsShortVersion(v)
    ensures ScriptBumped(v, selector).Some? ==> DigitsAndDots(ScriptBumped(v, selector).value)
  {
    assert DigitsAndDots(v);
    assert DigitsAndDots("0");
    if selector == 1 {
      var n := NextDigitText(v[0]);
      var w := SetCharAt(v, 0, n);
      SetCharAtDigitsAndDots(v, 0, n);
      SetCharAtDigitsAndDots(w, 2, "0");
      SetCharAtDigitsAndDots(SetCharAt(w, 2, "0"), 4, "0");
    } else if selector == 2 {
      var n := NextDigitText(v[2]);
      SetCharAtDigitsAndDots(v, 2, n);
      SetCharAtDigitsAndDots(SetCharAt(v, 2, n), 4, "0");
    } else if selector == 3 {
      SetCharAtDigitsAndDots(v, 4, NextDigitText(v[4]));
    }
  }

  /** `askAndComputeNewVersionNumber` once the selector is known: the version
      text is reassigned step by step. */
  method ComputeNewVersionNumber(lastVersionNumber: string, selector: int) returns (r: Option<string>)
    requires IsShortVersion(lastVersionNumber)
    ensures r == ScriptBumped(lastVersionNumber, selector)
  {
    var wantedVersionNumber := lastVersionNumber;
    if selector == 1 {
      wantedVersionNumber := SetCharAt(wantedVersionNumber, 0, NextDigitText(wantedVersionNumber[0]));
      wantedVersionNumber := SetCharAt(wantedVersionNumber, 2, "0");
      wantedVersionNumber := SetCharAt(wantedVersionNumber, 4, "0");
    } else if selector == 2 {
      wantedVersionNumber := SetCharAt(wantedVersionNumber, 2, NextDigitText(wantedVersionNumber[2]));
      wantedVersionNumber := SetCharAt(wantedVersionNumber, 4, "0");
    } else if selector == 3 {
      wantedVersionNumber := SetCharAt(wantedVersionNumber, 4, NextDigitText(wantedVersionNumber[4]));
    } else {
      return None;
    }
    r := Some(wantedVersionNumber);
  }

  /** The selector's meaning in the helpers' terms. */
  function SelectorType(selector: int): VersionType {
    if selector == 1 then Major else if selector == 2 then Minor else if selector == 3 then Patch else Other
  }

  /** Where no digit 9 is bumped, the scripts and the helpers agree: the
      character edits compute the numeric bump. */
  lemma ScriptBumpAgrees(v: string, selector: int)
    requires IsShortVersion(v)
    requires selector == 1 ==> v[0] != '9'
    requires selector == 2 ==> v[2] != '9'
    ensures IsVersion(v) && ScriptBumped(v, selector) == Incremented(v, SelectorType(selector))
  {
    ShortVersionIsVersion(v);
    var p := Split(v, '.');
    assert p == [v[..1], v[2..3], v[4..]];
    ParseDigitsOne(v[0]);
    ParseDigitsOne(v[2]);
    ParseDigitsOne(v[4]);
    assert v[..1] == [v[0]] && v[2..3] == [v[2]] && v[4..] == [v[4]];
    if selector == 1 {
      SmallNatText(DigitValue(v[0]) + 1);
      assert VersionOf([DigitChar(DigitValue(v[0]) + 1)], "0", "0") == [DigitChar(DigitValue(v[0]) + 1)] + ".0.0";
    } else if selector == 2 {
      SmallNatText(DigitValue(v[2]) + 1);
      assert VersionOf([v[0]], [DigitChar(DigitValue(v[2]) + 1)], "0") == [v[0], '.', DigitChar(DigitValue(v[2]) + 1)] + ".0";
    } else if selector == 3 {
      assert v[..4] == [v[0]] + "." + [v[2]] + ".";
      assert VersionOf([v[0]], [v[2]], NatToString(DigitValue(v[4]) + 1)) == v[..4] + NatToString(DigitValue(v[4]) + 1);
    }
  }

  lemma ParseDigitsOne(c: char)
    requires IsDigit(c)
    ensures ParseDigits([c]) == DigitValue(c)
  {
    assert [c][..0] == [];
  }

  lemma SmallNatText(n: nat)
    requires n < 10
    ensures NatToString(n) == [DigitChar(n)]
  {
  }

  /** The bump is wrong on a minor digit 9: "1.9.3" becomes "1.1003", which
      is not a version at all, where the helpers give "1.10.0". */
  lemma ScriptBumpCorruptsMinorNine()
    ensures ScriptBumped("1.9.3", 2) == Some("1.1003")
    ensures !IsVersion("1.1003")
    ensures Incremented("1.9.3", Minor) == Some("1.10.0")
  {
    var v := "1.9.3";
    assert IsShortVersion(v);
    assert [v[0]] + ".100" + [v[4]] == "1.1003";
    SplitByNone("1003", {'.'});
    assert "1.1003" == "1" + ['.'] + "1003";
    SplitByAfter("1", '.', "1003", {'.'});
    IncrementedCarries();
  }

  /** The bump of a major digit 9 goes wrong the same way. */
  lemma ScriptBumpCorruptsMajorNine()
    ensures ScriptBumped("9.2.3", 1) == Some("10020" + "3")
  {
    var v := "9.2.3";
    assert IsShortVersion(v);
    assert "100" + [v[2]] + "0" + [v[4]] == "10020" + "3";
  }

  // ---------------------------------------------------------------------
  // extractVersion and getLastReleaseVersion
  // ---------------------------------------------------------------------

  /** The scripts' `getLastReleaseVersion` on the changelog text: the first
      `## [d.d.d]` heading with single-digit components, or "0.0.0". */
  function ScriptLastReleaseVersion(content: string): (r: string)
    ensures IsShortVersion(r)
    ensures Match(ShortChangelogVersionRe, content).None? ==> r == DefaultVersion
    ensures Match(ShortChangelogVersionRe, content).Some? ==> r == Match(ShortChangelogVersionRe, content).value
  {
    match Match(ShortChangelogVersionRe, content)
    case Some(v) => v
    case None => DefaultVersion
  }

  /** A corrected reader built on the helpers' changelog version pattern:
      the first `## [X.Y.Z]` heading with components of any length, or
      "0.0.0". */
  function ChangelogLastReleaseVersion(content: string): (r: string)
    ensures IsVersion(r)
    ensures Match(ChangelogVersionRe, content).None? ==> r == DefaultVersion
    ensures Match(ChangelogVersionRe, content).Some? ==> r == Match(ChangelogVersionRe, content).value
  {
    DefaultVersionIsVersion();
    match Match(ChangelogVersionRe, content)
    case Some(v) => v
    case None => DefaultVersion
  }

  /** A single-digit heading at the top of the changelog is what the scripts read. */
  lemma ScriptLastReleaseVersionReadBack(v: string, rest: string)
    requires IsShortVersion(v)
    ensures ScriptLastReleaseVersion("## [" + v + "]" + rest) == v
  {
    var s := "## [" + v + "]" + rest;
    assert OccursAt(s, "## [", 0);
    assert s[4..9] == v;
    MatchIsLeftmost(ShortChangelogVersionRe, s, 0);
  }

  /** After a patch bump from 9 the scripts lose track: with "## [1.2.10]"
      above "## [1.2.9]", they read 1.2.9 again, where the helpers' pattern
      reads 1.2.10. */
  lemma ScriptRereadsOlderRelease()
    ensures ScriptBumped("1.2.9", 3) == Some("1.2.10")
    ensures ScriptLastReleaseVersion("## [1.2.10]\n" + "## [1.2.9]\n") == "1.2.9"
    ensures ChangelogLastReleaseVersion("## [1.2.10]\n" + "## [1.2.9]\n") == "1.2.10"
  {
    PatchBumpFromNine();
    ShortReadSkipsLongHeading();
    LongReadFindsLongHeading();
  }

  lemma PatchBumpFromNine()
    ensures ScriptBumped("1.2.9", 3) == Some("1.2.10")
  {
    assert NatToString(1) == ['1'];
    assert NatToString(10) == NatToString(1) + [DigitChar(0)];
    assert "1.2.9"[..4] + "10" == "1.2.10";
  }

  lemma ShortReadSkipsLongHeading()
    ensures ScriptLastReleaseVersion("## [1.2.10]\n" + "## [1.2.9]\n") == "1.2.9"
  {
    var s := "## [1.2.10]\n" + "## [1.2.9]\n";
    assert MatchAt(ShortChangelogVersionRe, s, 0).None? by {
      assert s[9] == '0';
    }
    var x := "## [1.2.10]\n";
    assert forall k :: 2 <= k < 12 ==> x[k] != '#';
    forall j | 1 <= j < 12 ensures !OccursAt(s, "## [", j) {
      var k := if j == 1 then 2 else j;
      assert s[j..j + 4][k - j] == s[k] == x[k] != '#';
      assert "## ["[k - j] == '#';
    }
    assert s == "## [1.2.10]\n" + "## [" + "1.2.9" + "]" + "\n";
    ScriptLastReleaseVersionAt("## [1.2.10]\n", "1.2.9", "\n");
  }

  /** A single-digit heading after text holding no match is what the scripts read. */
  lemma ScriptLastReleaseVersionAt(x: string, v: string, rest: string)
    requires IsShortVersion(v)
    requires forall j :: 0 <= j < |x| ==> MatchAt(ShortChangelogVersionRe, x + "## [" + v + "]" + rest, j).None?
    ensures ScriptLastReleaseVersion(x + "## [" + v + "]" + rest) == v
  {
    var s := x + "## [" + v + "]" + rest;
    assert OccursAt(s, "## [", |x|);
    assert s[|x| + 4..|x| + 9] == v;
    MatchIsLeftmost(ShortChangelogVersionRe, s, |x|);
  }

  lemma LongReadFindsLongHeading()
    ensures ChangelogLastReleaseVersion("## [1.2.10]\n" + "## [1.2.9]\n") == "1.2.10"
  {
    LongVersion();
    TwoHeadings();
    ChangelogLastReleaseVersionReadBack("1.2.10", "\n## [1.2.9]\n");
  }

  // Steps of `LongReadFindsLongHeading`, kept apart so that its proof stays small.

  lemma LongVersion()
    ensures IsVersion("1.2.10")
  {
    VersionParts("1", "2", "10");
    assert VersionOf("1", "2", "10") == "1.2.10";
  }

  lemma TwoHeadings()
    ensures "## [" + "1.2.10" + "]" + "\n## [1.2.9]\n" == "## [1.2.10]\n" + "## [1.2.9]\n"
  {
  }

  /** A heading at the top of the changelog is what the helpers' pattern reads. */
  lemma ChangelogLastReleaseVersionReadBack(v: string, rest: string)
    requires IsVersion(v)
    ensures ChangelogLastReleaseVersion("## [" + v + "]" + rest) == v
  {
    var s := "## [" + v + "]" + rest;
    ChangelogVersionReadBack("", v, rest);
    assert "" + "## [" + v + "]" + rest == s;
    MatchIsLeftmost(ChangelogVersionRe, s, 0);
  }
}
