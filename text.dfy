/** Strings as sequences of characters, and the JavaScript string operations the
    changelog generator is built from: search for a literal, `split` on a
    separator, `join`, decimal numbers and the line structure that regular
    expressions see. */
module Text {
  import opened Wrappers

  /** JavaScript's line terminators: what `.` does not match, and what `^` and
      `$` treat as a line boundary in multiline mode. */
  predicate IsLineTerminator(c: char) {
    c == '\n' || c == '\r' || c == '\U{2028}' || c == '\U{2029}'
  }

  const LineTerminators: set<char> := {'\n', '\r', '\U{2028}', '\U{2029}'}

  predicate NoLineTerminator(s: string) {
    forall i :: 0 <= i < |s| ==> !IsLineTerminator(s[i])
  }

  predicate OccursAt(s: string, w: string, i: nat) {
    i + |w| <= |s| && s[i..i + |w|] == w
  }

  predicate Contains(s: string, w: string) {
    exists i :: 0 <= i <= |s| - |w| && OccursAt(s, w, i)
  }

  predicate EndsWith(s: string, w: string) {
    |w| <= |s| && s[|s| - |w|..] == w
  }

  /** A slice is the slices on either side of any point inside it. */
  lemma SliceSplit(s: string, i: nat, j: nat, k: nat)
    requires i <= j <= k <= |s|
    ensures s[i..k] == s[i..j] + s[j..k]
  {
  }

  /** A text ends with, and contains at its own length, whatever is appended to it. */
  lemma AppendedOccurs(a: string, b: string)
    ensures EndsWith(a + b, b) && OccursAt(a + b, b, |a|) && Contains(a + b, b)
  {
    var s := a + b;
    assert s[|a|..] == b;
    assert s[|a|..|a| + |b|] == b;
    assert OccursAt(s, b, |a|);
  }

  /** A text occurs at the start of anything that begins with it. */
  lemma OccursFirst(a: string, b: string)
    ensures OccursAt(a + b, a, 0)
  {
    assert (a + b)[..|a|] == a;
  }

  /** An occurrence lies within the text up to its end. */
  lemma OccursInPrefix(s: string, w: string, i: nat)
    requires OccursAt(s, w, i)
    ensures OccursAt(s[..i + |w|], w, i)
  {
    assert s[..i + |w|][i..i + |w|] == s[i..i + |w|];
  }

  /** An occurrence stays where it is when text is appended. */
  lemma OccursBefore(f: string, rest: string, w: string, i: nat)
    requires OccursAt(f, w, i)
    ensures OccursAt(f + rest, w, i)
  {
    assert (f + rest)[i..i + |w|] == f[i..i + |w|];
  }

  /** An occurrence inside `e` is one inside `p + e + q`, shifted by `|p|`. */
  lemma OccursShifted(p: string, e: string, q: string, w: string, i: nat)
    requires OccursAt(e, w, i)
    ensures OccursAt(p + e + q, w, |p| + i)
  {
    var f := p + e + q;
    assert f[|p| + i..|p| + i + |w|] == e[i..i + |w|];
  }

  /** An occurrence in `p + e + q` of a word that starts with no character of
      `p` and ends with no character of `q` lies inside `e`. */
  lemma OccursBetween(p: string, e: string, q: string, w: string, i: nat)
    requires |w| >= 1 && OccursAt(p + e + q, w, i)
    requires forall k :: 0 <= k < |p| ==> p[k] != w[0]
    requires forall k :: 0 <= k < |q| ==> q[k] != w[|w| - 1]
    ensures |p| <= i && i + |w| <= |p| + |e| && OccursAt(e, w, i - |p|)
  {
    var f := p + e + q;
    assert f[i] == w[0] && f[i + |w| - 1] == w[|w| - 1] by {
      assert f[i..i + |w|][0] == f[i];
      assert f[i..i + |w|][|w| - 1] == f[i + |w| - 1];
    }
    assert forall k :: 0 <= k < |p| ==> f[k] == p[k];
    assert forall k :: |p| + |e| <= k < |f| ==> f[k] == q[k - |p| - |e|];
    assert e[i - |p|..i - |p| + |w|] == f[i..i + |w|];
  }

  /** The leftmost occurrence of `w` in `s` at or after `from`. */
  function FindFrom(s: string, w: string, from: nat): (r: Option<nat>)
    decreases |s| + 1 - from
    ensures r.Some? ==> from <= r.value && OccursAt(s, w, r.value)
    ensures r.Some? ==> forall j :: from <= j < r.value ==> !OccursAt(s, w, j)
    ensures r.None? ==> forall j: nat :: from <= j ==> !OccursAt(s, w, j)
  {
    if from + |w| > |s| then None
    else if OccursAt(s, w, from) then Some(from)
    else FindFrom(s, w, from + 1)
  }

  /** `s.indexOf(w)`, with `None` for -1. */
  function IndexOf(s: string, w: string): (r: Option<nat>)
    ensures r.None? <==> !Contains(s, w)
    ensures r.Some? ==> OccursAt(s, w, r.value) && forall j :: 0 <= j < r.value ==> !OccursAt(s, w, j)
  {
    FindFrom(s, w, 0)
  }

  /** `s.replace(w, "")` for a literal `w`: only the leftmost occurrence goes. */
  function RemoveFirst(s: string, w: string): string {
    match IndexOf(s, w)
    case None => s
    case Some(i) => s[..i] + s[i + |w|..]
  }

  /** The index of the first line terminator of `s`, if any. */
  function FirstTerminator(s: string): (r: Option<nat>)
    ensures r.Some? ==> r.value < |s| && IsLineTerminator(s[r.value]) && NoLineTerminator(s[..r.value])
    ensures r.None? ==> NoLineTerminator(s)
  {
    if s == [] then None
    else if IsLineTerminator(s[0]) then Some(0)
    else match FirstTerminator(s[1..])
      case None => None
      case Some(q) => Some(q + 1)
  }

  /** `s.split(c)` generalised to a set of one-character separators; like
      JavaScript it yields one more part than there are separators. */
  function SplitBy(s: string, seps: set<char>): (r: seq<string>)
    ensures |r| >= 1
    decreases |s|
  {
    if s == [] then [""]
    else
      var rest := SplitBy(s[1..], seps);
      if s[0] in seps then [""] + rest else [[s[0]] + rest[0]] + rest[1..]
  }

  function Split(s: string, sep: char): (r: seq<string>)
    ensures |r| >= 1
  {
    SplitBy(s, {sep})
  }

  /** The lines of `s` as the multiline `^` and `$` of a regular expression
      delimit them. */
  function Lines(s: string): (r: seq<string>)
    ensures |r| >= 1
  {
    SplitBy(s, LineTerminators)
  }

  /** `parts.join(sep)`. */
  function Join(parts: seq<string>, sep: char): string
    requires |parts| >= 1
  {
    if |parts| == 1 then parts[0] else parts[0] + [sep] + Join(parts[1..], sep)
  }

  lemma AppendAssoc(x: string, y: string, z: string)
    ensures x + y + z == x + (y + z)
  {
  }

  /** Regroupings of five texts joined in order. */
  lemma Regroup(a: string, b: string, c: string, d: string, e: string)
    ensures a + (b + c + d) + e == a + b + c + d + e
  {
  }

  lemma Tail3(a: string, b: string, c: string, d: string, e: string)
    ensures a + b + (c + d + e) == a + b + c + d + e
  {
  }

  lemma Nest(a: string, b: string, c: string, d: string, e: string)
    ensures a + (b + (c + (d + e))) == a + b + c + d + e
  {
  }

  /** A word between two texts occurs right after the first, which is what
      comes before it; what follows it is the second. */
  lemma OccursMiddle(a: string, w: string, b: string)
    ensures OccursAt(a + w + b, w, |a|)
    ensures (a + w + b)[..|a|] == a && (a + w + b)[|a| + |w|..] == b
  {
    var s := a + w + b;
    assert s[|a|..|a| + |w|] == w;
  }

  /** `parts.join("")`. */
  function Concat(parts: seq<string>): string {
    if parts == [] then "" else parts[0] + Concat(parts[1..])
  }

  lemma {:induction false} ConcatAppend(a: seq<string>, b: seq<string>)
    ensures Concat(a + b) == Concat(a) + Concat(b)
  {
    if a == [] {
      assert a + b == b;
    } else {
      assert (a + b)[1..] == a[1..] + b;
      ConcatAppend(a[1..], b);
    }
  }

  /** Splitting on a separator the first part does not contain peels that part off. */
  lemma {:induction false} SplitByAfter(x: string, c: char, y: string, seps: set<char>)
    requires c in seps
    requires forall i :: 0 <= i < |x| ==> x[i] !in seps
    ensures SplitBy(x + [c] + y, seps) == [x] + SplitBy(y, seps)
  {
    if x == [] {
      assert x + [c] + y == [c] + y;
      assert ([c] + y)[1..] == y;
    } else {
      assert (x + [c] + y)[1..] == x[1..] + [c] + y;
      SplitByAfter(x[1..], c, y, seps);
      assert [x[0]] + x[1..] == x;
    }
  }

  /** A text without separators is a single part. */
  lemma {:induction false} SplitByNone(x: string, seps: set<char>)
    requires forall i :: 0 <= i < |x| ==> x[i] !in seps
    ensures SplitBy(x, seps) == [x]
  {
    if x != [] {
      SplitByNone(x[1..], seps);
      assert [x[0]] + x[1..] == x;
    }
  }

  /** Every part of a split is free of separators. */
  lemma {:induction false} SplitByParts(s: string, seps: set<char>)
    ensures forall k, i :: 0 <= k < |SplitBy(s, seps)| && 0 <= i < |SplitBy(s, seps)[k]| ==> SplitBy(s, seps)[k][i] !in seps
  {
    if s != [] {
      SplitByParts(s[1..], seps);
    }
  }

  /** `split` and `join` on the same character undo each other: joining the
      parts gives the text back ... */
  lemma {:induction false} JoinSplit(s: string, c: char)
    ensures Join(Split(s, c), c) == s
    decreases |s|
  {
    if s != [] {
      var rest := Split(s[1..], c);
      JoinSplit(s[1..], c);
      if s[0] == c {
        assert Split(s, c) == [""] + rest;
        assert ([""] + rest)[1..] == rest;
        assert s == [c] + s[1..];
      } else {
        assert Split(s, c) == [[s[0]] + rest[0]] + rest[1..];
        if |rest| > 1 {
          assert Join(rest, c) == rest[0] + [c] + Join(rest[1..], c);
          assert ([[s[0]] + rest[0]] + rest[1..])[1..] == rest[1..];
        }
        assert s == [s[0]] + s[1..];
      }
    }
  }

  /** ... and splitting a join of separator-free parts gives the parts back. */
  lemma {:induction false} SplitJoin(parts: seq<string>, c: char)
    requires |parts| >= 1
    requires forall k, i :: 0 <= k < |parts| && 0 <= i < |parts[k]| ==> parts[k][i] != c
    ensures Split(Join(parts, c), c) == parts
  {
    if |parts| == 1 {
      SplitByNone(parts[0], {c});
    } else {
      SplitJoin(parts[1..], c);
      SplitByAfter(parts[0], c, Join(parts[1..], c), {c});
      assert [parts[0]] + parts[1..] == parts;
    }
  }

  predicate IsDigit(c: char) {
    '0' <= c <= '9'
  }

  predicate AllDigits(s: string) {
    forall i :: 0 <= i < |s| ==> IsDigit(s[i])
  }

  /** A non-empty run of decimal digits: what `\d+` matches. */
  predicate IsDigits(s: string) {
    |s| > 0 && AllDigits(s)
  }

  function DigitValue(c: char): (d: nat)
    requires IsDigit(c)
    ensures d < 10
  {
    (c as int) - ('0' as int)
  }

  function DigitChar(d: nat): (c: char)
    requires d < 10
    ensures IsDigit(c) && DigitValue(c) == d
  {
    (('0' as int) + d) as char
  }

  /** `Number(s)` on a string of decimal digits. */
  function ParseDigits(s: string): nat
    requires AllDigits(s)
    decreases |s|
  {
    if s == [] then 0 else ParseDigits(s[..|s| - 1]) * 10 + DigitValue(s[|s| - 1])
  }

  /** `String(n)`: the canonical decimal text of a non-negative integer. */
  function NatToString(n: nat): (s: string)
    ensures IsDigits(s)
    ensures |s| > 1 ==> s[0] != '0'
    decreases n
  {
    if n < 10 then [DigitChar(n)] else NatToString(n / 10) + [DigitChar(n % 10)]
  }

  /** Reading back the decimal text of a number gives the number. */
  lemma {:induction false} ParseNatToString(n: nat)
    ensures ParseDigits(NatToString(n)) == n
    decreases n
  {
    var s := NatToString(n);
    if n < 10 {
      assert s[..|s| - 1] == [];
    } else {
      ParseNatToString(n / 10);
      assert s[..|s| - 1] == NatToString(n / 10);
    }
  }
}
