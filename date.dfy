/** The UTC date written into a release heading. The clock itself is an input:
    a `UtcDate` holds what `getUTCFullYear`, `getUTCMonth` (zero-based) and
    `getUTCDate` return. */
module DateFormat {
  import opened Text

  datatype UtcDate = UtcDate(year: nat, month: nat, day: nat)

  /** What a JavaScript `Date` can report: a zero-based month and a day of the month. */
  predicate IsCalendarDate(d: UtcDate) {
    d.month < 12 && 1 <= d.day <= 31
  }

  datatype DateParts = DateParts(year: string, month: string, day: string)

  /** `` `0${n}`.slice(-2) ``: the last two characters of the number written after a zero. */
  function TwoDigits(n: nat): (r: string)
    ensures |r| == 2 && AllDigits(r)
  {
    var padded := "0" + NatToString(n);
    padded[|padded| - 2..]
  }

  /** The last character of a number's decimal text is its last digit. */
  lemma LastDigit(n: nat)
    ensures NatToString(n)[|NatToString(n)| - 1] == DigitChar(n % 10)
  {
  }

  /** Two digits read as a number. */
  lemma ParseTwoDigits(a: char, b: char)
    requires IsDigit(a) && IsDigit(b)
    ensures ParseDigits([a, b]) == DigitValue(a) * 10 + DigitValue(b)
  {
    assert [a, b][..1] == [a];
    assert [a][..0] == [];
    assert ParseDigits([a]) == DigitValue(a);
  }

  lemma ModHundred(n: nat)
    ensures n % 100 == ((n / 10) % 10) * 10 + n % 10
  {
  }

  /** Whatever the value, the two characters read back as `n` modulo 100. */
  lemma {:induction false} TwoDigitsValue(n: nat)
    ensures ParseDigits(TwoDigits(n)) == n % 100
  {
    var r := TwoDigits(n);
    if n < 10 {
      assert r == ['0', DigitChar(n)];
      ParseTwoDigits('0', DigitChar(n));
    } else {
      var m := n / 10;
      LastDigit(m);
      assert NatToString(n) == NatToString(m) + [DigitChar(n % 10)];
      assert r == [DigitChar(m % 10), DigitChar(n % 10)];
      ParseTwoDigits(DigitChar(m % 10), DigitChar(n % 10));
      ModHundred(n);
    }
  }

  /** Values 1 to 9 gain a leading zero; values 10 to 99 are written as they are. */
  lemma {:induction false} TwoDigitsPadding(n: nat)
    ensures 1 <= n <= 9 ==> TwoDigits(n) == ['0', DigitChar(n)]
    ensures 10 <= n <= 99 ==> TwoDigits(n) == NatToString(n)
  {
    if 1 <= n <= 9 {
      var t := NatToString(n);
      assert t == [DigitChar(n)];
      assert "0" + t == ['0', DigitChar(n)];
    } else if 10 <= n <= 99 {
      var t := NatToString(n);
      var h := NatToString(n / 10);
      assert h == [DigitChar(n / 10)];
      assert t == h + [DigitChar(n % 10)];
      assert |t| == 2;
      var padded := "0" + t;
      assert padded[|padded| - 2..] == t;
    }
  }

  /** `getTwoDigitsDate`: the year unpadded, the month (one-based) and day in
      two digits, each reading back as its value (the month and day modulo 100). */
  function TwoDigitsDate(d: UtcDate): (r: DateParts)
    ensures |r.month| == 2 && AllDigits(r.month) && ParseDigits(r.month) == (d.month + 1) % 100
    ensures |r.day| == 2 && AllDigits(r.day) && ParseDigits(r.day) == d.day % 100
    ensures IsDigits(r.year) && ParseDigits(r.year) == d.year
  {
    TwoDigitsValue(d.month + 1);
    TwoDigitsValue(d.day);
    ParseNatToString(d.year);
    DateParts(NatToString(d.year), TwoDigits(d.month + 1), TwoDigits(d.day))
  }

  /** A value from 1 to 99 written in two digits reads back unchanged. */
  lemma TwoDigitsSmall(n: nat)
    requires 1 <= n <= 99
    ensures |TwoDigits(n)| == 2 && ParseDigits(TwoDigits(n)) == n
  {
    TwoDigitsValue(n);
    SmallRemainder(n);
  }

  lemma SmallRemainder(n: nat)
    requires n < 100
    ensures n % 100 == n
  {
  }

  /** For a calendar date the month is 01 to 12 and the day 01 to 31, both exactly
      two digits, and the year is the full year, neither padded nor truncated. */
  lemma CalendarDateParts(d: UtcDate)
    requires IsCalendarDate(d)
    ensures |TwoDigitsDate(d).month| == 2 && ParseDigits(TwoDigitsDate(d).month) == d.month + 1
    ensures |TwoDigitsDate(d).day| == 2 && ParseDigits(TwoDigitsDate(d).day) == d.day
    ensures IsDigits(TwoDigitsDate(d).year) && ParseDigits(TwoDigitsDate(d).year) == d.year
    ensures |TwoDigitsDate(d).year| > 1 ==> TwoDigitsDate(d).year[0] != '0'
  {
    TwoDigitsSmall(d.month + 1);
    TwoDigitsSmall(d.day);
    ParseNatToString(d.year);
  }
}
