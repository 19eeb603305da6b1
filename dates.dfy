/** The `created:>YYYY-MM-DD` date of the search query: the year as written
    by a template literal, month and day through the `("0" + n).slice(-2)`
    padding idiom. */
module Dates {

  function DigitChar(d: nat): char
    requires d < 10
  {
    ('0' as int + d) as char
  }

  function DigitValue(c: char): int {
    c as int - '0' as int
  }

  /** `${n}` for a natural number: its decimal digits, most significant first. */
  function DecimalString(n: nat): (s: string)
    ensures 1 <= |s|
    ensures forall i :: 0 <= i < |s| ==> '0' <= s[i] <= '9'
    ensures s[0] == '0' ==> n == 0 && |s| == 1
    decreases n
  {
    if n < 10 then [DigitChar(n)] else DecimalString(n / 10) + [DigitChar(n % 10)]
  }

  /** The last two characters are the units and the tens digit. */
  lemma DecimalStringLastDigits(n: nat)
    ensures var s := DecimalString(n);
      && s[|s| - 1] == DigitChar(n % 10)
      && (n >= 10 ==> |s| >= 2 && s[|s| - 2] == DigitChar(n / 10 % 10))
  {
    if n >= 10 {
      var s := DecimalString(n / 10);
      assert s[|s| - 1] == DigitChar(n / 10 % 10) by {
        DecimalStringLastDigits(n / 10);
      }
    }
  }

  /** The number a string of decimal digits denotes. */
  function Value(s: string): int
    decreases |s|
  {
    if s == [] then 0 else Value(s[..|s| - 1]) * 10 + DigitValue(s[|s| - 1])
  }

  /** Reading the digits back gives the number. */
  lemma {:induction false} DecimalRoundTrip(n: nat)
    ensures Value(DecimalString(n)) == n
    decreases n
  {
    if n >= 10 {
      var s := DecimalString(n);
      DecimalRoundTrip(n / 10);
      assert s[..|s| - 1] == DecimalString(n / 10);
    }
  }

  /** `s.slice(-k)`: the last `k` characters, or all of `s` when it is shorter. */
  function SliceLast(s: string, k: nat): (r: string)
    ensures |r| == if |s| < k then |s| else k
    ensures r == s[|s| - |r|..]
  {
    if |s| < k then s else s[|s| - k..]
  }

  /** `("0" + n).slice(-2)`: two characters, the padded number's last two. */
  function PadTwo(n: nat): (r: string)
    ensures |r| == 2
  {
    SliceLast("0" + DecimalString(n), 2)
  }

  /** The padded string is the tens digit (0 below ten) and the units digit. */
  lemma PadTwoDigits(n: nat)
    ensures PadTwo(n)[0] == DigitChar(n / 10 % 10) && PadTwo(n)[1] == DigitChar(n % 10)
  {
    var digits := DecimalString(n);
    var padded := "0" + digits;
    DecimalStringLastDigits(n);
    assert padded[|padded| - 1] == digits[|digits| - 1];
    if n < 10 {
      assert n / 10 % 10 == 0 && |digits| == 1;
    } else {
      assert padded[|padded| - 2] == digits[|digits| - 2];
    }
  }

  /** Below 100 the padding loses nothing. */
  lemma PadTwoRoundTrip(n: nat)
    requires n < 100
    ensures Value(PadTwo(n)) == n
  {
    var r := PadTwo(n);
    PadTwoDigits(n);
    assert r[..1][..0] == [];
    assert Value(r[..1]) == n / 10;
  }

  /** The query date from `getFullYear()`, `getMonth()` (0 for January) and
      `getDate()`: the year's digits, a dash, the padded month, a dash, the
      padded day. The year reads back as given, and so do month and day
      below 100, which every calendar date is. */
  function CreatedDate(year: nat, monthIndex: nat, day: nat): (r: string)
    ensures var y := |DecimalString(year)|;
      && |r| == y + 6 && r[y] == '-' && r[y + 3] == '-'
      && r[..y] == DecimalString(year) && r[y + 1..y + 3] == PadTwo(monthIndex + 1)
      && r[y + 4..] == PadTwo(day)
      && Value(r[..y]) == year
      && (monthIndex + 1 < 100 ==> Value(r[y + 1..y + 3]) == monthIndex + 1)
      && (day < 100 ==> Value(r[y + 4..]) == day)
  {
    var ys, m, d := DecimalString(year), PadTwo(monthIndex + 1), PadTwo(day);
    DecimalRoundTrip(year);
    PadTwoReadsBack(monthIndex + 1);
    PadTwoReadsBack(day);
    DashJoined(ys, m, d, year, monthIndex + 1, day);
    ys + "-" + m + "-" + d
  }

  lemma PadTwoReadsBack(n: nat)
    ensures n < 100 ==> Value(PadTwo(n)) == n
  {
    if n < 100 {
      PadTwoRoundTrip(n);
    }
  }

  /** Where the fields of a dash-joined date sit, and that each reads back
      as it did on its own. */
  lemma DashJoined(ys: string, m: string, d: string, year: int, month: int, day: int)
    requires |m| == 2 && |d| == 2
    requires Value(ys) == year
    requires month < 100 ==> Value(m) == month
    requires day < 100 ==> Value(d) == day
    ensures var y, r := |ys|, ys + "-" + m + "-" + d;
      && |r| == y + 6 && r[y] == '-' && r[y + 3] == '-'
      && r[..y] == ys && r[y + 1..y + 3] == m && r[y + 4..] == d
      && Value(r[..y]) == year
      && (month < 100 ==> Value(r[y + 1..y + 3]) == month)
      && (day < 100 ==> Value(r[y + 4..]) == day)
  {
    var tail := "-" + m + "-" + d;
    assert ys + "-" + m + "-" + d == ys + tail;
    assert tail[1..3] == m && tail[4..] == d;
    assert (ys + tail)[|ys| + 1..|ys| + 3] == tail[1..3];
    assert (ys + tail)[|ys| + 4..] == tail[4..];
  }
}
