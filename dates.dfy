/**
 * The two date-string conversions of the page: `formatDate`, which builds the
 * provider's day.month.year text from calendar fields, and the date-picker
 * conversion, which splits `YYYY-MM-DD` on '-', reverses the pieces and joins
 * them with '.'. Also the decimal text of integers, as `String(n)` writes it.
 */
module Dates {

  predicate IsDigit(ch: char) {
    '0' <= ch <= '9'
  }

  predicate AllDigits(s: string) {
    forall i :: 0 <= i < |s| ==> IsDigit(s[i])
  }

  function DigitValue(ch: char): (d: nat)
    requires IsDigit(ch)
    ensures d < 10
  {
    (ch as int) - ('0' as int)
  }

  function DigitChar(d: nat): (ch: char)
    requires d < 10
    ensures IsDigit(ch) && DigitValue(ch) == d
  {
    (('0' as int) + d) as char
  }

  /** Decimal text of a natural number: digits only, no leading zero. */
  function NatToString(n: nat): (s: string)
    ensures |s| >= 1 && AllDigits(s)
    ensures |s| == 1 <==> n < 10
    ensures s[0] == '0' ==> n == 0
    decreases n
  {
    if n < 10 then [DigitChar(n)]
    else NatToString(n / 10) + [DigitChar(n % 10)]
  }

  /** The value of a string of decimal digits (the empty string reads as zero). */
  function ParseNat(s: string): nat
    requires AllDigits(s)
    decreases |s|
  {
    if s == [] then 0
    else ParseNat(s[..|s| - 1]) * 10 + DigitValue(s[|s| - 1])
  }

  /** Reading back the decimal text of a natural number gives the number. */
  lemma {:induction false} ParseNatToString(n: nat)
    ensures ParseNat(NatToString(n)) == n
  {
    if n >= 10 {
      var s := NatToString(n);
      assert s[..|s| - 1] == NatToString(n / 10);
      ParseNatToString(n / 10);
    }
  }

  /** Decimal text of an integer, with a leading '-' for negatives. */
  function IntToString(n: int): (s: string)
    ensures |s| >= 1
    ensures s[0] == '-' <==> n < 0
    ensures n >= 0 ==> AllDigits(s)
    ensures n < 0 ==> AllDigits(s[1..])
  {
    if n < 0 then "-" + NatToString(-n) else NatToString(n)
  }

  /** The value of an optionally signed decimal string. */
  function ParseInt(s: string): int
    requires |s| >= 1
    requires if s[0] == '-' then AllDigits(s[1..]) else AllDigits(s)
  {
    if s[0] == '-' then -(ParseNat(s[1..]) as int) else ParseNat(s)
  }

  /** Reading back the decimal text of an integer gives the integer. */
  lemma IntToStringRoundTrip(n: int)
    ensures ParseInt(IntToString(n)) == n
  {
    if n < 0 {
      assert IntToString(n)[1..] == NatToString(-n);
      ParseNatToString(-n);
    } else {
      ParseNatToString(n);
    }
  }

  /** Different integers have different decimal texts. */
  lemma IntToStringInjective(m: int, n: int)
    requires IntToString(m) == IntToString(n)
    ensures m == n
  {
    IntToStringRoundTrip(m);
    IntToStringRoundTrip(n);
  }

  /** `padStart(2, '0')`: left-pad with zeros to at least two characters. */
  function PadStart2(s: string): (r: string)
    ensures |r| == if |s| >= 2 then |s| else 2
    ensures r[|r| - |s|..] == s
    ensures forall i :: 0 <= i < |r| - |s| ==> r[i] == '0'
  {
    if |s| >= 2 then s
    else if |s| == 1 then "0" + s
    else "00"
  }

  /** A number below one hundred as exactly two digits. */
  function TwoDigits(n: nat): string {
    PadStart2(NatToString(n))
  }

  lemma TwoDigitsValue(n: nat)
    requires n < 100
    ensures |TwoDigits(n)| == 2 && AllDigits(TwoDigits(n))
    ensures ParseNat(TwoDigits(n)) == n
  {
    var s := NatToString(n);
    ParseNatToString(n);
    if n >= 10 {
      assert NatToString(n / 10) == [DigitChar(n / 10)];
      assert |s| == 2;
    } else {
      var r := TwoDigits(n);
      assert r == "0" + s;
      assert r[..1] == "0";
      assert ParseNat(r[..1]) == 0 by {
        assert r[..1][..0] == [];
      }
      assert ParseNat(s) == DigitValue(s[0]) by {
        assert s[..0] == [];
      }
    }
  }

  /** The three fields of `a.b.c` with two-character `a` and `b` sit at fixed positions. */
  lemma DottedFields(a: string, b: string, c: string)
    requires |a| == 2 && |b| == 2
    ensures var r := a + "." + b + "." + c;
      |r| == 6 + |c| && r[2] == '.' && r[5] == '.' && r[..2] == a && r[3..5] == b && r[6..] == c
  {
  }

  /**
   * `formatDate`: day and one-based month as two digits, the year as it is,
   * joined by '.'. `month0` is the zero-based month of the date object.
   */
  function FormatDate(day: nat, month0: nat, year: int): (r: string)
    requires 1 <= day <= 31 && month0 <= 11
    ensures |r| >= 7 && r[2] == '.' && r[5] == '.'
    ensures AllDigits(r[..2]) && ParseNat(r[..2]) == day
    ensures AllDigits(r[3..5]) && ParseNat(r[3..5]) == month0 + 1
    ensures r[6..] == IntToString(year) && ParseInt(r[6..]) == year
  {
    var dd, mm, yy := TwoDigits(day), TwoDigits(month0 + 1), IntToString(year);
    TwoDigitsValue(day);
    TwoDigitsValue(month0 + 1);
    IntToStringRoundTrip(year);
    DottedFields(dd, mm, yy);
    dd + "." + mm + "." + yy
  }

  /** `s.split(sep)`: the pieces between separators, at least one. */
  function Split(s: string, sep: char): (parts: seq<string>)
    ensures |parts| >= 1
    ensures forall i :: 0 <= i < |parts| ==> sep !in parts[i]
    decreases |s|
  {
    if s == [] then [""]
    else
      var rest := Split(s[1..], sep);
      if s[0] == sep then [""] + rest
      else [[s[0]] + rest[0]] + rest[1..]
  }

  /** `parts.join(sep)`: starts with the first piece and holds every character of every piece. */
  function Join(parts: seq<string>, sep: char): (r: string)
    ensures |parts| >= 1 ==> |parts[0]| <= |r| && r[..|parts[0]|] == parts[0]
    ensures forall k, ch :: 0 <= k < |parts| && ch in parts[k] ==> ch in r
    decreases |parts|
  {
    if parts == [] then ""
    else if |parts| == 1 then parts[0]
    else parts[0] + [sep] + Join(parts[1..], sep)
  }

  /** `parts.reverse()`. */
  function Reverse<T>(s: seq<T>): (r: seq<T>)
    ensures |r| == |s|
    ensures forall i :: 0 <= i < |s| ==> r[i] == s[|s| - 1 - i]
  {
    if s == [] then [] else Reverse(s[1..]) + [s[0]]
  }

  /** Joining the pieces of a split with the same separator restores the string. */
  lemma {:induction false} JoinSplit(s: string, sep: char)
    ensures Join(Split(s, sep), sep) == s
  {
    if s != [] {
      var rest := Split(s[1..], sep);
      JoinSplit(s[1..], sep);
      if s[0] == sep {
        assert ([""] + rest)[1..] == rest;
      } else {
        var parts := [[s[0]] + rest[0]] + rest[1..];
        if |rest| > 1 {
          assert parts[1..] == rest[1..];
          assert Join(rest, sep) == rest[0] + [sep] + Join(rest[1..], sep);
        }
      }
    }
  }

  /** A string without the separator is a single piece. */
  lemma {:induction false} SplitNone(s: string, sep: char)
    requires sep !in s
    ensures Split(s, sep) == [s]
  {
    if s != [] {
      assert sep !in s[1..];
      SplitNone(s[1..], sep);
      assert [s[0]] + s[1..] == s;
    }
  }

  /** A separator-free prefix followed by a separator splits off as the first piece. */
  lemma {:induction false} SplitAt(a: string, sep: char, b: string)
    requires sep !in a
    ensures Split(a + [sep] + b, sep) == [a] + Split(b, sep)
  {
    var s := a + [sep] + b;
    if a == [] {
      assert s[1..] == b;
    } else {
      assert s[1..] == a[1..] + [sep] + b;
      SplitAt(a[1..], sep, b);
      assert [a[0]] + a[1..] == a;
    }
  }

  /** Splitting a join of separator-free pieces gives the pieces back. */
  lemma {:induction false} SplitJoin(parts: seq<string>, sep: char)
    requires |parts| >= 1
    requires forall i :: 0 <= i < |parts| ==> sep !in parts[i]
    ensures Split(Join(parts, sep), sep) == parts
  {
    if |parts| == 1 {
      SplitNone(parts[0], sep);
    } else {
      SplitJoin(parts[1..], sep);
      SplitAt(parts[0], sep, Join(parts[1..], sep));
      assert [parts[0]] + parts[1..] == parts;
    }
  }

  /**
   * The date-picker conversion: `s.split('-').reverse().join('.')`. A picker
   * date `YYYY-MM-DD` becomes `DD.MM.YYYY`, and in general splitting the
   * result on '.' gives the '-' pieces in reverse order.
   */
  function PickerToProvider(s: string): (r: string)
    ensures IsPickerDate(s) ==> r == s[8..] + "." + s[5..7] + "." + s[..4]
    ensures '.' !in s ==> Split(r, '.') == Reverse(Split(s, '-'))
  {
    var r := Join(Reverse(Split(s, '-')), '.');
    assert IsPickerDate(s) ==> r == s[8..] + "." + s[5..7] + "." + s[..4] by {
      if IsPickerDate(s) {
        PickerDateReversed(s);
      }
    }
    ReversedPieces(s);
    r
  }

  /** A date picker value: four-digit year, two-digit month and day, separated by '-'. */
  predicate IsPickerDate(s: string) {
    && |s| == 10 && s[4] == '-' && s[7] == '-'
    && AllDigits(s[..4]) && AllDigits(s[5..7]) && AllDigits(s[8..])
  }

  /** Split, reverse and join turn a picker date `YYYY-MM-DD` into `DD.MM.YYYY`. */
  lemma PickerDateReversed(s: string)
    requires IsPickerDate(s)
    ensures Join(Reverse(Split(s, '-')), '.') == s[8..] + "." + s[5..7] + "." + s[..4]
  {
    var y, m, d := s[..4], s[5..7], s[8..];
    assert '-' !in y by { assert forall i :: 0 <= i < |y| ==> IsDigit(y[i]); }
    assert '-' !in m by { assert forall i :: 0 <= i < |m| ==> IsDigit(m[i]); }
    assert '-' !in d by { assert forall i :: 0 <= i < |d| ==> IsDigit(d[i]); }
    var tail := m + ['-'] + d;
    assert s == y + ['-'] + tail;
    SplitAt(y, '-', tail);
    SplitAt(m, '-', d);
    SplitNone(d, '-');
    var parts := Split(s, '-');
    assert parts == [y, m, d];
    var rev := Reverse(parts);
    assert rev == [d, m, y];
    assert Join(rev, '.') == d + ['.'] + Join([m, y], '.');
    assert Join([m, y], '.') == m + ['.'] + y;
  }

  /**
   * Split, reverse and join reverse the pieces exactly: splitting the result
   * on '.' gives the '-' pieces in reverse order, when no piece contains a '.'.
   */
  lemma ReversedPieces(s: string)
    ensures '.' !in s ==> Split(Join(Reverse(Split(s, '-')), '.'), '.') == Reverse(Split(s, '-'))
  {
    if '.' !in s {
      var pieces := Split(s, '-');
      var parts := Reverse(pieces);
      JoinSplit(s, '-');
      forall i | 0 <= i < |parts| ensures '.' !in parts[i] {
        var k := |pieces| - 1 - i;
        assert parts[i] == pieces[k];
        assert forall ch :: ch in pieces[k] ==> ch in Join(pieces, '-');
      }
      SplitJoin(parts, '.');
    }
  }
}
