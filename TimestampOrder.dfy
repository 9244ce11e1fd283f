/**
 * The parsed instants of two well-formed timestamps compare as their texts
 * do: the layout is fixed-width and most significant field first, and the
 * calendar arithmetic is strictly increasing in the date and time fields.
 */
module TimestampOrder {
  import opened Wrappers
  import opened Timestamps
  import opened Order

  /** Strictly before in Go's string order. */
  predicate Lt(x: string, y: string) {
    x != y && LessEq(x, y)
  }

  lemma {:induction false} LtConcat(x1: string, y1: string, x2: string, y2: string)
    requires |x1| == |x2|
    ensures Lt(x1 + y1, x2 + y2) <==> Lt(x1, x2) || (x1 == x2 && Lt(y1, y2))
    ensures x1 + y1 == x2 + y2 <==> x1 == x2 && y1 == y2
  {
    if x1 + y1 == x2 + y2 {
      assert x1 == (x1 + y1)[..|x1|] && x2 == (x2 + y2)[..|x1|];
      assert y1 == (x1 + y1)[|x1|..] && y2 == (x2 + y2)[|x1|..];
    }
    if x1 == [] {
      assert x1 + y1 == y1 && x2 + y2 == y2;
    } else {
      assert (x1 + y1)[1..] == x1[1..] + y1;
      assert (x2 + y2)[1..] == x2[1..] + y2;
      LtConcat(x1[1..], y1, x2[1..], y2);
      if x1[0] == x2[0] {
        assert x1 == [x1[0]] + x1[1..] && x2 == [x2[0]] + x2[1..];
      }
    }
  }

  function DigitValue(c: char): int {
    c as int - '0' as int
  }

  /** Equal-width digit strings compare as text exactly as their values compare. */
  lemma {:induction false} DigitsOrder(x: string, y: string)
    requires |x| == |y| && Digits(x).Some? && Digits(y).Some?
    ensures Digits(x).value < Digits(y).value <==> Lt(x, y)
    ensures Digits(x).value == Digits(y).value <==> x == y
  {
    if x != [] {
      var n := |x| - 1;
      assert x == x[..n] + [x[n]] && y == y[..n] + [y[n]];
      assert Digits(x[..n]).Some? && Digits(y[..n]).Some?;
      DigitsOrder(x[..n], y[..n]);
      LtConcat(x[..n], [x[n]], y[..n], [y[n]]);
      assert IsDigit(x[n]) && IsDigit(y[n]);
      assert Digits(x).value == 10 * Digits(x[..n]).value + DigitValue(x[n]);
      assert Digits(y).value == 10 * Digits(y[..n]).value + DigitValue(y[n]);
      assert Lt([x[n]], [y[n]]) <==> x[n] < y[n] by {
        assert [x[n]][1..] == [] && [y[n]][1..] == [];
      }
    }
  }

  /** Extending two equal-length prefixes by one more field each. */
  lemma PrefixStep(a: string, b: string, k: int, w: int)
    requires |a| == |b| && 0 <= k && 0 <= w && k + w <= |a|
    ensures Lt(a[..k + w], b[..k + w]) <==> Lt(a[..k], b[..k]) || (a[..k] == b[..k] && Lt(a[k..k + w], b[k..k + w]))
    ensures a[..k + w] == b[..k + w] <==> a[..k] == b[..k] && a[k..k + w] == b[k..k + w]
  {
    assert a[..k + w] == a[..k] + a[k..k + w];
    assert b[..k + w] == b[..k] + b[k..k + w];
    LtConcat(a[..k], a[k..k + w], b[..k], b[k..k + w]);
  }

  /** Extending two equal-length prefixes by the same separator. */
  lemma SeparatorStep(a: string, b: string, k: int)
    requires |a| == |b| && 0 <= k < |a| && a[k] == b[k]
    ensures Lt(a[..k + 1], b[..k + 1]) <==> Lt(a[..k], b[..k])
    ensures a[..k + 1] == b[..k + 1] <==> a[..k] == b[..k]
  {
    PrefixStep(a, b, k, 1);
    assert a[k..k + 1] == [a[k]] == b[k..k + 1];
  }

  /** A field of a timestamp: its value, and how two of them compare. */
  lemma FieldStep(a: string, b: string, k: int, w: int)
    requires |a| == |b| && 0 <= k && 0 < w && k + w <= |a|
    requires Digits(a[k..k + w]).Some? && Digits(b[k..k + w]).Some?
    ensures Lt(a[..k + w], b[..k + w]) <==>
      Lt(a[..k], b[..k]) || (a[..k] == b[..k] && Digits(a[k..k + w]).value < Digits(b[k..k + w]).value)
    ensures a[..k + w] == b[..k + w] <==>
      a[..k] == b[..k] && Digits(a[k..k + w]).value == Digits(b[k..k + w]).value
  {
    PrefixStep(a, b, k, w);
    DigitsOrder(a[k..k + w], b[k..k + w]);
  }

  /** Lexicographic order on (year, month, day, hour, minute, second). */
  predicate FieldsBefore(y: int, mo: int, d: int, h: int, mi: int, s: int,
                         y': int, mo': int, d': int, h': int, mi': int, s': int)
  {
    y < y' || (y == y' && (mo < mo' || (mo == mo' && (d < d' || (d == d' &&
      (h < h' || (h == h' && (mi < mi' || (mi == mi' && s < s')))))))))
  }

  /** The text order of two well-formed timestamps is the order of their fields. */
  lemma TextOrderIsFieldOrder(a: string, b: string)
    requires ParseTime(a).Some? && ParseTime(b).Some?
    ensures Lt(a, b) <==> FieldsBefore(
      Digits(a[0..4]).value, Digits(a[5..7]).value, Digits(a[8..10]).value,
      Digits(a[11..13]).value, Digits(a[14..16]).value, Digits(a[17..19]).value,
      Digits(b[0..4]).value, Digits(b[5..7]).value, Digits(b[8..10]).value,
      Digits(b[11..13]).value, Digits(b[14..16]).value, Digits(b[17..19]).value)
    ensures a == b <==>
      && Digits(a[0..4]).value == Digits(b[0..4]).value
      && Digits(a[5..7]).value == Digits(b[5..7]).value
      && Digits(a[8..10]).value == Digits(b[8..10]).value
      && Digits(a[11..13]).value == Digits(b[11..13]).value
      && Digits(a[14..16]).value == Digits(b[14..16]).value
      && Digits(a[17..19]).value == Digits(b[17..19]).value
  {
    assert a[..0] == b[..0];
    FieldStep(a, b, 0, 4);
    SeparatorStep(a, b, 4);
    FieldStep(a, b, 5, 2);
    SeparatorStep(a, b, 7);
    FieldStep(a, b, 8, 2);
    SeparatorStep(a, b, 10);
    FieldStep(a, b, 11, 2);
    SeparatorStep(a, b, 13);
    FieldStep(a, b, 14, 2);
    SeparatorStep(a, b, 16);
    FieldStep(a, b, 17, 2);
    assert a[..19] == a && b[..19] == b;
  }

  function YearLength(year: int): int {
    if IsLeap(year) then 366 else 365
  }

  /** Stepping x by one raises x / k by one exactly when k divides x. */
  lemma DivStep(x: int, k: int)
    requires k == 4 || k == 100 || k == 400
    ensures x / k - (x - 1) / k == if x % k == 0 then 1 else 0
  {
    var q, r := (x - 1) / k, (x - 1) % k;
    assert x - 1 == k * q + r && 0 <= r < k;
    if r == k - 1 {
      assert x == k * (q + 1) + 0;
    } else {
      assert x == k * q + (r + 1);
    }
  }

  lemma DaysBeforeNextYear(year: int)
    ensures DaysBeforeYear(year + 1) == DaysBeforeYear(year) + YearLength(year)
  {
    DivStep(year, 4);
    DivStep(year, 100);
    DivStep(year, 400);
  }

  lemma {:induction false} DaysBeforeLaterYear(year: int, later: int)
    requires year < later
    ensures DaysBeforeYear(year) + YearLength(year) <= DaysBeforeYear(later)
    decreases later - year
  {
    DaysBeforeNextYear(year);
    if year + 1 < later {
      DaysBeforeLaterYear(year + 1, later);
    }
  }

  lemma DaysBeforeLaterMonth(month: int, later: int, year: int)
    requires 1 <= month < later <= 12
    ensures DaysBeforeMonth(month, year) + DaysIn(month, year) <= DaysBeforeMonth(later, year)
  {
  }

  lemma LastMonthEndsYear(year: int)
    ensures DaysBeforeMonth(12, year) + DaysIn(12, year) == YearLength(year)
  {
  }

  /** Days since January 1 of year 1. */
  function DayNumber(year: int, month: int, day: int): int
    requires 1 <= month <= 12
  {
    DaysBeforeYear(year) + DaysBeforeMonth(month, year) + day - 1
  }

  /** Valid dates are numbered in calendar order, each with its own number. */
  lemma DayNumberOrder(y: int, mo: int, d: int, y': int, mo': int, d': int)
    requires 1 <= mo <= 12 && 1 <= d <= DaysIn(mo, y)
    requires 1 <= mo' <= 12 && 1 <= d' <= DaysIn(mo', y')
    ensures DayNumber(y, mo, d) < DayNumber(y', mo', d') <==> y < y' || (y == y' && (mo < mo' || (mo == mo' && d < d')))
    ensures DayNumber(y, mo, d) == DayNumber(y', mo', d') <==> y == y' && mo == mo' && d == d'
  {
    LastMonthEndsYear(y);
    LastMonthEndsYear(y');
    if mo < 12 {
      DaysBeforeLaterMonth(mo, 12, y);
    }
    if mo' < 12 {
      DaysBeforeLaterMonth(mo', 12, y');
    }
    if y < y' {
      DaysBeforeLaterYear(y, y');
    } else if y' < y {
      DaysBeforeLaterYear(y', y);
    } else if mo < mo' {
      DaysBeforeLaterMonth(mo, mo', y);
    } else if mo' < mo {
      DaysBeforeLaterMonth(mo', mo, y);
    }
  }

  /** CivilInstant is strictly increasing in (year, month, day, hour, minute, second). */
  lemma CivilInstantOrder(y: int, mo: int, d: int, h: int, mi: int, s: int,
                          y': int, mo': int, d': int, h': int, mi': int, s': int)
    requires 1 <= mo <= 12 && 1 <= d <= DaysIn(mo, y) && 0 <= h < 24 && 0 <= mi < 60 && 0 <= s < 60
    requires 1 <= mo' <= 12 && 1 <= d' <= DaysIn(mo', y') && 0 <= h' < 24 && 0 <= mi' < 60 && 0 <= s' < 60
    ensures CivilInstant(y, mo, d, h, mi, s) < CivilInstant(y', mo', d', h', mi', s') <==>
      FieldsBefore(y, mo, d, h, mi, s, y', mo', d', h', mi', s')
    ensures CivilInstant(y, mo, d, h, mi, s) == CivilInstant(y', mo', d', h', mi', s') <==>
      y == y' && mo == mo' && d == d' && h == h' && mi == mi' && s == s'
  {
    DayNumberOrder(y, mo, d, y', mo', d');
    var n, n' := DayNumber(y, mo, d), DayNumber(y', mo', d');
    var t, t' := h * 3600 + mi * 60 + s, h' * 3600 + mi' * 60 + s';
    assert CivilInstant(y, mo, d, h, mi, s) == (n * SecondsPerDay + t) * NanosPerSecond;
    assert CivilInstant(y', mo', d', h', mi', s') == (n' * SecondsPerDay + t') * NanosPerSecond;
    assert t < t' <==> h < h' || (h == h' && (mi < mi' || (mi == mi' && s < s')));
    assert t == t' <==> h == h' && mi == mi' && s == s';
  }

  /**
   * Parsing preserves order: of two timestamps in the layout, the earlier
   * text gives the earlier instant, and distinct texts give distinct
   * instants. So comparing NotAfterTime compares the logged NotAfter text.
   */
  lemma ParseTimeOrder(a: string, b: string)
    requires ParseTime(a).Some? && ParseTime(b).Some?
    ensures ParseTime(a).value < ParseTime(b).value <==> a != b && LessEq(a, b)
    ensures ParseTime(a).value == ParseTime(b).value <==> a == b
  {
    TextOrderIsFieldOrder(a, b);
    CivilInstantOrder(
      Digits(a[0..4]).value, Digits(a[5..7]).value, Digits(a[8..10]).value,
      Digits(a[11..13]).value, Digits(a[14..16]).value, Digits(a[17..19]).value,
      Digits(b[0..4]).value, Digits(b[5..7]).value, Digits(b[8..10]).value,
      Digits(b[11..13]).value, Digits(b[14..16]).value, Digits(b[17..19]).value);
  }
}
