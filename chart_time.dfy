/** The two date strings of the quote route: the provider's `YYYYMMDD` and
    the chart's `YYYY-MM-DD`, and the order the chart sorts them in. */
module ChartTime {
  import opened JsString
  import opened JsNumber

  /** `${dt.slice(0, 4)}-${dt.slice(4, 6)}-${dt.slice(6, 8)}`: the chart time
      of a provider date. Slicing clamps, so a short `dt` gives a short time
      and characters past the eighth are dropped. */
  function FormatTime(dt: string): (t: string)
    ensures |t| == 2 + (if |dt| < 8 then |dt| else 8)
    ensures |dt| >= 8 ==> t[4] == '-' && t[7] == '-'
    ensures |dt| >= 8 ==> t[..4] == dt[..4] && t[5..7] == dt[4..6] && t[8..] == dt[6..8]
  {
    Slice(dt, 0, 4) + "-" + Slice(dt, 4, 6) + "-" + Slice(dt, 6, 8)
  }

  /** `iso.slice(0, 10).replace(/-/g, "")`: the provider's base date from an
      ISO-8601 timestamp. */
  function BaseDate(iso: string): string
  {
    RemoveDashes(Slice(iso, 0, 10))
  }

  /** A provider date: eight decimal digits, `YYYYMMDD`. */
  predicate IsCompactDate(dt: string)
  {
    |dt| == 8 && AllDigits(dt, 10)
  }

  /** A chart time: `YYYY-MM-DD` with decimal digits. */
  predicate IsChartTime(t: string)
  {
    && |t| == 10 && t[4] == '-' && t[7] == '-'
    && AllDigits(t[..4], 10) && AllDigits(t[5..7], 10) && AllDigits(t[8..], 10)
  }

  /** What `Date.prototype.toISOString` starts with: `YYYY-MM-DD`, then the
      time of day. */
  predicate IsIsoTimestamp(iso: string)
  {
    |iso| >= 10 && IsChartTime(iso[..10])
  }

  // ---------------------------------------------------------------------
  // Round trips between the two date forms

  lemma NoDashInDigits(s: string)
    requires AllDigits(s, 10)
    ensures '-' !in s
  {
  }

  /** Reformatting a provider date and deleting the dashes gives the date
      back: "20250115" becomes "2025-01-15" and back. */
  lemma FormatTimeRoundTrip(dt: string)
    requires |dt| == 8 && '-' !in dt
    ensures RemoveDashes(FormatTime(dt)) == dt
  {
    var y, m, d := dt[..4], dt[4..6], dt[6..];
    assert FormatTime(dt) == y + "-" + m + "-" + d;
    assert '-' !in y && '-' !in m && '-' !in d by {
      assert forall c :: c in y || c in m || c in d ==> c in dt;
    }
    RemoveDashesOfParts(y, m, d);
    assert y + m + d == dt;
  }

  /** A provider date of eight digits becomes a well-formed chart time. */
  lemma FormatTimeWellFormed(dt: string)
    requires IsCompactDate(dt)
    ensures IsChartTime(FormatTime(dt))
  {
    var t := FormatTime(dt);
    assert t[..4] == dt[..4] && t[5..7] == dt[4..6] && t[8..] == dt[6..8];
  }

  /** The other direction: a chart time, its dashes deleted, is eight
      digits that reformat to the chart time. */
  lemma ChartTimeRoundTrip(t: string)
    requires IsChartTime(t)
    ensures RemoveDashes(t) == t[..4] + t[5..7] + t[8..]
    ensures IsCompactDate(RemoveDashes(t))
    ensures FormatTime(RemoveDashes(t)) == t
  {
    var y, m, d := t[..4], t[5..7], t[8..];
    assert t == y + "-" + m + "-" + d;
    NoDashInDigits(y);
    NoDashInDigits(m);
    NoDashInDigits(d);
    RemoveDashesOfParts(y, m, d);
    var dt := y + m + d;
    assert dt[..4] == y && dt[4..6] == m && dt[6..8] == d;
    assert FormatTime(dt) == y + "-" + m + "-" + d;
  }

  /** The base date of a timestamp `YYYY-MM-DDT...` is its date as eight
      digits `YYYYMMDD`, and reformatting it gives the timestamp's date. */
  lemma BaseDateOfTimestamp(iso: string)
    requires IsIsoTimestamp(iso)
    ensures IsCompactDate(BaseDate(iso))
    ensures BaseDate(iso) == iso[..4] + iso[5..7] + iso[8..10]
    ensures FormatTime(BaseDate(iso)) == iso[..10]
  {
    var t := iso[..10];
    assert Slice(iso, 0, 10) == t;
    ChartTimeRoundTrip(t);
    assert t[..4] == iso[..4] && t[5..7] == iso[5..7] && t[8..] == iso[8..10];
  }

  lemma ExampleFormatTime()
    ensures FormatTime("20250115") == "2025-01-15"
  {
    var dt := "20250115";
    assert Slice(dt, 0, 4) == "2025" && Slice(dt, 4, 6) == "01" && Slice(dt, 6, 8) == "15";
  }

  // ---------------------------------------------------------------------
  // String order of chart times is calendar order

  /** A calendar date as three numbers. */
  datatype Date = Date(year: nat, month: nat, day: nat)

  /** The date a well-formed chart time names. */
  function DateOf(t: string): Date
    requires IsChartTime(t)
  {
    Date(Value(t[..4], 10), Value(t[5..7], 10), Value(t[8..], 10))
  }

  /** `a` is an earlier day than `b`. */
  predicate Earlier(a: Date, b: Date)
  {
    || a.year < b.year
    || (a.year == b.year && a.month < b.month)
    || (a.year == b.year && a.month == b.month && a.day < b.day)
  }

  lemma {:induction false} DigitAtMost(c: char, e: char)
    requires DigitValue(c) < 10 && DigitValue(e) < 10 && c < e
    ensures DigitValue(c) < DigitValue(e)
  {
  }

  /** Two digit strings of the same length compare as strings exactly as
      the numbers they denote compare. */
  lemma {:induction false} DigitsOrder(a: string, b: string)
    requires |a| == |b| && AllDigits(a, 10) && AllDigits(b, 10)
    ensures Less(a, b) <==> Value(a, 10) < Value(b, 10)
  {
    if |a| > 0 {
      DigitsOrder(a[1..], b[1..]);
      ValueBound(a[1..], 10);
      ValueBound(b[1..], 10);
      var p := Pow(10, |a| - 1);
      var da, db := DigitValue(a[0]), DigitValue(b[0]);
      assert Value(a, 10) == da * p + Value(a[1..], 10);
      assert Value(b, 10) == db * p + Value(b[1..], 10);
      if a[0] < b[0] {
        DigitAtMost(a[0], b[0]);
        LeadingDigitDecides(da, db, p, Value(a[1..], 10), Value(b[1..], 10));
      } else if b[0] < a[0] {
        DigitAtMost(b[0], a[0]);
        LeadingDigitDecides(db, da, p, Value(b[1..], 10), Value(a[1..], 10));
      }
    }
  }

  /** Two digit strings of the same length are equal exactly when they
      denote the same number. */
  lemma DigitsEqual(a: string, b: string)
    requires |a| == |b| && AllDigits(a, 10) && AllDigits(b, 10)
    ensures a == b <==> Value(a, 10) == Value(b, 10)
  {
    DigitsOrder(a, b);
    DigitsOrder(b, a);
    LessTrichotomous(a, b);
  }

  /** Comparing `y1-rest1` with `y2-rest2` where both parts have equal
      widths. */
  lemma LessAtDash(y1: string, r1: string, y2: string, r2: string)
    requires |y1| == |y2|
    ensures Less(y1 + ("-" + r1), y2 + ("-" + r2)) <==> Less(y1, y2) || (y1 == y2 && Less(r1, r2))
  {
    LessAppend(y1, "-" + r1, y2, "-" + r2);
    LessAppend("-", r1, "-", r2);
    LessIrreflexive("-");
  }

  /** For well-formed chart times the string order the sort uses is the
      calendar order, and equal strings are the same day. */
  lemma TimeOrderIsChronological(t1: string, t2: string)
    requires IsChartTime(t1) && IsChartTime(t2)
    ensures Less(t1, t2) <==> Earlier(DateOf(t1), DateOf(t2))
    ensures t1 == t2 <==> DateOf(t1) == DateOf(t2)
  {
    assert t1 == t1[..4] + ("-" + (t1[5..7] + ("-" + t1[8..])));
    assert t2 == t2[..4] + ("-" + (t2[5..7] + ("-" + t2[8..])));
    var y1, m1, d1 := t1[..4], t1[5..7], t1[8..];
    var y2, m2, d2 := t2[..4], t2[5..7], t2[8..];
    LessAtDash(y1, m1 + ("-" + d1), y2, m2 + ("-" + d2));
    LessAtDash(m1, d1, m2, d2);
    DigitsOrder(y1, y2);
    DigitsOrder(m1, m2);
    DigitsOrder(d1, d2);
    DigitsEqual(y1, y2);
    DigitsEqual(m1, m2);
    DigitsEqual(d1, d2);
  }
}
