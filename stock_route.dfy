/** The quote route, `GET /api/stock?code=<ticker>`: it asks the brokerage
    for the daily candles of a ticker, turns each provider record into a
    chart point, sorts the points by date and returns them; on any failure
    it returns one fixed placeholder point instead. */
module StockRoute {
  import opened StockTypes
  import opened JsString
  import opened JsNumber
  import opened ChartTime

  // ---------------------------------------------------------------------
  // The request

  /** The ticker asked for when the query names none (Samsung Electronics). */
  const DefaultCode: string := "005930"

  /** `searchParams.get('code') || "005930"`: an absent parameter (`None`)
      and an empty one are both falsy and give the default ticker. */
  function TickerCode(param: Option<string>): (code: string)
    ensures code != ""
    ensures param.Some? && param.value != "" ==> code == param.value
    ensures param == None || param == Some("") ==> code == DefaultCode
  {
    match param
    case Some(c) => if c != "" then c else DefaultCode
    case None => DefaultCode
  }

  /** The body of the chart request (`ka10081`): the ticker, the base date
      and "1", which asks for prices adjusted for splits. */
  datatype ChartRequest = ChartRequest(stk_cd: string, base_dt: string, upd_stkpc_tp: string)

  /** The chart request the route sends for a query parameter and the
      current time given as an ISO-8601 timestamp. */
  function RequestFor(param: Option<string>, isoNow: string): (req: ChartRequest)
    ensures req.stk_cd == TickerCode(param) && req.upd_stkpc_tp == "1"
    ensures IsIsoTimestamp(isoNow) ==> IsCompactDate(req.base_dt) && FormatTime(req.base_dt) == isoNow[..10]
  {
    BaseDateIfTimestamp(isoNow);
    ChartRequest(TickerCode(param), BaseDate(isoNow), "1")
  }

  lemma BaseDateIfTimestamp(iso: string)
    ensures IsIsoTimestamp(iso) ==> IsCompactDate(BaseDate(iso)) && FormatTime(BaseDate(iso)) == iso[..10]
  {
    if IsIsoTimestamp(iso) {
      BaseDateOfTimestamp(iso);
    }
  }

  // ---------------------------------------------------------------------
  // The provider's reply

  /** The `stk_dt_pole_chart_qry` field of the chart reply: absent or falsy
      (`undefined`, `null`, ...), present but not an array, or an array of
      records. */
  datatype ChartField = Missing | NotArray | RecordArray(items: seq<RawRecord>)

  /** The outcome of the two provider calls: a failure of either (network,
      rejected credentials, a non-2xx status), or the chart reply's field. */
  datatype ProviderReply = Failed | Replied(field: ChartField)

  /** The records to transform, or `None` where the route throws: a failed
      call, or a field that is missing or not an array. An empty array is
      truthy and passes. */
  function Validate(reply: ProviderReply): (records: Option<seq<RawRecord>>)
    ensures records.Some? <==> reply.Replied? && reply.field.RecordArray?
    ensures records.Some? ==> records.value == reply.field.items
  {
    match reply
    case Failed => None
    case Replied(field) =>
      match field
      case RecordArray(items) => Some(items)
      case _ => None
  }

  // ---------------------------------------------------------------------
  // One record, one point

  /** The object literal inside `rawData.map`: the date reformatted and the
      four prices parsed with `parseInt`. */
  function ToChartPoint(item: RawRecord): ChartPoint
  {
    ChartPoint(
      FormatTime(item.dt),
      ParseInt(item.open_pric),
      ParseInt(item.high_pric),
      ParseInt(item.low_pric),
      ParseInt(item.cur_prc))
  }

  /** A provider record dated `YYYYMMDD` becomes a point dated `YYYY-MM-DD`
      on the same calendar day, from which the provider date comes back by
      deleting the dashes. */
  lemma ToChartPointKeepsDate(item: RawRecord)
    requires IsCompactDate(item.dt)
    ensures IsChartTime(ToChartPoint(item).time)
    ensures RemoveDashes(ToChartPoint(item).time) == item.dt
    ensures DateOf(ToChartPoint(item).time)
         == Date(Value(item.dt[..4], 10), Value(item.dt[4..6], 10), Value(item.dt[6..], 10))
  {
    var t := ToChartPoint(item).time;
    FormatTimeWellFormed(item.dt);
    NoDashInDigits(item.dt);
    FormatTimeRoundTrip(item.dt);
    assert t[..4] == item.dt[..4] && t[5..7] == item.dt[4..6] && t[8..] == item.dt[6..8];
    assert item.dt[6..8] == item.dt[6..];
  }

  /** A price written as `sign digits.fraction` becomes the number truncated
      toward zero; there is no range check, so "0" and "-1200" pass through. */
  lemma ToChartPointTruncatesClose(item: RawRecord, sign: string, d: string, fraction: string)
    requires sign == "" || sign == "+" || sign == "-"
    requires |d| > 0 && AllDigits(d, 10) && AllDigits(fraction, 10)
    requires item.cur_prc == sign + d + "." + fraction
    ensures ToChartPoint(item).close == Some(Truncate(DecimalNumber(sign == "-", d, fraction)))
    ensures ToChartPoint(item).close == Some(Signed(sign, Value(d, 10)))
  {
    ParseTruncates(sign, d, fraction);
    ParseFractional(sign, d, fraction);
  }

  /** `rawData.map(...)`: one point per record, in the records' order. */
  function MapRecords(items: seq<RawRecord>): (points: seq<ChartPoint>)
    ensures |points| == |items|
    ensures forall i :: 0 <= i < |items| ==> points[i] == ToChartPoint(items[i])
  {
    if items == [] then [] else [ToChartPoint(items[0])] + MapRecords(items[1..])
  }

  // ---------------------------------------------------------------------
  // The sort

  /** The comparator `(a, b) => (a.time > b.time ? 1 : -1)`. */
  function Compare(a: ChartPoint, b: ChartPoint): int
  {
    if Less(b.time, a.time) then 1 else -1
  }

  /** The comparator never answers 0: on distinct times it is consistent
      (swapping the arguments flips the answer), while on equal times it
      answers -1 both ways, so it does not define the order of points that
      share a date. */
  lemma CompareConsistency(a: ChartPoint, b: ChartPoint)
    ensures Compare(a, b) == 1 || Compare(a, b) == -1
    ensures a.time != b.time ==> Compare(a, b) == -Compare(b, a)
    ensures a.time == b.time ==> Compare(a, b) == -1 && Compare(b, a) == -1
  {
    LessIrreflexive(a.time);
    LessAsymmetric(a.time, b.time);
    LessTrichotomous(a.time, b.time);
  }

  /** No later point has an earlier time. */
  predicate SortedByTime(s: seq<ChartPoint>)
  {
    forall p, q :: 0 <= p < q < |s| ==> NotAfter(s[p].time, s[q].time)
  }

  /** Midway through inserting the element at `i` into the sorted prefix:
      it now sits at `j`, every other pair up to `i` is in order, and it is
      strictly earlier than everything it has moved past. */
  ghost predicate Inserting(s: seq<ChartPoint>, i: nat, j: nat)
  {
    && j <= i < |s|
    && (forall p, q :: 0 <= p < q <= i && q != j ==> NotAfter(s[p].time, s[q].time))
    && (forall q :: j < q <= i ==> Less(s[j].time, s[q].time))
  }

  /** Swapping the moving element one place down keeps the insertion going. */
  lemma SwapDownKeepsInserting(s: seq<ChartPoint>, i: nat, j: nat)
    requires Inserting(s, i, j) && 0 < j && Less(s[j].time, s[j - 1].time)
    ensures Inserting(s[j - 1 := s[j]][j := s[j - 1]], i, j - 1)
  {
    var s' := s[j - 1 := s[j]][j := s[j - 1]];
    LessAsymmetric(s[j].time, s[j - 1].time);
    forall q | j <= q <= i
      ensures NotAfter(s'[j - 1].time, s'[q].time)
    {
      LessAsymmetric(s'[j - 1].time, s'[q].time);
    }
  }

  /** Once the moving element is not earlier than its left neighbour, the
      prefix up to `i` is sorted. */
  lemma InsertionDone(s: seq<ChartPoint>, i: nat, j: nat)
    requires Inserting(s, i, j)
    requires j == 0 || NotAfter(s[j - 1].time, s[j].time)
    ensures SortedByTime(s[..i + 1])
  {
    forall p | 0 <= p < j
      ensures NotAfter(s[p].time, s[j].time)
    {
      if p < j - 1 {
        NotAfterTransitive(s[p].time, s[j - 1].time, s[j].time);
      }
    }
    forall q | j < q <= i
      ensures NotAfter(s[j].time, s[q].time)
    {
      LessAsymmetric(s[j].time, s[q].time);
    }
  }

  /** `chartData.sort(...)`: reorders the points in place so that their
      times ascend, keeping every point. */
  method SortByTime(a: array<ChartPoint>)
    modifies a
    ensures SortedByTime(a[..])
    ensures multiset(a[..]) == multiset(old(a[..]))
  {
    var i := 0;
    while i < a.Length
      invariant 0 <= i <= a.Length
      invariant SortedByTime(a[..i])
      invariant multiset(a[..]) == multiset(old(a[..]))
    {
      var j := i;
      while j > 0 && Compare(a[j - 1], a[j]) == 1
        invariant Inserting(a[..], i, j)
        invariant multiset(a[..]) == multiset(old(a[..]))
      {
        SwapDownKeepsInserting(a[..], i, j);
        a[j - 1], a[j] := a[j], a[j - 1];
        j := j - 1;
      }
      InsertionDone(a[..], i, j);
      assert a[..][..i + 1] == a[..i + 1];
      i := i + 1;
    }
    assert a[..a.Length] == a[..];
  }

  /** No two points share a date. */
  predicate DistinctTimes(s: seq<ChartPoint>)
  {
    forall p, q :: 0 <= p < q < |s| ==> s[p].time != s[q].time
  }

  lemma SortedTail(s: seq<ChartPoint>)
    requires SortedByTime(s) && |s| > 0
    ensures SortedByTime(s[1..])
  {
    forall p, q | 0 <= p < q < |s| - 1
      ensures NotAfter(s[1..][p].time, s[1..][q].time)
    {
      assert s[1..][p] == s[p + 1] && s[1..][q] == s[q + 1];
    }
  }

  /** Two sorted arrangements of the same non-empty points with distinct
      dates start with the same point. */
  lemma SortedHeadsAgree(s: seq<ChartPoint>, t: seq<ChartPoint>)
    requires SortedByTime(s) && SortedByTime(t)
    requires multiset(s) == multiset(t)
    requires DistinctTimes(s) && |s| > 0
    ensures |t| == |s| && t[0] == s[0]
  {
    assert |multiset(s)| == |s| && |multiset(t)| == |t|;
    assert s[0] in multiset(t);
    var k :| 0 <= k < |t| && t[k] == s[0];
    assert t[0] in multiset(s);
    var m :| 0 <= m < |s| && s[m] == t[0];
    assert NotAfter(s[0].time, t[0].time) by {
      if m == 0 {
        LessIrreflexive(s[0].time);
      }
    }
    assert NotAfter(t[0].time, s[0].time) by {
      if k == 0 {
        LessIrreflexive(t[0].time);
      }
    }
    NotAfterAntisymmetric(s[0].time, t[0].time);
    assert m == 0;
  }

  /** Two sorted arrangements of the same points whose dates are all
      different are the same sequence: when the provider sends one record
      per day, the order the sort chooses is the only one. */
  lemma {:induction false} SortedPermutationUnique(s: seq<ChartPoint>, t: seq<ChartPoint>)
    requires SortedByTime(s) && SortedByTime(t)
    requires multiset(s) == multiset(t)
    requires DistinctTimes(s)
    ensures s == t
  {
    if |s| == 0 {
      assert |multiset(t)| == |t|;
    } else {
      SortedHeadsAgree(s, t);
      assert s == [s[0]] + s[1..] && t == [t[0]] + t[1..];
      assert multiset(s[1..]) == multiset(s) - multiset{s[0]};
      assert multiset(t[1..]) == multiset(t) - multiset{t[0]};
      SortedTail(s);
      SortedTail(t);
      DistinctTail(s);
      SortedPermutationUnique(s[1..], t[1..]);
    }
  }

  lemma DistinctTail(s: seq<ChartPoint>)
    requires DistinctTimes(s) && |s| > 0
    ensures DistinctTimes(s[1..])
  {
    forall p, q | 0 <= p < q < |s| - 1
      ensures s[1..][p].time != s[1..][q].time
    {
      assert s[1..][p] == s[p + 1] && s[1..][q] == s[q + 1];
    }
  }

  /** In a sorted response of well-formed chart times, no point falls on
      an earlier day than a point before it. */
  lemma SortedIsChronological(s: seq<ChartPoint>, p: nat, q: nat)
    requires SortedByTime(s)
    requires p < q < |s| && IsChartTime(s[p].time) && IsChartTime(s[q].time)
    ensures !Earlier(DateOf(s[q].time), DateOf(s[p].time))
  {
    TimeOrderIsChronological(s[q].time, s[p].time);
  }

  // ---------------------------------------------------------------------
  // The handler

  /** The point returned, on its own, whenever anything fails. */
  const Fallback: ChartPoint := ChartPoint("2025-01-01", Some(50000), Some(51000), Some(49000), Some(50500))

  /** `GET`: build the request from the query parameter and the current
      time, hand it to the provider, validate the reply, map the records to
      points and sort them; on any failure answer the placeholder point. */
  method Get(param: Option<string>, isoNow: string, provider: ChartRequest -> ProviderReply)
    returns (points: seq<ChartPoint>)
    ensures Validate(provider(RequestFor(param, isoNow))).None? ==> points == [Fallback]
    ensures Validate(provider(RequestFor(param, isoNow))).Some? ==>
      && SortedByTime(points)
      && multiset(points) == multiset(MapRecords(Validate(provider(RequestFor(param, isoNow))).value))
      && |points| == |Validate(provider(RequestFor(param, isoNow))).value|
    ensures points == [] <==> provider(RequestFor(param, isoNow)) == Replied(RecordArray([]))
  {
    var code := TickerCode(param);
    var baseDate := BaseDate(isoNow);
    var reply := provider(ChartRequest(code, baseDate, "1"));
    var rawData := Validate(reply);
    if rawData.None? {
      points := [Fallback];
      return;
    }
    var mapped := MapRecords(rawData.value);
    var chartData := new ChartPoint[|mapped|](i requires 0 <= i < |mapped| => mapped[i]);
    assert chartData[..] == mapped;
    SortByTime(chartData);
    points := chartData[..];
    assert |multiset(points)| == |points| && |multiset(mapped)| == |mapped|;
  }

  // ---------------------------------------------------------------------
  // A worked scenario

  lemma SecondBeforeThird()
    ensures Less("2025-01-02", "2025-01-03")
  {
    var prefix, two, three := "2025-01-0", "2", "3";
    LessAppend(prefix, two, prefix, three);
    LessIrreflexive(prefix);
    assert prefix + two == "2025-01-02" && prefix + three == "2025-01-03";
  }

  lemma TimeOfJanuaryThird(r: RawRecord)
    requires r.dt == "20250103"
    ensures ToChartPoint(r).time == "2025-01-03"
  {
    assert Slice(r.dt, 0, 4) == "2025" && Slice(r.dt, 4, 6) == "01" && Slice(r.dt, 6, 8) == "03";
  }

  lemma TimeOfJanuarySecond(r: RawRecord)
    requires r.dt == "20250102"
    ensures ToChartPoint(r).time == "2025-01-02"
  {
    assert Slice(r.dt, 0, 4) == "2025" && Slice(r.dt, 4, 6) == "01" && Slice(r.dt, 6, 8) == "02";
  }

  /** Two points, the first dated strictly earlier, are sorted and have
      distinct dates. */
  lemma PairInOrder(p2: ChartPoint, p3: ChartPoint)
    requires Less(p2.time, p3.time)
    ensures SortedByTime([p2, p3]) && DistinctTimes([p2, p3])
  {
    LessAsymmetric(p2.time, p3.time);
    LessIrreflexive(p2.time);
  }

  /** A sorted arrangement of two points dated in reverse order puts the
      earlier one first. */
  lemma ReversedPairSorts(p3: ChartPoint, p2: ChartPoint, points: seq<ChartPoint>)
    requires Less(p2.time, p3.time)
    requires SortedByTime(points)
    requires multiset(points) == multiset([p3, p2])
    ensures points == [p2, p3]
  {
    PairInOrder(p2, p3);
    assert multiset([p3, p2]) == multiset([p2, p3]);
    SortedPermutationUnique([p2, p3], points);
  }

  lemma MapTwo(r3: RawRecord, r2: RawRecord)
    ensures MapRecords([r3, r2]) == [ToChartPoint(r3), ToChartPoint(r2)]
  {
  }

  /** Two records sent newest first, dated 2025-01-03 and 2025-01-02, come
      back oldest first, whatever their prices. */
  lemma TwoDaysComeBackInOrder(r3: RawRecord, r2: RawRecord, points: seq<ChartPoint>)
    requires r3.dt == "20250103" && r2.dt == "20250102"
    requires SortedByTime(points)
    requires multiset(points) == multiset(MapRecords([r3, r2]))
    ensures points == [ToChartPoint(r2), ToChartPoint(r3)]
    ensures points[0].time == "2025-01-02" && points[1].time == "2025-01-03"
  {
    TimeOfJanuaryThird(r3);
    TimeOfJanuarySecond(r2);
    SecondBeforeThird();
    MapTwo(r3, r2);
    ReversedPairSorts(ToChartPoint(r3), ToChartPoint(r2), points);
  }
}
