/** The two record shapes that cross the quote route's boundary. */
module StockTypes {

  /** A value that may be absent. For a parsed price, `None` stands for
      JavaScript's `NaN`, which the JSON response writes as `null`. */
  datatype Option<+T> = None | Some(value: T)

  /** One daily record as the brokerage returns it (`KiwoomPriceItem`):
      the date as `YYYYMMDD` and the four prices as decimal text. */
  datatype RawRecord = RawRecord(
    dt: string,
    open_pric: string,
    high_pric: string,
    low_pric: string,
    cur_prc: string)

  /** One candle of the chart (`ChartData`): the date as `YYYY-MM-DD` and
      the four prices as numbers (`None` when the text did not parse). */
  datatype ChartPoint = ChartPoint(
    time: string,
    open: Option<int>,
    high: Option<int>,
    low: Option<int>,
    close: Option<int>)
}
