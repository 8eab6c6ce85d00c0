/** The JSON records that travel between the two pages and the API, and the
    progress-row conventions the two pages share. */
module Records {
  import opened Wrappers

  /** The client's `ProgressRow.status` union. */
  datatype Status = NotStarted | InProgress | Done

  /** The string each status is sent as. */
  function StatusName(s: Status): string {
    match s
    case NotStarted => "not_started"
    case InProgress => "in_progress"
    case Done => "done"
  }

  /** A client progress row (`ProgressRow`); `updatedAt` is an opaque timestamp string. */
  datatype Row = Row(status: Status, percent: int, updatedAt: string)

  /** `Partial<ProgressRow>`: each field present or absent. */
  datatype Partial = Partial(status: Option<Status>, percent: Option<int>, updatedAt: Option<string>)

  /** The row both pages assume for an id with no row when they compute an update. */
  function UpdateDefault(now: string): Row {
    Row(InProgress, 0, now)
  }

  /** The row the library page shows for an id with no row. */
  function DisplayDefault(now: string): Row {
    Row(NotStarted, 0, now)
  }

  /** `rows[id] || {in_progress, 0, now}`: the current row an update starts from. */
  function CurrentForUpdate(rows: map<string, Row>, id: string, now: string): (r: Row)
    ensures id in rows ==> r == rows[id]
    ensures id !in rows ==> r.status == InProgress && r.percent == 0
  {
    if id in rows then rows[id] else UpdateDefault(now)
  }

  /** `rows[id] || {not_started, 0, now}`: the row the library page renders. */
  function DisplayRow(rows: map<string, Row>, id: string, now: string): (r: Row)
    ensures id in rows ==> r == rows[id]
    ensures id !in rows ==> r.status == NotStarted && r.percent == 0
  {
    if id in rows then rows[id] else DisplayDefault(now)
  }

  /** `Math.min(100, p + 25)`, the percent both "+25%" buttons send. */
  function Advanced(p: int): (q: int)
    ensures q <= 100
    ensures p <= 75 ==> q == p + 25
    ensures p >= 75 ==> q == 100
    ensures q >= p || p > 100
  {
    if p + 25 < 100 then p + 25 else 100
  }

  /** A JSON `year` value: the library page passes a string (or number) through,
      the video page sends a number. */
  datatype YearValue = YearNumber(n: int) | YearText(text: string)

  /** A saved item as listed by the API and held by the pages (`Item` in the library page). */
  datatype Item = Item(
    id: string,
    title: string,
    author: Option<string>,
    year: Option<YearValue>,
    source: Option<string>,
    url: Option<string>)

  /** A search result as produced by the video search route (`Video` in the video page). */
  datatype Video = Video(
    id: string,
    title: string,
    description: string,
    thumbnail: string,
    channel: string,
    publishedAt: string,
    duration: string,
    url: string,
    source: string)

  /** The outcome of a `fetch` followed by reading one field of the JSON body:
      the request failed, or it came back and the field was present or absent. */
  datatype Response<+T> = NoResponse | Response(field: Option<T>)
}
