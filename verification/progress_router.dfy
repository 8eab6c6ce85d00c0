/** The progress routes (server/app/routers/progress.py): list a session's rows
    and upsert one row. */
module ProgressRouter {
  import opened Wrappers
  import opened Models

  /** The JSON body of an upsert; each field present or absent. `updatedAt`
      may be sent but is never read. */
  datatype ProgressPayload = ProgressPayload(status: Option<string>, percent: Option<int>)

  /** `str(payload.get("status") or "in_progress")`: any non-empty string is
      stored as sent, unvalidated. */
  function StoredStatus(status: Option<string>): (s: string)
    ensures s != ""
    ensures status.Some? && status.value != "" ==> s == status.value
    ensures status.None? || status == Some("") ==> s == DefaultStatus
  {
    if status.Some? && status.value != "" then status.value else DefaultStatus
  }

  /** `max(0, min(100, p))`. */
  function Clamp(p: int): (c: int)
    ensures 0 <= c <= 100
    ensures 0 <= p <= 100 ==> c == p
    ensures p < 0 ==> c == 0
    ensures p > 100 ==> c == 100
  {
    if p < 0 then 0 else if p > 100 then 100 else p
  }

  /** `max(0, min(100, payload.get("percent") or 0))`. */
  function StoredPercent(percent: Option<int>): (p: int)
    ensures 0 <= p <= 100
    ensures percent.None? ==> p == DefaultPercent
    ensures percent.Some? ==> p == Clamp(percent.value)
  {
    Clamp(percent.GetOr(DefaultPercent))
  }

  /** The table after an upsert: the (session, resource) row holds the new
      status, percent and time, whether it existed before or not. */
  function AfterUpsert(rows: map<Key, Progress>, session: string, resource: string,
                       payload: ProgressPayload, now: string): (after: map<Key, Progress>)
    ensures after.Keys == rows.Keys + {Key(session, resource)}
    ensures var row := after[Key(session, resource)];
            && row.sessionId == session && row.resourceId == resource
            && row.status == StoredStatus(payload.status)
            && row.percent == StoredPercent(payload.percent)
            && row.updatedAt == now
    ensures forall k :: k in rows && k != Key(session, resource) ==> after[k] == rows[k]
  {
    rows[Key(session, resource) := Progress(session, resource, StoredStatus(payload.status),
                                            StoredPercent(payload.percent), now)]
  }

  /** One listed row, as the list route returns it under its resource id. */
  datatype ProgressView = ProgressView(status: string, percent: int, updatedAt: string)

  function View(row: Progress): (v: ProgressView)
    ensures v.status == row.status && v.percent == row.percent && v.updatedAt == row.updatedAt
  {
    ProgressView(row.status, row.percent, row.updatedAt)
  }

  /** `list_progress`: the session's rows keyed by resource id. */
  function ListProgress(rows: map<Key, Progress>, session: string): (listed: map<string, ProgressView>)
    ensures forall r :: r in listed <==> Key(session, r) in rows
  {
    map r | r in ResourcesOf(rows, session) :: View(rows[Key(session, r)])
  }

  /** Every stored percent lies in [0, 100]. */
  ghost predicate PercentsBounded(rows: map<Key, Progress>) {
    forall k :: k in rows ==> 0 <= rows[k].percent <= 100
  }

  // ---------------------------------------------------------------------------
  // Properties of the routes
  // ---------------------------------------------------------------------------

  /** After an upsert the pair has one row, holding the defaulted status, the
      clamped percent and the time of the request. */
  lemma UpsertStores(rows: map<Key, Progress>, session: string, resource: string,
                     payload: ProgressPayload, now: string)
    ensures var row := AfterUpsert(rows, session, resource, payload, now)[Key(session, resource)];
            && row.status == (if payload.status.Some? && payload.status.value != "" then payload.status.value else "in_progress")
            && 0 <= row.percent <= 100
            && (payload.percent.Some? && 0 <= payload.percent.value <= 100 ==> row.percent == payload.percent.value)
            && (payload.percent.None? ==> row.percent == 0)
            && row.updatedAt == now
  ensures var row := AfterUpsert(rows, session, resource, payload, now)[Key(session, resource)];
            && row.status == StoredStatus(payload.status)
            && (payload.percent.Some? ==> row.percent == Clamp(payload.percent.value))
  {
  }

  /** Rows of other sessions and other resources are untouched, and no row is
      added under any other pair. */
  lemma UpsertOnlyTouchesItsKey(rows: map<Key, Progress>, session: string, resource: string,
                                payload: ProgressPayload, now: string, k: Key)
    requires k != Key(session, resource)
    ensures k in AfterUpsert(rows, session, resource, payload, now) <==> k in rows
    ensures k in rows ==> AfterUpsert(rows, session, resource, payload, now)[k] == rows[k]
  {
  }

  /** An upsert overwrites rather than duplicates: the table grows by one row at
      most, and not at all when the pair already had a row. */
  lemma UpsertOverwrites(rows: map<Key, Progress>, session: string, resource: string,
                         payload: ProgressPayload, now: string)
    ensures Key(session, resource) in rows ==> |AfterUpsert(rows, session, resource, payload, now)| == |rows|
    ensures Key(session, resource) !in rows ==> |AfterUpsert(rows, session, resource, payload, now)| == |rows| + 1
  {
  }

  /** Repeating an upsert leaves the table as a single upsert at the later time would. */
  lemma UpsertIdempotent(rows: map<Key, Progress>, session: string, resource: string,
                         payload: ProgressPayload, t1: string, t2: string)
    ensures AfterUpsert(AfterUpsert(rows, session, resource, payload, t1), session, resource, payload, t2)
              == AfterUpsert(rows, session, resource, payload, t2)
    ensures var once := AfterUpsert(rows, session, resource, payload, t1)[Key(session, resource)];
            var twice := AfterUpsert(AfterUpsert(rows, session, resource, payload, t1), session, resource, payload, t2)[Key(session, resource)];
            once.status == twice.status && once.percent == twice.percent
  {
  }

  /** Upserts keep every row under its own key and every percent in [0, 100]. */
  lemma UpsertKeepsInvariant(rows: map<Key, Progress>, session: string, resource: string,
                             payload: ProgressPayload, now: string)
    requires ProgressTableKeyed(rows) && PercentsBounded(rows)
    ensures ProgressTableKeyed(AfterUpsert(rows, session, resource, payload, now))
    ensures PercentsBounded(AfterUpsert(rows, session, resource, payload, now))
  {
  }

  /** No width is checked: the stored row fits its columns when the session id,
      the resource id and the status it is given fit. */
  lemma UpsertFitsColumns(rows: map<Key, Progress>, session: string, resource: string,
                          payload: ProgressPayload, now: string)
    requires |session| <= SessionIdWidth && |resource| <= ResourceIdWidth
    requires payload.status.Some? ==> |payload.status.value| <= StatusWidth
    ensures ProgressFitsColumns(AfterUpsert(rows, session, resource, payload, now)[Key(session, resource)])
  {
  }

  /** The list shows the upserted row under its resource id, and other
      sessions' lists are unchanged. */
  lemma UpsertThenList(rows: map<Key, Progress>, session: string, resource: string,
                       payload: ProgressPayload, now: string, other: string)
    requires other != session
    ensures var listed := ListProgress(AfterUpsert(rows, session, resource, payload, now), session);
            resource in listed &&
            listed[resource] == ProgressView(StoredStatus(payload.status), StoredPercent(payload.percent), now)
    ensures ListProgress(AfterUpsert(rows, session, resource, payload, now), other) == ListProgress(rows, other)
  {
    var after := AfterUpsert(rows, session, resource, payload, now);
    assert ResourcesOf(after, other) == ResourcesOf(rows, other);
  }

  /** The list returns only the requesting session's rows. */
  lemma ListShowsOwnRows(rows: map<Key, Progress>, session: string, r: string)
    requires ProgressTableKeyed(rows)
    requires r in ListProgress(rows, session)
    ensures rows[Key(session, r)].sessionId == session && rows[Key(session, r)].resourceId == r
    ensures ListProgress(rows, session)[r] == View(rows[Key(session, r)])
  {
  }

  // ---------------------------------------------------------------------------
  // The table
  // ---------------------------------------------------------------------------

  /** The `progress` table. */
  class ProgressStore {
    var rows: map<Key, Progress>

    ghost predicate Valid()
      reads this
    {
      ProgressTableKeyed(rows) && PercentsBounded(rows)
    }

    constructor ()
      ensures Valid() && rows == map[]
    {
      rows := map[];
    }

    /** `list_progress`. */
    function List(session: string): (listed: map<string, ProgressView>)
      reads this
      requires Valid()
      ensures forall r :: r in listed ==> 0 <= listed[r].percent <= 100
    {
      ListProgress(rows, session)
    }

    /** `upsert_progress`: default and clamp, then update the row in place or add it. */
    method Upsert(session: string, resource: string, payload: ProgressPayload, now: string)
      requires Valid()
      modifies this
      ensures Valid()
      ensures rows == AfterUpsert(old(rows), session, resource, payload, now)
    {
      var status := StoredStatus(payload.status);
      var percent := StoredPercent(payload.percent);
      var key := Key(session, resource);
      if key !in rows {
        rows := rows[key := Progress(session, resource, status, percent, now)];
      } else {
        var row := rows[key];
        rows := rows[key := row.(status := status, percent := percent, updatedAt := now)];
      }
    }
  }
}
