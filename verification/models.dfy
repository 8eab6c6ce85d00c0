/** The two tables (server/app/models.py). Each table is a finite map keyed by
    the pair (session id, resource id) on which the table declares a uniqueness
    constraint, so at most one row per pair exists by construction. The
    surrogate integer primary key is not modelled. */
module Models {
  import opened Wrappers

  /** Declared column widths. */
  const SessionIdWidth := 32
  const ResourceIdWidth := 255
  const YearWidth := 10
  const SourceWidth := 50
  const StatusWidth := 32

  /** Column defaults. */
  const DefaultSource := "openlibrary"
  const DefaultStatus := "in_progress"
  const DefaultPercent := 0

  /** The (session_id, resource_id) pair both tables are unique on. */
  datatype Key = Key(session: string, resource: string)

  /** A row of `saved_items`. */
  datatype SavedItem = SavedItem(
    sessionId: string,
    resourceId: string,
    title: string,
    author: Option<string>,
    year: Option<string>,
    source: string,
    url: Option<string>)

  /** A row of `progress`; `percent` is a whole number here. */
  datatype Progress = Progress(
    sessionId: string,
    resourceId: string,
    status: string,
    percent: int,
    updatedAt: string)

  /** The resource ids one session has a row for, in either table
      (`filter_by(session_id=...)`). */
  function ResourcesOf<V>(rows: map<Key, V>, session: string): (rs: set<string>)
    ensures forall r :: r in rs <==> Key(session, r) in rows
  {
    set k | k in rows && k.session == session :: k.resource
  }

  /** Every saved row sits under the key made of its own session and resource ids. */
  ghost predicate SavedTableKeyed(rows: map<Key, SavedItem>) {
    forall k :: k in rows ==> rows[k].sessionId == k.session && rows[k].resourceId == k.resource
  }

  /** Every progress row sits under the key made of its own session and resource ids. */
  ghost predicate ProgressTableKeyed(rows: map<Key, Progress>) {
    forall k :: k in rows ==> rows[k].sessionId == k.session && rows[k].resourceId == k.resource
  }

  /** The uniqueness constraint: two saved rows with the same session and
      resource ids are the same row. */
  lemma SavedUnique(rows: map<Key, SavedItem>, k1: Key, k2: Key)
    requires SavedTableKeyed(rows)
    requires k1 in rows && k2 in rows
    requires rows[k1].sessionId == rows[k2].sessionId && rows[k1].resourceId == rows[k2].resourceId
    ensures k1 == k2 && rows[k1] == rows[k2]
  {
  }

  /** The uniqueness constraint of the progress table. */
  lemma ProgressUnique(rows: map<Key, Progress>, k1: Key, k2: Key)
    requires ProgressTableKeyed(rows)
    requires k1 in rows && k2 in rows
    requires rows[k1].sessionId == rows[k2].sessionId && rows[k1].resourceId == rows[k2].resourceId
    ensures k1 == k2 && rows[k1] == rows[k2]
  {
  }

  /** A saved row fits its declared string columns. */
  predicate SavedFitsColumns(r: SavedItem) {
    && |r.sessionId| <= SessionIdWidth
    && |r.resourceId| <= ResourceIdWidth
    && (r.year.Some? ==> |r.year.value| <= YearWidth)
    && |r.source| <= SourceWidth
  }

  /** A progress row fits its declared string columns. */
  predicate ProgressFitsColumns(r: Progress) {
    && |r.sessionId| <= SessionIdWidth
    && |r.resourceId| <= ResourceIdWidth
    && |r.status| <= StatusWidth
  }
}
