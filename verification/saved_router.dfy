/** The saved-items routes (server/app/routers/saved.py): list, add and delete
    the items of one session. */
module SavedRouter {
  import opened Wrappers
  import opened Records
  import opened Models

  // ---------------------------------------------------------------------------
  // Python's str() of an integer year
  // ---------------------------------------------------------------------------

  function DigitChar(d: int): (c: char)
    requires 0 <= d < 10
    ensures '0' <= c <= '9'
  {
    "0123456789"[d]
  }

  /** The decimal digits of `n`, most significant first, without leading zeros. */
  function Digits(n: nat): (s: string)
    ensures |s| >= 1
    ensures forall i :: 0 <= i < |s| ==> '0' <= s[i] <= '9'
    ensures |s| > 1 ==> s[0] != '0'
  {
    if n < 10 then [DigitChar(n)] else Digits(n / 10) + [DigitChar(n % 10)]
  }

  /** `str(n)` for an integer. */
  function DecimalString(n: int): (s: string)
    ensures |s| >= 1
    ensures n >= 0 ==> s == Digits(n)
    ensures n < 0 ==> s == "-" + Digits(-n)
  {
    if n < 0 then "-" + Digits(-n) else Digits(n)
  }

  /** The number a string of decimal digits denotes. */
  function DigitsValue(s: string): int
    requires forall i :: 0 <= i < |s| ==> '0' <= s[i] <= '9'
  {
    if s == [] then 0 else DigitsValue(s[..|s| - 1]) * 10 + (s[|s| - 1] as int - '0' as int)
  }

  /** Reading the digits back gives the number. */
  lemma {:induction false} DigitsRoundTrip(n: nat)
    ensures DigitsValue(Digits(n)) == n
  {
    if n >= 10 {
      DigitsRoundTrip(n / 10);
      var s := Digits(n);
      assert s[..|s| - 1] == Digits(n / 10);
    }
  }

  function Pow10(k: nat): (p: nat)
    ensures p >= 1
  {
    if k == 0 then 1 else 10 * Pow10(k - 1)
  }

  /** A number below 10^k has at most k digits. */
  lemma {:induction false} DigitsLength(n: nat, k: nat)
    requires 1 <= k && n < Pow10(k)
    ensures |Digits(n)| <= k
  {
    if n >= 10 {
      DigitsLength(n / 10, k - 1);
    }
  }

  /** The year column is a string of at most ten characters, and any
      non-negative year below 10^10 sent as a number fits it. */
  lemma YearFitsColumn(n: int)
    requires 0 <= n < Pow10(YearWidth)
    ensures |DecimalString(n)| <= YearWidth
  {
    DigitsLength(n, YearWidth);
  }

  // ---------------------------------------------------------------------------
  // The request body and the rows it makes
  // ---------------------------------------------------------------------------

  /** The JSON body of a save request; each field present or absent. */
  datatype SavedPayload = SavedPayload(
    id: Option<string>,
    title: Option<string>,
    author: Option<string>,
    year: Option<YearValue>,
    source: Option<string>,
    url: Option<string>)

  /** Python truthiness of an optional string field: present and non-empty. */
  predicate Present(s: Option<string>)
    ensures Present(s) <==> s != None && s != Some("")
  {
    s.Some? && s.value != ""
  }

  /** `str(year) if year is not None else None`. */
  function StoredYear(year: Option<YearValue>): (y: Option<string>)
    ensures year.None? <==> y.None?
    ensures year.Some? && year.value.YearText? ==> y == Some(year.value.text)
    ensures year.Some? && year.value.YearNumber? ==> y == Some(DecimalString(year.value.n))
  {
    match year
    case None => None
    case Some(YearText(t)) => Some(t)
    case Some(YearNumber(n)) => Some(DecimalString(n))
  }

  /** `payload.get("source") or "openlibrary"`. */
  function StoredSource(source: Option<string>): (s: string)
    ensures s != ""
    ensures Present(source) ==> s == source.value
    ensures !Present(source) ==> s == DefaultSource
  {
    if Present(source) then source.value else DefaultSource
  }

  /** The reply of a route: `{"ok": true}` or an HTTP error. */
  datatype Reply = Accepted | Rejected(status: int, detail: string)

  const MissingIdOrTitle := "Missing id or title"

  /** Whether a save request passes validation. */
  function AddReply(payload: SavedPayload): (reply: Reply)
    ensures reply.Accepted? <==> Present(payload.id) && Present(payload.title)
    ensures reply.Rejected? ==> reply == Rejected(400, MissingIdOrTitle)
  {
    if !Present(payload.id) || !Present(payload.title) then Rejected(400, MissingIdOrTitle) else Accepted
  }

  /** The row a valid save request inserts. */
  function NewRow(session: string, payload: SavedPayload): (row: SavedItem)
    requires Present(payload.id) && Present(payload.title)
    ensures row.sessionId == session && row.resourceId == payload.id.value
    ensures row.title == payload.title.value && row.author == payload.author && row.url == payload.url
    ensures row.year == StoredYear(payload.year)
    ensures row.source == StoredSource(payload.source)
  {
    SavedItem(session, payload.id.value, payload.title.value, payload.author,
              StoredYear(payload.year), StoredSource(payload.source), payload.url)
  }

  /** The route checks no column width: a new row fits its columns when the
      session id, the resource id, the source and the year it is given fit. */
  lemma NewRowFitsColumns(session: string, payload: SavedPayload)
    requires Present(payload.id) && Present(payload.title)
    requires |session| <= SessionIdWidth && |payload.id.value| <= ResourceIdWidth
    requires |StoredSource(payload.source)| <= SourceWidth
    requires payload.year.Some? && payload.year.value.YearNumber? ==> 0 <= payload.year.value.n < Pow10(YearWidth)
    requires payload.year.Some? && payload.year.value.YearText? ==> |payload.year.value.text| <= YearWidth
    ensures SavedFitsColumns(NewRow(session, payload))
  {
    if payload.year.Some? && payload.year.value.YearNumber? {
      YearFitsColumn(payload.year.value.n);
    }
  }

  /** The table after a save request: unchanged when the request is invalid or
      the session already has the item, otherwise with the new row added. */
  function AfterAdd(rows: map<Key, SavedItem>, session: string, payload: SavedPayload): (after: map<Key, SavedItem>)
    ensures forall k :: k in rows ==> k in after && after[k] == rows[k]
    ensures AddReply(payload).Accepted? ==> Key(session, payload.id.value) in after
    ensures forall k :: k in after && k !in rows ==>
              AddReply(payload).Accepted? && k == Key(session, payload.id.value) && after[k] == NewRow(session, payload)
  {
    if !Present(payload.id) || !Present(payload.title) then rows
    else if Key(session, payload.id.value) in rows then rows
    else rows[Key(session, payload.id.value) := NewRow(session, payload)]
  }

  /** The table after a delete request. */
  function AfterDelete(rows: map<Key, SavedItem>, session: string, resource: string): (after: map<Key, SavedItem>)
    ensures Key(session, resource) !in after
    ensures forall k :: k in after <==> k in rows && k != Key(session, resource)
    ensures forall k :: k in after ==> after[k] == rows[k]
  {
    rows - {Key(session, resource)}
  }

  /** One listed item: `id` is the resource id, the rest are the stored columns. */
  function Listed(row: SavedItem): (item: Item)
    ensures item.id == row.resourceId && item.title == row.title
    ensures item.source == Some(row.source)
  {
    Item(row.resourceId, row.title, row.author,
         if row.year.Some? then Some(YearText(row.year.value)) else None,
         Some(row.source), row.url)
  }

  /** `list_saved`, keyed by the listed id (the order rows come back in is not modelled). */
  function ListSaved(rows: map<Key, SavedItem>, session: string): (listed: map<string, Item>)
    ensures forall r :: r in listed <==> Key(session, r) in rows
  {
    map r | r in ResourcesOf(rows, session) :: Listed(rows[Key(session, r)])
  }

  // ---------------------------------------------------------------------------
  // Properties of the routes
  // ---------------------------------------------------------------------------

  /** A request without an id or a title is refused with 400 and stores nothing. */
  lemma AddRejectsMissingFields(rows: map<Key, SavedItem>, session: string, payload: SavedPayload)
    requires !Present(payload.id) || !Present(payload.title)
    ensures AddReply(payload) == Rejected(400, MissingIdOrTitle)
    ensures AfterAdd(rows, session, payload) == rows
  {
  }

  /** A valid request for an item the session does not have stores exactly the new row. */
  lemma AddInsertsWhenAbsent(rows: map<Key, SavedItem>, session: string, payload: SavedPayload)
    requires Present(payload.id) && Present(payload.title)
    requires Key(session, payload.id.value) !in rows
    ensures AfterAdd(rows, session, payload) == rows[Key(session, payload.id.value) := NewRow(session, payload)]
    ensures AfterAdd(rows, session, payload)[Key(session, payload.id.value)].source ==
              if Present(payload.source) then payload.source.value else DefaultSource
  {
  }

  /** Saving is insert-if-absent: an item the session already has is left as it
      was, whatever the new request carries. */
  lemma AddKeepsExisting(rows: map<Key, SavedItem>, session: string, payload: SavedPayload)
    requires payload.id.Some? && Key(session, payload.id.value) in rows
    ensures AfterAdd(rows, session, payload) == rows
  {
  }

  /** Saving twice is saving once. */
  lemma AddIdempotent(rows: map<Key, SavedItem>, session: string, payload: SavedPayload)
    ensures AfterAdd(AfterAdd(rows, session, payload), session, payload) == AfterAdd(rows, session, payload)
  {
  }

  /** Saving touches no other (session, resource) pair. */
  lemma AddOnlyTouchesItsKey(rows: map<Key, SavedItem>, session: string, payload: SavedPayload, k: Key)
    requires payload.id.None? || k != Key(session, payload.id.value)
    ensures k in AfterAdd(rows, session, payload) <==> k in rows
    ensures k in rows ==> AfterAdd(rows, session, payload)[k] == rows[k]
  {
  }

  /** Saving keeps every row under its own key. */
  lemma AddKeepsTableKeyed(rows: map<Key, SavedItem>, session: string, payload: SavedPayload)
    requires SavedTableKeyed(rows)
    ensures SavedTableKeyed(AfterAdd(rows, session, payload))
  {
  }

  /** Deleting removes the pair, succeeds when it is absent, and touches nothing else. */
  lemma DeleteRemovesOnlyItsKey(rows: map<Key, SavedItem>, session: string, resource: string, k: Key)
    ensures Key(session, resource) !in AfterDelete(rows, session, resource)
    ensures Key(session, resource) !in rows ==> AfterDelete(rows, session, resource) == rows
    ensures k != Key(session, resource) ==>
              (k in AfterDelete(rows, session, resource) <==> k in rows) &&
              (k in rows ==> AfterDelete(rows, session, resource)[k] == rows[k])
  {
  }

  /** The list holds only the session's own items, each listed under its resource id. */
  lemma ListShowsOwnItems(rows: map<Key, SavedItem>, session: string, r: string)
    requires SavedTableKeyed(rows)
    requires r in ListSaved(rows, session)
    ensures ListSaved(rows, session)[r].id == r
    ensures ListSaved(rows, session)[r] == Listed(rows[Key(session, r)])
    ensures rows[Key(session, r)].sessionId == session
  {
  }

  /** Saving then deleting the same id leaves it out of the session's list. */
  lemma AddThenDeleteAbsent(rows: map<Key, SavedItem>, session: string, payload: SavedPayload)
    requires payload.id.Some?
    ensures payload.id.value !in ListSaved(AfterDelete(AfterAdd(rows, session, payload), session, payload.id.value), session)
  {
  }

  /** A session's list is not affected by another session's requests. */
  lemma OtherSessionsUnaffected(rows: map<Key, SavedItem>, session: string, other: string,
                                payload: SavedPayload, resource: string)
    requires other != session
    ensures ListSaved(AfterAdd(rows, session, payload), other) == ListSaved(rows, other)
    ensures ListSaved(AfterDelete(rows, session, resource), other) == ListSaved(rows, other)
  {
    var added, deleted := AfterAdd(rows, session, payload), AfterDelete(rows, session, resource);
    assert ResourcesOf(added, other) == ResourcesOf(rows, other);
    assert ResourcesOf(deleted, other) == ResourcesOf(rows, other);
  }

  /** A fresh save is listed with its id and title, the default source when none
      was sent, and its year as text. */
  lemma AddThenList(rows: map<Key, SavedItem>, session: string, payload: SavedPayload)
    requires Present(payload.id) && Present(payload.title)
    requires Key(session, payload.id.value) !in rows
    ensures var listed := ListSaved(AfterAdd(rows, session, payload), session);
            && payload.id.value in listed
            && listed[payload.id.value].title == payload.title.value
            && listed[payload.id.value].source == Some(StoredSource(payload.source))
            && (payload.year.Some? <==> listed[payload.id.value].year.Some?)
            && (payload.year.Some? ==> listed[payload.id.value].year == Some(YearText(StoredYear(payload.year).value)))
  {
  }

  // ---------------------------------------------------------------------------
  // The table
  // ---------------------------------------------------------------------------

  /** The `saved_items` table. */
  class SavedStore {
    var rows: map<Key, SavedItem>

    ghost predicate Valid()
      reads this
    {
      SavedTableKeyed(rows)
    }

    constructor ()
      ensures Valid() && rows == map[]
    {
      rows := map[];
    }

    /** `list_saved`. */
    function List(session: string): (listed: map<string, Item>)
      reads this
      ensures forall r :: r in listed <==> Key(session, r) in rows
    {
      ListSaved(rows, session)
    }

    /** `add_saved`: validate, then insert the row if the session lacks the item. */
    method Add(session: string, payload: SavedPayload) returns (reply: Reply)
      requires Valid()
      modifies this
      ensures Valid()
      ensures reply == AddReply(payload)
      ensures rows == AfterAdd(old(rows), session, payload)
    {
      if !Present(payload.id) || !Present(payload.title) {
        return Rejected(400, MissingIdOrTitle);
      }
      var key := Key(session, payload.id.value);
      if key !in rows {
        rows := rows[key := NewRow(session, payload)];
      }
      reply := Accepted;
    }

    /** `delete_saved`: remove the row if there is one; always succeeds. */
    method Delete(session: string, resource: string) returns (reply: Reply)
      requires Valid()
      modifies this
      ensures Valid()
      ensures reply == Accepted
      ensures rows == AfterDelete(old(rows), session, resource)
    {
      rows := rows - {Key(session, resource)};
      reply := Accepted;
    }
  }
}
