/** What the pages and the routes give together: a page's write as the route
    stores it, and a page's load of what the route lists. */
module Sync {
  import opened Wrappers
  import opened Records
  import opened Models
  import LibraryPage
  import CatalogPage
  import SavedRouter
  import ProgressRouter

  /** The fields of a sent row that the upsert route reads: its status as a
      string and its percent (`updatedAt` is ignored by the route). */
  function UpsertPayload(body: Row): (p: ProgressRouter.ProgressPayload)
    ensures p.status == Some(StatusName(body.status))
    ensures p.percent == Some(body.percent)
  {
    ProgressRouter.ProgressPayload(Some(StatusName(body.status)), Some(body.percent))
  }

  /** The row the route stores for a sent row. */
  function Stored(server: map<Key, Progress>, session: string, id: string, body: Row, t: string): Progress {
    ProgressRouter.AfterUpsert(server, session, id, UpsertPayload(body), t)[Key(session, id)]
  }

  /** Every status a page sends fits the status column. */
  lemma PageStatusesFitColumn(s: Status)
    ensures |StatusName(s)| <= StatusWidth
    ensures |ProgressRouter.StoredStatus(UpsertPayload(Row(s, 0, "")).status)| <= StatusWidth
  {
  }

  /** A status survives the server: the upsert route stores the string a page
      sends and the list route returns it, and since the three statuses have
      distinct strings, the string read back names the status that was sent. */
  lemma StatusReadBack(server: map<Key, Progress>, session: string, id: string, body: Row, t: string)
    ensures var listed := ProgressRouter.ListProgress(ProgressRouter.AfterUpsert(server, session, id, UpsertPayload(body), t), session);
            id in listed && listed[id].status == StatusName(body.status)
    ensures forall s :: StatusName(s) == StatusName(body.status) ==> s == body.status
  {
  }

  /** Rows written by the library page never reach the table at 100% without
      being `done`: the page makes any percent of 100 or more `done`, and the
      route only clamps such a percent down to 100. */
  lemma LibraryWritesKeepHundredDone(rows: map<string, Row>, id: string, partial: Partial, now: string,
                                     server: map<Key, Progress>, session: string, t: string)
    ensures var body := LibraryPage.Merge(CurrentForUpdate(rows, id, now), partial, now);
            var stored := Stored(server, session, id, body, t);
            stored.percent == 100 ==> stored.status == "done"
  {
    var body := LibraryPage.Merge(CurrentForUpdate(rows, id, now), partial, now);
    if ProgressRouter.Clamp(body.percent) == 100 {
      assert body.percent >= 100;
    }
  }

  /** The video page can store a row at 100% that is not `done`: "+25%" on a row
      at `{in_progress, 75}`. */
  lemma CatalogCanStoreHundredUnfinished(id: string, t0: string, now: string,
                                         server: map<Key, Progress>, session: string, t: string)
    ensures var progress := map[id := Row(InProgress, 75, t0)];
            var body := CatalogPage.Overwrite(CurrentForUpdate(progress, id, now), CatalogPage.AdvancePartial(progress, id));
            var stored := Stored(server, session, id, body, t);
            stored.percent == 100 && stored.status == "in_progress"
  {
  }

  /** The library page's Complete stores `{done, 100}` and its Reset stores
      `{in_progress, 0}`. */
  lemma ToggleAsStored(rows: map<string, Row>, id: string, now: string,
                       server: map<Key, Progress>, session: string, t: string)
    ensures var shown := DisplayRow(rows, id, now).status;
            var body := LibraryPage.Merge(CurrentForUpdate(rows, id, now), LibraryPage.TogglePartial(shown), now);
            var stored := Stored(server, session, id, body, t);
            && (shown == Done ==> stored.status == "in_progress" && stored.percent == 0)
            && (shown != Done ==> stored.status == "done" && stored.percent == 100)
  {
    LibraryPage.ToggleOutcome(CurrentForUpdate(rows, id, now), DisplayRow(rows, id, now).status, now);
  }

  /** `fetched` lists exactly the items of `listed`, in some order. */
  ghost predicate Enumerates(fetched: seq<Item>, listed: map<string, Item>) {
    && (forall i :: 0 <= i < |fetched| ==> fetched[i] in listed.Values)
    && (forall r :: r in listed ==> exists i :: 0 <= i < |fetched| && fetched[i] == listed[r])
  }

  /** Every listed item carries the id it is listed under. */
  lemma ListedUnderOwnId(server: map<Key, SavedItem>, session: string)
    requires SavedTableKeyed(server)
    ensures forall r :: r in SavedRouter.ListSaved(server, session) ==> SavedRouter.ListSaved(server, session)[r].id == r
  {
    forall r | r in SavedRouter.ListSaved(server, session)
      ensures SavedRouter.ListSaved(server, session)[r].id == r
    {
      SavedRouter.ListShowsOwnItems(server, session, r);
    }
  }

  /** Loading an enumeration of a map whose items carry their own ids yields
      exactly its keys as the saved set. */
  lemma LoadedIds(fetched: seq<Item>, listed: map<string, Item>, id: string)
    requires LibraryPage.KeyedById(listed)
    requires Enumerates(fetched, listed)
    ensures id in LibraryPage.IdsOf(fetched) <==> id in listed
  {
    LibraryPage.IdsOfExactly(fetched);
    if id in listed {
      var i :| 0 <= i < |fetched| && fetched[i] == listed[id];
      assert fetched[i].id == id;
    }
    if id in LibraryPage.IdsOf(fetched) {
      var i :| 0 <= i < |fetched| && fetched[i].id == id;
      var r :| r in listed && listed[r] == fetched[i];
    }
  }

  /** Loading an enumeration of such a map yields the map itself as the id map. */
  lemma LoadedMap(fetched: seq<Item>, listed: map<string, Item>)
    requires LibraryPage.KeyedById(listed)
    requires Enumerates(fetched, listed)
    ensures LibraryPage.IndexById(fetched) == listed
  {
    var byId := LibraryPage.IndexById(fetched);
    LibraryPage.IndexByIdKeyed(fetched);
    forall id ensures id in byId <==> id in listed {
      LoadedIds(fetched, listed, id);
    }
    forall id | id in byId ensures byId[id] == listed[id] {
      LibraryPage.IndexByIdFromFetch(fetched, id);
      var i :| 0 <= i < |fetched| && fetched[i] == byId[id];
      var r :| r in listed && listed[r] == fetched[i];
    }
  }

  /** After the library page loads a session's list, in whatever order the rows
      come, its saved set is exactly the session's saved ids and its id map is
      exactly the listed items. */
  lemma LibraryLoadMirrorsServer(server: map<Key, SavedItem>, session: string, fetched: seq<Item>)
    requires SavedTableKeyed(server)
    requires Enumerates(fetched, SavedRouter.ListSaved(server, session))
    ensures LibraryPage.IdsOf(fetched) == SavedRouter.ListSaved(server, session).Keys
    ensures LibraryPage.IndexById(fetched) == SavedRouter.ListSaved(server, session)
  {
    var listed := SavedRouter.ListSaved(server, session);
    ListedUnderOwnId(server, session);
    LoadedMap(fetched, listed);
    LibraryPage.IndexByIdKeyed(fetched);
  }

  /** After the video page loads a session's list, its saved set is exactly the
      listed ids whose source is `'youtube'`. */
  lemma CatalogLoadMirrorsServer(server: map<Key, SavedItem>, session: string, fetched: seq<Item>, id: string)
    requires SavedTableKeyed(server)
    requires Enumerates(fetched, SavedRouter.ListSaved(server, session))
    ensures id in CatalogPage.SavedVideoIds(fetched) <==>
              Key(session, id) in server && server[Key(session, id)].source == "youtube"
  {
    var listed := SavedRouter.ListSaved(server, session);
    CatalogPage.YouTubeIdsExactly(fetched, id);
    if id in CatalogPage.SavedVideoIds(fetched) {
      var i :| 0 <= i < |fetched| && fetched[i].source == Some("youtube") && fetched[i].id == id;
      var r :| r in listed && listed[r] == fetched[i];
      SavedRouter.ListShowsOwnItems(server, session, r);
    }
    if Key(session, id) in server && server[Key(session, id)].source == "youtube" {
      assert id in listed;
      SavedRouter.ListShowsOwnItems(server, session, id);
      var i :| 0 <= i < |fetched| && fetched[i] == listed[id];
      assert fetched[i].source == Some("youtube") && fetched[i].id == id;
    }
  }
}
