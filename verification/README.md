# Learning dashboard: progress, saved items and search records

This project models the logic of a small learning dashboard. Two browser pages sit over an HTTP API:

- The **video page** searches a video platform, marks results as saved, and advances their watch progress.
- The **library page** lists the saved items, grouped by source, each with its progress row. Its buttons are "+25%", Complete/Reset, and Save/Unsave.

The server keeps two per-session tables: saved items and progress rows. Both are unique on the pair (session id, resource id). It also shapes the platform's search hits into flat video records.

Modules, one per source file, plus three shared ones:

| module | models |
|---|---|
| `Wrappers` | `Option` and `Result` |
| `Records` | The JSON records the pages and the API exchange (`Item`, `Video`, `Row`, `Partial`), the three statuses and their strings, and the row defaults and the "+25%" bound both pages use |
| `LibraryPage` | client/src/pages/Saved.tsx: the merge rule of `update`, the buttons, the loading loop, the grouping loop, and the page state as class `LibraryView` |
| `CatalogPage` | client/src/pages/YouTube.tsx: the overwrite rule of `updateVideoProgress`, render defaults, the saved-set filter, the save payload, and the page state as class `CatalogView` |
| `Models` | server/app/models.py: row shapes, defaults, column widths, and the uniqueness of (session, resource) |
| `SavedRouter` | server/app/routers/saved.py: validation, insert-if-absent, delete and list over `map<Key, SavedItem>`, plus the table as class `SavedStore` |
| `ProgressRouter` | server/app/routers/progress.py: defaulted and clamped upsert and list, plus the table as class `ProgressStore` |
| `YouTubeRouter` | server/app/routers/youtube.py: per-hit record shaping, the result loop, and the missing-key error |
| `Sync` | What a page's write becomes once the route stores it, and what a page's load of a route's list gives |

The library page and the video page update progress by **different rules**:

- The library page infers `done` from a percent of 100 or more.
- The video page overwrites fields and never infers a status.

The model keeps both rules. `CatalogPage.MergeRulesDisagree` and `Sync.CatalogCanStoreHundredUnfinished` show the difference. One might expect every row at 100% to be `done`. The code guarantees this only for rows written by the library page (`Sync.LibraryWritesKeepHundredDone`).

Each user action is modelled as one atomic step, taken after its request has returned:

- `delivered: bool` says whether the `fetch` resolved. `fetch` resolves on HTTP error statuses too, so a refused save still adds the id locally.
- `Response<T>` says whether a body field was present.
- Timestamps are opaque strings passed in as `now`.
- The session id is a plain parameter.

## Model

| member | source | states |
|---|---|---|
| `Records.CurrentForUpdate` | client/src/pages/Saved.tsx:36 | an update starts from the stored row, or from `{in_progress, 0}` when the id has none |
| `Records.DisplayRow` | client/src/pages/Saved.tsx:98 | the library page shows the stored row, or `{not_started, 0}` when the id has none |
| `Records.Advanced` | client/src/pages/Saved.tsx:178 | "+25%" sends at most 100: p + 25 up to 75, and 100 from 75 on |
| `LibraryPage.Merge` | client/src/pages/Saved.tsx:35-51 | the percent is the partial's or else the current one, the timestamp is the call time, and an explicit `done` or a percent of 100 or more makes the row `done` |
| `LibraryPage.MergeStatusOtherwise` | client/src/pages/Saved.tsx:38-43 | below 100 and without an explicit `done`, the status is the partial's or else the current one |
| `LibraryPage.MergeDoneIff` | client/src/pages/Saved.tsx:37-43 | the result is `done` exactly when `done` is asked for, the percent reaches 100, or the row was `done` and no status is given |
| `LibraryPage.MergeLeavesDoneOnlyOnRequest` | client/src/pages/Saved.tsx:38-43 | a `done` row leaves `done` only with an explicit non-`done` status and a percent below 100 |
| `LibraryPage.MergeIdempotent` | client/src/pages/Saved.tsx:36-51 | applying a partial twice gives the status and percent of applying it once |
| `LibraryPage.TogglePartial` | client/src/pages/Saved.tsx:192-197 | Reset sends `{in_progress, 0}` from `done`, and Complete sends `{done, 100}` from any other status |
| `LibraryPage.ToggleOutcome` | client/src/pages/Saved.tsx:192-197 | after the merge, the toggle yields exactly `{in_progress, 0}` from `done` and `{done, 100}` otherwise, whatever the current row |
| `LibraryPage.AdvancePartial` | client/src/pages/Saved.tsx:178 | "+25%" sends only a percent, never above 100 |
| `LibraryPage.AdvanceCompletesFrom75` | client/src/pages/Saved.tsx:178 | the merged "+25%" row never exceeds 100, is `{done, 100}` from 75% on, and is the shown percent plus 25 below that |
| `LibraryPage.UnseenItemScenario` | client/src/pages/Saved.tsx:35-51 | an unseen id shows `not_started`, then "+25%" gives `{in_progress, 25}`, then 100 gives `{done, 100}`, then Reset gives `{in_progress, 0}` |
| `LibraryPage.IndexById` | client/src/pages/Saved.tsx:27-28 | the last fetched item is always in the id map, under its own id |
| `LibraryPage.IdsOf` | client/src/pages/Saved.tsx:29 | every fetched id is in the saved set |
| `LibraryPage.IdsOfExactly` | client/src/pages/Saved.tsx:26-29 | the saved set built by `load` holds exactly the fetched ids |
| `LibraryPage.IndexByIdKeyed` | client/src/pages/Saved.tsx:25-29 | the id map has the saved set as its keys, and every item sits under its own id |
| `LibraryPage.IndexByIdLastWins` | client/src/pages/Saved.tsx:27-28 | an id maps to the last fetched item that carries it |
| `LibraryPage.IndexByIdFromFetch` | client/src/pages/Saved.tsx:27-28 | every item in the id map is one of the fetched items |
| `LibraryPage.IndexByIdDescribesFetch` | client/src/pages/Saved.tsx:25-30 | together, the id map and the saved set describe the fetch: the ids, the keys, and last-wins |
| `LibraryPage.IndexFetched` | client/src/pages/Saved.tsx:25-30 | the loading loop builds exactly the id map and the saved set specified above |
| `LibraryPage.GroupKey` | client/src/pages/Saved.tsx:99 | the group key is the item's source, or `other` when the source is absent or empty, and is never empty |
| `LibraryPage.Pushed` | client/src/pages/Saved.tsx:100-101 | pushing an entry creates its group if needed, appends the entry at the end, and leaves the other groups unchanged |
| `LibraryPage.GroupBySource` | client/src/pages/Saved.tsx:96-102 | the grouping loop yields a partition: no empty group, every entry is an item in its own source group with its displayed row, every item is listed, and no group repeats an id |
| `LibraryPage.GroupingIsPartition` | client/src/pages/Saved.tsx:96-102 | each item appears exactly once: in the group of its key, at a single position, as itself |
| `LibraryPage.LibraryView.constructor` | client/src/pages/Saved.tsx:14-16 | the page starts with no rows, no items and an empty saved set |
| `LibraryPage.LibraryView.Load` | client/src/pages/Saved.tsx:18-33 | a failed progress request changes nothing; otherwise the rows become the fetched progress, or `{}`. If the saved request then fails, the items and saved set are kept; otherwise they are built from the fetched items, or from `[]` |
| `LibraryPage.LibraryView.Update` | client/src/pages/Saved.tsx:35-58 | the row sent is the merge of the current row, or the default, with the partial |
| `LibraryPage.LibraryView.Advance` | client/src/pages/Saved.tsx:177-178 | "+25%" sends the merge of the shown percent plus 25, capped at 100 |
| `LibraryPage.LibraryView.Toggle` | client/src/pages/Saved.tsx:191-198 | Complete/Reset sends `{done, 100}` or `{in_progress, 0}`, depending on the shown status |
| `LibraryPage.LibraryView.SaveItem` | client/src/pages/Saved.tsx:63-75 | once the request returns, exactly the item's id is added to the saved set and nothing else changes; a failed request changes nothing |
| `LibraryPage.LibraryView.UnsaveItem` | client/src/pages/Saved.tsx:77-91 | once the request returns, exactly the id is removed from the saved set; a failed request changes nothing |
| `LibraryPage.LibraryView.Grouped` | client/src/pages/Saved.tsx:95-102 | the rendered groups partition the page's items |
| `LibraryPage.SaveThenUnsave` | client/src/pages/Saved.tsx:63-91 | saving then unsaving leaves the id out of the saved set, and other ids are as before |
| `CatalogPage.Overwrite` | client/src/pages/YouTube.tsx:124 | every field the partial supplies replaces the current one, and every other field is kept |
| `CatalogPage.OverwriteIdempotent` | client/src/pages/YouTube.tsx:124 | overwriting twice with one partial is overwriting once |
| `CatalogPage.OverwriteEmpty` | client/src/pages/YouTube.tsx:124 | an empty partial changes nothing, so `updatedAt` is carried over |
| `CatalogPage.OverwriteNeverInfersDone` | client/src/pages/YouTube.tsx:123-124 | sending only a percent keeps the current status, even at 100 |
| `CatalogPage.MergeRulesDisagree` | client/src/pages/YouTube.tsx:121-136 | from `{in_progress, 75}`, sending 100% gives `done` on the library page but stays `in_progress` on the video page |
| `CatalogPage.RulesAgreeBelowHundred` | client/src/pages/YouTube.tsx:124 | with an explicit status and a percent below 100, both rules give the same status and percent |
| `CatalogPage.ShownPercent` | client/src/pages/YouTube.tsx:174 | the shown percent is the row's, or 0 without a row |
| `CatalogPage.ShownStatus` | client/src/pages/YouTube.tsx:175 | the shown status is the row's, or `not_started` without a row |
| `CatalogPage.ShowsProgressBar` | client/src/pages/YouTube.tsx:180 | the bar is drawn exactly when the video has a row with a positive percent |
| `CatalogPage.DefaultsMatchLibrary` | client/src/pages/YouTube.tsx:173-180 | the video page's display defaults equal the library page's, and a video without a row shows no progress bar |
| `CatalogPage.AdvancePartial` | client/src/pages/YouTube.tsx:272 | "+25%" sends only `min(100, shown + 25)` |
| `CatalogPage.AdvanceOutcome` | client/src/pages/YouTube.tsx:121-136 | "+25%" on a video without a row gives `{in_progress, 25, now}`; from 75% on it gives 100 and keeps the row's status and timestamp |
| `CatalogPage.YouTubeIds` | client/src/pages/YouTube.tsx:67 | the filter and map keep at most one id per fetched item |
| `CatalogPage.YouTubeIdsExactly` | client/src/pages/YouTube.tsx:67 | an id is kept exactly when some fetched item with source `youtube` carries it |
| `CatalogPage.YouTubeIdsAll` | client/src/pages/YouTube.tsx:67 | for every id at once: an id is kept exactly when some fetched item with source `youtube` carries it |
| `CatalogPage.SavedVideoIds` | client/src/pages/YouTube.tsx:67 | the saved set holds exactly the ids of fetched items whose source is `youtube` |
| `CatalogPage.SavePayload` | client/src/pages/YouTube.tsx:90-97 | the save body passes `id`, `title` and `url` through, takes `author` from the channel, fixes `source` to `youtube`, and carries the year when there is one |
| `CatalogPage.CatalogView.constructor` | client/src/pages/YouTube.tsx:16-21 | the page starts with no results, no error, an empty saved set and no progress rows |
| `CatalogPage.CatalogView.ShowResults` | client/src/pages/YouTube.tsx:23-61 | a failed search keeps the results and sets the error; otherwise the results are replaced, by `[]` when there are none, and the error is cleared |
| `CatalogPage.CatalogView.SearchVideos` | client/src/pages/YouTube.tsx:23-41 | as above, with the search error message |
| `CatalogPage.CatalogView.LoadTrending` | client/src/pages/YouTube.tsx:43-61 | as above, with the trending error message; this server has no trending route, so the success case cannot happen here |
| `CatalogPage.CatalogView.LoadTrendingFromServer` | client/src/pages/YouTube.tsx:43-61 | against this server the request is answered 404, so the results are kept and the trending error is shown |
| `CatalogPage.CatalogView.LoadSavedVideos` | client/src/pages/YouTube.tsx:63-72 | the saved set becomes exactly the ids of fetched `youtube` items; a failed request or a body without items changes nothing |
| `CatalogPage.CatalogView.LoadVideoProgress` | client/src/pages/YouTube.tsx:74-82 | the rows become the fetched progress, or `{}`; a failed request changes nothing |
| `CatalogPage.CatalogView.SaveVideo` | client/src/pages/YouTube.tsx:84-103 | posts the save body; once the request returns, exactly `video.id` is added to the saved set |
| `CatalogPage.CatalogView.UnsaveVideo` | client/src/pages/YouTube.tsx:105-119 | once the request returns, exactly the id is removed from the saved set |
| `CatalogPage.CatalogView.UpdateVideoProgress` | client/src/pages/YouTube.tsx:121-140 | sends the overwritten row and stores it under the id; no other row changes, and a failed request stores nothing |
| `CatalogPage.CatalogView.Advance` | client/src/pages/YouTube.tsx:271-272 | "+25%" sends and stores the overwrite with the capped percent, never above 100 |
| `CatalogPage.SaveThenUnsaveVideo` | client/src/pages/YouTube.tsx:84-119 | saving then unsaving a video leaves it out of the saved set, and other ids are as before |
| `Models.SavedUnique` | server/app/models.py:19 | two saved rows with the same session and resource ids are the same row |
| `Models.ProgressUnique` | server/app/models.py:30 | two progress rows with the same session and resource ids are the same row |
| `SavedRouter.Digits` | server/app/routers/saved.py:46 | a non-negative number's string form is decimal digits with no leading zero |
| `SavedRouter.DecimalString` | server/app/routers/saved.py:46 | `str()` of an integer year is its digits, with a leading `-` when negative |
| `SavedRouter.DigitsRoundTrip` | server/app/routers/saved.py:46 | reading the digits back gives the number |
| `SavedRouter.DigitsLength` | server/app/routers/saved.py:46 | a number below 10^k has at most k digits |
| `SavedRouter.YearFitsColumn` | server/app/models.py:15 | a year from 0 to 10^10 - 1, sent as a number, is stored in at most 10 characters |
| `SavedRouter.NewRowFitsColumns` | server/app/models.py:11-16 | the route checks no width; a new row fits its columns when its session id, resource id, source and year fit |
| `SavedRouter.Present` | server/app/routers/saved.py:29-33 | a field counts as given exactly when it is present and is not the empty string |
| `SavedRouter.StoredYear` | server/app/routers/saved.py:46 | the year is stored as its string form, or as none when absent |
| `SavedRouter.StoredSource` | server/app/routers/saved.py:33 | a missing or empty source becomes `openlibrary`, and any other source is kept |
| `SavedRouter.AddReply` | server/app/routers/saved.py:29-30 | a request is accepted exactly when its id and title are present and non-empty; otherwise it gets 400 "Missing id or title" |
| `SavedRouter.NewRow` | server/app/routers/saved.py:41-49 | the inserted row carries the session, the id, title, author and url, the year's string form, and the defaulted source |
| `Models.ResourcesOf` | server/app/routers/saved.py:12 | the resource ids a session lists, from either table, are exactly those with a row under that session |
| `SavedRouter.Listed` | server/app/routers/saved.py:14-21 | a listed item takes its `id` from `resource_id` and always has a source |
| `SavedRouter.ListSaved` | server/app/routers/saved.py:9-22 | the list holds exactly the session's resource ids |
| `SavedRouter.AfterAdd` | server/app/routers/saved.py:29-50 | a save never changes or removes an existing row, adds the pair's key when the request is valid, and the only row it can add is the new row under that key |
| `SavedRouter.AfterDelete` | server/app/routers/saved.py:56-59 | a delete removes the pair's key, keeps every other key, and changes no row it keeps |
| `SavedRouter.AddRejectsMissingFields` | server/app/routers/saved.py:29-30 | a request without an id or a title is refused with 400 and the table is unchanged |
| `SavedRouter.AddInsertsWhenAbsent` | server/app/routers/saved.py:36-50 | a valid request for an absent item adds exactly the new row, whose source defaults to `openlibrary` |
| `SavedRouter.AddKeepsExisting` | server/app/routers/saved.py:36-40 | an item the session already has is left as it was: the row is not updated |
| `SavedRouter.AddIdempotent` | server/app/routers/saved.py:36-50 | saving twice is saving once |
| `SavedRouter.AddOnlyTouchesItsKey` | server/app/routers/saved.py:36-50 | saving changes no other (session, resource) pair |
| `SavedRouter.AddKeepsTableKeyed` | server/app/models.py:19 | after a save, every row is still stored under its own (session, resource) key |
| `SavedRouter.DeleteRemovesOnlyItsKey` | server/app/routers/saved.py:53-61 | delete removes the pair, succeeds when the pair is absent, and leaves every other entry untouched |
| `SavedRouter.ListShowsOwnItems` | server/app/routers/saved.py:12-21 | the list shows only the session's rows, each under its resource id |
| `SavedRouter.AddThenDeleteAbsent` | server/app/routers/saved.py:24-61 | saving then deleting an id leaves it out of the session's list |
| `SavedRouter.OtherSessionsUnaffected` | server/app/routers/saved.py:36-59 | one session's save and delete do not change another session's list |
| `SavedRouter.AddThenList` | server/app/routers/saved.py:9-50 | a new save is listed with its title, the defaulted source, and its year as text |
| `SavedRouter.SavedStore.List` | server/app/routers/saved.py:9-22 | `list_saved` lists exactly the session's resource ids |
| `SavedRouter.SavedStore.Add` | server/app/routers/saved.py:24-51 | `add_saved` validates and then inserts only if the item is absent, keeping every row under its own key |
| `SavedRouter.SavedStore.Delete` | server/app/routers/saved.py:53-61 | `delete_saved` always succeeds and removes only the pair |
| `ProgressRouter.StoredStatus` | server/app/routers/progress.py:26 | a missing or empty status is stored as `in_progress`, and any other string is stored unvalidated |
| `ProgressRouter.Clamp` | server/app/routers/progress.py:28 | the result lies in [0, 100]: values below 0 become 0, values above 100 become 100, and values in range are unchanged |
| `ProgressRouter.StoredPercent` | server/app/routers/progress.py:27-28 | a missing percent is stored as 0, and any other percent is clamped into [0, 100] |
| `ProgressRouter.AfterUpsert` | server/app/routers/progress.py:26-46 | the table gains at most the pair's key; the pair's row holds the session, the resource, the defaulted status, the clamped percent and the request time; every other row is unchanged |
| `ProgressRouter.View` | server/app/routers/progress.py:15-19 | a listed row shows the stored status, percent and time |
| `ProgressRouter.ListProgress` | server/app/routers/progress.py:10-21 | the list holds exactly the session's resource ids |
| `ProgressRouter.UpsertStores` | server/app/routers/progress.py:26-46 | after an upsert, the pair's row holds the sent status, or `in_progress` when none is sent; the sent percent clamped into [0, 100], or 0 when none is sent; and the request time |
| `ProgressRouter.UpsertOnlyTouchesItsKey` | server/app/routers/progress.py:30-46 | rows of other sessions and other resources are unchanged, and no other row appears |
| `ProgressRouter.UpsertOverwrites` | server/app/routers/progress.py:30-46 | an existing row is overwritten, not duplicated: the table grows only when the pair was absent, and then by one row |
| `ProgressRouter.UpsertIdempotent` | server/app/routers/progress.py:34-46 | repeating an upsert leaves status and percent as after the first |
| `ProgressRouter.UpsertKeepsInvariant` | server/app/models.py:30 | upserts keep each row under its own key and every stored percent in [0, 100] |
| `ProgressRouter.UpsertFitsColumns` | server/app/models.py:24-26 | the route checks no width; the stored row fits its columns when its session id, resource id and status fit |
| `ProgressRouter.UpsertThenList` | server/app/routers/progress.py:10-46 | the list shows the upserted row under its resource id, and other sessions' lists do not change |
| `ProgressRouter.ListShowsOwnRows` | server/app/routers/progress.py:13-21 | the list shows only the session's rows, keyed by `resource_id` |
| `ProgressRouter.ProgressStore.List` | server/app/routers/progress.py:10-21 | every listed percent lies in [0, 100] |
| `ProgressRouter.ProgressStore.Upsert` | server/app/routers/progress.py:23-48 | `upsert_progress` updates the row in place or adds it, keeping the table keyed and the percents bounded |
| `YouTubeRouter.Truncated` | server/app/routers/youtube.py:60 | a description over 200 characters becomes its first 200 plus `...`, and a shorter one is unchanged, so the result is at most 203 long |
| `YouTubeRouter.TruncatedIdempotent` | server/app/routers/youtube.py:60 | truncating a truncated description changes nothing |
| `YouTubeRouter.WatchUrl` | server/app/routers/youtube.py:65 | the URL is `https://www.youtube.com/watch?v=` followed by the id |
| `YouTubeRouter.WatchUrlInjective` | server/app/routers/youtube.py:65 | different ids give different URLs |
| `YouTubeRouter.Duration` | server/app/routers/youtube.py:53-55 | the duration is the first details item's, or `Unknown` when there is none |
| `YouTubeRouter.Shaped` | server/app/routers/youtube.py:57-67 | a record copies id, title, thumbnail, channel and date from the hit, truncates the description, builds the watch URL, and has source `youtube` |
| `YouTubeRouter.ShapeResults` | server/app/routers/youtube.py:42-67 | one record per hit, in the order of the hits |
| `YouTubeRouter.ResultsAreWellFormed` | server/app/routers/youtube.py:42-67 | every record has source `youtube`, a watch URL for its own id, and a description of at most 203 characters |
| `YouTubeRouter.ExceptionText` | server/app/routers/youtube.py:80 | the text of a raised `HTTPException` ends with its detail |
| `YouTubeRouter.Caught` | server/app/routers/youtube.py:77-80 | the catch-all handler answers 500 with `An unexpected error occurred: ` followed by the text of what was raised |
| `YouTubeRouter.SearchAsWritten` | server/app/routers/youtube.py:16-80 | without a configured key, the route's own 500 is caught and re-raised by the catch-all handler; otherwise the route returns the shaped hits |
| `YouTubeRouter.MissingKeyDetailSwallowed` | server/app/routers/youtube.py:24-28 | the reply for a missing key is `An unexpected error occurred: 500: ` followed by the message, so it never equals the message |
| `YouTubeRouter.Search` | server/app/routers/youtube.py:24-28 | the intended route: without a configured key it answers 500 with the missing-key message itself; otherwise it returns the shaped hits |
| `Sync.UpsertPayload` | client/src/pages/Saved.tsx:53-58 | a sent row reaches the route as its status string and its percent |
| `Sync.PageStatusesFitColumn` | server/app/models.py:26 | every status a page sends, and so every status stored from a page, fits the 32-character column |
| `Sync.StatusReadBack` | server/app/routers/progress.py:26-46 | the status string a page sends is listed back unchanged, and names only the status that was sent |
| `Sync.LibraryWritesKeepHundredDone` | server/app/routers/progress.py:26-46 | a row written by the library page and stored at 100% is always `done` |
| `Sync.CatalogCanStoreHundredUnfinished` | client/src/pages/YouTube.tsx:121-136 | the video page can store a row at 100% that is still `in_progress` |
| `Sync.ToggleAsStored` | client/src/pages/Saved.tsx:191-198 | Complete stores `{done, 100}` and Reset stores `{in_progress, 0}` |
| `Sync.ListedUnderOwnId` | server/app/routers/saved.py:13-21 | every listed item carries the id it is listed under |
| `Sync.LoadedIds` | client/src/pages/Saved.tsx:25-30 | loading any ordering of a listed map gives exactly its keys as the saved set |
| `Sync.LoadedMap` | client/src/pages/Saved.tsx:25-30 | loading any ordering of a listed map gives back that map as the id map |
| `Sync.LibraryLoadMirrorsServer` | client/src/pages/Saved.tsx:23-32 | after `load`, the library page's saved set and id map are exactly the session's listed items |
| `Sync.CatalogLoadMirrorsServer` | client/src/pages/YouTube.tsx:63-68 | after `loadSavedVideos`, the saved set is exactly the session's saved ids whose source is `youtube` |

## Findings

| source | as written | input that shows it | evidently intended | confidence | as-written member | corrected member |
|---|---|---|---|---|---|---|
| server/app/routers/youtube.py:21-28, 77-80 | The missing-key `HTTPException` is raised inside the `try`. The `except Exception` handler catches it and raises a new 500. | No API key configured. The detail becomes `An unexpected error occurred: 500: YouTube API key not configured. …` | A 500 whose detail is the missing-key message itself | high (not executed) | `YouTubeRouter.SearchAsWritten`, `YouTubeRouter.MissingKeyDetailSwallowed` | `YouTubeRouter.Search` |

## Left out

- HTTP plumbing is not modelled: the session middleware, cookies, CORS, `.env` loading, and the sessions route. The session id is a parameter. The first request of a new browser carries no cookie, so the routes see no session id; that case is not modelled.
- The calls to the video platform's client and the mapping of its errors to HTTP statuses are not modelled. The search response and each per-hit details response are inputs (`SearchHit`). The `except HttpError` handler is not modelled.
- The database engine is not modelled: sessions, queries, commits, the surrogate integer key, and row order. Tables are maps keyed by (session, resource), and each route is one atomic step. The lists are maps keyed by resource id, so the order the rows come back in is not modelled.
- SavedRouter.NewRowFitsColumns: column widths are declared but no route checks them. Whether an over-long value is refused depends on the database engine, and the database setup is not part of this model.
- ProgressRouter.StoredPercent: percent is a whole number. `float()` parsing, numeric strings, fractions, NaN and infinity are not modelled.
- ProgressRouter.UpsertFitsColumns: as for saved rows, no width is checked, and what an over-long status does depends on the database engine.
- YouTubeRouter.Caught: the text of a raised `HTTPException` is taken to be `<status>: <detail>`, as the web framework prints it. Another framework version may print it differently.
- The server defines no trending route: the video page's `GET /api/youtube/trending` gets a 404, and nothing on the page calls `loadTrending`. CatalogPage.CatalogView.LoadTrendingFromServer models that outcome.
- SavedRouter.AddReply: `id` and `title` are modelled as optional strings. Truthiness of other JSON values, such as a numeric id, is not modelled.
- `fetch`, `async`/`await`, request races, React's batching of state setters, and the mount order of effects are not modelled. The `loading` flag is not modelled either, because it is false again after every search.
- LibraryPage.LibraryView.Update: the call to `load()` after the PUT is not part of this method. It is a separate `Load` with whatever the routes return.
- LibraryPage.LibraryView.Load: a failure of the second request (Saved.tsx:23) leaves `rows` replaced while `items` and `saved` stay as they were, and the model states this. A response body that is not JSON is not modelled.
- CatalogPage.CatalogView.constructor: the `loading` flag and the search box's `query` (initially `C++ programming`) are not fields of the model.
- Timestamps (`new Date().toISOString()`, `datetime.utcnow()`) are opaque strings passed in.
- Date parsing for the year (`getFullYear`) is not modelled; its result is an input, and none stands for `NaN`. `encodeURIComponent` is not modelled.
- Statuses outside the three are not modelled on the client. The route stores any string, but the pages type the status as one of three.
- Rendering is not modelled: JSX, styles, colours, labels, routing, the order in which groups are shown, and the order of entries within a group. Both follow the enumeration order of JavaScript objects; `GroupBySource` files the items in an arbitrary order.
- The video page's `Video.duration` is optional in the page's type, but the search route always sets it. The model uses the route's record.
