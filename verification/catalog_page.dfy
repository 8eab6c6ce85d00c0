/** The video page (client/src/pages/YouTube.tsx): search results overlaid
    with the saved set and the progress rows, and the actions on each video. */
module CatalogPage {
  import opened Wrappers
  import opened Records
  import LibraryPage

  // ---------------------------------------------------------------------------
  // The overwrite rule of `updateVideoProgress`
  // ---------------------------------------------------------------------------

  /** `{...current, ...progress}`: every field the partial supplies replaces the
      current one, the rest are kept. Nothing is inferred from the percent. */
  function Overwrite(current: Row, partial: Partial): (next: Row)
    ensures partial.status.Some? ==> next.status == partial.status.value
    ensures partial.status.None? ==> next.status == current.status
    ensures partial.percent.Some? ==> next.percent == partial.percent.value
    ensures partial.percent.None? ==> next.percent == current.percent
    ensures partial.updatedAt.Some? ==> next.updatedAt == partial.updatedAt.value
    ensures partial.updatedAt.None? ==> next.updatedAt == current.updatedAt
  {
    Row(partial.status.GetOr(current.status),
        partial.percent.GetOr(current.percent),
        partial.updatedAt.GetOr(current.updatedAt))
  }

  /** Overwriting with the same partial twice is overwriting once. */
  lemma OverwriteIdempotent(current: Row, partial: Partial)
    ensures Overwrite(Overwrite(current, partial), partial) == Overwrite(current, partial)
  {
  }

  /** An empty partial changes nothing. */
  lemma OverwriteEmpty(current: Row)
    ensures Overwrite(current, Partial(None, None, None)) == current
  {
  }

  /** Reaching 100% through this page keeps whatever status the row had: with
      no status supplied, the status is the current one whatever the percent. */
  lemma OverwriteNeverInfersDone(current: Row, percent: int)
    ensures Overwrite(current, Partial(None, Some(percent), None)).status == current.status
  {
  }

  /** The two pages' rules differ: from `{in_progress, 75}`, sending 100% gives
      `done` on the library page and keeps `in_progress` on the video page. */
  lemma MergeRulesDisagree(t: string, now: string)
    ensures var current := Row(InProgress, 75, t);
            var partial := Partial(None, Some(100), None);
            && LibraryPage.Merge(current, partial, now).status == Done
            && Overwrite(current, partial).status == InProgress
  {
  }

  /** With an explicit status and a percent below 100, both rules give the
      same status and percent. */
  lemma RulesAgreeBelowHundred(current: Row, partial: Partial, now: string)
    requires partial.status.Some? && partial.percent.Some? && partial.percent.value < 100
    ensures LibraryPage.Merge(current, partial, now).status == Overwrite(current, partial).status
    ensures LibraryPage.Merge(current, partial, now).percent == Overwrite(current, partial).percent
  {
  }

  // ---------------------------------------------------------------------------
  // Render-time defaults
  // ---------------------------------------------------------------------------

  /** `progress?.percent || 0`. */
  function ShownPercent(progress: map<string, Row>, id: string): (p: int)
    ensures id !in progress ==> p == 0
    ensures id in progress ==> p == progress[id].percent
  {
    if id in progress then progress[id].percent else 0
  }

  /** `progress?.status || 'not_started'`. */
  function ShownStatus(progress: map<string, Row>, id: string): (s: Status)
    ensures id !in progress ==> s == NotStarted
    ensures id in progress ==> s == progress[id].status
  {
    if id in progress then progress[id].status else NotStarted
  }

  /** The progress bar is drawn only for a positive percent, so only for a
      video that has a row. */
  predicate ShowsProgressBar(progress: map<string, Row>, id: string)
    ensures ShowsProgressBar(progress, id) <==> id in progress && progress[id].percent > 0
  {
    ShownPercent(progress, id) > 0
  }

  /** A video without a row shows no bar, 0% and `not_started`, the same
      defaults the library page renders. */
  lemma DefaultsMatchLibrary(progress: map<string, Row>, id: string, now: string)
    ensures ShownPercent(progress, id) == DisplayRow(progress, id, now).percent
    ensures ShownStatus(progress, id) == DisplayRow(progress, id, now).status
    ensures id !in progress ==> !ShowsProgressBar(progress, id)
  {
  }

  /** The "+25%" button's partial. */
  function AdvancePartial(progress: map<string, Row>, id: string): (p: Partial)
    ensures p.status == None && p.updatedAt == None
    ensures p.percent == Some(Advanced(ShownPercent(progress, id)))
  {
    Partial(None, Some(Advanced(ShownPercent(progress, id))), None)
  }

  /** "+25%" on a video without a row yields `{in_progress, 25}` stamped with
      the time of the click; on a row at 75% or more it yields 100% and keeps
      the row's status. */
  lemma AdvanceOutcome(progress: map<string, Row>, id: string, now: string)
    ensures id !in progress ==>
              Overwrite(CurrentForUpdate(progress, id, now), AdvancePartial(progress, id)) == Row(InProgress, 25, now)
    ensures id in progress && progress[id].percent >= 75 ==>
              Overwrite(CurrentForUpdate(progress, id, now), AdvancePartial(progress, id))
                == Row(progress[id].status, 100, progress[id].updatedAt)
  {
  }

  // ---------------------------------------------------------------------------
  // The saved set
  // ---------------------------------------------------------------------------

  /** `items.filter(item => item.source === 'youtube').map(item => item.id)`. */
  function YouTubeIds(items: seq<Item>): (ids: seq<string>)
    ensures |ids| <= |items|
  {
    if items == [] then []
    else
      var rest := YouTubeIds(items[1..]);
      if items[0].source == Some("youtube") then [items[0].id] + rest else rest
  }

  /** The ids kept are exactly those of items whose source is `'youtube'`. */
  lemma {:induction false} YouTubeIdsExactly(items: seq<Item>, id: string)
    ensures id in YouTubeIds(items) <==>
              exists i :: 0 <= i < |items| && items[i].source == Some("youtube") && items[i].id == id
  {
    if items != [] {
      YouTubeIdsExactly(items[1..], id);
      if id in YouTubeIds(items[1..]) {
        var i :| 0 <= i < |items| - 1 && items[1..][i].source == Some("youtube") && items[1..][i].id == id;
        assert items[i + 1] == items[1..][i];
      }
      if exists i :: 0 <= i < |items| && items[i].source == Some("youtube") && items[i].id == id {
        var i :| 0 <= i < |items| && items[i].source == Some("youtube") && items[i].id == id;
        if i > 0 { assert items[1..][i - 1] == items[i]; }
      }
    }
  }

  /** `YouTubeIdsExactly` for every id at once. */
  lemma YouTubeIdsAll(items: seq<Item>)
    ensures forall id :: id in YouTubeIds(items) <==>
              exists i :: 0 <= i < |items| && items[i].source == Some("youtube") && items[i].id == id
  {
    forall id {
      YouTubeIdsExactly(items, id);
    }
  }

  /** The saved set `loadSavedVideos` builds: exactly the ids of the fetched
      items whose source is `'youtube'`. */
  function SavedVideoIds(items: seq<Item>): (ids: set<string>)
    ensures forall id :: id in ids <==>
              exists i :: 0 <= i < |items| && items[i].source == Some("youtube") && items[i].id == id
  {
    YouTubeIdsAll(items);
    set id | id in YouTubeIds(items)
  }

  /** The body `saveVideo` posts: `author` is the channel, `source` is always
      `'youtube'`, and `year` is the publication year (absent when the date does
      not parse, since `NaN` is sent as `null`). */
  function SavePayload(video: Video, year: Option<int>): (p: Item)
    ensures p.id == video.id && p.title == video.title && p.url == Some(video.url)
    ensures p.author == Some(video.channel)
    ensures p.source == Some("youtube")
    ensures year.Some? <==> p.year.Some?
    ensures year.Some? ==> p.year == Some(YearNumber(year.value))
  {
    Item(video.id, video.title, Some(video.channel),
         if year.Some? then Some(YearNumber(year.value)) else None,
         Some("youtube"), Some(video.url))
  }

  // ---------------------------------------------------------------------------
  // The page's state
  // ---------------------------------------------------------------------------

  const SearchFailed := "Failed to fetch videos"
  const TrendingFailed := "Failed to fetch trending videos"

  /** The page's state: the results shown, the error line, the saved set and
      the progress rows. */
  class CatalogView {
    var videos: seq<Video>
    var error: Option<string>
    var saved: set<string>
    var progress: map<string, Row>

    constructor ()
      ensures videos == [] && error == None && saved == {} && progress == map[]
    {
      videos, error, saved, progress := [], None, {}, map[];
    }

    /** `searchVideos` and `loadTrending`: an error or non-OK response sets the
        error line and keeps the results; otherwise the results are replaced
        (by `[]` when the body has no items) and the error is cleared. */
    method ShowResults(response: Response<seq<Video>>, failure: string)
      modifies this
      ensures response.NoResponse? ==> videos == old(videos) && error == Some(failure)
      ensures response.Response? ==> videos == response.field.GetOr([]) && error == None
      ensures saved == old(saved) && progress == old(progress)
    {
      error := None;
      match response {
        case NoResponse =>
          error := Some(failure);
        case Response(items) =>
          videos := items.GetOr([]);
      }
    }

    method SearchVideos(response: Response<seq<Video>>)
      modifies this
      ensures response.NoResponse? ==> videos == old(videos) && error == Some(SearchFailed)
      ensures response.Response? ==> videos == response.field.GetOr([]) && error == None
      ensures saved == old(saved) && progress == old(progress)
    {
      ShowResults(response, SearchFailed);
    }

    method LoadTrending(response: Response<seq<Video>>)
      modifies this
      ensures response.NoResponse? ==> videos == old(videos) && error == Some(TrendingFailed)
      ensures response.Response? ==> videos == response.field.GetOr([]) && error == None
      ensures saved == old(saved) && progress == old(progress)
    {
      ShowResults(response, TrendingFailed);
    }

    /** `loadTrending` against this server, which has no trending route: the
        request is answered 404, `!r.ok` throws, and only the error line changes. */
    method LoadTrendingFromServer()
      modifies this
      ensures videos == old(videos) && error == Some(TrendingFailed)
      ensures saved == old(saved) && progress == old(progress)
    {
      LoadTrending(NoResponse);
    }

    /** `loadSavedVideos`: the saved set becomes the ids of the fetched items whose
        source is `'youtube'`; a failed request or a body without items (where
        `.filter` throws) leaves it as it was. */
    method LoadSavedVideos(response: Response<seq<Item>>)
      modifies this
      ensures response.Response? && response.field.Some? ==> saved == SavedVideoIds(response.field.value)
      ensures !(response.Response? && response.field.Some?) ==> saved == old(saved)
      ensures videos == old(videos) && error == old(error) && progress == old(progress)
    {
      if response.Response? && response.field.Some? {
        saved := SavedVideoIds(response.field.value);
      }
    }

    /** `loadVideoProgress`: the rows fetched, or `{}` when the body has none; a
        failed request leaves them as they were. */
    method LoadVideoProgress(response: Response<map<string, Row>>)
      modifies this
      ensures response.Response? ==> progress == response.field.GetOr(map[])
      ensures response.NoResponse? ==> progress == old(progress)
      ensures videos == old(videos) && error == old(error) && saved == old(saved)
    {
      if response.Response? {
        progress := response.field.GetOr(map[]);
      }
    }

    /** `saveVideo`: posts the payload; once the request has come back (whatever
        its status) exactly `video.id` joins the saved set. */
    method SaveVideo(video: Video, year: Option<int>, delivered: bool) returns (payload: Item)
      modifies this
      ensures payload == SavePayload(video, year)
      ensures saved == if delivered then old(saved) + {video.id} else old(saved)
      ensures videos == old(videos) && error == old(error) && progress == old(progress)
    {
      payload := SavePayload(video, year);
      if delivered {
        saved := saved + {video.id};
      }
    }

    /** `unsaveVideo`: once the request has come back, exactly `id` leaves the set. */
    method UnsaveVideo(id: string, delivered: bool)
      modifies this
      ensures saved == if delivered then old(saved) - {id} else old(saved)
      ensures videos == old(videos) && error == old(error) && progress == old(progress)
    {
      if delivered {
        saved := saved - {id};
      }
    }

    /** `updateVideoProgress`: the current row (or `{in_progress, 0, now}`) with
        the supplied fields replaced is sent, and once the request has come back
        it is stored under `id`; no other row changes. */
    method UpdateVideoProgress(id: string, partial: Partial, now: string, delivered: bool) returns (body: Row)
      modifies this
      ensures body == Overwrite(CurrentForUpdate(old(progress), id, now), partial)
      ensures progress == if delivered then old(progress)[id := body] else old(progress)
      ensures videos == old(videos) && error == old(error) && saved == old(saved)
    {
      body := Overwrite(CurrentForUpdate(progress, id, now), partial);
      if delivered {
        progress := progress[id := body];
      }
    }

    /** The "+25%" button on `video`. */
    method Advance(video: Video, now: string, delivered: bool) returns (body: Row)
      modifies this
      ensures body == Overwrite(CurrentForUpdate(old(progress), video.id, now), AdvancePartial(old(progress), video.id))
      ensures body.percent <= 100
      ensures progress == if delivered then old(progress)[video.id := body] else old(progress)
      ensures videos == old(videos) && error == old(error) && saved == old(saved)
    {
      body := UpdateVideoProgress(video.id, AdvancePartial(progress, video.id), now, delivered);
    }
  }

  /** Saving a video then unsaving it leaves it out of the saved set and every
      other id as it was. */
  method SaveThenUnsaveVideo(view: CatalogView, video: Video, year: Option<int>)
    modifies view
    ensures video.id !in view.saved
    ensures view.saved == old(view.saved) - {video.id}
  {
    var _ := view.SaveVideo(video, year, true);
    view.UnsaveVideo(video.id, true);
  }
}
