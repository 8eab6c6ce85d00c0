/** The record shaping of the video search route
    (server/app/routers/youtube.py): each search hit, with the details the
    platform returned for it, becomes one `Video`. The calls to the platform's
    client are not modelled: their responses are inputs here. */
module YouTubeRouter {
  import opened Wrappers
  import opened Records
  import SavedRouter

  const DescriptionLimit := 200
  const Ellipsis := "..."
  const WatchPrefix := "https://www.youtube.com/watch?v="
  const UnknownDuration := "Unknown"
  const MissingKeyDetail := "YouTube API key not configured. Please check your environment variables."
  const UnexpectedPrefix := "An unexpected error occurred: "

  /** The fields of a hit's `snippet` that the route reads. */
  datatype Snippet = Snippet(
    title: string,
    description: string,
    mediumThumbnailUrl: string,
    channelTitle: string,
    publishedAt: string)

  /** One search hit: its video id, its snippet, and the `contentDetails.duration`
      of each item of the details response for that id. */
  datatype SearchHit = SearchHit(videoId: string, snippet: Snippet, detailDurations: seq<string>)

  /** A description over 200 characters becomes its first 200 and `...`. */
  function Truncated(description: string): (d: string)
    ensures |description| <= DescriptionLimit ==> d == description
    ensures |description| > DescriptionLimit ==>
              |d| == DescriptionLimit + |Ellipsis| && d[..DescriptionLimit] == description[..DescriptionLimit]
              && d[DescriptionLimit..] == Ellipsis
    ensures |d| <= DescriptionLimit + |Ellipsis|
  {
    if |description| > DescriptionLimit then description[..DescriptionLimit] + Ellipsis else description
  }

  /** Truncating is idempotent: a cut description keeps its first 200
      characters and its `...` when cut again. */
  lemma TruncatedIdempotent(description: string)
    ensures Truncated(Truncated(description)) == Truncated(description)
  {
    if |description| > DescriptionLimit {
      var once := Truncated(description);
      assert once[..DescriptionLimit] + Ellipsis == once;
    }
  }

  /** The watch URL: the prefix followed by the video id, which can be read back. */
  function WatchUrl(videoId: string): (url: string)
    ensures |url| == |WatchPrefix| + |videoId|
    ensures url[..|WatchPrefix|] == WatchPrefix
    ensures url[|WatchPrefix|..] == videoId
  {
    WatchPrefix + videoId
  }

  /** Different ids give different watch URLs. */
  lemma WatchUrlInjective(a: string, b: string)
    requires WatchUrl(a) == WatchUrl(b)
    ensures a == b
  {
    assert a == WatchUrl(a)[|WatchPrefix|..];
  }

  /** The first details item's duration, or `"Unknown"` when there is none. */
  function Duration(detailDurations: seq<string>): (d: string)
    ensures detailDurations != [] ==> d == detailDurations[0]
    ensures detailDurations == [] ==> d == UnknownDuration
  {
    if detailDurations != [] then detailDurations[0] else UnknownDuration
  }

  /** The record built for one hit. */
  function Shaped(hit: SearchHit): (v: Video)
    ensures v.id == hit.videoId && v.title == hit.snippet.title
    ensures v.description == Truncated(hit.snippet.description) && |v.description| <= 203
    ensures v.thumbnail == hit.snippet.mediumThumbnailUrl
    ensures v.channel == hit.snippet.channelTitle && v.publishedAt == hit.snippet.publishedAt
    ensures v.duration == Duration(hit.detailDurations)
    ensures v.url == WatchUrl(hit.videoId)
    ensures v.source == "youtube"
  {
    Video(hit.videoId, hit.snippet.title, Truncated(hit.snippet.description),
          hit.snippet.mediumThumbnailUrl, hit.snippet.channelTitle, hit.snippet.publishedAt,
          Duration(hit.detailDurations), WatchUrl(hit.videoId), "youtube")
  }

  /** The loop of the search route: one record per hit, in the order of the hits. */
  method ShapeResults(hits: seq<SearchHit>) returns (videos: seq<Video>)
    ensures |videos| == |hits|
    ensures forall i :: 0 <= i < |hits| ==> videos[i] == Shaped(hits[i])
  {
    videos := [];
    for k := 0 to |hits|
      invariant |videos| == k
      invariant forall i :: 0 <= i < k ==> videos[i] == Shaped(hits[i])
    {
      videos := videos + [Shaped(hits[k])];
    }
  }

  /** Every record the route returns is a video-platform record with a watch URL
      for its own id and a description of at most 203 characters. */
  lemma ResultsAreWellFormed(hits: seq<SearchHit>, videos: seq<Video>)
    requires |videos| == |hits|
    requires forall i :: 0 <= i < |hits| ==> videos[i] == Shaped(hits[i])
    ensures forall i :: 0 <= i < |videos| ==>
              videos[i].source == "youtube" && videos[i].url == WatchUrl(videos[i].id)
              && |videos[i].description| <= 203
  {
  }

  /** The route's error reply. */
  datatype ApiError = ApiError(status: int, detail: string)

  /** The text of an `HTTPException` under `str()`: its status, `": "`, and
      its detail. */
  function ExceptionText(e: ApiError): (t: string)
    ensures |t| > |e.detail|
    ensures t[|t| - |e.detail|..] == e.detail
  {
    SavedRouter.DecimalString(e.status) + ": " + e.detail
  }

  /** The route's `except Exception` handler: whatever was raised, the route's
      own `HTTPException` included, the reply is a 500 whose detail is the
      prefix followed by the text of what was raised. */
  function Caught(e: ApiError): (r: ApiError)
    ensures r.status == 500
    ensures |r.detail| > |UnexpectedPrefix| + |e.detail|
    ensures r.detail[..|UnexpectedPrefix|] == UnexpectedPrefix
    ensures r.detail[|UnexpectedPrefix|..] == ExceptionText(e)
  {
    ApiError(500, UnexpectedPrefix + ExceptionText(e))
  }

  /** `search_youtube_videos` as written: the missing-key `HTTPException` is
      raised inside the `try`, so the catch-all handler replaces it. */
  method SearchAsWritten(apiKey: Option<string>, hits: seq<SearchHit>) returns (r: Result<seq<Video>, ApiError>)
    ensures apiKey.None? || apiKey == Some("") ==> r == Err(Caught(ApiError(500, MissingKeyDetail)))
    ensures apiKey.Some? && apiKey.value != "" ==>
              r.Ok? && |r.value| == |hits| && forall i :: 0 <= i < |hits| ==> r.value[i] == Shaped(hits[i])
  {
    if apiKey.None? || apiKey.value == "" {
      return Err(Caught(ApiError(500, MissingKeyDetail)));
    }
    var videos := ShapeResults(hits);
    r := Ok(videos);
  }

  /** The client is never told that the key is missing: the reply it gets
      is `"An unexpected error occurred: 500: "` followed by the message, not the
      message the route meant to send. */
  lemma MissingKeyDetailSwallowed()
    ensures Caught(ApiError(500, MissingKeyDetail)).detail != MissingKeyDetail
    ensures Caught(ApiError(500, MissingKeyDetail)).detail
              == "An unexpected error occurred: 500: " + MissingKeyDetail
  {
    assert SavedRouter.Digits(500) == SavedRouter.Digits(50) + ['0'];
    assert SavedRouter.Digits(50) == SavedRouter.Digits(5) + ['0'];
  }

  /** The missing-key reply the route intends: a 500 carrying the message
      itself, which the handlers leave alone. */
  method Search(apiKey: Option<string>, hits: seq<SearchHit>) returns (r: Result<seq<Video>, ApiError>)
    ensures apiKey.None? || apiKey == Some("") ==> r.Err? && r.error.status == 500 && r.error.detail == MissingKeyDetail
    ensures apiKey.Some? && apiKey.value != "" ==>
              r.Ok? && |r.value| == |hits| && forall i :: 0 <= i < |hits| ==> r.value[i] == Shaped(hits[i])
  {
    if apiKey.None? || apiKey.value == "" {
      return Err(ApiError(500, MissingKeyDetail));
    }
    var videos := ShapeResults(hits);
    r := Ok(videos);
  }
}
