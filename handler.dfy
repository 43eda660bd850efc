/**
 The lookup that every entry point runs inside its `try` block, as a function of
 what the network calls return. The TMDB details, the search page and the
 download response are inputs; each may instead be an exception. The reply holds
 the status, the JSON body as a value, and the requests issued in order, so that
 a property such as "no download after a 404" can be stated.
 */
module Handler {
  import opened Wrappers
  import opened Text
  import opened SubjectId
  import opened Slug
  import opened DetailPath

  /** The result of an awaited call: its value, or the message of what it threw. */
  datatype Outcome<T> = Ok(value: T) | Threw(message: string)

  /** The fields of the TMDB response the lookup reads: the title (`title` for a
      movie, `name` for a show) and the date (`release_date` or `first_air_date`).
      None stands for undefined or null. */
  datatype Metadata = Metadata(title: Option<string>, date: Option<string>)

  /** The body of the download response, passed through without being read. */
  datatype Payload = Payload(json: string)

  /** What the network calls return. */
  datatype Io = Io(tmdb: Outcome<Metadata>, search: Outcome<string>, download: Outcome<Payload>)

  /** A movie, or one episode of a show. */
  datatype Media = Movie | Episode(season: string, episode: string)

  datatype Request =
    | TmdbDetails(media: Media, tmdbId: string)
    | SearchPage(keyword: string)
    | Download(url: string, referer: Option<string>)

  /** The JSON body of a reply. */
  datatype Body =
    | Failure(error: string)
    | Found(title: string, year: Option<string>, subjectId: string, detailPath: string,
            detailsUrl: string, downloadData: Payload)

  datatype Reply = Reply(status: int, body: Body, requests: seq<Request>)

  const NotFoundMessage := "\U{274C} subjectId not found in HTML"
  const NoDetailPath := "\U{274C} Not found"
  const NoDetailsUrl := "\U{274C} Not available"
  /** What V8 throws when the subject-id extractor escapes an undefined title. */
  const UndefinedTitleMessage := "Cannot read properties of undefined (reading 'replace')"
  const DownloadBase := "https://moviebox.ng/wefeed-h5-bff/web/subject/download?subjectId="

  /** The text before the first `-`, or all of s when it has none. */
  function BeforeHyphen(s: string): (r: string)
    ensures |r| <= |s| && r == s[..|r|]
    ensures forall k :: 0 <= k < |r| ==> r[k] != '-'
    ensures |r| < |s| ==> s[|r|] == '-'
  {
    if s == [] || s[0] == '-' then [] else [s[0]] + BeforeHyphen(s[1..])
  }

  /** The year: the date's text before the first `-`, or absent when there is no date. */
  function YearOf(date: Option<string>): (r: Option<string>)
    ensures r.None? <==> date.None?
  {
    match date
    case None => None
    case Some(d) => Some(BeforeHyphen(d))
  }

  /** How a template literal shows a value that may be undefined. */
  function Show(o: Option<string>): string
  {
    match o
    case None => "undefined"
    case Some(s) => s
  }

  /** The search keyword: the title, a space and the year, each shown as a
      template literal shows it. */
  function Keyword(title: Option<string>, year: Option<string>): (r: string)
    ensures title.Some? && year.Some? ==> r == title.value + " " + year.value
    ensures title.None? ==> |r| >= 10 && r[..10] == "undefined "
    ensures year.None? ==> |r| >= 10 && r[|r| - 10..] == " undefined"
  {
    Show(title) + " " + Show(year)
  }

  function DetailsUrl(detailPath: Option<string>, subjectId: string): (r: Option<string>)
    ensures r.Some? <==> detailPath.Some? && detailPath.value != []
  {
    match Truthy(detailPath)
    case None => None
    case Some(p) => Some("https://moviebox.ng/movies/" + p + "?id=" + subjectId)
  }

  /** The download URL: season and episode for a show, `se=0&ep=0` for a movie. */
  function DownloadUrl(media: Media, subjectId: string): (r: string)
    ensures |DownloadBase| + |subjectId| <= |r| && r[..|DownloadBase| + |subjectId|] == DownloadBase + subjectId
  {
    match media
    case Movie => DownloadBase + subjectId + "&se=0&ep=0"
    case Episode(se, ep) => DownloadBase + subjectId + "&se=" + se + "&ep=" + ep
  }

  /** A string that may be null, or the sentinel when it is null or empty. */
  function OrElse(o: Option<string>, sentinel: string): (r: string)
    ensures o.None? || o.value == [] ==> r == sentinel
    ensures o.Some? && o.value != [] ==> r == o.value
  {
    match Truthy(o)
    case None => sentinel
    case Some(s) => s
  }

  /** The `try` block with its `catch`: TMDB details, search, subject id, detail
      path, download, reply. */
  function Lookup(media: Media, variant: SlugVariant, tmdbId: string, io: Io): (r: Reply)
    ensures r.status == 200 || r.status == 404 || r.status == 500
    ensures 1 <= |r.requests| <= 3 && r.requests[0] == TmdbDetails(media, tmdbId)
    ensures io.tmdb.Ok? ==>
      |r.requests| >= 2 && r.requests[1] == SearchPage(Keyword(io.tmdb.value.title, YearOf(io.tmdb.value.date)))
  {
    var r1 := [TmdbDetails(media, tmdbId)];
    match io.tmdb
    case Threw(m) => Reply(500, Failure(m), r1)
    case Ok(meta) =>
      var year := YearOf(meta.date);
      var r2 := r1 + [SearchPage(Keyword(meta.title, year))];
      match io.search
      case Threw(m) => Reply(500, Failure(m), r2)
      case Ok(html) =>
        match meta.title
        case None => Reply(500, Failure(UndefinedTitleMessage), r2)
        case Some(title) =>
          match ExtractSubjectId(html, title)
          case None => Reply(404, Failure(NotFoundMessage), r2)
          case Some(id) => Fetch(media, variant, html, title, year, id, io.download, r2)
  }

  /** The rest of the `try` block once the subject id is known: detail path,
      details URL, download, reply. */
  function Fetch(media: Media, variant: SlugVariant, html: string, title: string, year: Option<string>,
                 id: string, download: Outcome<Payload>, sent: seq<Request>): (r: Reply)
    ensures r.status == 200 || r.status == 500
    ensures r.requests == sent + [Download(DownloadUrl(media, id), DetailsUrl(DetailPathOf(html, id, SlugOf(variant, title)), id))]
  {
    var detailPath := DetailPathOf(html, id, SlugOf(variant, title));
    var detailsUrl := DetailsUrl(detailPath, id);
    var r3 := sent + [Download(DownloadUrl(media, id), detailsUrl)];
    match download
    case Threw(m) => Reply(500, Failure(m), r3)
    case Ok(payload) =>
      Reply(200, Found(title, year, id, OrElse(detailPath, NoDetailPath),
                       OrElse(detailsUrl, NoDetailsUrl), payload), r3)
  }
}
