/**
 What the lookup promises about its replies.
 */
module HandlerProperties {
  import opened Wrappers
  import opened Text
  import opened SubjectId
  import opened Slug
  import opened SlugWords
  import opened SlugProperties
  import opened DetailPath
  import opened DetailPathProperties
  import opened Handler

  /** The search page and the title are available, so the subject-id extractor runs. */
  predicate Searched(io: Io)
  {
    io.tmdb.Ok? && io.search.Ok? && io.tmdb.value.title.Some?
  }

  function IdFound(io: Io): Option<string>
    requires Searched(io)
  {
    ExtractSubjectId(io.search.value, io.tmdb.value.title.value)
  }

  /** 404 exactly when the extractor finds no subject id; the reply then carries the
      fixed message, and neither the detail path nor the download is attempted. */
  lemma NotFoundIff(media: Media, variant: SlugVariant, tmdbId: string, io: Io)
    ensures var r := Lookup(media, variant, tmdbId, io);
      r.status == 404 <==> Searched(io) && IdFound(io).None?
    ensures var r := Lookup(media, variant, tmdbId, io);
      r.status == 404 ==>
        (r.body == Failure(NotFoundMessage) && |r.requests| == 2
         && !r.requests[0].Download? && !r.requests[1].Download?)
  {
  }

  /** The download is requested, as the third and last request, exactly when a
      subject id was found. The first two requests are never downloads. */
  lemma DownloadIff(media: Media, variant: SlugVariant, tmdbId: string, io: Io)
    ensures var r := Lookup(media, variant, tmdbId, io);
      (|r.requests| == 3 <==> Searched(io) && IdFound(io).Some?)
      && !r.requests[0].Download? && (|r.requests| >= 2 ==> !r.requests[1].Download?)
  {
    var r := Lookup(media, variant, tmdbId, io);
    if !(Searched(io) && IdFound(io).Some?) {
      assert |r.requests| <= 2;
    }
  }

  /** The download URL is built from the subject id the extractor found: the id, then
      the season and episode of a show, or season 0 and episode 0 for a movie. The
      referer is the details URL of the detail path. */
  lemma DownloadRequest(media: Media, variant: SlugVariant, tmdbId: string, io: Io)
    requires Searched(io) && IdFound(io).Some?
    ensures var r := Lookup(media, variant, tmdbId, io);
      var id := IdFound(io).value;
      var path := DetailPathOf(io.search.value, id, SlugOf(variant, io.tmdb.value.title.value));
      && IsSubjectId(id)
      && r.requests[2] == Download(DownloadUrl(media, id), DetailsUrl(path, id))
      && (media.Episode? ==>
            r.requests[2].url == DownloadBase + id + "&se=" + media.season + "&ep=" + media.episode)
      && (media.Movie? ==> r.requests[2].url == DownloadBase + id + "&se=0&ep=0")
  {
  }

  /** 500 exactly when a call throws before the reply, or the title is missing; the
      body carries the message of the first failure. */
  lemma FailureIff(media: Media, variant: SlugVariant, tmdbId: string, io: Io)
    ensures var r := Lookup(media, variant, tmdbId, io);
      r.status == 500 <==>
        io.tmdb.Threw? || io.search.Threw? || (io.tmdb.Ok? && io.tmdb.value.title.None?)
        || (Searched(io) && IdFound(io).Some? && io.download.Threw?)
    ensures var r := Lookup(media, variant, tmdbId, io);
      r.status == 500 ==>
        (r.body.Failure? && r.body.error ==
           if io.tmdb.Threw? then io.tmdb.message
           else if io.search.Threw? then io.search.message
           else if io.tmdb.value.title.None? then UndefinedTitleMessage
           else io.download.message)
  {
  }

  /** 200 exactly when every step succeeds; the body then holds the title, the year
      before the first `-` of the date, the subject id of 16 or more digits, and the
      download data unchanged. */
  lemma SuccessIff(media: Media, variant: SlugVariant, tmdbId: string, io: Io)
    ensures var r := Lookup(media, variant, tmdbId, io);
      r.status == 200 <==> Searched(io) && IdFound(io).Some? && io.download.Ok?
    ensures var r := Lookup(media, variant, tmdbId, io);
      r.status == 200 ==>
        && r.body.Found?
        && r.body.title == io.tmdb.value.title.value
        && r.body.year == YearOf(io.tmdb.value.date)
        && r.body.subjectId == IdFound(io).value
        && IsSubjectId(r.body.subjectId)
        && r.body.downloadData == io.download.value
  {
  }

  /** A title-derived slug has no character in common with the sentinels' first
      character, so a real detail path never looks like a sentinel. */
  lemma PathIsNotSentinel(path: string, slug: string)
    requires |path| > |slug| && CiEq(path[..|slug|], slug) && IsSlug(slug)
    ensures path != NoDetailPath && path != []
  {
    assert slug[0] == '-' || IsLowerAlnum(slug[0]);
    assert Fold(path[0]) == Fold(slug[0]);
    FoldFixesNonLetters(path[0]);
  }

  /** The two fallbacks of the reply, for a detail path that is absent or starts
      with the slug. */
  lemma Fallbacks(path: Option<string>, id: string, slug: string)
    requires IsSlug(slug)
    requires path.Some? ==> |path.value| > |slug| && CiEq(path.value[..|slug|], slug)
    ensures var shown := OrElse(path, NoDetailPath);
      && (shown == NoDetailPath <==> path.None?)
      && (OrElse(DetailsUrl(path, id), NoDetailsUrl) == NoDetailsUrl <==> path.None?)
      && (path.Some? ==>
            shown == path.value
            && OrElse(DetailsUrl(path, id), NoDetailsUrl) == "https://moviebox.ng/movies/" + shown + "?id=" + id)
  {
    if path.Some? {
      PathIsNotSentinel(path.value, slug);
      var url := "https://moviebox.ng/movies/" + path.value + "?id=" + id;
      assert url[0] == 'h';
    }
  }

  /** On success, the detail path falls back to its sentinel exactly when the
      extractor found none, and the details URL falls back exactly when the detail
      path did; otherwise the URL is the moviebox page of that path and id, and the
      path starts with the title's slug and holds no quote. */
  lemma SuccessDetails(media: Media, variant: SlugVariant, tmdbId: string, io: Io)
    requires Lookup(media, variant, tmdbId, io).status == 200
    ensures var r := Lookup(media, variant, tmdbId, io);
      var slug := SlugOf(variant, io.tmdb.value.title.value);
      && (r.body.detailPath == NoDetailPath <==> DetailPathOf(io.search.value, r.body.subjectId, slug).None?)
      && (r.body.detailsUrl == NoDetailsUrl <==> r.body.detailPath == NoDetailPath)
      && (r.body.detailPath != NoDetailPath ==>
            && r.body.detailsUrl == "https://moviebox.ng/movies/" + r.body.detailPath + "?id=" + r.body.subjectId
            && |r.body.detailPath| > |slug|
            && CiEq(r.body.detailPath[..|slug|], slug)
            && NoQuote(r.body.detailPath))
  {
    SuccessIff(media, variant, tmdbId, io);
    var html, title := io.search.value, io.tmdb.value.title.value;
    var id := IdFound(io).value;
    var slug := SlugOf(variant, title);
    var path := DetailPathOf(html, id, slug);
    SlugShape(variant, title);
    if path.Some? {
      DetailPathOfTitle(html, id, title, variant);
    }
    Fallbacks(path, id, slug);
  }

  /** The year of a date `y-...` whose first part has no `-` is that part; a date
      with no `-` at all is its own year. */
  lemma YearOfDate(y: string, rest: Option<string>)
    requires forall k :: 0 <= k < |y| ==> y[k] != '-'
    ensures rest.Some? ==> YearOf(Some(y + "-" + rest.value)) == Some(y)
    ensures rest.None? ==> YearOf(Some(y)) == Some(y)
  {
    var d := if rest.Some? then y + "-" + rest.value else y;
    var r := BeforeHyphen(d);
    assert d[..|y|] == y;
    if rest.Some? {
      assert d[|y|] == '-';
    }
  }

  /** A movie's download is requested as episode 0 of season 0. */
  lemma MovieIsEpisodeZero(id: string)
    ensures DownloadUrl(Movie, id) == DownloadUrl(Episode("0", "0"), id)
  {
  }
}
