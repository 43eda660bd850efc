/**
 The serverless TV function: it reads `tmdbId`, `season` and `episode` from the
 query string, answers 400 when one is missing, and otherwise runs the lookup
 for that episode with the serverless slug.
 */
module NetlifyTv {
  import opened Handler
  import opened Slug

  const MissingMessage := "Missing tmdbId, season, or episode"

  /** A query parameter is falsy when it is absent or the empty string. */
  predicate Missing(query: map<string, string>, key: string)
  {
    key !in query || query[key] == ""
  }

  function Handle(query: map<string, string>, io: Io): (r: Reply)
    ensures r.status == 400 <==>
      Missing(query, "tmdbId") || Missing(query, "season") || Missing(query, "episode")
    ensures r.status == 400 ==> r.body == Failure(MissingMessage) && r.requests == []
    ensures r.status != 400 ==>
      r == Lookup(Episode(query["season"], query["episode"]), Netlify, query["tmdbId"], io)
  {
    if Missing(query, "tmdbId") || Missing(query, "season") || Missing(query, "episode") then
      Reply(400, Failure(MissingMessage), [])
    else
      Lookup(Episode(query["season"], query["episode"]), Netlify, query["tmdbId"], io)
  }
}
