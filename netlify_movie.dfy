/**
 The serverless movie function: its query parameters may be absent altogether
 (`event.queryStringParameters || {}`); it answers 400 without `tmdbId`, and
 otherwise runs the lookup for the movie with the serverless slug.
 */
module NetlifyMovie {
  import opened Wrappers
  import opened Handler
  import opened Slug

  const MissingMessage := "Missing tmdbId"

  function Handle(params: Option<map<string, string>>, io: Io): (r: Reply)
    ensures var query := params.GetOr(map[]);
      r.status == 400 <==> "tmdbId" !in query || query["tmdbId"] == ""
    ensures r.status == 400 ==> r.body == Failure(MissingMessage) && r.requests == []
    ensures r.status != 400 ==>
      r == Lookup(Movie, Netlify, params.value["tmdbId"], io)
  {
    var query := params.GetOr(map[]);
    if "tmdbId" !in query || query["tmdbId"] == "" then
      Reply(400, Failure(MissingMessage), [])
    else
      Lookup(Movie, Netlify, query["tmdbId"], io)
  }
}
