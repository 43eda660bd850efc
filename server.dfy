/**
 The always-on server's two routes. The route pattern supplies every path
 parameter, so there is no 400 reply; each route runs the lookup with the
 server slug.
 */
module Server {
  import opened Handler
  import opened Slug

  /** `GET /movie/:tmdbId`. */
  function MovieRoute(tmdbId: string, io: Io): (r: Reply)
    ensures r.status == 200 || r.status == 404 || r.status == 500
    ensures |r.requests| >= 1 && r.requests[0] == TmdbDetails(Movie, tmdbId)
  {
    Lookup(Movie, Server, tmdbId, io)
  }

  /** `GET /tv/:tmdbId/:season/:episode`. */
  function TvRoute(tmdbId: string, season: string, episode: string, io: Io): (r: Reply)
    ensures r.status == 200 || r.status == 404 || r.status == 500
    ensures |r.requests| >= 1 && r.requests[0] == TmdbDetails(Episode(season, episode), tmdbId)
  {
    Lookup(Episode(season, episode), Server, tmdbId, io)
  }
}
