# Moviebox relay: a verified model of its string-processing core

The relay answers a request for a movie or a TV episode as follows:

1. It looks the title and date up on TMDB.
2. It searches moviebox.ng for `"<title> <year>"`.
3. It pulls the subject id and the detail-page path out of the search page's HTML.
4. It fetches the download metadata and replies with a JSON body.

The same core appears in three entry points: the serverless TV function (`netlify/functions/tv.js`), the serverless movie function (`netlify/functions/movie.js`) and the always-on Express server (`server.js`). The two serverless files have identical extractors, so one model serves both. The server's extractors differ in the slug and in a truthiness test on the detail path.

The model has five parts:

- **Subject-id extractor** (`SubjectId`). It finds the leftmost match of the case-insensitive regex `"(\d{16,})",\s*"[^"]*",\s*"<escaped title>"` in the HTML.
  - At a fixed start, each quantified part of the pattern is followed by a character outside its class. So a match there is unique, and the matcher follows runs (`SubjectMatchAt`).
  - A declarative form, `PatternAt`, names the four junction points. `MatchAtIffPattern` proves the two forms agree.
  - A third form, `Record`, is the matched text built from its parts. It characterises the extractor from outside: a record at the head of the page is what gets returned, and every returned id is the id of the leftmost record.
  - The title is escaped with the source's character class (`RegexEscape.Escape`). `EscapeIsLiteral` proves that the escaped pattern denotes exactly the title.
- **Slug builder** (`Slug`). The steps are trim, lower-case, delete `'` and `’`, rewrite `&` as `and`, collapse each run outside `[a-z0-9]` to `-`, strip edge hyphens and append `-`. The delete and rewrite steps exist only in the serverless variant.
  - The reference definition (`SlugWords`) is the title's words joined with `-`, followed by `-`.
  - `SlugProperties.SlugifyIsJoinedWords` proves the pipeline equals the reference definition. `SlugProperties` and `SlugExamples` derive the slug shape, the example in the server's comment ("The Amateur") and two further titles with an apostrophe and an ampersand.
- **Detail-path extractor** (`DetailPath`). It finds the first `"<subjectId>"` and keeps the text before it. It then runs the global regex `"((?:<slug>)[^"]+)"` over that text with a `while` loop that resumes at the regex's lastIndex, and the last group wins.
  - `DetailPath.LastMatch` is that loop. It is proved against `AllMatches`, the list of non-overlapping groups in scan order.
  - The slug is ASCII and the regex's `i` flag never folds a non-ASCII character onto an ASCII one, so ASCII folding is exact here.
  - The server copy also tests the truthiness of `lastMatch`. `LastGroupNonEmpty` proves that test changes nothing.
- **Lookup** (`Handler`). This is the shared `try` block written as a function of what the network calls return. It is fed:
  - the TMDB metadata or an exception;
  - the search page or an exception;
  - the download payload or an exception.

  It returns the status, the JSON body as a value, and the requests issued in order. A missing title makes the subject-id extractor throw when it escapes the title, which gives a 500 reply with V8's message.
- **Entry points** (`NetlifyTv`, `NetlifyMovie`, `Server`). These add each entry point's parameter checks (the 400 replies) and choose the media kind and the slug variant.

## Model

| member | source | states |
|---|---|---|
| SubjectId.ExtractSubjectId | netlify/functions/tv.js:3-7 | A returned id has at least 16 characters, all decimal digits. The result is None exactly when the pattern matches nowhere. Otherwise it is the digit group of the leftmost match. |
| SubjectId.MatchAtIffPattern | netlify/functions/tv.js:4 | The run-following matcher accepts at p exactly when the regex pattern, stated by its junction points, matches at p. |
| SubjectId.SubjectMatchAt | netlify/functions/tv.js:4 | The regex at one start, read by following each run to its end. A match starts with a quote, and the page holds at least 24 characters from p plus the title. It is proved equal to the pattern in SubjectId.MatchAtIffPattern. |
| SubjectId.RecordIsExtracted | netlify/functions/tv.js:4-6 | A page that starts with `"id",ws"field",ws"shown"` returns id, whatever follows. This needs ≥16 digits, whitespace runs, a quote-free field, and a shown title equal to the title up to ASCII case. |
| SubjectId.ExtractedIsLeftmostRecord | netlify/functions/tv.js:4-6 | Every returned id is the id of such a record in the page, at the leftmost match start. |
| SubjectId.ExtractedIdIsQuoted | netlify/functions/tv.js:4 | A returned id occurs in the page as `"id"`. |
| SubjectId.DotInTitleIsLiteral | netlify/functions/tv.js:4 | Regex metacharacters in the title match literally: title `A.B` matches a record showing `a.b` and not one showing `AxB`. |
| RegexEscape.EscapeIsLiteral | netlify/functions/tv.js:4 | Escaping the title with the source's character class gives a pattern that denotes exactly the title. |
| RegexEscape.Escape | netlify/functions/tv.js:4 | Puts a backslash before each of the source's 16 escaped characters, so the pattern is never shorter than the title. What the escaped pattern denotes is proved in RegexEscape.EscapeIsLiteral. |
| Text.FirstOccurrence | netlify/functions/tv.js:19-20 | The index of the leftmost occurrence of the needle, or None exactly when it occurs nowhere. |
| SlugProperties.SlugifyIsJoinedWords | netlify/functions/tv.js:15-17 | Collapsing, stripping and appending `-` gives the words of the text joined with `-`, plus `-`. The result has the slug shape: only `[a-z0-9-]`, a trailing `-`, no `--`, and a leading `-` only when the slug is `-`. |
| Slug.NetlifySlug | netlify/functions/tv.js:10-17 | The serverless slug: trim, lower-case, delete apostrophes, spell `&` as `and`, collapse separator runs, strip edge hyphens and append `-`. It always ends in `-`. Its full shape is proved in SlugProperties.SlugShape, and it is shown equal to the words joined with `-` in SlugProperties.SlugifyIsJoinedWords. |
| Slug.ServerSlug | server.js:18 | The server slug: the same steps without the apostrophe and `&` steps. It always ends in `-`. Its shape is proved in SlugProperties.SlugShape. |
| SlugProperties.SlugShape | netlify/functions/tv.js:10-17 | Both variants' slugs have the slug shape. |
| SlugProperties.SlugIsLiteral | netlify/functions/tv.js:23 | A slug holds no regex syntax character, so inside `(?:...)` it denotes itself. |
| SlugProperties.NetlifyJoinsAtApostrophe | netlify/functions/tv.js:13 | The serverless slug deletes an apostrophe (`'` or `’`) between two words and joins them. |
| SlugProperties.NetlifySpellsAmpersand | netlify/functions/tv.js:14 | The serverless slug of `a & b` is `a-and-b-`. |
| SlugProperties.ServerSplitsAtApostrophe | server.js:18 | The server slug splits two words at an apostrophe: `a'b` gives `a-b-`. |
| SlugProperties.ServerDropsAmpersand | server.js:18 | The server slug of `a & b` is `a-b-`. |
| SlugProperties.VariantsAgree | server.js:18 | On a title with no apostrophe and no `&`, the two variants build the same slug. |
| SlugExamples.SlugifyInterleave | netlify/functions/tv.js:15-17 | Words with any separator runs between them slug to the words joined with `-`, plus `-`. |
| SlugExamples.SlugIgnoresCase | netlify/functions/tv.js:10-12 | Both slugs depend on the title only up to ASCII case. |
| SlugExamples.NetlifySlugOfFiveWords | netlify/functions/tv.js:10-17 | The serverless slug of `a b'c d & e` is `a-bc-d-and-e-`, for any words. |
| SlugExamples.ServerSlugOfWords | server.js:18 | The server slug of words separated by runs with no capital letter is the words joined with `-`, plus `-`. |
| SlugExamples.NetlifySlugOfTestAndGo | netlify/functions/tv.js:10-17 | "The Amateur's Test & Go" gives `the-amateurs-test-and-go-`. |
| SlugExamples.ServerSlugOfTheAmateur | server.js:17-18 | "The Amateur" gives `the-amateur-`. |
| SlugExamples.ServerSlugOfTheAmateurs | server.js:18 | "The Amateur's" gives `the-amateur-s-`. |
| DetailPath.ExecFinds | netlify/functions/tv.js:23-25 | One `exec` reports the leftmost match at or after lastIndex, its group, and a lastIndex just past the closing quote. It fails only when no match is left. |
| DetailPath.PathMatchAt | netlify/functions/tv.js:23 | The regex `"((?:slug)[^"]+)"` at one start: a match starts with a quote, and there is room for the slug, one more character and the closing quote. Its group is described in DetailPath.GroupShape. |
| DetailPath.FindPath | netlify/functions/tv.js:25 | The leftmost match at or after i, or None exactly when none starts in the rest of the text. |
| DetailPath.Exec | netlify/functions/tv.js:25 | One exec at lastIndex `from`: a match moves lastIndex forward by at least three characters and never past the end. Its full result is described in DetailPath.ExecFinds. |
| DetailPath.ScanBound | netlify/functions/tv.js:24-27 | AllMatches, the groups the scan reports in order, has at most one group for every three characters scanned, because matches do not overlap. That each group is a group of a match is proved in DetailPath.AllMatchesSound. |
| DetailPath.LastMatch | netlify/functions/tv.js:24-27 | The loop leaves in `lastMatch` the last of the non-overlapping groups that the global regex reports, or None when there are none. |
| DetailPath.DetailPathOf | netlify/functions/tv.js:19-21 | When `"subjectId"` does not occur in the page, there is no detail path. |
| DetailPath.ExtractDetailPath | server.js:16-41 | Both copies of the extractor return the last group found before the first `"subjectId"`, with the server copy's truthiness test included. |
| DetailPath.AllMatchesSound | netlify/functions/tv.js:25-26 | Every group the scan reports is the group of a match in the scanned text. |
| DetailPath.GroupShape | netlify/functions/tv.js:23 | A group is longer than the slug, starts with it up to case, and has no quote after it. It sits in the text between two quotes. |
| DetailPath.LastGroupNonEmpty | server.js:35-40 | Every group is non-empty, so the server copy's `if (lastMatch)` returns the same result as the serverless copy. |
| DetailPath.Truthy | server.js:35 | A string-or-null is kept exactly when it is a non-empty string, and is otherwise null. |
| DetailPathProperties.LastIsLast | netlify/functions/tv.js:24-28 | The last group is that of a match after whose closing quote no further match starts. |
| DetailPathProperties.DetailPathSound | netlify/functions/tv.js:22-28 | A returned path is longer than the slug and starts with it up to case. It occurs quoted in the page and closes before the first `"subjectId"`. No match starts between its closing quote and the id. |
| DetailPathProperties.MatchGivesPath | netlify/functions/tv.js:22-28 | A match that starts in the text before the first `"subjectId"` makes the detail path present. |
| DetailPathProperties.PathIffMatch | netlify/functions/tv.js:19-28 | Once the quoted id occurs, the detail path is present exactly when the regex matches somewhere in the text before it. |
| DetailPathProperties.DetailPathOfTitle | netlify/functions/tv.js:10-28 | For both variants' slugs, a returned path starts with the slug and contains no quote, and the quoted id occurs in the page. |
| DetailPathProperties.IgnoresTextAfterId | netlify/functions/tv.js:19-22 | Two pages that agree up to and including the first `"subjectId"` give the same detail path. |
| DetailPathProperties.AppendKeepsPath | netlify/functions/tv.js:22 | Appending text to a page that contains the quoted id leaves the detail path unchanged. |
| DetailPathProperties.NonOverlapping | netlify/functions/tv.js:25-27 | In `"the-x"the-y""42"`, the first match consumes its closing quote, so the path is `the-x` and `the-y` is never found. |
| DetailPathProperties.LastMatchWins | netlify/functions/tv.js:24-28 | With two separate matches before the id, the second one (`The-Y`, matched regardless of case) is the path. |
| Handler.BeforeHyphen | netlify/functions/movie.js:46 | The result is a prefix with no `-`, followed by `-` or the end of the text. |
| Handler.YearOf | netlify/functions/movie.js:46 | The year is absent exactly when the date is. |
| Handler.DetailsUrl | netlify/functions/tv.js:68 | A details URL exists exactly when the detail path is a non-empty string. |
| Handler.Keyword | netlify/functions/tv.js:47 | The search keyword is the title, a space and the year. A missing title shows as a leading `undefined`, and a missing year as a trailing `undefined`. Handler.Lookup states that it is the keyword of the search request. |
| Handler.DownloadUrl | netlify/functions/tv.js:71 | The download URL starts with the download base followed by the subject id. The season and episode part is stated in HandlerProperties.DownloadRequest. |
| Handler.OrElse | netlify/functions/tv.js:109-110 | The value, when it is a non-empty string. Otherwise the sentinel. |
| Handler.Lookup | netlify/functions/tv.js:40-117 | The status is 200, 404 or 500. The first request is always the TMDB lookup, and at most three requests are made. Once TMDB answers, the second request is the search for the title and the year of its date. |
| Handler.Fetch | netlify/functions/tv.js:66-112 | Once an id is known, the download is the last request issued. Its URL is built from that id and its referer is the details URL. |
| HandlerProperties.NotFoundIff | netlify/functions/tv.js:59-64 | 404 comes exactly when the metadata, title and page are there but no subject id is found. The body is then the fixed message, and neither request made is a download. |
| HandlerProperties.DownloadIff | netlify/functions/tv.js:61-76 | A third request is made exactly when a subject id was found, and the first two requests are never downloads. |
| HandlerProperties.DownloadRequest | netlify/functions/tv.js:66-83 | When an id is found, it has ≥16 digits. The download goes to the base URL, the id and `&se=<season>&ep=<episode>` for a show, or `&se=0&ep=0` for a movie (netlify/functions/movie.js:69). The referer is the details URL of the detail path. |
| HandlerProperties.FailureIff | netlify/functions/tv.js:114-117 | 500 comes exactly when a call throws or the title is missing. The body carries the message of the first failure. |
| HandlerProperties.SuccessIff | netlify/functions/movie.js:98-108 | 200 comes exactly when every step succeeds. The body then holds the title, the year of the date, the extracted id (≥16 digits) and the payload unchanged. |
| HandlerProperties.SuccessDetails | netlify/functions/movie.js:66-105 | On success, each sentinel is used in exactly these cases: `❌ Not found` when no detail path is found, and `❌ Not available` when `❌ Not found` is used. Otherwise the URL is `https://moviebox.ng/movies/<path>?id=<id>`, and the path starts with the slug and has no quote. |
| HandlerProperties.Fallbacks | netlify/functions/tv.js:109-110 | A real detail path or details URL can never equal its sentinel, so the sentinel appears only when the value is absent. |
| HandlerProperties.YearOfDate | netlify/functions/movie.js:46 | The year of `y-...` is y, and a date with no `-` is its own year. |
| HandlerProperties.MovieIsEpisodeZero | netlify/functions/movie.js:69 | A movie's download URL is that of episode 0 of season 0. |
| NetlifyTv.Handle | netlify/functions/tv.js:31-38 | 400 with no request comes exactly when tmdbId, season or episode is absent or empty. Otherwise the reply is the lookup for that episode with the serverless slug. |
| NetlifyMovie.Handle | netlify/functions/movie.js:31-41 | Absent query parameters count as an empty set. 400 with no request comes exactly when tmdbId is absent or empty. Otherwise the reply is the movie lookup with the serverless slug. |
| Server.MovieRoute | server.js:44-104 | The movie route never answers 400: its status is 200, 404 or 500, and it starts with the TMDB movie lookup. |
| Server.TvRoute | server.js:107-167 | The TV route never answers 400, and it looks up the episode named by its path. |

## Left out

- **Network calls.** The axios calls, Express routing, `app.listen`, the `/` route and the serverless `event`/`res` objects are not modelled.
  - Each call's result is an input (`Handler.Io`).
  - A request is recorded by its kind and the values it carries: the TMDB id and media kind, the search keyword, and the download URL with its referer.
- **Request details.** The TMDB URL, the API key and its environment lookup, and the constant headers, cookies and user agents are left out. They carry no logic.
- **Logging.** The console calls are left out.
- **Encoding.** `encodeURIComponent` of the keyword and `JSON.stringify` of the body are library calls. The model keeps the keyword unencoded and the body as a value, with an absent year where JSON would omit it.
- **The download payload.** It is passed through as an opaque value.
- **Exception messages.** The message of a thrown exception is an input. The only message the model writes out is V8's for a missing title.
- **Null versus undefined.** A missing title is modelled as `undefined`. A `null` title gives V8's "of null" message instead.
- **Non-string values.** The model assumes string values throughout.
  - Not modelled: a TMDB field that is not a string.
  - Not modelled: a search-page body that is not a string (axios parses JSON bodies).
  - Not modelled: query values that arrive as arrays.
- **Route parameters.** In `server.js`, Express fills each route parameter with a non-empty path segment. So the routes take plain strings and have no 400 case.
- **UTF-16.** Strings are sequences of Unicode scalar values. JavaScript's UTF-16 code units are not modelled, so a character outside the Basic Multilingual Plane counts as one character rather than two.
- SubjectId.ExtractSubjectId: compares the title with ASCII case folding only. In a title with non-ASCII letters, the regex `i` flag also pairs letters such as `é`/`É`, so there the model can report no match where the source finds one.
- Slug.LowerCase: lower-cases ASCII letters only. `toLowerCase` also maps non-ASCII letters; a few of them map to ASCII letters, such as the Kelvin sign to `k`. The model keeps all of them, and the next step then turns them into separators.
- DetailPath.DetailPathOf: searches for the subject id as literal text. The source builds `"(<id>)"` as a regex without escaping it; that is the same thing for the digit-only ids the lookup passes.
