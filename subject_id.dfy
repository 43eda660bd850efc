/**
 The subject-id extractor: the first match of the case-insensitive regex

     "(\d{16,})",\s*"[^"]*",\s*"<escaped title>"

 in the search-result HTML. At a fixed start every quantified part is followed by
 a character its class excludes, so the match there, if any, is unique:
 SubjectMatchAt computes it by following the runs, and PatternAt states the same
 pattern as constraints on its four junction points.
 */
module SubjectId {
  import opened Wrappers
  import opened Text
  import opened RegexEscape

  /** A value the extractor can return: at least 16 decimal digits. */
  predicate IsSubjectId(id: string) { |id| >= 16 && AllDigits(id) }

  /** The quotes and commas of the pattern sit at p, d, w1, q and w2, in order, with
      room for a title of length n: d is the quote closing the digits, w1 the quote
      opening the second field, q the quote closing it, and w2 the quote opening the
      title. */
  ghost predicate JunctionsAt(s: string, n: nat, p: int, d: int, w1: int, q: int, w2: int)
  {
    && 0 <= p && p + 17 <= d && d + 2 <= w1 < q && q + 2 <= w2 && w2 + n + 1 < |s|
    && s[p] == '"'
    && s[d] == '"' && s[d + 1] == ','
    && s[w1] == '"'
    && s[q] == '"' && s[q + 1] == ','
    && s[w2] == '"'
    && s[w2 + 1 + n] == '"'
  }

  /** The pattern, with literal title t, matches at p with junction points d, w1, q
      and w2: the runs between them belong to the pattern's classes. */
  ghost predicate PatternAt(s: string, t: string, p: int, d: int, w1: int, q: int, w2: int)
  {
    && JunctionsAt(s, |t|, p, d, w1, q, w2)
    && (forall j :: p < j < d ==> IsDigit(s[j]))
    && (forall j :: d + 1 < j < w1 ==> IsJsSpace(s[j]))
    && (forall j :: w1 < j < q ==> s[j] != '"')
    && (forall j :: q + 1 < j < w2 ==> IsJsSpace(s[j]))
    && CiEq(s[w2 + 1..w2 + 1 + |t|], t)
  }

  /** The matcher at a fixed start p: each run is taken to its end, as the regex
      engine's greedy quantifiers do (no backtracking into a run can succeed). */
  predicate SubjectMatchAt(s: string, t: string, p: nat): (m: bool)
    ensures m ==> p + |t| + 24 <= |s| && s[p] == '"'
  {
    p < |s| && s[p] == '"' &&
    var d := DigitRunEnd(s, p + 1);
    d - (p + 1) >= 16 && d + 1 < |s| && s[d] == '"' && s[d + 1] == ',' &&
    var w1 := SpaceRunEnd(s, d + 2);
    w1 < |s| && s[w1] == '"' &&
    var q := NextQuote(s, w1 + 1);
    q + 1 < |s| && s[q + 1] == ',' &&
    var w2 := SpaceRunEnd(s, q + 2);
    w2 + |t| + 1 < |s| && s[w2] == '"' && CiEq(s[w2 + 1..w2 + 1 + |t|], t) && s[w2 + 1 + |t|] == '"'
  }

  /** The capture group of a match at p: the digit run after the opening quote. */
  function SubjectIdAt(s: string, p: nat): string
    requires p < |s|
  {
    s[p + 1..DigitRunEnd(s, p + 1)]
  }

  /** The group is made of digits. */
  lemma SubjectIdDigits(s: string, p: nat)
    requires p < |s|
    ensures AllDigits(SubjectIdAt(s, p))
  {
    DigitRun(s, p + 1);
    var g := SubjectIdAt(s, p);
    assert forall k :: 0 <= k < |g| ==> g[k] == s[p + 1 + k];
  }

  /** p is where `String.prototype.match` reports its match: the leftmost start. */
  ghost predicate LeftmostMatch(s: string, t: string, p: nat)
  {
    SubjectMatchAt(s, t, p) && forall p' :: 0 <= p' < p ==> !SubjectMatchAt(s, t, p')
  }

  /** Junction points of a match are forced: any p, d, w1, q, w2 that satisfy the
      pattern are the ends of the runs that SubjectMatchAt follows. */
  lemma PatternDetermined(s: string, t: string, p: nat, d: int, w1: int, q: int, w2: int)
    requires PatternAt(s, t, p, d, w1, q, w2)
    ensures d == DigitRunEnd(s, p + 1)
    ensures w1 == SpaceRunEnd(s, d + 2)
    ensures q == NextQuote(s, w1 + 1)
    ensures w2 == SpaceRunEnd(s, q + 2)
  {
    DigitRunEndIs(s, p + 1, d);
    SpaceRunEndIs(s, d + 2, w1);
    NextQuoteIs(s, w1 + 1, q);
    SpaceRunEndIs(s, q + 2, w2);
  }

  /** Where the matcher accepts, the ends of the runs it follows are the junction
      points of the pattern, and the title after the last one matches t. */
  lemma MatchJunctions(s: string, t: string, p: nat)
    requires SubjectMatchAt(s, t, p)
    ensures var d := DigitRunEnd(s, p + 1);
      var w1 := SpaceRunEnd(s, d + 2);
      var q := NextQuote(s, w1 + 1);
      var w2 := SpaceRunEnd(s, q + 2);
      JunctionsAt(s, |t|, p, d, w1, q, w2) && CiEq(s[w2 + 1..w2 + 1 + |t|], t)
  {
  }

  lemma DigitsBefore(s: string, p: nat, d: nat)
    requires p + 1 <= |s| && d == DigitRunEnd(s, p + 1)
    ensures forall j :: p < j < d ==> IsDigit(s[j])
  {
    DigitRun(s, p + 1);
  }

  lemma SpacesBefore(s: string, i: nat, e: nat)
    requires i <= |s| && e == SpaceRunEnd(s, i)
    ensures forall j :: i - 1 < j < e ==> IsJsSpace(s[j])
  {
    SpaceRun(s, i);
  }

  lemma NoQuoteBefore(s: string, w1: nat, q: nat)
    requires w1 + 1 <= |s| && q == NextQuote(s, w1 + 1)
    ensures forall j :: w1 < j < q ==> s[j] != '"'
  {
    QuoteFreeRun(s, w1 + 1);
  }

  /** Junction points that are the ends of the runs from p satisfy the pattern. */
  lemma RunsGivePattern(s: string, t: string, p: nat, d: nat, w1: nat, q: nat, w2: nat)
    requires p + 1 <= |s| && d == DigitRunEnd(s, p + 1)
    requires d + 2 <= |s| && w1 == SpaceRunEnd(s, d + 2)
    requires w1 + 1 <= |s| && q == NextQuote(s, w1 + 1)
    requires q + 2 <= |s| && w2 == SpaceRunEnd(s, q + 2)
    requires JunctionsAt(s, |t|, p, d, w1, q, w2) && CiEq(s[w2 + 1..w2 + 1 + |t|], t)
    ensures PatternAt(s, t, p, d, w1, q, w2)
  {
    DigitsBefore(s, p, d);
    SpacesBefore(s, d + 2, w1);
    NoQuoteBefore(s, w1, q);
    SpacesBefore(s, q + 2, w2);
  }

  /** The junction points that SubjectMatchAt finds satisfy the pattern. */
  lemma MatchGivesPattern(s: string, t: string, p: nat)
    requires SubjectMatchAt(s, t, p)
    ensures exists d, w1, q, w2 :: PatternAt(s, t, p, d, w1, q, w2)
  {
    MatchJunctions(s, t, p);
    var d := DigitRunEnd(s, p + 1);
    var w1 := SpaceRunEnd(s, d + 2);
    var q := NextQuote(s, w1 + 1);
    var w2 := SpaceRunEnd(s, q + 2);
    RunsGivePattern(s, t, p, d, w1, q, w2);
  }

  /** Wherever the pattern matches, the run-following matcher accepts, and the group
      it reports is the only one the pattern allows there. */
  lemma PatternGivesMatch(s: string, t: string, p: nat, d: int, w1: int, q: int, w2: int)
    requires PatternAt(s, t, p, d, w1, q, w2)
    ensures SubjectMatchAt(s, t, p) && SubjectIdAt(s, p) == s[p + 1..d]
  {
    PatternDetermined(s, t, p, d, w1, q, w2);
  }

  /** The run-following matcher accepts exactly where the pattern matches. */
  lemma MatchAtIffPattern(s: string, t: string, p: nat)
    ensures SubjectMatchAt(s, t, p) <==> exists d, w1, q, w2 :: PatternAt(s, t, p, d, w1, q, w2)
  {
    if SubjectMatchAt(s, t, p) {
      MatchGivesPattern(s, t, p);
    }
    if exists d, w1, q, w2 :: PatternAt(s, t, p, d, w1, q, w2) {
      var d, w1, q, w2 :| PatternAt(s, t, p, d, w1, q, w2);
      PatternGivesMatch(s, t, p, d, w1, q, w2);
    }
  }

  /** The leftmost start at which the pattern for literal title t matches. */
  function FirstMatch(s: string, t: string): (r: Option<nat>)
    ensures r.Some? ==> r.value < |s|
  {
    FirstWhere((p: nat) => SubjectMatchAt(s, t, p), 0, |s|)
  }

  /** FirstMatch reports the leftmost match, or None when there is none. */
  lemma FirstMatchFinds(s: string, t: string)
    ensures FirstMatch(s, t).Some? ==> LeftmostMatch(s, t, FirstMatch(s, t).value)
    ensures FirstMatch(s, t).None? ==> forall p :: 0 <= p < |s| ==> !SubjectMatchAt(s, t, p)
  {
    var P := (p: nat) => SubjectMatchAt(s, t, p);
    var r := FirstWhere(P, 0, |s|);
    var n := if r.Some? then r.value else |s|;
    forall p | 0 <= p < n ensures !SubjectMatchAt(s, t, p) {
      assert !P(p);
    }
    if r.Some? {
      assert P(r.value);
    }
  }

  /** The subject-id extractor: the group of the leftmost match, or None. */
  function ExtractSubjectId(html: string, title: string): (r: Option<string>)
    ensures r.Some? ==> IsSubjectId(r.value)
    ensures r.None? <==> forall p :: 0 <= p < |html| ==> !SubjectMatchAt(html, title, p)
    ensures r.Some? ==> exists p :: 0 <= p < |html| && LeftmostMatch(html, title, p) && r.value == SubjectIdAt(html, p)
  {
    EscapeIsLiteral(title);
    var literal := LiteralText(Escape(title)).value;
    FirstMatchFinds(html, literal);
    match FirstMatch(html, literal)
    case None => None
    case Some(p) =>
      SubjectIdDigits(html, p);
      Some(SubjectIdAt(html, p))
  }

  /** The group of a match at p, with its opening and closing quotes, occurs at p. */
  lemma QuotedGroupAt(s: string, t: string, p: nat)
    requires SubjectMatchAt(s, t, p)
    ensures OccursAt(s, Quoted(SubjectIdAt(s, p)), p)
  {
    var d := DigitRunEnd(s, p + 1);
    var id := s[p + 1..d];
    assert s[p..d + 1] == [s[p]] + id + [s[d]];
  }

  /** A returned id sits in the HTML as `"id"`: the quoted digits the regex matched. */
  lemma ExtractedIdIsQuoted(html: string, title: string)
    requires ExtractSubjectId(html, title).Some?
    ensures exists p :: OccursAt(html, Quoted(ExtractSubjectId(html, title).value), p)
  {
    var id := ExtractSubjectId(html, title).value;
    var p :| 0 <= p < |html| && LeftmostMatch(html, title, p) && id == SubjectIdAt(html, p);
    QuotedGroupAt(html, title, p);
  }

  predicate AllSpace(s: string) { forall k :: 0 <= k < |s| ==> IsJsSpace(s[k]) }

  /** The text the pattern describes: `"id",ws1"field",ws2"shown"`. */
  function Record(id: string, ws1: string, field: string, ws2: string, shown: string): string
  {
    Quoted(id) + "," + ws1 + Quoted(field) + "," + ws2 + Quoted(shown)
  }

  /** The parts of a record meet the pattern's classes and its title matches t. */
  predicate IsRecordFor(t: string, id: string, ws1: string, field: string, ws2: string, shown: string)
  {
    IsSubjectId(id) && AllSpace(ws1) && NoQuote(field) && AllSpace(ws2) && CiEq(shown, t)
  }

  /** A record for t occurs at p of s. */
  ghost predicate RecordAt(s: string, t: string, p: int, id: string, ws1: string, field: string, ws2: string, shown: string)
  {
    IsRecordFor(t, id, ws1, field, ws2, shown) && OccursAt(s, Record(id, ws1, field, ws2, shown), p)
  }

  /** The seven pieces of a record occur one after another from p. */
  ghost predicate PiecesAt(s: string, p: int, id: string, ws1: string, field: string, ws2: string, shown: string)
  {
    var d := p + 1 + |id|;
    var w1 := d + 2 + |ws1|;
    var q := w1 + 1 + |field|;
    var w2 := q + 2 + |ws2|;
    && OccursAt(s, Quoted(id), p) && OccursAt(s, ",", d + 1) && OccursAt(s, ws1, d + 2)
    && OccursAt(s, Quoted(field), w1) && OccursAt(s, ",", q + 1) && OccursAt(s, ws2, q + 2)
    && OccursAt(s, Quoted(shown), w2)
  }

  lemma OccursSplit(s: string, a: string, b: string, p: int)
    requires OccursAt(s, a + b, p)
    ensures OccursAt(s, a, p) && OccursAt(s, b, p + |a|)
  {
    assert s[p..p + |a|] == (a + b)[..|a|];
    assert s[p + |a|..p + |a| + |b|] == (a + b)[|a|..];
  }

  lemma OccursJoin(s: string, a: string, b: string, p: int)
    requires OccursAt(s, a, p) && OccursAt(s, b, p + |a|)
    ensures OccursAt(s, a + b, p)
  {
    assert s[p..p + |a| + |b|] == s[p..p + |a|] + s[p + |a|..p + |a| + |b|];
  }

  /** Where a record occurs, its pieces occur one after another. */
  lemma RecordSplits(s: string, p: nat, id: string, ws1: string, field: string, ws2: string, shown: string)
    requires OccursAt(s, Record(id, ws1, field, ws2, shown), p)
    ensures PiecesAt(s, p, id, ws1, field, ws2, shown)
  {
    var a2 := Quoted(id) + ",";
    var a4 := a2 + ws1 + Quoted(field);
    var a6 := a4 + "," + ws2;
    OccursSplit(s, a6, Quoted(shown), p);
    OccursSplit(s, a4 + ",", ws2, p);
    OccursSplit(s, a4, ",", p);
    OccursSplit(s, a2 + ws1, Quoted(field), p);
    OccursSplit(s, a2, ws1, p);
    OccursSplit(s, Quoted(id), ",", p);
  }

  /** Where the pieces of a record occur one after another, the record occurs. */
  lemma RecordJoins(s: string, p: nat, id: string, ws1: string, field: string, ws2: string, shown: string)
    requires PiecesAt(s, p, id, ws1, field, ws2, shown)
    ensures OccursAt(s, Record(id, ws1, field, ws2, shown), p)
  {
    var a2 := Quoted(id) + ",";
    var a4 := a2 + ws1 + Quoted(field);
    var a6 := a4 + "," + ws2;
    OccursJoin(s, Quoted(id), ",", p);
    OccursJoin(s, a2, ws1, p);
    OccursJoin(s, a2 + ws1, Quoted(field), p);
    OccursJoin(s, a4, ",", p);
    OccursJoin(s, a4 + ",", ws2, p);
    OccursJoin(s, a6, Quoted(shown), p);
  }

  /** A record occurs exactly where its pieces occur one after another. */
  lemma RecordIffPieces(s: string, p: nat, id: string, ws1: string, field: string, ws2: string, shown: string)
    ensures OccursAt(s, Record(id, ws1, field, ws2, shown), p) <==> PiecesAt(s, p, id, ws1, field, ws2, shown)
  {
    if OccursAt(s, Record(id, ws1, field, ws2, shown), p) {
      RecordSplits(s, p, id, ws1, field, ws2, shown);
    }
    if PiecesAt(s, p, id, ws1, field, ws2, shown) {
      RecordJoins(s, p, id, ws1, field, ws2, shown);
    }
  }

  lemma OccursChars(s: string, x: string, p: int)
    requires OccursAt(s, x, p)
    ensures forall j :: 0 <= j < |x| ==> s[p + j] == x[j]
  {
    forall j | 0 <= j < |x| ensures s[p + j] == x[j] { assert s[p..p + |x|][j] == s[p + j]; }
  }

  lemma OccursQuoted(s: string, x: string, p: int)
    requires OccursAt(s, Quoted(x), p)
    ensures s[p] == '"' && OccursAt(s, x, p + 1) && s[p + 1 + |x|] == '"'
  {
    OccursSplit(s, "\"" + x, "\"", p);
    OccursSplit(s, "\"", x, p);
    OccursChars(s, "\"", p);
    OccursChars(s, "\"", p + 1 + |x|);
  }

  lemma QuotedOccurs(s: string, x: string, p: int)
    requires 0 <= p && p + |x| + 2 <= |s| && s[p] == '"' && s[p + 1..p + 1 + |x|] == x && s[p + 1 + |x|] == '"'
    ensures OccursAt(s, Quoted(x), p)
  {
    assert s[p..p + |x| + 2] == [s[p]] + s[p + 1..p + 1 + |x|] + [s[p + 1 + |x|]];
  }

  lemma OccursClasses(s: string, x: string, p: int)
    requires OccursAt(s, x, p)
    ensures AllDigits(x) ==> forall j :: p <= j < p + |x| ==> IsDigit(s[j])
    ensures AllSpace(x) ==> forall j :: p <= j < p + |x| ==> IsJsSpace(s[j])
    ensures NoQuote(x) ==> forall j :: p <= j < p + |x| ==> s[j] != '"'
  {
    OccursChars(s, x, p);
    forall j | p <= j < p + |x| ensures s[j] == x[j - p] { assert s[p + (j - p)] == x[j - p]; }
  }

  lemma OccursComma(s: string, p: int)
    requires OccursAt(s, ",", p)
    ensures s[p] == ','
  {
    OccursChars(s, ",", p);
  }

  lemma CommaOccurs(s: string, i: int)
    requires 0 <= i < |s| && s[i] == ','
    ensures OccursAt(s, ",", i)
  {
    assert s[i..i + 1] == [s[i]];
  }

  lemma QuotedDigits(s: string, id: string, p: int)
    requires OccursAt(s, Quoted(id), p) && AllDigits(id)
    ensures s[p] == '"' && s[p + 1 + |id|] == '"' && s[p + 1..p + 1 + |id|] == id
    ensures forall j :: p < j < p + 1 + |id| ==> IsDigit(s[j])
  {
    OccursQuoted(s, id, p);
    OccursClasses(s, id, p + 1);
  }

  lemma QuotedField(s: string, field: string, p: int)
    requires OccursAt(s, Quoted(field), p) && NoQuote(field)
    ensures s[p] == '"' && s[p + 1 + |field|] == '"'
    ensures forall j :: p < j < p + 1 + |field| ==> s[j] != '"'
  {
    OccursQuoted(s, field, p);
    OccursClasses(s, field, p + 1);
  }

  lemma Spaces(s: string, ws: string, i: int)
    requires OccursAt(s, ws, i) && AllSpace(ws)
    ensures forall j :: i <= j < i + |ws| ==> IsJsSpace(s[j])
  {
    OccursClasses(s, ws, i);
  }

  /** Where the pieces of a record occur, the record's structure alone forces the runs
      the matcher follows: they end where its parts end. */
  lemma PiecesJunctions(s: string, p: nat, id: string, ws1: string, field: string, ws2: string, shown: string,
                        d: nat, w1: nat, q: nat, w2: nat)
    requires IsSubjectId(id) && AllSpace(ws1) && NoQuote(field) && AllSpace(ws2)
    requires d == p + 1 + |id| && w1 == d + 2 + |ws1| && q == w1 + 1 + |field| && w2 == q + 2 + |ws2|
    requires PiecesAt(s, p, id, ws1, field, ws2, shown)
    ensures PatternAt(s, shown, p, d, w1, q, w2)
    ensures s[p + 1..d] == id && s[w2 + 1..w2 + 1 + |shown|] == shown
  {
    QuotedDigits(s, id, p);
    QuotedField(s, field, w1);
    OccursQuoted(s, shown, w2);
    OccursComma(s, d + 1);
    OccursComma(s, q + 1);
    Spaces(s, ws1, d + 2);
    Spaces(s, ws2, q + 2);
    assert CiEq(s[w2 + 1..w2 + 1 + |shown|], shown);
  }

  /** A pattern for the shown title is a pattern for any t equal to it up to ASCII case. */
  lemma Retitle(s: string, t: string, p: nat, d: int, w1: int, q: int, w2: int, shown: string)
    requires PatternAt(s, shown, p, d, w1, q, w2) && s[w2 + 1..w2 + 1 + |shown|] == shown
    requires CiEq(shown, t)
    ensures PatternAt(s, t, p, d, w1, q, w2)
  {
    assert JunctionsAt(s, |t|, p, d, w1, q, w2);
  }

  /** A title that matches t up to case, and is the shown title, makes the shown
      title match t. */
  lemma ShownMatches(s: string, t: string, w2: nat, shown: string)
    requires w2 + 1 + |shown| <= |s| && |shown| == |t| && s[w2 + 1..w2 + 1 + |shown|] == shown
    requires CiEq(s[w2 + 1..w2 + 1 + |t|], t)
    ensures CiEq(shown, t)
  {
  }

  /** Where the matcher accepts for t, the title after the last junction point it
      finds matches t up to ASCII case. */
  lemma MatchTitle(s: string, t: string, p: nat, w2: int)
    requires SubjectMatchAt(s, t, p)
    requires w2 == SpaceRunEnd(s, NextQuote(s, SpaceRunEnd(s, DigitRunEnd(s, p + 1) + 2) + 1) + 2)
    ensures 0 <= w2 && w2 + 1 + |t| < |s| && CiEq(s[w2 + 1..w2 + 1 + |t|], t)
  {
  }

  /** A pattern for the shown title, which equals t up to case, makes the matcher
      accept for t and report the digits before d. */
  lemma ShownGivesMatch(s: string, t: string, p: nat, d: int, w1: int, q: int, w2: int, shown: string)
    requires PatternAt(s, shown, p, d, w1, q, w2) && s[w2 + 1..w2 + 1 + |shown|] == shown
    requires CiEq(shown, t)
    ensures SubjectMatchAt(s, t, p) && SubjectIdAt(s, p) == s[p + 1..d]
  {
    Retitle(s, t, p, d, w1, q, w2, shown);
    PatternGivesMatch(s, t, p, d, w1, q, w2);
  }

  /** With the junction points fixed by a pattern for the shown title, the pattern for t
      matches exactly when the shown title equals t up to ASCII case. */
  lemma ShownTitleDecides(s: string, t: string, p: nat, d: int, w1: int, q: int, w2: int, shown: string)
    requires PatternAt(s, shown, p, d, w1, q, w2) && |shown| == |t| && s[w2 + 1..w2 + 1 + |shown|] == shown
    ensures SubjectMatchAt(s, t, p) <==> CiEq(shown, t)
    ensures SubjectMatchAt(s, t, p) ==> SubjectIdAt(s, p) == s[p + 1..d]
  {
    PatternDetermined(s, shown, p, d, w1, q, w2);
    if SubjectMatchAt(s, t, p) {
      MatchTitle(s, t, p, w2);
      ShownMatches(s, t, w2, shown);
    }
    if CiEq(shown, t) {
      ShownGivesMatch(s, t, p, d, w1, q, w2, shown);
    }
  }

  /** At a record whose shown title has the title's length, the matcher accepts exactly
      when the shown title equals the title up to ASCII case, and then reports the
      record's id. */
  lemma RecordMatchesIff(s: string, t: string, p: nat, id: string, ws1: string, field: string, ws2: string, shown: string)
    requires IsSubjectId(id) && AllSpace(ws1) && NoQuote(field) && AllSpace(ws2) && |shown| == |t|
    requires OccursAt(s, Record(id, ws1, field, ws2, shown), p)
    ensures SubjectMatchAt(s, t, p) <==> CiEq(shown, t)
    ensures SubjectMatchAt(s, t, p) ==> SubjectIdAt(s, p) == id
  {
    RecordIffPieces(s, p, id, ws1, field, ws2, shown);
    var d := p + 1 + |id|;
    var w1 := d + 2 + |ws1|;
    var q := w1 + 1 + |field|;
    var w2 := q + 2 + |ws2|;
    PiecesJunctions(s, p, id, ws1, field, ws2, shown, d, w1, q, w2);
    ShownTitleDecides(s, t, p, d, w1, q, w2, shown);
  }

  /** The parts between the junction points of a pattern match meet the pattern's classes. */
  lemma PatternParts(s: string, t: string, p: nat, d: int, w1: int, q: int, w2: int)
    requires PatternAt(s, t, p, d, w1, q, w2)
    ensures IsRecordFor(t, s[p + 1..d], s[d + 2..w1], s[w1 + 1..q], s[q + 2..w2], s[w2 + 1..w2 + 1 + |t|])
  {
    var id, ws1, field, ws2 := s[p + 1..d], s[d + 2..w1], s[w1 + 1..q], s[q + 2..w2];
    assert forall k :: 0 <= k < |id| ==> id[k] == s[p + 1 + k];
    assert forall k :: 0 <= k < |ws1| ==> ws1[k] == s[d + 2 + k];
    assert forall k :: 0 <= k < |field| ==> field[k] == s[w1 + 1 + k];
    assert forall k :: 0 <= k < |ws2| ==> ws2[k] == s[q + 2 + k];
  }

  /** The parts between the junction points of a pattern match occur one after another. */
  lemma PatternPieces(s: string, n: nat, p: nat, d: int, w1: int, q: int, w2: int)
    requires JunctionsAt(s, n, p, d, w1, q, w2)
    ensures PiecesAt(s, p, s[p + 1..d], s[d + 2..w1], s[w1 + 1..q], s[q + 2..w2], s[w2 + 1..w2 + 1 + n])
  {
    var id, ws1, field, ws2, shown := s[p + 1..d], s[d + 2..w1], s[w1 + 1..q], s[q + 2..w2], s[w2 + 1..w2 + 1 + n];
    QuotedOccurs(s, id, p);
    QuotedOccurs(s, field, w1);
    QuotedOccurs(s, shown, w2);
    CommaOccurs(s, d + 1);
    CommaOccurs(s, q + 1);
    assert OccursAt(s, ws1, d + 2) && OccursAt(s, ws2, q + 2);
  }

  /** The text between the junction points of a pattern match is a record for t. */
  lemma PatternIsRecord(s: string, t: string, p: nat, d: int, w1: int, q: int, w2: int)
    requires PatternAt(s, t, p, d, w1, q, w2)
    ensures RecordAt(s, t, p, s[p + 1..d], s[d + 2..w1], s[w1 + 1..q], s[q + 2..w2], s[w2 + 1..w2 + 1 + |t|])
  {
    PatternParts(s, t, p, d, w1, q, w2);
    PatternPieces(s, |t|, p, d, w1, q, w2);
    RecordJoins(s, p, s[p + 1..d], s[d + 2..w1], s[w1 + 1..q], s[q + 2..w2], s[w2 + 1..w2 + 1 + |t|]);
  }

  /** Wherever the matcher accepts, a record for t occurs: its parts are the runs the
      matcher followed. */
  lemma MatchIsRecord(s: string, t: string, p: nat)
    requires SubjectMatchAt(s, t, p)
    ensures exists id, ws1, field, ws2, shown :: RecordAt(s, t, p, id, ws1, field, ws2, shown) && id == SubjectIdAt(s, p)
  {
    MatchGivesPattern(s, t, p);
    var d, w1, q, w2 :| PatternAt(s, t, p, d, w1, q, w2);
    PatternGivesMatch(s, t, p, d, w1, q, w2);
    PatternIsRecord(s, t, p, d, w1, q, w2);
  }

  /** A record for the title at the start of the HTML is what the extractor returns,
      whatever follows it. */
  lemma RecordIsExtracted(t: string, id: string, ws1: string, field: string, ws2: string, shown: string, rest: string)
    requires IsRecordFor(t, id, ws1, field, ws2, shown)
    ensures ExtractSubjectId(Record(id, ws1, field, ws2, shown) + rest, t) == Some(id)
  {
    var r := Record(id, ws1, field, ws2, shown);
    var s := r + rest;
    assert s[0..|r|] == r;
    RecordMatchesIff(s, t, 0, id, ws1, field, ws2, shown);
    EscapeIsLiteral(t);
  }

  /** Every id the extractor returns is the id of the leftmost record for the title:
      the HTML holds such a record at p, and no match starts before p. */
  lemma ExtractedIsLeftmostRecord(html: string, t: string)
    requires ExtractSubjectId(html, t).Some?
    ensures exists p, ws1, field, ws2, shown ::
              RecordAt(html, t, p, ExtractSubjectId(html, t).value, ws1, field, ws2, shown)
              && LeftmostMatch(html, t, p)
  {
    var id := ExtractSubjectId(html, t).value;
    var p :| 0 <= p < |html| && LeftmostMatch(html, t, p) && id == SubjectIdAt(html, p);
    MatchIsRecord(html, t, p);
    var id', ws1, field, ws2, shown :| RecordAt(html, t, p, id', ws1, field, ws2, shown) && id' == SubjectIdAt(html, p);
    assert RecordAt(html, t, p, id, ws1, field, ws2, shown) && LeftmostMatch(html, t, p);
  }

  /** Regex metacharacters in the title are matched literally: the title `A.B` matches a
      record that shows `a.b`, and not one that shows `AxB`. */
  lemma DotInTitleIsLiteral(id: string, rest: string)
    requires IsSubjectId(id)
    ensures ExtractSubjectId(Record(id, "", "x", "", "a.b") + rest, "A.B") == Some(id)
    ensures !SubjectMatchAt(Record(id, "", "x", "", "AxB") + rest, "A.B", 0)
  {
    assert CiEq("a.b", "A.B") by { assert Fold('a') == 'A' && Fold('b') == 'B'; }
    assert !CiEq("AxB", "A.B") by { assert Fold("AxB"[1]) != Fold("A.B"[1]); }
    RecordIsExtracted("A.B", id, "", "x", "", "a.b", rest);
    var r := Record(id, "", "x", "", "AxB");
    var s := r + rest;
    assert s[0..|r|] == r;
    RecordMatchesIff(s, "A.B", 0, id, "", "x", "", "AxB");
  }
}
