/**
 The detail-path extractor. It finds the first `"<subjectId>"` in the search
 page, keeps only the text before it, and runs the global, case-insensitive
 regex `"((?:<slug>)[^"]+)"` over that prefix. Each `exec` resumes at the
 regex's lastIndex, the position just after the previous match's closing
 quote, so matches never overlap. The last group found is the detail path.
 */
module DetailPath {
  import opened Wrappers
  import opened Text
  import opened Slug

  // ---------------------------------------------------------------- one match

  /** The regex `"((?:slug)[^"]+)"` matches at p: a quote, the slug up to ASCII
      case, at least one character other than `"`, and a closing quote. The
      greedy `[^"]+` runs to the next quote, so that quote must exist. */
  predicate PathMatchAt(s: string, slug: string, p: nat): (m: bool)
    ensures m ==> p + |slug| + 2 < |s| && s[p] == '"'
  {
    var a := p + 1 + |slug|;
    && a < |s|
    && s[p] == '"'
    && CiEq(s[p + 1..a], slug)
    && a < NextQuote(s, a) < |s|
  }

  /** The closing quote of the match at p. */
  function PathEnd(s: string, slug: string, p: nat): (q: nat)
    requires PathMatchAt(s, slug, p)
    ensures p + 1 + |slug| < q < |s| && s[q] == '"'
  {
    NextQuote(s, p + 1 + |slug|)
  }

  /** The leftmost match at or after i. */
  function FindPath(s: string, slug: string, i: nat): (r: Option<nat>)
    requires i <= |s|
    ensures r.Some? ==> i <= r.value < |s| && PathMatchAt(s, slug, r.value)
    ensures r.Some? ==> forall p :: i <= p < r.value ==> !PathMatchAt(s, slug, p)
    ensures r.None? ==> forall p :: i <= p < |s| ==> !PathMatchAt(s, slug, p)
    decreases |s| - i
  {
    if i == |s| then None
    else if PathMatchAt(s, slug, i) then Some(i)
    else FindPath(s, slug, i + 1)
  }

  /** What `exec` reports: the index of the match, capture group 1, and the
      lastIndex it leaves behind. */
  datatype PathMatch = PathMatch(index: nat, group: string, lastIndex: nat)

  /** One call of the global regex's exec on s, starting the search at the regex's
      lastIndex `from`: the leftmost match there or later, or None. */
  function Exec(s: string, slug: string, from: nat): (m: Option<PathMatch>)
    ensures m.Some? ==> from + 3 <= m.value.lastIndex <= |s|
  {
    if from > |s| then None
    else
      match FindPath(s, slug, from)
      case None => None
      case Some(p) => Some(PathMatch(p, s[p + 1..PathEnd(s, slug, p)], PathEnd(s, slug, p) + 1))
  }

  /** The group of the match at p. */
  predicate IsGroupAt(s: string, slug: string, p: nat, g: string)
  {
    PathMatchAt(s, slug, p) && g == s[p + 1..PathEnd(s, slug, p)]
  }

  /** `exec` reports the leftmost match at or after lastIndex, its group, and the
      position after its closing quote; it fails only when no match is left. */
  lemma ExecFinds(s: string, slug: string, from: nat)
    ensures var m := Exec(s, slug, from);
      m.Some? ==>
        && from <= m.value.index
        && IsGroupAt(s, slug, m.value.index, m.value.group)
        && m.value.lastIndex == PathEnd(s, slug, m.value.index) + 1
        && (forall p :: from <= p < m.value.index ==> !PathMatchAt(s, slug, p))
    ensures Exec(s, slug, from).None? ==> forall p :: from <= p < |s| ==> !PathMatchAt(s, slug, p)
  {
  }

  // ---------------------------------------------------------------- the scan

  /** The groups a global regex finds from `from` on, left to right: each search
      resumes just after the previous match. */
  function AllMatches(s: string, slug: string, from: nat): (r: seq<string>)
    decreases |s| - from
  {
    match Exec(s, slug, from)
    case None => []
    case Some(m) => [m.group] + AllMatches(s, slug, m.lastIndex)
  }

  /** Matches do not overlap and each spans at least three characters, so the scan
      reports at most one group for every three characters it scans. */
  lemma {:induction false} ScanBound(s: string, slug: string, from: nat)
    requires from <= |s|
    ensures 3 * |AllMatches(s, slug, from)| <= |s| - from
    decreases |s| - from
  {
    var m := Exec(s, slug, from);
    if m.Some? {
      ScanStep(s, slug, from);
      ScanBound(s, slug, m.value.lastIndex);
    }
  }

  function Last(xs: seq<string>): Option<string>
  {
    if xs == [] then None else Some(xs[|xs| - 1])
  }

  /** A successful exec contributes its group, and the scan resumes at its lastIndex. */
  lemma ScanStep(s: string, slug: string, from: nat)
    requires Exec(s, slug, from).Some?
    ensures var m := Exec(s, slug, from).value;
      AllMatches(s, slug, from) == [m.group] + AllMatches(s, slug, m.lastIndex)
  {
  }

  /** The scan: each successful exec overwrites lastMatch with group 1 and moves
      lastIndex past the match, until exec finds nothing. */
  method LastMatch(before: string, slug: string) returns (lastMatch: Option<string>)
    ensures lastMatch == Last(AllMatches(before, slug, 0))
  {
    var lastIndex: nat := 0;
    lastMatch := None;
    ghost var seen: seq<string> := [];
    var m := Exec(before, slug, lastIndex);
    while m.Some?
      invariant lastIndex <= |before|
      invariant m == Exec(before, slug, lastIndex)
      invariant AllMatches(before, slug, 0) == seen + AllMatches(before, slug, lastIndex)
      invariant lastMatch == Last(seen)
      decreases |before| - lastIndex
    {
      ScanStep(before, slug, lastIndex);
      lastMatch := Some(m.value.group);
      seen := seen + [m.value.group];
      lastIndex := m.value.lastIndex;
      m := Exec(before, slug, lastIndex);
    }
    assert seen + [] == seen;
  }

  // ---------------------------------------------------------------- the extractor

  /** The detail path the extractor returns for a given slug. */
  function DetailPathOf(html: string, subjectId: string, slug: string): (r: Option<string>)
    ensures (forall k :: 0 <= k <= |html| ==> !OccursAt(html, Quoted(subjectId), k)) ==> r.None?
  {
    match FirstOccurrence(html, Quoted(subjectId))
    case None => None
    case Some(k) => Last(AllMatches(html[..k], slug, 0))
  }

  /** JavaScript truthiness of a string-or-null, as the server copy tests lastMatch. */
  function Truthy(o: Option<string>): (r: Option<string>)
    ensures r.Some? <==> o.Some? && o.value != []
    ensures r.Some? ==> r == o
  {
    if o.Some? && o.value != [] then o else None
  }

  /** The detail-path extractor with its loop, in the serverless copy (which
      returns lastMatch) or the server copy (which returns it only when it is a
      non-empty string). The lookup uses DetailPathOf, which this method is proved
      to compute. */
  method ExtractDetailPath(html: string, subjectId: string, title: string, variant: SlugVariant)
    returns (detailPath: Option<string>)
    ensures detailPath == DetailPathOf(html, subjectId, SlugOf(variant, title))
  {
    var slug := SlugOf(variant, title);
    var idMatch := FirstOccurrence(html, Quoted(subjectId));
    if idMatch.None? {
      return None;
    }
    var before := html[..idMatch.value];
    var lastMatch := LastMatch(before, slug);
    match variant
    case Netlify =>
      detailPath := lastMatch;
    case Server =>
      LastGroupNonEmpty(before, slug, 0);
      detailPath := Truthy(lastMatch);
  }

  // ---------------------------------------------------------------- what a match is

  /** The n-th group the scan reports is the group of a match at or after `from`. */
  lemma {:induction false} AllMatchesSound(s: string, slug: string, from: nat, n: nat)
    requires n < |AllMatches(s, slug, from)|
    ensures exists p :: from <= p && IsGroupAt(s, slug, p, AllMatches(s, slug, from)[n])
    decreases n
  {
    var m := Exec(s, slug, from);
    ExecFinds(s, slug, from);
    var rest := AllMatches(s, slug, m.value.lastIndex);
    assert AllMatches(s, slug, from) == [m.value.group] + rest;
    if n == 0 {
      assert IsGroupAt(s, slug, m.value.index, AllMatches(s, slug, from)[n]);
    } else {
      AllMatchesSound(s, slug, m.value.lastIndex, n - 1);
      assert AllMatches(s, slug, from)[n] == rest[n - 1];
    }
  }

  /** The group of a match: the slug up to case, at least one more character, and no quote. */
  lemma GroupShape(s: string, slug: string, p: nat)
    requires PathMatchAt(s, slug, p)
    ensures var g := s[p + 1..PathEnd(s, slug, p)];
      |g| > |slug| && CiEq(g[..|slug|], slug) && NoQuote(g[|slug|..])
      && (NoQuote(slug) ==> NoQuote(g))
      && OccursAt(s, Quoted(g), p)
  {
    var q := PathEnd(s, slug, p);
    var g := s[p + 1..q];
    QuoteFreeRun(s, p + 1 + |slug|);
    assert g[..|slug|] == s[p + 1..p + 1 + |slug|];
    assert g[|slug|..] == s[p + 1 + |slug|..q];
    if NoQuote(slug) {
      forall k | 0 <= k < |g| ensures g[k] != '"' {
        if k < |slug| {
          FoldFixesNonLetters(g[k]);
          FoldFixesNonLetters(slug[k]);
          assert Fold(g[k]) == Fold(slug[k]);
        } else {
          assert g[k] == g[|slug|..][k - |slug|];
        }
      }
    }
    forall t | 0 <= t < q + 1 - p ensures s[p..q + 1][t] == Quoted(g)[t] {
      if 0 < t < q - p {
        assert Quoted(g)[t] == g[t - 1];
      }
    }
    assert s[p..q + 1] == Quoted(g);
  }

  /** Every group is non-empty, so the server copy's truthiness test changes nothing. */
  lemma LastGroupNonEmpty(s: string, slug: string, from: nat)
    ensures Truthy(Last(AllMatches(s, slug, from))) == Last(AllMatches(s, slug, from))
  {
    var ms := AllMatches(s, slug, from);
    if ms != [] {
      AllMatchesSound(s, slug, from, |ms| - 1);
      var p :| from <= p && IsGroupAt(s, slug, p, ms[|ms| - 1]);
      GroupShape(s, slug, p);
    }
  }
}
