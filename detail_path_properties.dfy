/**
 What the detail-path extractor promises: the path it returns is a quoted
 string that starts with the slug, lies before the subject id, and is the last
 of the non-overlapping matches there; nothing after the id matters.
 */
module DetailPathProperties {
  import opened Wrappers
  import opened Text
  import opened Slug
  import opened SlugWords
  import opened SlugProperties
  import opened DetailPath

  /** When the scan reports a last group, it is the group of a match after which
      no further match starts (the regex resumes after that match's closing quote). */
  lemma {:induction false} LastIsLast(s: string, slug: string, from: nat)
    requires Last(AllMatches(s, slug, from)).Some?
    ensures exists p ::
      && from <= p
      && IsGroupAt(s, slug, p, Last(AllMatches(s, slug, from)).value)
      && (forall p' :: PathEnd(s, slug, p) < p' < |s| ==> !PathMatchAt(s, slug, p'))
    decreases |s| - from
  {
    var m := Exec(s, slug, from);
    ExecFinds(s, slug, from);
    var rest := AllMatches(s, slug, m.value.lastIndex);
    assert AllMatches(s, slug, from) == [m.value.group] + rest;
    if rest == [] {
      ExecFinds(s, slug, m.value.lastIndex);
      assert Last(AllMatches(s, slug, from)).value == m.value.group;
      var p := m.value.index;
      assert IsGroupAt(s, slug, p, Last(AllMatches(s, slug, from)).value);
    } else {
      assert Last(AllMatches(s, slug, from)) == Last(rest);
      LastIsLast(s, slug, m.value.lastIndex);
    }
  }

  lemma PrefixSlice(a: string, b: string, n: nat, i: nat, j: nat)
    requires n <= |a| && n <= |b| && a[..n] == b[..n] && i <= j <= n
    ensures a[i..j] == b[i..j]
  {
    forall t | 0 <= t < j - i ensures a[i..j][t] == b[i..j][t] {
      assert a[i + t] == a[..n][i + t];
      assert b[i + t] == b[..n][i + t];
    }
  }

  /** The leftmost occurrence is the one with no occurrence before it. */
  lemma FirstOccurrenceIs(s: string, needle: string, k: nat)
    requires OccursAt(s, needle, k)
    requires forall j :: 0 <= j < k ==> !OccursAt(s, needle, j)
    ensures FirstOccurrence(s, needle) == Some(k)
  {
  }

  /** The first quoted occurrence of the id, k, splits the page: a page that agrees
      with html up to and including that occurrence has the same detail path. */
  lemma IgnoresTextAfterId(html: string, other: string, subjectId: string, slug: string, k: nat)
    requires FirstOccurrence(html, Quoted(subjectId)) == Some(k)
    requires k + |Quoted(subjectId)| <= |other|
    requires other[..k + |Quoted(subjectId)|] == html[..k + |Quoted(subjectId)|]
    ensures DetailPathOf(other, subjectId, slug) == DetailPathOf(html, subjectId, slug)
  {
    var q := Quoted(subjectId);
    var n := k + |q|;
    PrefixSlice(other, html, n, k, n);
    forall j | 0 <= j < k ensures !OccursAt(other, q, j) {
      assert !OccursAt(html, q, j);
      PrefixSlice(other, html, n, j, j + |q|);
    }
    FirstOccurrenceIs(other, q, k);
    PrefixSlice(other, html, n, 0, k);
    assert other[..k] == other[0..k] && html[..k] == html[0..k];
  }

  /** Appending text to the page never changes the detail path once the quoted id
      occurs in it. */
  lemma AppendKeepsPath(html: string, tail: string, subjectId: string, slug: string)
    requires FirstOccurrence(html, Quoted(subjectId)).Some?
    ensures DetailPathOf(html + tail, subjectId, slug) == DetailPathOf(html, subjectId, slug)
  {
    var k := FirstOccurrence(html, Quoted(subjectId)).value;
    var n := k + |Quoted(subjectId)|;
    assert (html + tail)[..n] == html[..n];
    IgnoresTextAfterId(html, html + tail, subjectId, slug, k);
  }

  /** A match in the text before the id is a quoted string in the page itself. */
  lemma MatchInPage(html: string, k: nat, slug: string, p: nat, path: string)
    requires k <= |html|
    requires IsGroupAt(html[..k], slug, p, path)
    ensures OccursAt(html, Quoted(path), p) && p + |Quoted(path)| <= k
  {
    var before := html[..k];
    GroupShape(before, slug, p);
    assert OccursAt(before, Quoted(path), p);
    var e := p + |Quoted(path)|;
    forall t | 0 <= t < e - p ensures html[p..e][t] == before[p..e][t] {
      assert before[p + t] == html[p + t];
    }
  }

  /** The returned path is a match of `"((?:slug)[^"]+)"` in html that closes
      before the first quoted id, k: it starts with the slug up to case, has at
      least one more character and no quote after the slug, and no further match
      starts between its closing quote and the id. */
  lemma DetailPathSound(html: string, subjectId: string, slug: string, k: nat)
    requires FirstOccurrence(html, Quoted(subjectId)) == Some(k)
    requires DetailPathOf(html, subjectId, slug).Some?
    ensures var path := DetailPathOf(html, subjectId, slug).value;
      && |path| > |slug|
      && CiEq(path[..|slug|], slug)
      && NoQuote(path[|slug|..])
      && (NoQuote(slug) ==> NoQuote(path))
      && exists p ::
        && OccursAt(html, Quoted(path), p)
        && p + |Quoted(path)| <= k
        && (forall p' :: p + |Quoted(path)| <= p' < k ==> !PathMatchAt(html[..k], slug, p'))
  {
    var path := DetailPathOf(html, subjectId, slug).value;
    var before := html[..k];
    assert Last(AllMatches(before, slug, 0)) == Some(path);
    LastIsLast(before, slug, 0);
    var p :| 0 <= p && IsGroupAt(before, slug, p, path)
      && forall p' :: PathEnd(before, slug, p) < p' < |before| ==> !PathMatchAt(before, slug, p');
    GroupShape(before, slug, p);
    MatchInPage(html, k, slug, p, path);
  }

  /** A match that starts before the first quoted id makes the detail path present. */
  lemma MatchGivesPath(html: string, subjectId: string, slug: string, k: nat, p: nat)
    requires FirstOccurrence(html, Quoted(subjectId)) == Some(k)
    requires PathMatchAt(html[..k], slug, p)
    ensures DetailPathOf(html, subjectId, slug).Some?
  {
    ExecFinds(html[..k], slug, 0);
  }

  /** Once the quoted id occurs, first at k, the detail path is present exactly when
      the regex matches somewhere in the text before k. */
  lemma PathIffMatch(html: string, subjectId: string, slug: string, k: nat)
    requires FirstOccurrence(html, Quoted(subjectId)) == Some(k)
    ensures DetailPathOf(html, subjectId, slug).Some? <==> exists p :: PathMatchAt(html[..k], slug, p)
  {
    var before := html[..k];
    if DetailPathOf(html, subjectId, slug).Some? {
      assert Last(AllMatches(before, slug, 0)).Some?;
      LastIsLast(before, slug, 0);
      var p :| 0 <= p && IsGroupAt(before, slug, p, Last(AllMatches(before, slug, 0)).value)
        && forall p' :: PathEnd(before, slug, p) < p' < |before| ==> !PathMatchAt(before, slug, p');
      assert PathMatchAt(before, slug, p);
    }
    if exists p :: PathMatchAt(before, slug, p) {
      var p :| PathMatchAt(before, slug, p);
      MatchGivesPath(html, subjectId, slug, k, p);
    }
  }

  /** For the slugs both variants build: the path starts with the slug, and it
      contains no quote at all. */
  lemma DetailPathOfTitle(html: string, subjectId: string, title: string, v: SlugVariant)
    requires DetailPathOf(html, subjectId, SlugOf(v, title)).Some?
    ensures FirstOccurrence(html, Quoted(subjectId)).Some?
    ensures var slug := SlugOf(v, title);
      var path := DetailPathOf(html, subjectId, slug).value;
      |path| > |slug| && CiEq(path[..|slug|], slug) && NoQuote(path)
  {
    var slug := SlugOf(v, title);
    SlugShape(v, title);
    assert NoQuote(slug) by {
      forall k | 0 <= k < |slug| ensures slug[k] != '"' {
        assert IsLowerAlnum(slug[k]) || slug[k] == '-';
      }
    }
    DetailPathSound(html, subjectId, slug, FirstOccurrence(html, Quoted(subjectId)).value);
  }

  /** In the example page the quoted id sits at index 13. */
  lemma ExampleIdAt(html: string)
    requires html == "\"the-x\"the-y\"\"42\""
    ensures FirstOccurrence(html, Quoted("42")) == Some(13)
  {
    var q := Quoted("42");
    assert html[13..17] == q;
    forall j | 0 <= j < 13 ensures !OccursAt(html, q, j) {
      assert html[j..j + 4][1] == html[j + 1];
    }
    FirstOccurrenceIs(html, q, 13);
  }

  /** The scan of `"the-x"the-y"` finds `the-x` and then nothing. */
  lemma ExampleScan(before: string, slug: string)
    requires before == "\"the-x\"the-y\"" && slug == "the-"
    ensures AllMatches(before, slug, 0) == ["the-x"]
  {
    assert NextQuote(before, 5) == 6;
    assert before[1..5] == slug;
    assert PathMatchAt(before, slug, 0);
    assert FindPath(before, slug, 0) == Some(0);
    assert before[1..6] == "the-x";
    assert Exec(before, slug, 0) == Some(PathMatch(0, "the-x", 7));
    assert !PathMatchAt(before, slug, 7);
    assert FindPath(before, slug, 7) == None;
    assert AllMatches(before, slug, 7) == [];
  }

  /** Matches do not overlap: in `"the-x"the-y"` the closing quote of the first
      match is consumed, so `the-y` is not found. */
  lemma NonOverlapping()
    ensures DetailPathOf("\"the-x\"the-y\"\"42\"", "42", "the-") == Some("the-x")
  {
    var html := "\"the-x\"the-y\"\"42\"";
    ExampleIdAt(html);
    assert html[..13] == "\"the-x\"the-y\"";
    ExampleScan(html[..13], "the-");
  }

  /** The scan of `"the-x" "The-Y" ` finds both groups; the slug matches `The-`
      because the regex ignores case. */
  lemma ExampleScanTwo(before: string, slug: string)
    requires before == "\"the-x\" \"The-Y\" " && slug == "the-"
    ensures AllMatches(before, slug, 0) == ["the-x", "The-Y"]
  {
    assert NextQuote(before, 5) == 6;
    assert before[1..5] == slug;
    assert PathMatchAt(before, slug, 0);
    assert FindPath(before, slug, 0) == Some(0);
    assert before[1..6] == "the-x";
    assert Exec(before, slug, 0) == Some(PathMatch(0, "the-x", 7));
    assert NextQuote(before, 13) == 14;
    assert before[9..13] == "The-";
    assert CiEq("The-", slug);
    assert PathMatchAt(before, slug, 8);
    assert !PathMatchAt(before, slug, 7);
    assert FindPath(before, slug, 7) == Some(8);
    assert before[9..14] == "The-Y";
    assert Exec(before, slug, 7) == Some(PathMatch(8, "The-Y", 15));
    assert FindPath(before, slug, 15) == None;
    assert AllMatches(before, slug, 15) == [];
  }

  /** In the second example page the quoted id sits at index 16. */
  lemma ExampleIdAtTwo(html: string)
    requires html == "\"the-x\" \"The-Y\" \"42\""
    ensures FirstOccurrence(html, Quoted("42")) == Some(16)
  {
    var q := Quoted("42");
    assert html[16..20] == q;
    forall j | 0 <= j < 16 ensures !OccursAt(html, q, j) {
      assert html[j..j + 4][1] == html[j + 1];
    }
    FirstOccurrenceIs(html, q, 16);
  }

  /** The last match wins: with two separate matches before the id, the second one
      is the detail path. */
  lemma LastMatchWins()
    ensures DetailPathOf("\"the-x\" \"The-Y\" \"42\"", "42", "the-") == Some("The-Y")
  {
    var html := "\"the-x\" \"The-Y\" \"42\"";
    ExampleIdAtTwo(html);
    assert html[..16] == "\"the-x\" \"The-Y\" ";
    ExampleScanTwo(html[..16], "the-");
  }
}
