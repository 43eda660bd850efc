/**
 What the slug pipeline computes: the prepared title's words joined with `-`,
 a trailing `-`, and the shape that makes a slug a literal regex pattern.
 */
module SlugProperties {
  import opened Wrappers
  import opened Text
  import opened RegexEscape
  import opened Slug
  import opened SlugWords

  /** The joined words of s begin and end with a letter or digit. */
  lemma JoinedWordsEdges(s: string)
    ensures var j := JoinHyphen(Words(s));
      j == [] || (IsLowerAlnum(j[0]) && IsLowerAlnum(j[|j| - 1]))
  {
    WordsAreWords(s, 0);
    JoinShape(Words(s));
  }

  /** The joined words of s have the slug characters and no `--`. */
  lemma JoinedWordsShape(s: string)
    ensures SlugChars(JoinHyphen(Words(s))) && NoDoubleHyphen(JoinHyphen(Words(s)))
  {
    WordsAreWords(s, 0);
    JoinShape(Words(s));
  }

  lemma SlugBodyFromWord(s: string)
    requires s == [] || IsLowerAlnum(s[0])
    ensures TrimHyphens(Collapse(s)) == JoinHyphen(Words(s))
  {
    JoinedWordsEdges(s);
    CollapseFromWord(s, 0);
    var c, j, t := Collapse(s), JoinHyphen(Words(s)), TailHyphen(s, 0);
    assert c == "" + (j + t);
    TrimParts(c, "", j, t);
  }

  lemma SlugBodyFromSeparator(s: string)
    requires s != [] && !IsLowerAlnum(s[0])
    ensures TrimHyphens(Collapse(s)) == JoinHyphen(Words(s))
  {
    var b := SeparatorEnd(s, 0);
    WordsSeparator(s, 0);
    CollapseSeparator(s, 0);
    CollapseFromWord(s, b);
    JoinedWordsEdges(s);
    var c, j, t := Collapse(s), JoinHyphen(Words(s)), TailHyphen(s, b);
    assert c == "-" + (j + t);
    TrimParts(c, "-", j, t);
  }

  lemma TrimParts(x: string, lead: string, j: string, tail: string)
    requires lead == "" || lead == "-"
    requires tail == "" || tail == "-"
    requires j == [] || (IsLowerAlnum(j[0]) && IsLowerAlnum(j[|j| - 1]))
    requires x == lead + (j + tail)
    ensures TrimHyphens(x) == j
  {
    assert lead + (j + tail) == lead + j + tail;
    TrimAroundWords(lead, j, tail);
  }

  /** The slug body is the words of its input joined with `-`. */
  lemma SlugBodyIsJoinedWords(s: string)
    ensures TrimHyphens(Collapse(s)) == JoinHyphen(Words(s))
  {
    if s == [] || IsLowerAlnum(s[0]) {
      SlugBodyFromWord(s);
    } else {
      SlugBodyFromSeparator(s);
    }
  }

  /** Appending `-` to joined words gives the slug shape. */
  lemma HyphenAfterWords(j: string)
    requires SlugChars(j) && NoDoubleHyphen(j)
    requires j == [] || (IsLowerAlnum(j[0]) && IsLowerAlnum(j[|j| - 1]))
    ensures IsSlug(j + "-")
  {
    var r := j + "-";
    if j != [] {
      forall k | 0 <= k < |r| - 1 ensures !(r[k] == '-' && r[k + 1] == '-') {
        assert r[k] == j[k];
        if k < |j| - 1 { assert r[k + 1] == j[k + 1]; }
      }
      assert r[0] == j[0];
    } else {
      assert r == "-";
    }
  }

  lemma SlugifyIsJoinedWords(s: string)
    ensures Slugify(s) == JoinHyphen(Words(s)) + "-"
    ensures IsSlug(Slugify(s))
  {
    SlugBodyIsJoinedWords(s);
    JoinedWordsEdges(s);
    JoinedWordsShape(s);
    HyphenAfterWords(JoinHyphen(Words(s)));
  }

  /** Both slug variants have the slug shape. */
  lemma SlugShape(v: SlugVariant, title: string)
    ensures IsSlug(SlugOf(v, title))
  {
    match v
    case Netlify => SlugifyIsJoinedWords(ReplaceAmpersands(DeleteApostrophes(LowerCase(Trim(title)))));
    case Server => SlugifyIsJoinedWords(LowerCase(Trim(title)));
  }

  /** A slug is a pattern that matches itself literally inside `(?:...)`. */
  lemma SlugIsLiteral(v: SlugVariant, title: string)
    ensures LiteralText(SlugOf(v, title)) == Some(SlugOf(v, title))
  {
    SlugShape(v, title);
    var s := SlugOf(v, title);
    assert forall k :: 0 <= k < |s| ==> !IsSyntaxChar(s[k]);
    PlainIsLiteral(s);
  }

  // ---------------------------------------------------------------- the preparation steps

  lemma TrimKeeps(s: string)
    requires s != [] && !IsJsSpace(s[0]) && !IsJsSpace(s[|s| - 1])
    ensures Trim(s) == s
  {
  }

  predicate NoUpper(s: string) { forall k :: 0 <= k < |s| ==> !('A' <= s[k] <= 'Z') }

  lemma LowerCaseKeeps(s: string)
    requires NoUpper(s)
    ensures LowerCase(s) == s
  {
  }

  lemma {:induction false} DeleteApostrophesConcat(x: string, y: string)
    ensures DeleteApostrophes(x + y) == DeleteApostrophes(x) + DeleteApostrophes(y)
  {
    if x != [] {
      assert (x + y)[1..] == x[1..] + y;
      DeleteApostrophesConcat(x[1..], y);
    } else {
      assert x + y == y;
    }
  }

  lemma {:induction false} DeleteApostrophesKeeps(x: string)
    requires forall k :: 0 <= k < |x| ==> !IsApostrophe(x[k])
    ensures DeleteApostrophes(x) == x
  {
    if x != [] {
      DeleteApostrophesKeeps(x[1..]);
      assert [x[0]] + x[1..] == x;
    }
  }

  lemma {:induction false} ReplaceAmpersandsConcat(x: string, y: string)
    ensures ReplaceAmpersands(x + y) == ReplaceAmpersands(x) + ReplaceAmpersands(y)
  {
    if x != [] {
      assert (x + y)[1..] == x[1..] + y;
      ReplaceAmpersandsConcat(x[1..], y);
    } else {
      assert x + y == y;
    }
  }

  lemma {:induction false} ReplaceAmpersandsKeeps(x: string)
    requires forall k :: 0 <= k < |x| ==> x[k] != '&'
    ensures ReplaceAmpersands(x) == x
  {
    if x != [] {
      ReplaceAmpersandsKeeps(x[1..]);
      assert [x[0]] + x[1..] == x;
    }
  }

  /** A word passes the trimming, lower-casing, apostrophe and ampersand steps unchanged. */
  lemma WordIsPrepared(w: string)
    requires IsWord(w)
    ensures Trim(w) == w && LowerCase(w) == w
    ensures DeleteApostrophes(w) == w && ReplaceAmpersands(w) == w
  {
    TrimKeeps(w);
    LowerCaseKeeps(w);
    DeleteApostrophesKeeps(w);
    ReplaceAmpersandsKeeps(w);
  }

  // ---------------------------------------------------------------- how the variants differ

  /** Two words around a middle part without capitals pass trimming and lower-casing unchanged. */
  lemma AroundMiddle(a: string, m: string, b: string)
    requires IsWord(a) && IsWord(b) && NoUpper(m)
    ensures Trim(a + m + b) == a + m + b && LowerCase(a + m + b) == a + m + b
  {
    var t := a + m + b;
    assert t[0] == a[0] && t[|t| - 1] == b[|b| - 1];
    TrimKeeps(t);
    assert forall k :: 0 <= k < |t| ==> t[k] == (if k < |a| then a[k] else if k < |a| + |m| then m[k - |a|] else b[k - |a| - |m|]);
    LowerCaseKeeps(t);
  }

  lemma ConcatWords(a: string, b: string)
    requires IsWord(a) && IsWord(b)
    ensures IsWord(a + b)
  {
    var ab := a + b;
    assert forall k :: 0 <= k < |ab| ==> ab[k] == (if k < |a| then a[k] else b[k - |a|]);
  }

  /** The slug of a single word is that word and `-`. */
  lemma WordSlug(w: string)
    requires IsWord(w)
    ensures Slugify(w) == w + "-"
  {
    SlugifyIsJoinedWords(w);
    WordsOfWord(w);
  }

  lemma DeleteApostropheBetween(a: string, q: char, b: string)
    requires IsWord(a) && IsWord(b) && IsApostrophe(q)
    ensures DeleteApostrophes(a + [q] + b) == a + b
  {
    WordIsPrepared(a);
    WordIsPrepared(b);
    DeleteApostrophesConcat(a + [q], b);
    DeleteApostrophesConcat(a, [q]);
    assert DeleteApostrophes([q]) == [];
    assert a + [] == a;
  }

  /** The serverless slug drops an apostrophe inside a word, whichever of `'` and `’`. */
  lemma NetlifyJoinsAtApostrophe(a: string, q: char, b: string)
    requires IsWord(a) && IsWord(b) && IsApostrophe(q)
    ensures NetlifySlug(a + [q] + b) == a + b + "-"
  {
    AroundMiddle(a, [q], b);
    DeleteApostropheBetween(a, q, b);
    ConcatWords(a, b);
    WordIsPrepared(a + b);
    WordSlug(a + b);
  }

  /** The server slug splits the words at an apostrophe. */
  lemma ServerSplitsAtApostrophe(a: string, q: char, b: string)
    requires IsWord(a) && IsWord(b) && IsApostrophe(q)
    ensures ServerSlug(a + [q] + b) == a + "-" + b + "-"
  {
    var t := a + [q] + b;
    AroundMiddle(a, [q], b);
    SlugifyIsJoinedWords(t);
    WordsOfWordThen(a, [q], b);
    WordsOfWord(b);
    assert Words(t) == [a, b];
  }

  lemma NoApostropheAround(a: string, m: string, b: string)
    requires IsWord(a) && IsWord(b)
    requires forall k :: 0 <= k < |m| ==> !IsApostrophe(m[k])
    ensures DeleteApostrophes(a + m + b) == a + m + b
  {
    var t := a + m + b;
    assert forall k :: 0 <= k < |t| ==> t[k] == (if k < |a| then a[k] else if k < |a| + |m| then m[k - |a|] else b[k - |a| - |m|]);
    DeleteApostrophesKeeps(t);
  }

  lemma AmpersandBetween(a: string, b: string)
    requires IsWord(a) && IsWord(b)
    ensures ReplaceAmpersands(a + " & " + b) == a + " and " + b
  {
    WordIsPrepared(a);
    WordIsPrepared(b);
    ReplaceAmpersandsConcat(a + " & ", b);
    ReplaceAmpersandsConcat(a, " & ");
    assert ReplaceAmpersands(" & ") == " and ";
  }

  lemma PrepareAmpersand(a: string, b: string)
    requires IsWord(a) && IsWord(b)
    ensures ReplaceAmpersands(DeleteApostrophes(LowerCase(Trim(a + " & " + b)))) == a + " and " + b
  {
    AroundMiddle(a, " & ", b);
    NoApostropheAround(a, " & ", b);
    AmpersandBetween(a, b);
  }

  lemma WordsAroundAnd(a: string, b: string)
    requires IsWord(a) && IsWord(b)
    ensures Words(a + " and " + b) == [a, "and", b]
  {
    assert a + " and " + b == a + " " + ("and" + " " + b);
    WordsOfWordThen(a, " ", "and" + " " + b);
    WordsOfWordThen("and", " ", b);
    WordsOfWord(b);
  }

  /** The serverless slug spells ` & ` between two words as the word `and`. */
  lemma NetlifySpellsAmpersand(a: string, b: string)
    requires IsWord(a) && IsWord(b)
    ensures NetlifySlug(a + " & " + b) == a + "-" + "and" + "-" + b + "-"
  {
    PrepareAmpersand(a, b);
    SlugifyIsJoinedWords(a + " and " + b);
    WordsAroundAnd(a, b);
    JoinThree(a, "and", b);
  }

  lemma JoinThree(a: string, m: string, b: string)
    ensures JoinHyphen([a, m, b]) == a + "-" + m + "-" + b
  {
    assert [a, m, b] == [a] + [m, b] && [m, b] == [m] + [b];
    JoinCons(a, [m, b]);
    JoinCons(m, [b]);
  }

  /** The server slug treats ` & ` as a plain separator. */
  lemma ServerDropsAmpersand(a: string, b: string)
    requires IsWord(a) && IsWord(b)
    ensures ServerSlug(a + " & " + b) == a + "-" + b + "-"
  {
    var t := a + " & " + b;
    AroundMiddle(a, " & ", b);
    SlugifyIsJoinedWords(t);
    WordsOfWordThen(a, " & ", b);
    WordsOfWord(b);
    assert Words(t) == [a, b];
  }

  /** Trimming keeps characters and drops some; it introduces none. */
  lemma {:induction false} TrimStartFrom(s: string)
    ensures forall c :: c in TrimStart(s) ==> c in s
    decreases |s|
  {
    if s != [] && IsJsSpace(s[0]) {
      TrimStartFrom(s[1..]);
    }
  }

  lemma {:induction false} TrimEndFrom(s: string)
    ensures forall c :: c in TrimEnd(s) ==> c in s
    decreases |s|
  {
    if s != [] && IsJsSpace(s[|s| - 1]) {
      TrimEndFrom(s[..|s| - 1]);
    }
  }

  /** A character that is neither an apostrophe nor `&`. */
  predicate Unaffected(c: char) { !IsApostrophe(c) && c != '&' }

  /** On a title with no apostrophe and no `&`, both variants build the same slug. */
  lemma VariantsAgree(title: string)
    requires forall k :: 0 <= k < |title| ==> Unaffected(title[k])
    ensures NetlifySlug(title) == ServerSlug(title)
  {
    var t := Trim(title);
    TrimStartFrom(title);
    TrimEndFrom(TrimStart(title));
    assert forall k :: 0 <= k < |t| ==> Unaffected(t[k]) by {
      forall k | 0 <= k < |t| ensures Unaffected(t[k]) {
        assert t[k] in TrimStart(title);
      }
    }
    var l := LowerCase(t);
    DeleteApostrophesKeeps(l);
    ReplaceAmpersandsKeeps(l);
  }
}
