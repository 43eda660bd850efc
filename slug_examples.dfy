/**
 Titles made of words with separators between them, the slug of the example
 title in the server's comment ("The Amateur"), and two further titles with an
 apostrophe and an ampersand.
 */
module SlugExamples {
  import opened Text
  import opened Slug
  import opened SlugWords
  import opened SlugProperties

  /** A run of characters outside `[a-z0-9]`, such as a space, `'` or ` & `. */
  predicate IsSeparator(sep: string)
  {
    sep != [] && forall k :: 0 <= k < |sep| ==> !IsLowerAlnum(sep[k])
  }

  /** ws[0] + seps[0] + ws[1] + seps[1] + ... + ws[|ws| - 1]. */
  function Interleave(ws: seq<string>, seps: seq<string>): string
    requires |seps| + 1 == |ws|
  {
    if |ws| == 1 then ws[0] else ws[0] + seps[0] + Interleave(ws[1..], seps[1..])
  }

  predicate AllWords(ws: seq<string>) { forall i :: 0 <= i < |ws| ==> IsWord(ws[i]) }

  predicate AllSeparators(seps: seq<string>) { forall i :: 0 <= i < |seps| ==> IsSeparator(seps[i]) }

  /** Words separated by separator runs are exactly the words of the text. */
  lemma {:induction false} WordsOfInterleave(ws: seq<string>, seps: seq<string>)
    requires |seps| + 1 == |ws| && AllWords(ws) && AllSeparators(seps)
    ensures Words(Interleave(ws, seps)) == ws
    ensures IsLowerAlnum(Interleave(ws, seps)[0])
  {
    if |ws| == 1 {
      WordsOfWord(ws[0]);
    } else {
      var rest := Interleave(ws[1..], seps[1..]);
      WordsOfInterleave(ws[1..], seps[1..]);
      WordsOfWordThen(ws[0], seps[0], rest);
      assert [ws[0]] + ws[1..] == ws;
      assert Interleave(ws, seps)[0] == ws[0][0];
    }
  }

  /** Whatever separator runs stand between the words, the slug is the words
      joined with `-`, followed by `-`. */
  lemma SlugifyInterleave(ws: seq<string>, seps: seq<string>)
    requires |seps| + 1 == |ws| && AllWords(ws) && AllSeparators(seps)
    ensures Slugify(Interleave(ws, seps)) == JoinHyphen(ws) + "-"
  {
    WordsOfInterleave(ws, seps);
    SlugifyIsJoinedWords(Interleave(ws, seps));
  }

  /** The serverless slug of a title whose prepared form is words and separators. */
  lemma NetlifySlugIs(title: string, ws: seq<string>, seps: seq<string>, r: string)
    requires |seps| + 1 == |ws| && AllWords(ws) && AllSeparators(seps)
    requires ReplaceAmpersands(DeleteApostrophes(LowerCase(Trim(title)))) == Interleave(ws, seps)
    requires r == JoinHyphen(ws) + "-"
    ensures NetlifySlug(title) == r
  {
    SlugifyInterleave(ws, seps);
  }

  /** The server slug of a title whose lower-cased form is words and separators. */
  lemma ServerSlugIs(title: string, ws: seq<string>, seps: seq<string>, r: string)
    requires |seps| + 1 == |ws| && AllWords(ws) && AllSeparators(seps)
    requires LowerCase(Trim(title)) == Interleave(ws, seps)
    requires r == JoinHyphen(ws) + "-"
    ensures ServerSlug(title) == r
  {
    SlugifyInterleave(ws, seps);
  }

  // ---------------------------------------------------------------- case

  lemma {:induction false} TrimStartLower(s: string)
    ensures TrimStart(LowerCase(s)) == LowerCase(TrimStart(s))
  {
    if s != [] {
      assert LowerCase(s)[0] == ToLower(s[0]);
      assert LowerCase(s)[1..] == LowerCase(s[1..]);
      if IsJsSpace(s[0]) {
        TrimStartLower(s[1..]);
      }
    }
  }

  lemma {:induction false} TrimEndLower(s: string)
    ensures TrimEnd(LowerCase(s)) == LowerCase(TrimEnd(s))
  {
    if s != [] {
      assert LowerCase(s)[|s| - 1] == ToLower(s[|s| - 1]);
      assert LowerCase(s)[..|s| - 1] == LowerCase(s[..|s| - 1]);
      if IsJsSpace(s[|s| - 1]) {
        TrimEndLower(s[..|s| - 1]);
      }
    }
  }

  /** Both slugs depend on the title only up to ASCII case. */
  lemma SlugIgnoresCase(v: SlugVariant, title: string)
    ensures SlugOf(v, LowerCase(title)) == SlugOf(v, title)
  {
    TrimStartLower(title);
    TrimEndLower(TrimStart(title));
    var t := Trim(title);
    assert LowerCase(LowerCase(t)) == LowerCase(t);
  }

  // ---------------------------------------------------------------- the examples
  
  /** Text without capitals, apostrophes or `&`: the serverless preparation keeps it. */
  predicate Plain(s: string)
  {
    forall k :: 0 <= k < |s| ==> !('A' <= s[k] <= 'Z') && !IsApostrophe(s[k]) && s[k] != '&'
  }

  lemma PlainConcat(x: string, y: string)
    requires Plain(x) && Plain(y)
    ensures Plain(x + y)
  {
    var xy := x + y;
    assert forall k :: 0 <= k < |xy| ==> xy[k] == (if k < |x| then x[k] else y[k - |x|]);
  }

  lemma PlainKeeps(x: string)
    requires Plain(x)
    ensures LowerCase(x) == x && DeleteApostrophes(x) == x && ReplaceAmpersands(x) == x
  {
    LowerCaseKeeps(x);
    DeleteApostrophesKeeps(x);
    ReplaceAmpersandsKeeps(x);
  }

  /** The title shape of the examples: five words, the second and third joined by an
      apostrophe, the last two by ` & `. */
  function FiveWords(a: string, b: string, q: char, c: string, d: string, e: string): string
  {
    a + " " + b + [q] + c + " " + d + " & " + e
  }

  lemma WordIsPlain(w: string)
    requires IsWord(w)
    ensures Plain(w) && NoUpper(w)
  {
  }

  lemma NoUpperConcat(x: string, y: string)
    requires NoUpper(x) && NoUpper(y)
    ensures NoUpper(x + y)
  {
    var xy := x + y;
    assert forall k :: 0 <= k < |xy| ==> xy[k] == (if k < |x| then x[k] else y[k - |x|]);
  }

  lemma FiveWordsAssoc(a: string, b: string, q: char, c: string, d: string, e: string)
    ensures FiveWords(a, b, q, c, d, e) == (a + " " + b) + [q] + ((c + " " + d) + " & " + e)
  {
  }

  lemma FiveWordsPlainParts(a: string, b: string, c: string, d: string, e: string)
    requires IsWord(a) && IsWord(b) && IsWord(c) && IsWord(d) && IsWord(e)
    ensures Plain(a + " " + b) && Plain(c + " " + d) && Plain(e)
    ensures NoUpper(a + " " + b) && NoUpper(c + " " + d) && NoUpper(e)
  {
    WordIsPlain(a);
    WordIsPlain(b);
    WordIsPlain(c);
    WordIsPlain(d);
    WordIsPlain(e);
    assert Plain(" ");
    PlainConcat(a, " ");
    PlainConcat(a + " ", b);
    PlainConcat(c, " ");
    PlainConcat(c + " ", d);
  }

  lemma FiveWordsParts(a: string, b: string, q: char, c: string, d: string, e: string)
    requires IsWord(a) && IsWord(b) && IsWord(c) && IsWord(d) && IsWord(e) && IsApostrophe(q)
    ensures FiveWords(a, b, q, c, d, e) == (a + " " + b) + [q] + ((c + " " + d) + " & " + e)
    ensures Plain(a + " " + b) && Plain(c + " " + d) && Plain(e)
    ensures Trim(FiveWords(a, b, q, c, d, e)) == FiveWords(a, b, q, c, d, e)
    ensures LowerCase(FiveWords(a, b, q, c, d, e)) == FiveWords(a, b, q, c, d, e)
  {
    var t := FiveWords(a, b, q, c, d, e);
    var x, y := a + " " + b, c + " " + d;
    FiveWordsAssoc(a, b, q, c, d, e);
    FiveWordsPlainParts(a, b, c, d, e);
    assert t[0] == a[0] && t[|t| - 1] == e[|e| - 1];
    TrimKeeps(t);
    assert NoUpper([q]) && NoUpper(" & ");
    NoUpperConcat(x, [q]);
    NoUpperConcat(y, " & ");
    NoUpperConcat(y + " & ", e);
    NoUpperConcat(x + [q], (y + " & ") + e);
    LowerCaseKeeps(t);
  }

  predicate NoApostrophe(s: string) { forall k :: 0 <= k < |s| ==> !IsApostrophe(s[k]) }

  lemma NoApostropheConcat(x: string, y: string)
    requires NoApostrophe(x) && NoApostrophe(y)
    ensures NoApostrophe(x + y)
  {
    var xy := x + y;
    assert forall k :: 0 <= k < |xy| ==> xy[k] == (if k < |x| then x[k] else y[k - |x|]);
  }

  /** Deleting the one apostrophe between x and y joins them. */
  lemma DeleteOneApostrophe(x: string, q: char, y: string)
    requires NoApostrophe(x) && NoApostrophe(y) && IsApostrophe(q)
    ensures DeleteApostrophes(x + [q] + y) == x + y
  {
    DeleteApostrophesConcat(x + [q], y);
    DeleteApostrophesConcat(x, [q]);
    DeleteApostrophesKeeps(x);
    DeleteApostrophesKeeps(y);
    assert DeleteApostrophes([q]) == [];
    assert x + [] == x;
  }

  /** Deleting the apostrophe joins the second and third words. */
  lemma FiveWordsDeleted(a: string, b: string, q: char, c: string, d: string, e: string)
    requires IsWord(a) && IsWord(b) && IsWord(c) && IsWord(d) && IsWord(e) && IsApostrophe(q)
    ensures DeleteApostrophes(FiveWords(a, b, q, c, d, e)) == (a + " " + b) + ((c + " " + d) + " & " + e)
  {
    FiveWordsAssoc(a, b, q, c, d, e);
    FiveWordsPlainParts(a, b, c, d, e);
    var x, y := a + " " + b, c + " " + d;
    assert NoApostrophe(" & ");
    NoApostropheConcat(y, " & ");
    NoApostropheConcat(y + " & ", e);
    DeleteOneApostrophe(x, q, (y + " & ") + e);
  }

  /** Spelling `&` as `and`. */
  lemma FiveWordsSpelled(x: string, y: string, e: string)
    requires Plain(x) && Plain(y) && Plain(e)
    ensures ReplaceAmpersands(x + ((y + " & ") + e)) == x + ((y + " and ") + e)
  {
    ReplaceAmpersandsConcat(x, (y + " & ") + e);
    ReplaceAmpersandsConcat(y + " & ", e);
    ReplaceAmpersandsConcat(y, " & ");
    PlainKeeps(x);
    PlainKeeps(y);
    PlainKeeps(e);
    assert ReplaceAmpersands(" & ") == " and ";
  }

  lemma FiveWordsInterleave(a: string, b: string, c: string, d: string, e: string)
    ensures (a + " " + b) + (((c + " " + d) + " and ") + e) == Interleave([a, b + c, d, "and", e], [" ", " ", " ", " "])
  {
    assert Interleave(["and", e], [" "]) == "and" + " " + e;
    assert Interleave([d, "and", e], [" ", " "]) == d + " " + ("and" + " " + e);
    assert Interleave([b + c, d, "and", e], [" ", " ", " "]) == b + c + " " + (d + " " + ("and" + " " + e));
    assert Interleave([a, b + c, d, "and", e], [" ", " ", " ", " "])
      == a + " " + (b + c + " " + (d + " " + ("and" + " " + e)));
  }

  /** The serverless preparation turns the title into five words separated by spaces. */
  lemma FiveWordsPrepared(a: string, b: string, q: char, c: string, d: string, e: string)
    requires IsWord(a) && IsWord(b) && IsWord(c) && IsWord(d) && IsWord(e) && IsApostrophe(q)
    ensures ReplaceAmpersands(DeleteApostrophes(LowerCase(Trim(FiveWords(a, b, q, c, d, e)))))
      == Interleave([a, b + c, d, "and", e], [" ", " ", " ", " "])
  {
    FiveWordsParts(a, b, q, c, d, e);
    FiveWordsDeleted(a, b, q, c, d, e);
    assert (c + " " + d) + " & " + e == ((c + " " + d) + " & ") + e;
    FiveWordsSpelled(a + " " + b, c + " " + d, e);
    FiveWordsInterleave(a, b, c, d, e);
  }

  lemma FiveWordsJoin(a: string, m: string, d: string, e: string)
    ensures JoinHyphen([a, m, d, "and", e]) == a + "-" + m + "-" + d + "-and-" + e
  {
    assert JoinHyphen(["and", e]) == "and" + "-" + e;
    assert JoinHyphen([d, "and", e]) == d + "-" + ("and" + "-" + e);
    assert JoinHyphen([m, d, "and", e]) == m + "-" + (d + "-" + ("and" + "-" + e));
    assert JoinHyphen([a, m, d, "and", e]) == a + "-" + (m + "-" + (d + "-" + ("and" + "-" + e)));
  }

  lemma FiveAllWords(a: string, m: string, d: string, e: string)
    requires IsWord(a) && IsWord(m) && IsWord(d) && IsWord(e)
    ensures AllWords([a, m, d, "and", e]) && AllSeparators([" ", " ", " ", " "])
  {
    var ws := [a, m, d, "and", e];
    assert ws[0] == a && ws[1] == m && ws[2] == d && ws[3] == "and" && ws[4] == e;
  }

  /** The serverless slug of the example shape: the apostrophe disappears and `&`
      becomes the word `and`. */
  lemma NetlifySlugOfFiveWords(a: string, b: string, q: char, c: string, d: string, e: string)
    requires IsWord(a) && IsWord(b) && IsWord(c) && IsWord(d) && IsWord(e) && IsApostrophe(q)
    ensures NetlifySlug(FiveWords(a, b, q, c, d, e)) == a + "-" + (b + c) + "-" + d + "-and-" + e + "-"
  {
    ConcatWords(b, c);
    FiveAllWords(a, b + c, d, e);
    FiveWordsPrepared(a, b, q, c, d, e);
    FiveWordsJoin(a, b + c, d, e);
    NetlifySlugIs(FiveWords(a, b, q, c, d, e), [a, b + c, d, "and", e], [" ", " ", " ", " "],
      a + "-" + (b + c) + "-" + d + "-and-" + e + "-");
  }

  /** Words with separators between them that hold no capital letter start and end
      with a letter or digit and have no capital letter. */
  lemma {:induction false} InterleaveShape(ws: seq<string>, seps: seq<string>)
    requires |seps| + 1 == |ws| && AllWords(ws) && AllSeparators(seps)
    requires forall i :: 0 <= i < |seps| ==> NoUpper(seps[i])
    ensures var t := Interleave(ws, seps);
      t != [] && IsLowerAlnum(t[0]) && IsLowerAlnum(t[|t| - 1]) && NoUpper(t)
  {
    var t := Interleave(ws, seps);
    WordIsPlain(ws[0]);
    if |ws| == 1 {
      assert t == ws[0];
    } else {
      var rest := Interleave(ws[1..], seps[1..]);
      InterleaveShape(ws[1..], seps[1..]);
      assert t == ws[0] + seps[0] + rest;
      NoUpperConcat(ws[0], seps[0]);
      NoUpperConcat(ws[0] + seps[0], rest);
      assert t[0] == ws[0][0];
      assert t[|t| - 1] == rest[|rest| - 1];
    }
  }

  /** The server slug of words with separators between them that hold no capital
      letter: the words joined with `-`, followed by `-`. */
  lemma ServerSlugOfWords(ws: seq<string>, seps: seq<string>)
    requires |seps| + 1 == |ws| && AllWords(ws) && AllSeparators(seps)
    requires forall i :: 0 <= i < |seps| ==> NoUpper(seps[i])
    ensures ServerSlug(Interleave(ws, seps)) == JoinHyphen(ws) + "-"
  {
    var t := Interleave(ws, seps);
    InterleaveShape(ws, seps);
    TrimKeeps(t);
    LowerCaseKeeps(t);
    ServerSlugIs(t, ws, seps, JoinHyphen(ws) + "-");
  }

  // ---------------------------------------------------------------- the example titles

  lemma LowerTheAmateur()
    ensures LowerCase("The Amateur") == Interleave(["the", "amateur"], [" "])
  {
    assert LowerCase("The Amateur") == "the amateur";
  }

  lemma TheAmateurWords()
    ensures AllWords(["the", "amateur"]) && AllSeparators([" "]) && NoUpper(" ")
    ensures JoinHyphen(["the", "amateur"]) + "-" == "the-amateur-"
  {
  }

  /** The server slug of "The Amateur" is `the-amateur-`. */
  lemma ServerSlugOfTheAmateur()
    ensures ServerSlug("The Amateur") == "the-amateur-"
  {
    SlugIgnoresCase(Server, "The Amateur");
    LowerTheAmateur();
    TheAmateurWords();
    ServerSlugOfWords(["the", "amateur"], [" "]);
  }

  lemma LowerTheAmateurs()
    ensures LowerCase("The Amateur's") == Interleave(["the", "amateur", "s"], [" ", "'"])
  {
    assert LowerCase("The Amateur's") == "the amateur's";
  }

  lemma TheAmateursWords()
    ensures AllWords(["the", "amateur", "s"]) && AllSeparators([" ", "'"])
    ensures NoUpper(" ") && NoUpper("'")
    ensures JoinHyphen(["the", "amateur", "s"]) + "-" == "the-amateur-s-"
  {
  }

  /** The server slug treats the apostrophe as a separator: "The Amateur's" gives
      `the-amateur-s-`. */
  lemma ServerSlugOfTheAmateurs()
    ensures ServerSlug("The Amateur's") == "the-amateur-s-"
  {
    SlugIgnoresCase(Server, "The Amateur's");
    LowerTheAmateurs();
    TheAmateursWords();
    ServerSlugOfWords(["the", "amateur", "s"], [" ", "'"]);
  }

  lemma LowerCaseConcat(x: string, y: string)
    ensures LowerCase(x + y) == LowerCase(x) + LowerCase(y)
  {
  }

  lemma LowerTestAndGoHalves()
    ensures LowerCase("The Amateur's") == "the amateur's"
    ensures LowerCase(" Test & Go") == " test & go"
  {
    assert LowerCase("The Amateur's") == "the amateur's";
    assert LowerCase(" Test & Go")[1] == 't';
    assert LowerCase(" Test & Go") == " test & go";
  }

  lemma TestAndGoPieces()
    ensures "The Amateur's Test & Go" == "The Amateur's" + " Test & Go"
    ensures "the amateur's" + " test & go" == FiveWords("the", "amateur", '\'', "s", "test", "go")
  {
  }

  lemma LowerTestAndGo()
    ensures LowerCase("The Amateur's Test & Go") == FiveWords("the", "amateur", '\'', "s", "test", "go")
  {
    TestAndGoPieces();
    LowerCaseConcat("The Amateur's", " Test & Go");
    LowerTestAndGoHalves();
  }

  lemma TestAndGoWords()
    ensures IsWord("the") && IsWord("amateur") && IsWord("s") && IsWord("test") && IsWord("go")
    ensures "the" + "-" + ("amateur" + "s") + "-" + "test" + "-and-" + "go" + "-" == "the-amateurs-test-and-go-"
  {
  }

  /** The serverless slug deletes the apostrophe and spells `&` as `and`:
      "The Amateur's Test & Go" gives `the-amateurs-test-and-go-`. */
  lemma NetlifySlugOfTestAndGo()
    ensures NetlifySlug("The Amateur's Test & Go") == "the-amateurs-test-and-go-"
  {
    SlugIgnoresCase(Netlify, "The Amateur's Test & Go");
    LowerTestAndGo();
    TestAndGoWords();
    NetlifySlugOfFiveWords("the", "amateur", '\'', "s", "test", "go");
  }
}
