/**
 The reference definition of a slug: the words of the prepared title (maximal
 runs of `[a-z0-9]`) joined with `-`, followed by `-`. The lemmas here describe
 what the run-collapsing step of module Slug leaves, word by word.
 */
module SlugWords {
  import opened Text
  import opened Slug

  predicate AllLowerAlnum(s: string) { forall k :: 0 <= k < |s| ==> IsLowerAlnum(s[k]) }

  predicate IsWord(w: string) { w != [] && AllLowerAlnum(w) }

  /** The end of the run of `[a-z0-9]` that starts at i. */
  function WordEnd(s: string, i: nat): (r: nat)
    requires i <= |s|
    ensures i <= r <= |s|
    ensures r < |s| ==> !IsLowerAlnum(s[r])
    decreases |s| - i
  {
    if i < |s| && IsLowerAlnum(s[i]) then WordEnd(s, i + 1) else i
  }

  /** The maximal runs of `[a-z0-9]` in s[i..], left to right. */
  function WordsFrom(s: string, i: nat): seq<string>
    requires i <= |s|
    decreases |s| - i
  {
    var b := SeparatorEnd(s, i);
    if b == |s| then []
    else
      var e := WordEnd(s, b);
      [s[b..e]] + WordsFrom(s, e)
  }

  function Words(s: string): seq<string> { WordsFrom(s, 0) }

  function JoinHyphen(ws: seq<string>): string
  {
    if ws == [] then []
    else if |ws| == 1 then ws[0]
    else ws[0] + "-" + JoinHyphen(ws[1..])
  }

  predicate SlugChars(s: string) { forall k :: 0 <= k < |s| ==> IsLowerAlnum(s[k]) || s[k] == '-' }

  predicate NoDoubleHyphen(s: string) { forall k :: 0 <= k < |s| - 1 ==> !(s[k] == '-' && s[k + 1] == '-') }

  /** The shape every slug has: only `[a-z0-9-]`, a trailing `-`, no `--`, and a
      leading `-` only in the slug `-` of a title without letters or digits. */
  predicate IsSlug(s: string)
  {
    && SlugChars(s)
    && s != [] && s[|s| - 1] == '-'
    && NoDoubleHyphen(s)
    && (s[0] == '-' ==> s == "-")
  }

  /** `-` when s[i..] is not empty and ends outside `[a-z0-9]`: the separator
      that collapsing leaves at the end. */
  function TailHyphen(s: string, i: nat): string
  {
    if i < |s| && !IsLowerAlnum(s[|s| - 1]) then "-" else ""
  }

  // ---------------------------------------------------------------- lemmas

  lemma {:induction false} WordRun(s: string, i: nat)
    requires i <= |s|
    ensures forall k :: i <= k < WordEnd(s, i) ==> IsLowerAlnum(s[k])
    decreases |s| - i
  {
    if i < |s| && IsLowerAlnum(s[i]) { WordRun(s, i + 1); }
  }

  lemma {:induction false} SeparatorRun(s: string, i: nat)
    requires i <= |s|
    ensures forall k :: i <= k < SeparatorEnd(s, i) ==> !IsLowerAlnum(s[k])
    decreases |s| - i
  {
    if i < |s| && !IsLowerAlnum(s[i]) { SeparatorRun(s, i + 1); }
  }

  lemma {:induction false} WordsAreWords(s: string, i: nat)
    requires i <= |s|
    ensures forall n :: 0 <= n < |WordsFrom(s, i)| ==> IsWord(WordsFrom(s, i)[n])
    decreases |s| - i
  {
    var b := SeparatorEnd(s, i);
    if b < |s| {
      var e := WordEnd(s, b);
      WordRun(s, b);
      WordsAreWords(s, e);
      assert WordsFrom(s, i) == [s[b..e]] + WordsFrom(s, e);
    }
  }

  /** Collapsing copies a word unchanged. */
  lemma {:induction false} CollapseWord(s: string, i: nat)
    requires i <= |s|
    ensures CollapseFrom(s, i) == s[i..WordEnd(s, i)] + CollapseFrom(s, WordEnd(s, i))
    decreases |s| - i
  {
    var e := WordEnd(s, i);
    if i < |s| && IsLowerAlnum(s[i]) {
      assert WordEnd(s, i + 1) == e;
      CollapseWord(s, i + 1);
      var c := CollapseFrom(s, e);
      calc {
        CollapseFrom(s, i);
        [s[i]] + CollapseFrom(s, i + 1);
        [s[i]] + (s[i + 1..e] + c);
        { assert [s[i]] + (s[i + 1..e] + c) == ([s[i]] + s[i + 1..e]) + c; }
        ([s[i]] + s[i + 1..e]) + c;
        { assert [s[i]] + s[i + 1..e] == s[i..e]; }
        s[i..e] + c;
      }
    } else {
      assert s[i..e] == [];
      assert [] + CollapseFrom(s, e) == CollapseFrom(s, e);
    }
  }

  /** Collapsing turns a whole separator run into one `-`. */
  lemma CollapseSeparator(s: string, i: nat)
    requires i < |s| && !IsLowerAlnum(s[i])
    ensures CollapseFrom(s, i) == "-" + CollapseFrom(s, SeparatorEnd(s, i))
  {
  }

  lemma SeparatorEndAtWord(s: string, b: nat)
    requires b <= |s| && (b == |s| || IsLowerAlnum(s[b]))
    ensures SeparatorEnd(s, b) == b
  {
  }

  /** A separator run contributes no word. */
  lemma WordsSeparator(s: string, i: nat)
    requires i <= |s|
    ensures WordsFrom(s, i) == WordsFrom(s, SeparatorEnd(s, i))
  {
    SeparatorEndAtWord(s, SeparatorEnd(s, i));
  }

  /** At a letter or digit the next word starts. */
  lemma WordsAtWord(s: string, i: nat)
    requires i < |s| && IsLowerAlnum(s[i])
    ensures WordsFrom(s, i) == [s[i..WordEnd(s, i)]] + WordsFrom(s, WordEnd(s, i))
  {
    SeparatorEndAtWord(s, i);
  }

  lemma ConcatAssoc(a: string, b: string, c: string, d: string)
    ensures a + (b + (c + d)) == (a + b + c) + d
  {
  }

  lemma JoinCons(w: string, ws: seq<string>)
    requires ws != []
    ensures JoinHyphen([w] + ws) == w + "-" + JoinHyphen(ws)
  {
    assert ([w] + ws)[1..] == ws;
  }

  /** A word that runs to the end of the text. */
  lemma CollapseLastWord(s: string, i: nat)
    requires i < |s| && IsLowerAlnum(s[i]) && WordEnd(s, i) == |s|
    ensures CollapseFrom(s, i) == JoinHyphen(WordsFrom(s, i)) + TailHyphen(s, i)
  {
    var w := s[i..|s|];
    CollapseWord(s, i);
    WordsAtWord(s, i);
    WordRun(s, i);
    assert IsLowerAlnum(s[|s| - 1]);
    assert TailHyphen(s, i) == [];
    assert WordsFrom(s, |s|) == [];
    assert WordsFrom(s, i) == [w];
    assert CollapseFrom(s, |s|) == [];
    assert CollapseFrom(s, i) == w + [];
  }

  /** A word followed by a separator run that reaches the end of the text. */
  lemma CollapseWordThenEnd(s: string, i: nat)
    requires i < |s| && IsLowerAlnum(s[i])
    requires WordEnd(s, i) < |s| && SeparatorEnd(s, WordEnd(s, i)) == |s|
    ensures CollapseFrom(s, i) == JoinHyphen(WordsFrom(s, i)) + TailHyphen(s, i)
  {
    var e := WordEnd(s, i);
    var w := s[i..e];
    CollapseWord(s, i);
    WordsAtWord(s, i);
    CollapseSeparator(s, e);
    WordsSeparator(s, e);
    SeparatorRun(s, e);
    assert WordsFrom(s, i) == [w];
    assert CollapseFrom(s, i) == w + "-";
  }

  /** A word, a separator run, then another word. */
  lemma CollapseWordThenWord(s: string, i: nat)
    requires i < |s| && IsLowerAlnum(s[i])
    requires WordEnd(s, i) < |s| && SeparatorEnd(s, WordEnd(s, i)) < |s|
    requires var b := SeparatorEnd(s, WordEnd(s, i));
      CollapseFrom(s, b) == JoinHyphen(WordsFrom(s, b)) + TailHyphen(s, b)
    ensures CollapseFrom(s, i) == JoinHyphen(WordsFrom(s, i)) + TailHyphen(s, i)
  {
    var e := WordEnd(s, i);
    var w := s[i..e];
    var b := SeparatorEnd(s, e);
    CollapseWord(s, i);
    WordsAtWord(s, i);
    CollapseSeparator(s, e);
    WordsSeparator(s, e);
    WordsAtWord(s, b);
    JoinCons(w, WordsFrom(s, b));
    var j, t := JoinHyphen(WordsFrom(s, b)), TailHyphen(s, b);
    calc {
      CollapseFrom(s, i);
      w + ("-" + (j + t));
      { ConcatAssoc(w, "-", j, t); }
      (w + "-" + j) + t;
    }
  }

  /** From a letter or digit on, collapsing gives the words joined with `-`,
      plus a `-` for a trailing separator. */
  lemma {:induction false} CollapseFromWord(s: string, i: nat)
    requires i <= |s| && (i == |s| || IsLowerAlnum(s[i]))
    ensures CollapseFrom(s, i) == JoinHyphen(WordsFrom(s, i)) + TailHyphen(s, i)
    decreases |s| - i
  {
    if i < |s| {
      var e := WordEnd(s, i);
      if e == |s| {
        CollapseLastWord(s, i);
      } else if SeparatorEnd(s, e) == |s| {
        CollapseWordThenEnd(s, i);
      } else {
        CollapseFromWord(s, SeparatorEnd(s, e));
        CollapseWordThenWord(s, i);
      }
    }
  }

  lemma SeparatorEndOfRun(s: string, i: nat, e: nat)
    requires i <= e <= |s|
    requires forall k :: i <= k < e ==> !IsLowerAlnum(s[k])
    requires e == |s| || IsLowerAlnum(s[e])
    ensures SeparatorEnd(s, i) == e
    decreases e - i
  {
    if i < e { SeparatorEndOfRun(s, i + 1, e); }
  }

  lemma WordEndOfRun(s: string, i: nat, e: nat)
    requires i <= e <= |s|
    requires forall k :: i <= k < e ==> IsLowerAlnum(s[k])
    requires e == |s| || !IsLowerAlnum(s[e])
    ensures WordEnd(s, i) == e
    decreases e - i
  {
    if i < e { WordEndOfRun(s, i + 1, e); }
  }

  lemma {:induction false} SeparatorEndShift(x: string, y: string, i: nat)
    requires i <= |y|
    ensures SeparatorEnd(x + y, |x| + i) == |x| + SeparatorEnd(y, i)
    decreases |y| - i
  {
    if i < |y| {
      assert (x + y)[|x| + i] == y[i];
      SeparatorEndShift(x, y, i + 1);
    }
  }

  lemma {:induction false} WordEndShift(x: string, y: string, i: nat)
    requires i <= |y|
    ensures WordEnd(x + y, |x| + i) == |x| + WordEnd(y, i)
    decreases |y| - i
  {
    if i < |y| {
      assert (x + y)[|x| + i] == y[i];
      WordEndShift(x, y, i + 1);
    }
  }

  /** One step of WordsShift: no word is left after the prefix. */
  lemma WordsShiftNone(x: string, y: string, i: nat)
    requires i <= |y| && SeparatorEnd(y, i) == |y|
    ensures WordsFrom(x + y, |x| + i) == []
  {
    SeparatorEndShift(x, y, i);
  }

  /** One step of WordsShift: the first word after the prefix. */
  lemma WordsShiftWord(x: string, y: string, i: nat)
    requires i <= |y| && SeparatorEnd(y, i) < |y|
    ensures var b := SeparatorEnd(y, i);
      WordsFrom(x + y, |x| + i) == [y[b..WordEnd(y, b)]] + WordsFrom(x + y, |x| + WordEnd(y, b))
  {
    var s, b := x + y, SeparatorEnd(y, i);
    var e := WordEnd(y, b);
    SeparatorEndShift(x, y, i);
    WordEndShift(x, y, b);
    SliceShift(x, y, b, e);
  }

  lemma SliceShift(x: string, y: string, b: nat, e: nat)
    requires b <= e <= |y|
    ensures (x + y)[|x| + b..|x| + e] == y[b..e]
  {
    var u, v := (x + y)[|x| + b..|x| + e], y[b..e];
    assert |u| == |v|;
    forall k | 0 <= k < |u| ensures u[k] == v[k] {
      assert u[k] == (x + y)[|x| + b + k];
    }
  }

  /** The words after a prefix x are the words of what follows it. */
  lemma {:induction false} WordsShift(x: string, y: string, i: nat)
    requires i <= |y|
    ensures WordsFrom(x + y, |x| + i) == WordsFrom(y, i)
    decreases |y| - i
  {
    var b := SeparatorEnd(y, i);
    if b < |y| {
      WordsShiftWord(x, y, i);
      WordsShift(x, y, WordEnd(y, b));
    } else {
      WordsShiftNone(x, y, i);
    }
  }

  /** A string made of one word has that word alone. */
  lemma WordsOfWord(w: string)
    requires IsWord(w)
    ensures Words(w) == [w]
  {
    SeparatorEndOfRun(w, 0, 0);
    WordEndOfRun(w, 0, |w|);
    assert w[0..|w|] == w;
    assert WordsFrom(w, |w|) == [];
  }

  /** A word, then a separator run, then text starting with a letter or digit (or nothing). */
  lemma WordsOfWordThen(w: string, sep: string, rest: string)
    requires IsWord(w)
    requires sep != [] && forall k :: 0 <= k < |sep| ==> !IsLowerAlnum(sep[k])
    requires rest == [] || IsLowerAlnum(rest[0])
    ensures Words(w + sep + rest) == [w] + Words(rest)
  {
    LeadingWordOf(w, sep, rest);
    SeparatorThen(w, sep, rest);
  }

  /** The word w at the start of w + sep + rest. */
  lemma LeadingWordOf(w: string, sep: string, rest: string)
    requires IsWord(w) && sep != [] && !IsLowerAlnum(sep[0])
    ensures Words(w + sep + rest) == [w] + WordsFrom(w + sep + rest, |w|)
  {
    var s := w + sep + rest;
    assert forall k :: 0 <= k < |w| ==> s[k] == w[k];
    assert s[|w|] == sep[0];
    SeparatorEndOfRun(s, 0, 0);
    WordEndOfRun(s, 0, |w|);
    assert s[0..|w|] == w;
  }

  lemma SeparatorEndInside(w: string, sep: string, rest: string)
    requires sep != [] && forall k :: 0 <= k < |sep| ==> !IsLowerAlnum(sep[k])
    requires rest == [] || IsLowerAlnum(rest[0])
    ensures SeparatorEnd(w + sep + rest, |w|) == |w + sep|
  {
    var s := w + sep + rest;
    assert forall k :: |w| <= k < |w| + |sep| ==> s[k] == sep[k - |w|];
    if rest != [] { assert s[|w| + |sep|] == rest[0]; }
    SeparatorEndOfRun(s, |w|, |w| + |sep|);
  }

  /** After the word w, a separator run and then rest: the words of rest. */
  lemma SeparatorThen(w: string, sep: string, rest: string)
    requires sep != [] && forall k :: 0 <= k < |sep| ==> !IsLowerAlnum(sep[k])
    requires rest == [] || IsLowerAlnum(rest[0])
    ensures WordsFrom(w + sep + rest, |w|) == Words(rest)
  {
    SeparatorEndInside(w, sep, rest);
    WordsSeparator(w + sep + rest, |w|);
    WordsShift(w + sep, rest, 0);
  }

  lemma {:induction false} JoinShape(ws: seq<string>)
    requires forall i :: 0 <= i < |ws| ==> IsWord(ws[i])
    ensures SlugChars(JoinHyphen(ws)) && NoDoubleHyphen(JoinHyphen(ws))
    ensures ws != [] ==> JoinHyphen(ws) != [] && IsLowerAlnum(JoinHyphen(ws)[0])
                         && IsLowerAlnum(JoinHyphen(ws)[|JoinHyphen(ws)| - 1])
    ensures ws == [] ==> JoinHyphen(ws) == []
  {
    if |ws| >= 2 {
      JoinShape(ws[1..]);
      var a, b := ws[0], JoinHyphen(ws[1..]);
      var j := a + "-" + b;
      assert JoinHyphen(ws) == j;
      forall k | 0 <= k < |j| ensures IsLowerAlnum(j[k]) || j[k] == '-' {
        if k < |a| { assert j[k] == a[k]; } else if k > |a| { assert j[k] == b[k - |a| - 1]; }
      }
      forall k | 0 <= k < |j| - 1 ensures !(j[k] == '-' && j[k + 1] == '-') {
        if k < |a| - 1 { assert j[k] == a[k]; }
        else if k == |a| - 1 { assert j[k] == a[k]; }
        else if k == |a| { assert j[k + 1] == b[0]; }
        else { assert j[k] == b[k - |a| - 1] && j[k + 1] == b[k + 1 - |a| - 1]; }
      }
    }
  }

  /** Stripping edge hyphens leaves the joined words when at most one separator
      hyphen sits at each end. */
  lemma TrimAroundWords(lead: string, j: string, tail: string)
    requires lead == "" || lead == "-"
    requires tail == "" || tail == "-"
    requires j == [] || (j[0] != '-' && j[|j| - 1] != '-')
    ensures TrimHyphens(lead + j + tail) == j
  {
    DropLeadingSeparator(lead, j + tail);
    assert lead + j + tail == lead + (j + tail);
    if j == [] {
      assert j + tail == tail;
      if tail == "-" { assert DropLeadingHyphens(tail) == DropLeadingHyphens(tail[1..]); }
    } else {
      assert (j + tail)[0] == j[0];
      assert DropLeadingHyphens(j + tail) == j + tail;
      DropTrailingSeparator(j, tail);
    }
  }

  lemma DropLeadingSeparator(lead: string, y: string)
    requires lead == "" || lead == "-"
    ensures DropLeadingHyphens(lead + y) == DropLeadingHyphens(y)
  {
    if lead == "-" { assert (lead + y)[1..] == y; } else { assert lead + y == y; }
  }

  lemma DropTrailingSeparator(j: string, tail: string)
    requires tail == "" || tail == "-"
    requires j != [] && j[|j| - 1] != '-'
    ensures DropTrailingHyphens(j + tail) == j
  {
    if tail == "-" { assert (j + tail)[..|j + tail| - 1] == j; } else { assert j + tail == j; }
  }
}
