/**
 Character classes and the small string searches that the extractors are built
 from. Strings are sequences of Unicode code points; case folding is ASCII only.
 */
module Text {
  import opened Wrappers

  /** The regex class `\d`. */
  predicate IsDigit(c: char) { '0' <= c <= '9' }

  /** The class `[a-z0-9]` used by the slug builder. */
  predicate IsLowerAlnum(c: char) { 'a' <= c <= 'z' || '0' <= c <= '9' }

  /** JavaScript's WhiteSpace and LineTerminator code points: the regex class `\s`,
      and what `String.prototype.trim` removes. */
  predicate IsJsSpace(c: char)
  {
    c == '\t' || c == '\n' || c == '\U{000B}' || c == '\U{000C}' || c == '\r' || c == ' '
    || c == '\U{00A0}' || c == '\U{1680}' || ('\U{2000}' <= c <= '\U{200A}')
    || c == '\U{2028}' || c == '\U{2029}' || c == '\U{202F}' || c == '\U{205F}'
    || c == '\U{3000}' || c == '\U{FEFF}'
  }

  predicate AllDigits(s: string) { forall k :: 0 <= k < |s| ==> IsDigit(s[k]) }

  predicate NoQuote(s: string) { forall k :: 0 <= k < |s| ==> s[k] != '"' }

  /** Canonical form of a character under the regex `i` flag, restricted to ASCII:
      lower-case letters map to their upper-case form, everything else to itself. */
  function Fold(c: char): char
  {
    if 'a' <= c <= 'z' then (c as int - 32) as char else c
  }

  /** Lower-cases an ASCII capital letter and keeps every other character. */
  function ToLower(c: char): char
  {
    if 'A' <= c <= 'Z' then (c as int + 32) as char else c
  }

  /** Case-insensitive equality, as the regex `i` flag compares a literal. */
  predicate CiEq(a: string, b: string)
  {
    |a| == |b| && forall k :: 0 <= k < |a| ==> Fold(a[k]) == Fold(b[k])
  }

  /** Folding changes no character other than a lower-case letter, so it keeps
      quotes and everything outside ASCII as they are. */
  lemma FoldFixesNonLetters(c: char)
    ensures !('a' <= c <= 'z') ==> Fold(c) == c
    ensures Fold(c) == '"' <==> c == '"'
  {
  }

  /** The end of the run of digits that starts at i. */
  function DigitRunEnd(s: string, i: nat): (r: nat)
    requires i <= |s|
    ensures i <= r <= |s|
    ensures r < |s| ==> !IsDigit(s[r])
    decreases |s| - i
  {
    if i < |s| && IsDigit(s[i]) then DigitRunEnd(s, i + 1) else i
  }

  /** Everything from i to the end of the run is a digit. */
  lemma {:induction false} DigitRun(s: string, i: nat)
    requires i <= |s|
    ensures forall j :: i <= j < DigitRunEnd(s, i) ==> IsDigit(s[j])
    decreases |s| - i
  {
    if i < |s| && IsDigit(s[i]) {
      DigitRun(s, i + 1);
    }
  }

  /** The end of the run of `\s` characters that starts at i. */
  function SpaceRunEnd(s: string, i: nat): (r: nat)
    requires i <= |s|
    ensures i <= r <= |s|
    ensures r < |s| ==> !IsJsSpace(s[r])
    decreases |s| - i
  {
    if i < |s| && IsJsSpace(s[i]) then SpaceRunEnd(s, i + 1) else i
  }

  lemma {:induction false} SpaceRun(s: string, i: nat)
    requires i <= |s|
    ensures forall j :: i <= j < SpaceRunEnd(s, i) ==> IsJsSpace(s[j])
    decreases |s| - i
  {
    if i < |s| && IsJsSpace(s[i]) {
      SpaceRun(s, i + 1);
    }
  }

  /** The index of the first `"` at or after i, or |s| when there is none: the end
      of the run that a `[^"]*` or `[^"]+` class can consume. */
  function NextQuote(s: string, i: nat): (r: nat)
    requires i <= |s|
    ensures i <= r <= |s|
    ensures r < |s| ==> s[r] == '"'
    decreases |s| - i
  {
    if i < |s| && s[i] != '"' then NextQuote(s, i + 1) else i
  }

  lemma {:induction false} QuoteFreeRun(s: string, i: nat)
    requires i <= |s|
    ensures forall j :: i <= j < NextQuote(s, i) ==> s[j] != '"'
    decreases |s| - i
  {
    if i < |s| && s[i] != '"' {
      QuoteFreeRun(s, i + 1);
    }
  }

  /** Each run ends at the first position at or after i outside its class. */
  lemma {:induction false} DigitRunEndIs(s: string, i: nat, e: nat)
    requires i <= e <= |s| && (forall j :: i <= j < e ==> IsDigit(s[j])) && (e < |s| ==> !IsDigit(s[e]))
    ensures DigitRunEnd(s, i) == e
    decreases e - i
  {
    if i < e {
      DigitRunEndIs(s, i + 1, e);
    }
  }

  lemma {:induction false} SpaceRunEndIs(s: string, i: nat, e: nat)
    requires i <= e <= |s| && (forall j :: i <= j < e ==> IsJsSpace(s[j])) && (e < |s| ==> !IsJsSpace(s[e]))
    ensures SpaceRunEnd(s, i) == e
    decreases e - i
  {
    if i < e {
      SpaceRunEndIs(s, i + 1, e);
    }
  }

  lemma {:induction false} NextQuoteIs(s: string, i: nat, e: nat)
    requires i <= e <= |s| && (forall j :: i <= j < e ==> s[j] != '"') && (e < |s| ==> s[e] == '"')
    ensures NextQuote(s, i) == e
    decreases e - i
  {
    if i < e {
      NextQuoteIs(s, i + 1, e);
    }
  }

  /** `"` + s + `"`. */
  function Quoted(s: string): string { "\"" + s + "\"" }

  predicate OccursAt(s: string, needle: string, k: int)
  {
    0 <= k && k + |needle| <= |s| && s[k..k + |needle|] == needle
  }

  /** The first index in [i, n) at which P holds: where a regex engine that tries
      each start in turn reports its match. */
  function FirstWhere(P: nat -> bool, i: nat, n: nat): (r: Option<nat>)
    requires i <= n
    ensures r.Some? ==> i <= r.value < n && P(r.value)
    ensures r.Some? ==> forall p :: i <= p < r.value ==> !P(p)
    ensures r.None? ==> forall p :: i <= p < n ==> !P(p)
    decreases n - i
  {
    if i == n then None
    else if P(i) then Some(i)
    else FirstWhere(P, i + 1, n)
  }

  /** The leftmost occurrence of needle in s at or after i. */
  function FindFrom(s: string, needle: string, i: nat): (r: Option<nat>)
    requires i <= |s|
    ensures r.Some? ==> i <= r.value && OccursAt(s, needle, r.value)
    ensures r.Some? ==> forall k :: i <= k < r.value ==> !OccursAt(s, needle, k)
    ensures r.None? ==> forall k :: i <= k <= |s| ==> !OccursAt(s, needle, k)
    decreases |s| - i
  {
    if OccursAt(s, needle, i) then Some(i)
    else if i == |s| then None
    else FindFrom(s, needle, i + 1)
  }

  /** The index at which `exec` of a regex that denotes the literal needle
      (no flags) finds its match, or None when it finds none. */
  function FirstOccurrence(s: string, needle: string): (r: Option<nat>)
    ensures r.Some? ==> OccursAt(s, needle, r.value)
    ensures r.Some? ==> forall k :: 0 <= k < r.value ==> !OccursAt(s, needle, k)
    ensures r.None? <==> forall k :: 0 <= k <= |s| ==> !OccursAt(s, needle, k)
  {
    FindFrom(s, needle, 0)
  }
}
