/**
 The slug the detail-path extractor looks for. Both variants trim the title,
 lower-case it, turn each run of characters outside `[a-z0-9]` into one `-`,
 strip `-` from both ends and append a `-`. The serverless copies first delete
 apostrophes (`'` and `’`) and spell `&` as `and`; the server copy does not.

 The reference definition: the slug is the title's words (maximal runs of
 `[a-z0-9]`) joined with `-`, followed by `-`.
 */
module Slug {
  import opened Text
  import opened Wrappers
  import opened RegexEscape

  datatype SlugVariant = Netlify | Server

  // ---------------------------------------------------------------- the pipeline

  function TrimStart(s: string): string
  {
    if s != [] && IsJsSpace(s[0]) then TrimStart(s[1..]) else s
  }

  function TrimEnd(s: string): string
  {
    if s != [] && IsJsSpace(s[|s| - 1]) then TrimEnd(s[..|s| - 1]) else s
  }

  /** Removes JavaScript white space from both ends. */
  function Trim(s: string): string { TrimEnd(TrimStart(s)) }

  /** Lower-cases every ASCII capital letter and keeps every other character. */
  function LowerCase(s: string): string
  {
    seq(|s|, k requires 0 <= k < |s| => ToLower(s[k]))
  }

  predicate IsApostrophe(c: char) { c == '\'' || c == '\U{2019}' }

  /** Deletes every `'` and `’`. */
  function DeleteApostrophes(s: string): string
  {
    if s == [] then []
    else (if IsApostrophe(s[0]) then [] else [s[0]]) + DeleteApostrophes(s[1..])
  }

  /** Replaces every `&` with the word `and`. */
  function ReplaceAmpersands(s: string): string
  {
    if s == [] then []
    else (if s[0] == '&' then "and" else [s[0]]) + ReplaceAmpersands(s[1..])
  }

  /** The end of the run of characters outside `[a-z0-9]` that starts at i. */
  function SeparatorEnd(s: string, i: nat): (r: nat)
    requires i <= |s|
    ensures i <= r <= |s|
    ensures r < |s| ==> IsLowerAlnum(s[r])
    decreases |s| - i
  {
    if i < |s| && !IsLowerAlnum(s[i]) then SeparatorEnd(s, i + 1) else i
  }

  /** On s[i..], turns each maximal run of characters outside `[a-z0-9]` into one `-`. */
  function CollapseFrom(s: string, i: nat): string
    requires i <= |s|
    decreases |s| - i
  {
    if i == |s| then []
    else if IsLowerAlnum(s[i]) then [s[i]] + CollapseFrom(s, i + 1)
    else "-" + CollapseFrom(s, SeparatorEnd(s, i + 1))
  }

  function Collapse(s: string): string { CollapseFrom(s, 0) }

  function DropLeadingHyphens(s: string): string
  {
    if s != [] && s[0] == '-' then DropLeadingHyphens(s[1..]) else s
  }

  function DropTrailingHyphens(s: string): string
  {
    if s != [] && s[|s| - 1] == '-' then DropTrailingHyphens(s[..|s| - 1]) else s
  }

  /** Removes every `-` at the start and every `-` at the end. */
  function TrimHyphens(s: string): string { DropTrailingHyphens(DropLeadingHyphens(s)) }

  /** The steps both variants share, from the collapsing of separator runs on. */
  function Slugify(s: string): (r: string)
    ensures |r| > 0 && r[|r| - 1] == '-'
  {
    TrimHyphens(Collapse(s)) + "-"
  }

  /** The slug of the serverless TV and movie functions. */
  function NetlifySlug(title: string): (r: string)
    ensures |r| > 0 && r[|r| - 1] == '-'
  {
    Slugify(ReplaceAmpersands(DeleteApostrophes(LowerCase(Trim(title)))))
  }

  /** The slug of the always-on server. */
  function ServerSlug(title: string): (r: string)
    ensures |r| > 0 && r[|r| - 1] == '-'
  {
    Slugify(LowerCase(Trim(title)))
  }

  function SlugOf(v: SlugVariant, title: string): string
  {
    match v
    case Netlify => NetlifySlug(title)
    case Server => ServerSlug(title)
  }
}
