/**
 How a title is inserted into a regular expression. The source escapes every
 character of the class `[-\/\\^$*+?.()|[\]{}]` with a backslash before building
 the subject-id pattern. LiteralText gives the text that a pattern made of plain
 characters and such identity escapes stands for; the round trip
 LiteralText(Escape(t)) == Some(t) is what makes the title match literally.
 */
module RegexEscape {
  import opened Wrappers

  /** The characters the escape step prefixes with a backslash. */
  predicate IsEscaped(c: char)
  {
    c == '-' || c == '/' || c == '\\' || c == '^' || c == '$' || c == '*' || c == '+'
    || c == '?' || c == '.' || c == '(' || c == ')' || c == '|' || c == '['
    || c == ']' || c == '{' || c == '}'
  }

  /** ECMAScript's SyntaxCharacter: outside a character class, these are the
      characters that do not stand for themselves. */
  predicate IsSyntaxChar(c: char)
  {
    c == '^' || c == '$' || c == '\\' || c == '.' || c == '*' || c == '+' || c == '?'
    || c == '(' || c == ')' || c == '[' || c == ']' || c == '{' || c == '}' || c == '|'
  }

  /** Puts a backslash in front of every character of s that IsEscaped names. */
  function Escape(s: string): (r: string)
    ensures |r| >= |s|
  {
    if s == [] then []
    else (if IsEscaped(s[0]) then ['\\', s[0]] else [s[0]]) + Escape(s[1..])
  }

  /** The text that pattern p matches when p is a sequence of atoms each of which is
      a character that is not a SyntaxCharacter or a backslash followed by one of the
      escaped characters; None when p uses any other regex syntax. */
  function LiteralText(p: string): Option<string>
  {
    if p == [] then Some([])
    else if p[0] == '\\' then
      if |p| >= 2 && IsEscaped(p[1]) then
        match LiteralText(p[2..])
        case None => None
        case Some(rest) => Some([p[1]] + rest)
      else None
    else if IsSyntaxChar(p[0]) then None
    else
      match LiteralText(p[1..])
      case None => None
      case Some(rest) => Some([p[0]] + rest)
  }

  /** The escaped title is a pattern that matches exactly the title's text. */
  lemma {:induction false} EscapeIsLiteral(s: string)
    ensures LiteralText(Escape(s)) == Some(s)
  {
    if s != [] {
      EscapeIsLiteral(s[1..]);
      var head := if IsEscaped(s[0]) then ['\\', s[0]] else [s[0]];
      var p := head + Escape(s[1..]);
      assert Escape(s) == p;
      if IsEscaped(s[0]) {
        assert p[0] == '\\' && p[1] == s[0] && p[2..] == Escape(s[1..]);
      } else {
        assert p[0] == s[0] && p[1..] == Escape(s[1..]);
      }
      assert [s[0]] + s[1..] == s;
    }
  }

  /** A string with no SyntaxCharacter, such as a slug or a run of digits, is a
      pattern that matches exactly itself. */
  lemma {:induction false} PlainIsLiteral(s: string)
    requires forall k :: 0 <= k < |s| ==> !IsSyntaxChar(s[k])
    ensures LiteralText(s) == Some(s)
  {
    if s != [] {
      PlainIsLiteral(s[1..]);
      assert [s[0]] + s[1..] == s;
    }
  }
}
