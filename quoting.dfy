/** Quote escaping of an article name before it is spliced into the
    resolution query: every `"` becomes `\"` and nothing else changes. */
module Quoting {

  /** The name with each double quote preceded by a backslash. */
  function EscapeQuotes(s: string): (r: string)
    ensures |r| >= |s|
    ensures s != [] ==> r != [] && r[0] != '"'
    ensures forall k :: 0 <= k < |r| && r[k] == '"' ==> k > 0 && r[k - 1] == '\\'
  {
    if s == [] then []
    else if s[0] == '"' then ['\\', '"'] + EscapeQuotes(s[1..])
    else [s[0]] + EscapeQuotes(s[1..])
  }

  /** Reads `\"` as `"` and copies every other character, scanning left to right. */
  function UnescapeQuotes(s: string): string
  {
    if s == [] then []
    else if |s| >= 2 && s[0] == '\\' && s[1] == '"' then ['"'] + UnescapeQuotes(s[2..])
    else [s[0]] + UnescapeQuotes(s[1..])
  }

  /** Escaping loses nothing: unescaping gives the name back. Backslashes
      already in the name are not doubled, and still the round trip holds,
      because an inserted backslash is always followed by a quote while an
      original one never is. */
  lemma {:induction false} EscapeRoundTrip(s: string)
    ensures UnescapeQuotes(EscapeQuotes(s)) == s
  {
    if s != [] {
      EscapeRoundTrip(s[1..]);
      var rest := EscapeQuotes(s[1..]);
      if s[0] == '"' {
        assert EscapeQuotes(s) == ['\\', '"'] + rest;
        assert (['\\', '"'] + rest)[2..] == rest;
      } else {
        assert EscapeQuotes(s) == [s[0]] + rest;
        assert ([s[0]] + rest)[1..] == rest;
        if s[0] == '\\' && rest != [] {
          assert rest[0] != '"';
        }
      }
    }
  }

  /** Two names give the same escaped text only if they are the same name,
      so the escaped text identifies the article to resolve. */
  lemma EscapeInjective(s: string, t: string)
    requires EscapeQuotes(s) == EscapeQuotes(t)
    ensures s == t
  {
    EscapeRoundTrip(s);
    EscapeRoundTrip(t);
  }
}
