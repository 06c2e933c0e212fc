/** Elastic Load Balancing glob patterns: `*` stands for any text, `?` for any one character. */
module Glob {

  predicate Matches(pattern: string, text: string)
    decreases |pattern| + |text|
  {
    if pattern == "" then text == ""
    else if pattern[0] == '*' then
      Matches(pattern[1..], text) || (text != "" && Matches(pattern, text[1..]))
    else
      text != "" && (pattern[0] == '?' || pattern[0] == text[0]) && Matches(pattern[1..], text[1..])
  }

  predicate WildcardFree(s: string) {
    '*' !in s && '?' !in s
  }

  /** A star stands for an arbitrary block of text: the declarative reading of `Matches`. */
  lemma {:induction false} StarTakesAnyBlock(pattern: string, text: string)
    requires pattern != "" && pattern[0] == '*'
    ensures Matches(pattern, text) <==> exists k :: 0 <= k <= |text| && Matches(pattern[1..], text[k..])
    decreases |text|
  {
    assert text[0..] == text;
    if text != "" {
      StarTakesAnyBlock(pattern, text[1..]);
      forall k | 0 <= k <= |text[1..]| ensures text[1..][k..] == text[k + 1..] {}
      if k :| 0 <= k <= |text| && Matches(pattern[1..], text[k..]) && k > 0 {
        assert text[1..][k - 1..] == text[k..];
      }
    }
  }

  /** A question mark stands for any one character, every other character for itself. */
  lemma OtherTakesOneCharacter(pattern: string, text: string)
    requires pattern != "" && pattern[0] != '*'
    ensures forall c: char, rest: string ::
              Matches(pattern, [c] + rest) <==> (pattern[0] == '?' || pattern[0] == c) && Matches(pattern[1..], rest)
    ensures !Matches(pattern, "")
  {
    forall c: char, rest: string
      ensures Matches(pattern, [c] + rest) <==> (pattern[0] == '?' || pattern[0] == c) && Matches(pattern[1..], rest)
    {
      assert ([c] + rest)[1..] == rest;
    }
  }

  lemma {:induction false} LiteralMatchesItself(pattern: string, text: string)
    requires WildcardFree(pattern)
    ensures Matches(pattern, text) <==> pattern == text
  {
    if pattern != "" && text != "" {
      LiteralMatchesItself(pattern[1..], text[1..]);
      assert pattern == [pattern[0]] + pattern[1..] && text == [text[0]] + text[1..];
    }
  }

  lemma {:induction false} StarMatchesAll(text: string)
    ensures Matches("*", text)
  {
    if text != "" {
      StarMatchesAll(text[1..]);
    }
  }

  /** A literal followed by a star matches exactly the texts that start with the literal. */
  lemma {:induction false} LiteralStarMatchesExtensions(prefix: string, text: string)
    requires WildcardFree(prefix)
    ensures Matches(prefix + "*", text) <==> prefix <= text
  {
    if prefix == "" {
      assert prefix + "*" == "*";
      StarMatchesAll(text);
    } else {
      assert (prefix + "*")[1..] == prefix[1..] + "*";
      if text != "" {
        LiteralStarMatchesExtensions(prefix[1..], text[1..]);
        assert prefix == [prefix[0]] + prefix[1..] && text == [text[0]] + text[1..];
      }
    }
  }

  /** Read as plain text, every pattern is one of the texts it matches. */
  lemma {:induction false} MatchesOwnText(pattern: string)
    ensures Matches(pattern, pattern)
  {
    if pattern != "" {
      MatchesOwnText(pattern[1..]);
      if pattern[0] == '*' {
        StarAbsorbsOne(pattern[1..], pattern[0]);
      }
    }
  }

  lemma StarAbsorbsOne(rest: string, c: char)
    requires Matches(rest, rest)
    ensures Matches("*" + rest, [c] + rest)
  {
    var pattern, text := "*" + rest, [c] + rest;
    assert pattern[1..] == rest && text[1..] == rest;
    assert Matches(pattern, rest);
  }
}
