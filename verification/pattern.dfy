/**
 The manifest search of `checkForSpec` (recommend/imageHandler.go:209-218).

 The path to look for is compiled as a regular expression and matched against
 every listed file, unanchored. The model assumes the extraction root holds no
 regular expression syntax other than '.', so a pattern here is a sequence of
 literal characters and '.' wildcards; other metacharacters are matched
 literally here, whereas `regexp.MustCompile` (recommend/imageHandler.go:211)
 would interpret them or panic. As in Go's regexp, '.' matches any character
 except a newline. Because the match is unanchored and '.' is a wildcard, more
 than the one intended path can match.
 */
module Pattern {

  const Wildcard: char := '.'

  predicate CharMatches(p: char, c: char) {
    if p == Wildcard then c != '\n' else p == c
  }

  /** The pattern matches the text starting at position `i`. */
  predicate MatchesAt(pattern: string, text: string, i: nat)
    requires i + |pattern| <= |text|
  {
    forall k :: 0 <= k < |pattern| ==> CharMatches(pattern[k], text[i + k])
  }

  /** `regexp.Match` without anchors: the pattern matches somewhere in the text. */
  predicate Matches(pattern: string, text: string) {
    exists i: nat :: i + |pattern| <= |text| && MatchesAt(pattern, text, i)
  }

  /** Compare the pattern with the text at one position. */
  method MatchHere(pattern: string, text: string, i: nat) returns (found: bool)
    requires i + |pattern| <= |text|
    ensures found <==> MatchesAt(pattern, text, i)
  {
    var k := 0;
    while k < |pattern|
      invariant 0 <= k <= |pattern|
      invariant forall j :: 0 <= j < k ==> CharMatches(pattern[j], text[i + j])
    {
      if !CharMatches(pattern[k], text[i + k]) {
        return false;
      }
      k := k + 1;
    }
    return true;
  }

  /** The search the regular expression engine performs: try every start
      position from the left. */
  method Find(pattern: string, text: string) returns (found: bool)
    ensures found <==> Matches(pattern, text)
  {
    if |text| < |pattern| {
      return false;
    }
    var i := 0;
    while i + |pattern| <= |text|
      invariant i + |pattern| <= |text| + 1
      invariant forall j: nat :: j < i ==> !MatchesAt(pattern, text, j)
    {
      var here := MatchHere(pattern, text, i);
      if here {
        return true;
      }
      i := i + 1;
    }
    return false;
  }

  // ---------------------------------------------------------------------------
  // What matches.

  /** A pattern without newlines matches its own text: a listed file whose path
      is exactly the searched path is found. */
  lemma MatchesItself(pattern: string)
    requires '\n' !in pattern
    ensures Matches(pattern, pattern)
  {
    assert MatchesAt(pattern, pattern, 0);
  }

  /** The match is unanchored: text around a match does not stop it. */
  lemma MatchesInside(pattern: string, before: string, text: string, after: string)
    requires Matches(pattern, text)
    ensures Matches(pattern, before + text + after)
  {
    var i: nat :| i + |pattern| <= |text| && MatchesAt(pattern, text, i);
    var whole := before + text + after;
    forall k | 0 <= k < |pattern|
      ensures CharMatches(pattern[k], whole[|before| + i + k])
    {
      assert whole[|before| + i + k] == text[i + k];
    }
    assert MatchesAt(pattern, whole, |before| + i);
  }

  /** A wildcard in the pattern stands for any character but a newline. */
  lemma WildcardMatchesAny(front: string, back: string, c: char)
    requires '\n' !in front && '\n' !in back
    requires c != '\n'
    ensures Matches(front + [Wildcard] + back, front + [c] + back)
  {
    var pattern, text := front + [Wildcard] + back, front + [c] + back;
    forall k | 0 <= k < |pattern|
      ensures CharMatches(pattern[k], text[k])
    {
      if k < |front| {
        assert pattern[k] == front[k] && text[k] == front[k];
      } else if k > |front| {
        assert pattern[k] == back[k - |front| - 1] && text[k] == back[k - |front| - 1];
      }
    }
    assert MatchesAt(pattern, text, 0);
  }

  /** A text shorter than the pattern never matches. */
  lemma ShortTextNeverMatches(pattern: string, text: string)
    requires |text| < |pattern|
    ensures !Matches(pattern, text)
  {
  }

  /** The text holds `part` at position `i`, character for character. */
  predicate OccursAt(part: string, text: string, i: nat) {
    i + |part| <= |text| && text[i..i + |part|] == part
  }

  /** A pattern without wildcards matches exactly the texts that contain it. */
  lemma LiteralMatch(pattern: string, text: string)
    requires Wildcard !in pattern
    ensures Matches(pattern, text) <==> exists i: nat :: OccursAt(pattern, text, i)
  {
    if Matches(pattern, text) {
      var i: nat :| i + |pattern| <= |text| && MatchesAt(pattern, text, i);
      var window := text[i..i + |pattern|];
      forall k | 0 <= k < |pattern|
        ensures window[k] == pattern[k]
      {
        assert window[k] == text[i + k];
        assert CharMatches(pattern[k], text[i + k]);
      }
      assert OccursAt(pattern, text, i);
    }
    if exists i: nat :: OccursAt(pattern, text, i) {
      var i: nat :| OccursAt(pattern, text, i);
      forall k | 0 <= k < |pattern|
        ensures CharMatches(pattern[k], text[i + k])
      {
        assert text[i..i + |pattern|][k] == text[i + k];
        assert pattern[k] != Wildcard;
      }
      assert MatchesAt(pattern, text, i);
    }
  }
}
