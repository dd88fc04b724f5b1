/**
 Class tokens of an element, as the class selector `.c` sees them.

 An element's classes are the tokens of its `class` attribute split on ASCII
 whitespace (the ordered set parser of the DOM Standard, section 1.2), and a
 class selector `.c` (section 6.6 of Selectors Level 4) matches an element
 exactly when `c` is one of them. The class list keeps duplicates here; the
 ordered set parser drops them, which changes no membership question.
 */
module ClassList {

  /** ASCII whitespace: TAB, LF, FF, CR and SPACE. */
  predicate IsAsciiWhitespace(ch: char) {
    ch == '\t' || ch == '\n' || ch == '\U{000C}' || ch == '\r' || ch == ' '
  }

  /** A possible class token: non-empty and free of ASCII whitespace. */
  predicate IsToken(t: string) {
    |t| > 0 && forall i :: 0 <= i < |t| ==> !IsAsciiWhitespace(t[i])
  }

  predicate IsAsciiLetter(ch: char) {
    'a' <= ch <= 'z' || 'A' <= ch <= 'Z'
  }

  predicate IsIdentChar(ch: char) {
    IsAsciiLetter(ch) || '0' <= ch <= '9' || ch == '-' || ch == '_'
  }

  /** An entry that can be pasted after `.` to give a selector naming exactly
      one class: an ASCII CSS identifier (section 4.3.9 of CSS Syntax Level 3,
      without escapes or non-ASCII code points). */
  predicate IsClassIdentifier(c: string) {
    && |c| > 0
    && (forall i :: 0 <= i < |c| ==> IsIdentChar(c[i]))
    && (|| IsAsciiLetter(c[0]) || c[0] == '_'
        || (c[0] == '-' && |c| > 1 && (IsAsciiLetter(c[1]) || c[1] == '_' || c[1] == '-')))
  }

  lemma IdentifierIsToken(c: string)
    requires IsClassIdentifier(c)
    ensures IsToken(c)
  {
  }

  /** Length of the leading run of non-whitespace characters. */
  function WordLength(s: string): (k: nat)
    ensures k <= |s|
    ensures forall i :: 0 <= i < k ==> !IsAsciiWhitespace(s[i])
    ensures k == |s| || IsAsciiWhitespace(s[k])
  {
    if |s| == 0 || IsAsciiWhitespace(s[0]) then 0 else 1 + WordLength(s[1..])
  }

  /** The tokens of a `class` attribute, in order. */
  function SplitTokens(s: string): (ts: seq<string>)
    ensures forall i :: 0 <= i < |ts| ==> IsToken(ts[i])
    decreases |s|
  {
    if |s| == 0 then []
    else if IsAsciiWhitespace(s[0]) then SplitTokens(s[1..])
    else
      var k := WordLength(s);
      [s[..k]] + SplitTokens(s[k..])
  }

  /** `.c` matches an element whose `className` is `s`. */
  predicate HasClass(s: string, c: string) {
    c in SplitTokens(s)
  }

  /** Reference definition: `c` occurs in `s` at `i`, delimited on both sides
      by whitespace or the ends of `s`. */
  ghost predicate DelimitedAt(s: string, i: int, c: string) {
    && 0 <= i && i + |c| <= |s|
    && s[i..i + |c|] == c
    && (i == 0 || IsAsciiWhitespace(s[i - 1]))
    && (i + |c| == |s| || IsAsciiWhitespace(s[i + |c|]))
  }

  ghost predicate OccursAsToken(s: string, c: string) {
    exists i :: DelimitedAt(s, i, c)
  }

  /** Dropping a prefix that ends at a token boundary keeps every later occurrence. */
  lemma DelimitedShift(s: string, m: nat, j: nat, c: string)
    requires m <= |s|
    requires j >= 1 || m == 0 || IsAsciiWhitespace(s[m - 1])
    ensures DelimitedAt(s, m + j, c) <==> DelimitedAt(s[m..], j, c)
  {
    var t := s[m..];
    if m + j + |c| <= |s| {
      assert t[j..j + |c|] == s[m + j..m + j + |c|];
    }
  }

  /** Splitting finds exactly the delimited occurrences. */
  lemma {:induction false} SplitTokensFindsOccurrences(s: string, c: string)
    requires IsToken(c)
    ensures HasClass(s, c) <==> OccursAsToken(s, c)
    decreases |s|
  {
    if |s| == 0 {
    } else if IsAsciiWhitespace(s[0]) {
      var t := s[1..];
      SplitTokensFindsOccurrences(t, c);
      assert !DelimitedAt(s, 0, c);
      forall j: nat ensures DelimitedAt(s, 1 + j, c) <==> DelimitedAt(t, j, c) {
        DelimitedShift(s, 1, j, c);
      }
      if OccursAsToken(s, c) {
        var i :| DelimitedAt(s, i, c);
        assert DelimitedAt(t, i - 1, c);
      }
      if OccursAsToken(t, c) {
        var j :| DelimitedAt(t, j, c);
        assert DelimitedAt(s, 1 + j, c);
      }
    } else {
      var k := WordLength(s);
      var w := s[..k];
      var t := s[k..];
      assert SplitTokens(s) == [w] + SplitTokens(t);
      SplitTokensFindsOccurrences(t, c);
      // The leading word is the only occurrence that starts at 0.
      assert DelimitedAt(s, 0, c) <==> c == w by {
        if DelimitedAt(s, 0, c) {
          assert |c| == k;
          assert c == s[0..k];
        }
        if c == w { assert s[0..|c|] == w; }
      }
      // No occurrence starts inside the leading word or right after it.
      forall i | 0 < i <= k ensures !DelimitedAt(s, i, c) {
        assert !IsAsciiWhitespace(s[i - 1]);
      }
      assert !DelimitedAt(t, 0, c);
      forall j: nat | j >= 1 ensures DelimitedAt(s, k + j, c) <==> DelimitedAt(t, j, c) {
        DelimitedShift(s, k, j, c);
      }
      if OccursAsToken(s, c) {
        var i :| DelimitedAt(s, i, c);
        if i > k { assert DelimitedAt(t, i - k, c); }
      }
      if OccursAsToken(t, c) {
        var j :| DelimitedAt(t, j, c);
        assert DelimitedAt(s, k + j, c);
      }
    }
  }

  /** The first word of a `className` is one of its classes. */
  lemma LeadingWordIsClass(s: string, c: string)
    requires IsToken(c) && |c| < |s| && s[..|c|] == c && IsAsciiWhitespace(s[|c|])
    ensures HasClass(s, c)
  {
    assert DelimitedAt(s, 0, c);
    SplitTokensFindsOccurrences(s, c);
  }

  /** A whole `className` that is itself a single token carries that token as a class. */
  lemma TokenHasItself(c: string)
    requires IsToken(c)
    ensures HasClass(c, c)
  {
    assert DelimitedAt(c, 0, c);
    SplitTokensFindsOccurrences(c, c);
  }
}
