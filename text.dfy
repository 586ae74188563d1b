/** The .NET string and character primitives the extension relies on, written
    out for UTF-16 code units: char.IsWhiteSpace, char.IsControl, String.Trim,
    String.IndexOf, String.Replace and StringReader.ReadLine. */
module Text {

  datatype Option<+T> = None | Some(value: T)

  /** char.IsWhiteSpace: the Unicode separators (Zs, Zl, Zp) plus the
      controls U+0009..U+000D, U+0085. */
  predicate IsWhiteSpace(c: char)
  {
    ('\t' <= c <= '\r') || c == ' ' || c == '\U{85}' || c == '\U{A0}' || c == '\U{1680}'
    || ('\U{2000}' <= c <= '\U{200A}') || c == '\U{2028}' || c == '\U{2029}'
    || c == '\U{202F}' || c == '\U{205F}' || c == '\U{3000}'
  }

  /** char.IsControl: the Unicode category Cc. */
  predicate IsControl(c: char)
  {
    c <= '\U{1F}' || ('\U{7F}' <= c <= '\U{9F}')
  }

  /** String.TrimStart() without arguments: drops leading whitespace. */
  function TrimStart(s: string): (r: string)
    ensures |r| <= |s| && r == s[|s| - |r|..]
    ensures r == [] || !IsWhiteSpace(r[0])
    ensures forall k :: 0 <= k < |s| - |r| ==> IsWhiteSpace(s[k])
  {
    if s != [] && IsWhiteSpace(s[0]) then TrimStart(s[1..]) else s
  }

  /** String.TrimEnd() without arguments: drops trailing whitespace. */
  function TrimEnd(s: string): (r: string)
    ensures |r| <= |s| && r == s[..|r|]
    ensures r == [] || !IsWhiteSpace(r[|r| - 1])
    ensures forall k :: |r| <= k < |s| ==> IsWhiteSpace(s[k])
  {
    if s != [] && IsWhiteSpace(s[|s| - 1]) then TrimEnd(s[..|s| - 1]) else s
  }

  /** String.Trim(): drops whitespace at both ends. */
  function Trim(s: string): (r: string)
    ensures r == [] || (!IsWhiteSpace(r[0]) && !IsWhiteSpace(r[|r| - 1]))
    ensures (s == [] || (!IsWhiteSpace(s[0]) && !IsWhiteSpace(s[|s| - 1]))) ==> r == s
  {
    TrimEnd(TrimStart(s))
  }

  /** String.IndexOf(char): the first position of c, or -1. */
  function IndexOf(s: string, c: char): (r: int)
    ensures -1 <= r < |s|
    ensures r >= 0 ==> s[r] == c && c !in s[..r]
    ensures r == -1 <==> c !in s
  {
    if s == [] then -1
    else if s[0] == c then 0
    else
      var k := IndexOf(s[1..], c);
      if k == -1 then -1 else k + 1
  }

  /** IndexOf finds the first position holding c. */
  lemma IndexOfFirst(s: string, c: char, n: nat)
    requires n < |s| && s[n] == c
    requires forall k :: 0 <= k < n ==> s[k] != c
    ensures IndexOf(s, c) == n
  {
    assert s[..n + 1][n] == c;
  }

  /** True when pattern occurs in s at position k. */
  predicate OccursAt(s: string, pattern: string, k: nat)
  {
    k + |pattern| <= |s| && s[k..k + |pattern|] == pattern
  }

  /** String.Replace(string, string): ordinal, left to right, non-overlapping;
      the text that is inserted is not scanned again. */
  function ReplaceAll(s: string, pattern: string, replacement: string): string
    requires pattern != []
    decreases |s|
  {
    if |s| < |pattern| then s
    else if s[..|pattern|] == pattern then replacement + ReplaceAll(s[|pattern|..], pattern, replacement)
    else [s[0]] + ReplaceAll(s[1..], pattern, replacement)
  }

  /** No occurrence of pattern starts in s before position n. */
  predicate NoOccurrenceBefore(s: string, pattern: string, n: nat)
  {
    forall k :: 0 <= k < n ==> !OccursAt(s, pattern, k)
  }

  /** An occurrence at the start is replaced, and the scan resumes after it. */
  lemma ReplaceAllHit(pattern: string, t: string, replacement: string)
    requires pattern != []
    ensures ReplaceAll(pattern + t, pattern, replacement) == replacement + ReplaceAll(t, pattern, replacement)
  {
    assert (pattern + t)[..|pattern|] == pattern;
    assert (pattern + t)[|pattern|..] == t;
  }

  /** A stretch in which no occurrence starts is copied unchanged. */
  lemma {:induction false} ReplaceAllSkip(u: string, t: string, pattern: string, replacement: string)
    requires pattern != [] && NoOccurrenceBefore(u + t, pattern, |u|)
    ensures ReplaceAll(u + t, pattern, replacement) == u + ReplaceAll(t, pattern, replacement)
    decreases |u|
  {
    if u != [] {
      var s := u + t;
      assert !OccursAt(s, pattern, 0);
      assert s[1..] == u[1..] + t;
      assert NoOccurrenceBefore(u[1..] + t, pattern, |u| - 1) by {
        forall k | 0 <= k < |u| - 1
          ensures !OccursAt(u[1..] + t, pattern, k)
        {
          assert !OccursAt(s, pattern, k + 1);
          if k + |pattern| <= |u[1..] + t| {
            assert s[k + 1..k + 1 + |pattern|] == (u[1..] + t)[k..k + |pattern|];
          }
        }
      }
      ReplaceAllSkip(u[1..], t, pattern, replacement);
      assert [u[0]] + (u[1..] + ReplaceAll(t, pattern, replacement)) == u + ReplaceAll(t, pattern, replacement);
    } else {
      assert u + t == t;
    }
  }

  /** A text without the first character of the pattern is left as it is. */
  lemma ReplaceAllAbsent(s: string, pattern: string, replacement: string)
    requires pattern != [] && pattern[0] !in s
    ensures ReplaceAll(s, pattern, replacement) == s
  {
    assert s + [] == s;
    ReplaceAllFreePrefix(s, [], pattern, replacement);
    assert ReplaceAll([], pattern, replacement) == [];
  }

  /** A leading stretch without the pattern's first character is copied. */
  lemma ReplaceAllFreePrefix(u: string, t: string, pattern: string, replacement: string)
    requires pattern != [] && pattern[0] !in u
    ensures ReplaceAll(u + t, pattern, replacement) == u + ReplaceAll(t, pattern, replacement)
  {
    assert forall k :: 0 <= k < |u| ==> (u + t)[k] == u[k];
    OccurrenceNeedsFirst(u + t, pattern, |u|);
    ReplaceAllSkip(u, t, pattern, replacement);
  }

  /** A different placeholder (delimited by the pattern's first character,
      with a different second character, and not followed by the pattern's
      second character) is copied. */
  lemma ReplaceAllPastPlaceholder(q: string, t: string, pattern: string, replacement: string)
    requires |q| >= 2 && |pattern| >= 2
    requires q[0] == pattern[0] && q[1] != pattern[1] && q[|q| - 1] == pattern[0]
    requires pattern[0] !in q[1..|q| - 1]
    requires t == [] || t[0] != pattern[1]
    ensures ReplaceAll(q + t, pattern, replacement) == q + ReplaceAll(t, pattern, replacement)
  {
    var s := q + t;
    assert forall k :: 0 < k < |q| - 1 ==> s[k] == q[1..|q| - 1][k - 1];
    OccurrenceNeedsPair(s, pattern, |q|);
    ReplaceAllSkip(q, t, pattern, replacement);
  }

  /** An occurrence needs the pattern's first two characters in a row: where
      each copy of the first is followed by something other than the second
      (or by nothing), no occurrence starts. */
  lemma OccurrenceNeedsPair(s: string, pattern: string, n: nat)
    requires |pattern| >= 2 && n <= |s|
    requires forall k :: 0 <= k < n && s[k] == pattern[0] ==> k + 1 == |s| || s[k + 1] != pattern[1]
    ensures NoOccurrenceBefore(s, pattern, n)
  {
    forall k | 0 <= k < n
      ensures !OccursAt(s, pattern, k)
    {
      if k + |pattern| <= |s| {
        var w := s[k..k + |pattern|];
        assert w[0] == s[k] && w[1] == s[k + 1];
      }
    }
  }

  /** Without the pattern's first character no occurrence starts. */
  lemma OccurrenceNeedsFirst(s: string, pattern: string, n: nat)
    requires pattern != [] && n <= |s|
    requires forall k :: 0 <= k < n ==> s[k] != pattern[0]
    ensures NoOccurrenceBefore(s, pattern, n)
  {
    forall k | 0 <= k < n
      ensures !OccursAt(s, pattern, k)
    {
      if k + |pattern| <= |s| {
        var w := s[k..k + |pattern|];
        assert w[0] == s[k];
      }
    }
  }

  /** The length of the first line of s: the characters before the first
      '\r' or '\n'. */
  function LineLength(s: string): (n: nat)
    ensures n <= |s|
    ensures forall k :: 0 <= k < n ==> s[k] != '\r' && s[k] != '\n'
    ensures n < |s| ==> s[n] == '\r' || s[n] == '\n'
  {
    if s == [] || s[0] == '\r' || s[0] == '\n' then 0 else 1 + LineLength(s[1..])
  }

  /** StringReader.ReadLine on the unread text s: None (null) at the end of
      the input, otherwise the line without its terminator ("\r\n", '\r' or
      '\n') and the text after that terminator. */
  function ReadLine(s: string): (r: Option<(string, string)>)
    ensures r.None? <==> s == []
    ensures r.Some? ==> |r.value.1| < |s| && r.value.1 == s[|s| - |r.value.1|..]
    ensures r.Some? ==> forall c :: c in r.value.0 ==> c != '\r' && c != '\n'
  {
    if s == [] then None
    else
      var n := LineLength(s);
      if n == |s| then Some((s, []))
      else if s[n] == '\r' && n + 1 < |s| && s[n + 1] == '\n' then Some((s[..n], s[n + 2..]))
      else Some((s[..n], s[n + 1..]))
  }

  /** A line followed by '\n' is read back as that line and the text after it. */
  lemma ReadLineOfLine(line: string, rest: string)
    requires forall c :: c in line ==> c != '\r' && c != '\n'
    ensures ReadLine(line + "\n" + rest) == Some((line, rest))
  {
    var s := line + "\n" + rest;
    var n := LineLength(s);
    assert forall k :: 0 <= k < |line| ==> s[k] == line[k] && line[k] in line;
    assert s[|line|] == '\n';
    assert n == |line|;
    assert s[..n] == line;
    assert s[n + 1..] == rest;
  }
}
