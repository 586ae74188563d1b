/** The caret anchor codec: a caret position is encoded, before the formatter
    runs, as a fingerprint of the document text in front of it (its visible
    characters followed by one space per whitespace character after the last
    of them), and decoded, afterwards, by walking the formatted document and
    the fingerprint side by side. Offsets are the host's 1-based absolute
    offsets, in which a "\r\n" line break counts as one character. */
module CaretAnchor {
  import opened Text

  /** A character the fingerprint keeps verbatim: neither whitespace nor a control character. */
  predicate IsAnchor(c: char)
  {
    !IsWhiteSpace(c) && !IsControl(c)
  }

  /** The three characters the decoder lets absorb a wildcard. */
  predicate IsBlank(c: char)
  {
    c == ' ' || c == '\n' || c == '\t'
  }

  /** Whitespace the encoder counts as a wildcard: all of it except '\r'. */
  predicate IsWildcard(c: char)
  {
    IsWhiteSpace(c) && c != '\r'
  }

  /** A character the encoder drops without a trace. */
  predicate IsIgnorable(c: char)
  {
    c == '\r' || (IsControl(c) && !IsWhiteSpace(c))
  }

  /** Text made of anchors, the three blanks and '\r' only. */
  predicate IsPlain(s: seq<char>)
  {
    forall k :: 0 <= k < |s| ==> IsAnchor(s[k]) || IsBlank(s[k]) || s[k] == '\r'
  }

  /** The number of characters of s other than '\r'. */
  function NonCr(s: seq<char>): nat
  {
    if s == [] then 0 else (if s[0] == '\r' then 0 else 1) + NonCr(s[1..])
  }

  /** The number of wildcard characters of s. */
  function CountWildcards(s: seq<char>): nat
  {
    if s == [] then 0 else CountWildcards(s[..|s| - 1]) + (if IsWildcard(s[|s| - 1]) then 1 else 0)
  }

  /** The length of the longest prefix of s that ends with an anchor (0 if s has none). */
  function LastAnchorEnd(s: seq<char>): (n: nat)
    ensures n <= |s|
  {
    if s == [] then 0
    else if IsAnchor(s[|s| - 1]) then |s|
    else LastAnchorEnd(s[..|s| - 1])
  }

  /** The last character of s that is not '\r'. */
  function LastNonCr(s: seq<char>): Option<char>
  {
    if s == [] then None
    else if s[|s| - 1] == '\r' then LastNonCr(s[..|s| - 1])
    else Some(s[|s| - 1])
  }

  // ---------------------------------------------------------------- encode

  /** The anchors of s, in order. */
  function Skeleton(s: seq<char>): seq<char>
  {
    if s == [] then []
    else Skeleton(s[..|s| - 1]) + (if IsAnchor(s[|s| - 1]) then [s[|s| - 1]] else [])
  }

  /** The counter the encoder ends with: wildcards seen since the last anchor;
      '\r' and the other control characters leave it alone. */
  function TrailingWildcards(s: seq<char>): nat
  {
    if s == [] then 0
    else
      var c := s[|s| - 1];
      if IsWhiteSpace(c) then TrailingWildcards(s[..|s| - 1]) + (if c != '\r' then 1 else 0)
      else if !IsControl(c) then 0
      else TrailingWildcards(s[..|s| - 1])
  }

  function Spaces(n: nat): seq<char>
  {
    seq(n, _ => ' ')
  }

  /** The fingerprint of the text in front of the caret. */
  function Fingerprint(prefix: seq<char>): seq<char>
  {
    Skeleton(prefix) + Spaces(TrailingWildcards(prefix))
  }

  /** CaretOffset: scans the document from its start up to the caret
      (a 0-based count of the characters in front of it). */
  method CaretOffset(document: seq<char>, caret: nat) returns (fp: seq<char>)
    requires caret <= |document|
    ensures fp == Fingerprint(document[..caret])
  {
    var result: seq<char> := [];
    var trailingWildcards := 0;
    for i := 0 to caret
      invariant result == Skeleton(document[..i])
      invariant trailingWildcards == TrailingWildcards(document[..i])
    {
      var c := document[i];
      assert document[..i + 1][..i] == document[..i];
      if IsWhiteSpace(c) {
        if c != '\r' {
          trailingWildcards := trailingWildcards + 1;
        }
      } else if !IsControl(c) {
        result := result + [c];
        trailingWildcards := 0;
      }
    }
    fp := result + Spaces(trailingWildcards);
  }

  /** The skeleton is made of anchors only, no longer than the text. */
  lemma {:induction false} SkeletonAnchors(s: seq<char>)
    ensures |Skeleton(s)| <= |s|
    ensures forall k :: 0 <= k < |Skeleton(s)| ==> IsAnchor(Skeleton(s)[k])
    decreases |s|
  {
    if s != [] {
      SkeletonAnchors(s[..|s| - 1]);
    }
  }

  /** The last anchor of s ends at LastAnchorEnd(s): nothing after it is an anchor. */
  lemma {:induction false} LastAnchorEndSplit(s: seq<char>)
    ensures LastAnchorEnd(s) > 0 ==> IsAnchor(s[LastAnchorEnd(s) - 1])
    ensures forall k :: LastAnchorEnd(s) <= k < |s| ==> !IsAnchor(s[k])
    decreases |s|
  {
    if s != [] && !IsAnchor(s[|s| - 1]) {
      LastAnchorEndSplit(s[..|s| - 1]);
    }
  }

  /** A fingerprint is the prefix's anchors followed by its wildcard count
      in spaces, and its spaces are exactly that tail: the skeleton in
      front of them holds neither whitespace nor control characters. */
  lemma FingerprintLayout(prefix: seq<char>)
    ensures |Fingerprint(prefix)| == |Skeleton(prefix)| + TrailingWildcards(prefix)
    ensures forall k :: 0 <= k < |Fingerprint(prefix)| ==> (Fingerprint(prefix)[k] == ' ' <==> k >= |Skeleton(prefix)|)
    ensures forall k :: 0 <= k < |Skeleton(prefix)| ==> !IsWhiteSpace(Fingerprint(prefix)[k]) && !IsControl(Fingerprint(prefix)[k])
  {
    SkeletonAnchors(prefix);
  }

  /** The skeleton distributes over concatenation: it is the anchors of the
      text in their order. */
  lemma {:induction false} SkeletonConcat(a: seq<char>, b: seq<char>)
    ensures Skeleton(a + b) == Skeleton(a) + Skeleton(b)
    decreases |b|
  {
    if b == [] {
      assert a + b == a;
    } else {
      var b' := b[..|b| - 1];
      assert (a + b)[..|a + b| - 1] == a + b';
      SkeletonConcat(a, b');
    }
  }

  /** The wildcard count is the number of non-'\r' whitespace characters
      after the last anchor. */
  lemma {:induction false} TrailingWildcardsCount(s: seq<char>)
    ensures TrailingWildcards(s) == CountWildcards(s[LastAnchorEnd(s)..])
    decreases |s|
  {
    if s != [] {
      var s' := s[..|s| - 1];
      var c := s[|s| - 1];
      if !IsAnchor(c) {
        var n := LastAnchorEnd(s');
        TrailingWildcardsCount(s');
        assert s[n..][..|s[n..]| - 1] == s'[n..];
      }
    }
  }

  lemma {:induction false} TrailingIgnores(a: seq<char>, c: char, b: seq<char>)
    requires IsIgnorable(c)
    ensures TrailingWildcards(a + [c] + b) == TrailingWildcards(a + b)
    decreases |b|
  {
    if b == [] {
      assert (a + [c] + b)[..|a| ] == a;
      assert a + b == a;
    } else {
      var b' := b[..|b| - 1];
      assert (a + [c] + b)[..|a + [c] + b| - 1] == a + [c] + b';
      assert (a + b)[..|a + b| - 1] == a + b';
      TrailingIgnores(a, c, b');
    }
  }

  /** Inserting (or deleting) a '\r' or a non-whitespace control character
      anywhere in front of the caret leaves the fingerprint unchanged. */
  lemma FingerprintIgnores(a: seq<char>, c: char, b: seq<char>)
    requires IsIgnorable(c)
    ensures Fingerprint(a + [c] + b) == Fingerprint(a + b)
  {
    SkeletonConcat(a, [c]);
    SkeletonConcat(a + [c], b);
    SkeletonConcat(a, b);
    SkeletonOne(c);
    TrailingIgnores(a, c, b);
  }

  // ---------------------------------------------------------------- decode

  /** Where the decoding walk ends: at text position `at` with the offset
      counted so far, or on a skeleton mismatch. */
  datatype Scan = Stopped(at: nat, offset: int) | Diverged

  /** The loop of RestoreCaretOffset from the state (i, j, offset). */
  function Walk(text: seq<char>, fp: seq<char>, i: nat, j: nat, offset: int): (r: Scan)
    requires i <= |text| && j <= |fp|
    ensures r.Stopped? ==> r.at <= |text|
    decreases |text| - i
  {
    if i == |text| || j == |fp| then Stopped(i, offset)
    else
      var a := text[i];
      var b := fp[j];
      if a == b then Walk(text, fp, i + 1, j + 1, offset + 1)
      else if a == ' ' || a == '\n' || a == '\t' then Walk(text, fp, i + 1, if b == ' ' then j + 1 else j, offset + 1)
      else if a != '\r' then (if b == ' ' then Stopped(i, offset) else Diverged)
      else Walk(text, fp, i + 1, j, offset)
  }

  /** The walk stops inside the text, and the offset it has counted lies
      between the non-'\r' characters it passed and all of them; with no
      '\r' in the fingerprint, exactly the non-'\r' ones. */
  lemma {:induction false} WalkBounds(text: seq<char>, fp: seq<char>, i: nat, j: nat, offset: int)
    requires i <= |text| && j <= |fp|
    ensures var r := Walk(text, fp, i, j, offset);
      r.Stopped? ==> i <= r.at <= |text| && offset + NonCr(text[i..r.at]) <= r.offset <= offset + (r.at - i)
    ensures var r := Walk(text, fp, i, j, offset);
      r.Stopped? && '\r' !in fp ==> r.offset == offset + NonCr(text[i..r.at])
    decreases |text| - i
  {
    if i < |text| && j < |fp| {
      var a := text[i];
      var b := fp[j];
      var j' := if a == b || b == ' ' then j + 1 else j;
      var offset' := if a == '\r' && a != b then offset else offset + 1;
      if a == b || IsBlank(a) || a == '\r' {
        assert b == '\r' ==> '\r' in fp;
        WalkBounds(text, fp, i + 1, if a == b || (IsBlank(a) && b == ' ') then j + 1 else j, offset');
        var r := Walk(text, fp, i, j, offset);
        if r.Stopped? {
          assert text[i..r.at][1..] == text[i + 1..r.at];
        }
      } else {
        assert text[i..i] == [];
      }
    } else {
      assert text[i..i] == [];
    }
  }

  /** The offset the decoder reports when its walk stops after e characters:
      one past the non-'\r' characters in front, one less after a '\n'. */
  function StopOffset(text: seq<char>, e: nat): int
    requires e <= |text|
  {
    1 + NonCr(text[..e]) - (if e > 0 && text[e - 1] == '\n' then 1 else 0)
  }

  /** What RestoreCaretOffset computes: None for an offset that does not fit
      the document, otherwise the 1-based absolute offset to move to. */
  function Decode(text: seq<char>, fp: seq<char>): Option<int>
  {
    if fp == [] then Some(1)
    else match Walk(text, fp, 0, 0, 1)
      case Diverged => None
      case Stopped(at, offset) => Some(if at > 0 && text[at - 1] == '\n' then offset - 1 else offset)
  }

  method RestoreCaretOffset(text: seq<char>, fp: seq<char>) returns (r: Option<int>)
    ensures r == Decode(text, fp)
  {
    if fp == [] {
      return Some(1);
    }
    var absoluteOffset := 1;
    var i := 0;
    var j := 0;
    while i < |text| && j < |fp|
      invariant 0 <= i <= |text| && 0 <= j <= |fp|
      invariant Walk(text, fp, i, j, absoluteOffset) == Walk(text, fp, 0, 0, 1)
    {
      var a := text[i];
      var b := fp[j];
      if a == b {
        absoluteOffset := absoluteOffset + 1;
        j := j + 1;
      } else if a == ' ' || a == '\n' || a == '\t' {
        absoluteOffset := absoluteOffset + 1;
        if b == ' ' {
          j := j + 1;
        }
      } else if a != '\r' {
        if b == ' ' {
          break;
        } else {
          return None;
        }
      }
      i := i + 1;
    }
    if i > 0 && text[i - 1] == '\n' {
      absoluteOffset := absoluteOffset - 1;
    }
    r := Some(absoluteOffset);
  }

  lemma {:induction false} NonCrConcat(a: seq<char>, b: seq<char>)
    ensures NonCr(a + b) == NonCr(a) + NonCr(b)
    decreases |a|
  {
    if a == [] {
      assert a + b == b;
    } else {
      assert (a + b)[1..] == a[1..] + b;
      NonCrConcat(a[1..], b);
    }
  }

  /** Decoding yields an offset between 1 and one past the end of the text;
      when the fingerprint holds no '\r' (as every fingerprint CaretOffset
      makes), one past the text's non-'\r' characters, and the offset of a
      position at which the walk can stop. */
  lemma DecodeRange(text: seq<char>, fp: seq<char>)
    requires Decode(text, fp).Some?
    ensures 1 <= Decode(text, fp).value <= 1 + |text|
    ensures '\r' !in fp ==> Decode(text, fp).value <= 1 + NonCr(text)
    ensures '\r' !in fp ==> exists e :: 0 <= e <= |text| && Decode(text, fp).value == StopOffset(text, e)
  {
    if fp == [] {
      assert text[..0] == [];
      assert Decode(text, fp).value == StopOffset(text, 0);
    } else {
      var w := Walk(text, fp, 0, 0, 1);
      WalkBounds(text, fp, 0, 0, 1);
      var at := w.at;
      var offset := w.offset;
      assert text[0..at] == text[..at];
      assert 1 + NonCr(text[..at]) <= offset <= 1 + at;
      if at > 0 && text[at - 1] == '\n' {
        NonCrLast(text[..at]);
      }
      NonCrConcat(text[..at], text[at..]);
      assert text[..at] + text[at..] == text;
      if '\r' !in fp {
        assert Decode(text, fp).value == StopOffset(text, at);
      }
    }
  }

  lemma NonCrLast(s: seq<char>)
    requires s != [] && s[|s| - 1] == '\n'
    ensures NonCr(s) >= 1
  {
    NonCrConcat(s[..|s| - 1], [s[|s| - 1]]);
    assert s[..|s| - 1] + [s[|s| - 1]] == s;
  }

  /** The walk started at positions (i, j) reaches positions (x, y): each
      character of the text in between was matched, taken as a blank, or
      passed over as '\r', the same steps the loop of RestoreCaretOffset takes. */
  predicate Reaches(text: seq<char>, fp: seq<char>, i: nat, j: nat, x: nat, y: nat)
    requires i <= |text| && j <= |fp|
    decreases |text| - i
  {
    (i == x && j == y)
    || (i < |text| && j < |fp|
        && if text[i] == fp[j] then Reaches(text, fp, i + 1, j + 1, x, y)
           else if IsBlank(text[i]) then Reaches(text, fp, i + 1, if fp[j] == ' ' then j + 1 else j, x, y)
           else text[i] == '\r' && Reaches(text, fp, i + 1, j, x, y))
  }

  /** The loop returns null at (x, y): a text character other than ' ', '\n',
      '\t' and '\r' meets a different fingerprint character that is not a space. */
  predicate Mismatch(text: seq<char>, fp: seq<char>, x: nat, y: nat)
  {
    x < |text| && y < |fp| && text[x] != fp[y] && !IsBlank(text[x]) && text[x] != '\r' && fp[y] != ' '
  }

  /** A walk that fails does so at a mismatch it reaches. */
  lemma {:induction false} WalkDiverges(text: seq<char>, fp: seq<char>, i: nat, j: nat, offset: int)
    requires i <= |text| && j <= |fp|
    requires Walk(text, fp, i, j, offset) == Diverged
    ensures exists x, y :: Reaches(text, fp, i, j, x, y) && Mismatch(text, fp, x, y)
    decreases |text| - i
  {
    var a := text[i];
    var b := fp[j];
    var j' := if a == b then j + 1 else if IsBlank(a) && b == ' ' then j + 1 else j;
    if a == b || IsBlank(a) || a == '\r' {
      WalkDiverges(text, fp, i + 1, j', if a == '\r' && a != b then offset else offset + 1);
      var x, y :| Reaches(text, fp, i + 1, j', x, y) && Mismatch(text, fp, x, y);
      assert Reaches(text, fp, i, j, x, y);
    } else {
      assert Reaches(text, fp, i, j, i, j) && Mismatch(text, fp, i, j);
    }
  }

  /** A mismatch the walk reaches makes it fail. */
  lemma {:induction false} DivergesAt(text: seq<char>, fp: seq<char>, i: nat, j: nat, offset: int, x: nat, y: nat)
    requires i <= |text| && j <= |fp|
    requires Reaches(text, fp, i, j, x, y) && Mismatch(text, fp, x, y)
    ensures Walk(text, fp, i, j, offset) == Diverged
    decreases |text| - i
  {
    if !(i == x && j == y) {
      var a := text[i];
      var b := fp[j];
      if a == b {
        DivergesAt(text, fp, i + 1, j + 1, offset + 1, x, y);
      } else if IsBlank(a) {
        DivergesAt(text, fp, i + 1, if b == ' ' then j + 1 else j, offset + 1, x, y);
      } else {
        DivergesAt(text, fp, i + 1, j, offset, x, y);
      }
    }
  }

  /** Decoding fails exactly when the fingerprint is not empty and the walk
      reaches a text character other than ' ', '\n', '\t' and '\r' that
      differs from the fingerprint character it meets, which is not a space. */
  lemma DecodeFailure(text: seq<char>, fp: seq<char>)
    ensures Decode(text, fp).None? <==> fp != [] && exists x, y :: Reaches(text, fp, 0, 0, x, y) && Mismatch(text, fp, x, y)
  {
    if Decode(text, fp).None? {
      WalkDiverges(text, fp, 0, 0, 1);
    } else if fp != [] && exists x, y :: Reaches(text, fp, 0, 0, x, y) && Mismatch(text, fp, x, y) {
      var x, y :| Reaches(text, fp, 0, 0, x, y) && Mismatch(text, fp, x, y);
      DivergesAt(text, fp, 0, 0, 1, x, y);
    }
  }

  // ------------------------------------------- decoding against a new text

  /** How many characters of s the wildcard tail of a fingerprint, n spaces
      long, absorbs: each blank takes one space, '\r' is passed over, and the
      walk stops at anything else, at the end of s, or when the spaces run out. */
  function WildcardSpan(s: seq<char>, n: nat): (r: nat)
    ensures r <= |s|
  {
    if n == 0 || s == [] then 0
    else if IsBlank(s[0]) then 1 + WildcardSpan(s[1..], n - 1)
    else if s[0] == '\r' then 1 + WildcardSpan(s[1..], n)
    else 0
  }

  lemma SkeletonOne(c: char)
    ensures Skeleton([c]) == if IsAnchor(c) then [c] else []
  {
    assert [c][..0] == [];
  }

  /** A stretch of s that equals p also equals it after its first character. */
  lemma StretchTail(s: seq<char>, k: nat, p: seq<char>)
    requires p != [] && k + |p| <= |s| && s[k..k + |p|] == p
    ensures s[k] == p[0] && s[k + 1..k + |p|] == p[1..]
  {
    assert s[k..k + |p|][0] == s[k];
  }

  /** While the skeleton is being matched, blanks and '\r' of the text are
      passed over and each anchor of the text meets its own copy: a plain
      stretch u of the text that ends with an anchor carries the walk over
      its own skeleton. */
  lemma {:induction false} SkeletonPhase(text: seq<char>, fp: seq<char>, i: nat, j: nat, offset: int, u: seq<char>)
    requires i + |u| <= |text| && text[i..i + |u|] == u
    requires IsPlain(u) && (u == [] || IsAnchor(u[|u| - 1]))
    requires j + |Skeleton(u)| <= |fp| && fp[j..j + |Skeleton(u)|] == Skeleton(u)
    ensures Walk(text, fp, i, j, offset) == Walk(text, fp, i + |u|, j + |Skeleton(u)|, offset + NonCr(u))
    decreases |u|
  {
    if u != [] {
      var c := u[0];
      var u' := u[1..];
      StretchTail(text, i, u);
      SkeletonFirst(u);
      var s := Skeleton(u);
      var offset' := offset + (if c == '\r' then 0 else 1);
      var j' := j + (if IsAnchor(c) then 1 else 0);
      if IsAnchor(c) {
        StretchTail(fp, j, s);
      } else {
        assert IsBlank(c) || c == '\r';
        assert fp[j] == s[0] by {
          assert fp[j..j + |s|][0] == fp[j];
        }
      }
      WalkPass(text, fp, i, j, offset, j', offset');
      SkeletonPhase(text, fp, i + 1, j', offset', u');
    }
  }

  /** How the skeleton of a non-empty text begins: with its first character
      when that is an anchor, and otherwise (if the text ends with an anchor)
      with an anchor of what follows it. */
  lemma SkeletonFirst(u: seq<char>)
    requires u != [] && IsAnchor(u[|u| - 1])
    ensures NonCr(u) == (if u[0] == '\r' then 0 else 1) + NonCr(u[1..])
    ensures Skeleton(u) != [] && IsAnchor(Skeleton(u)[0])
    ensures IsAnchor(u[0]) ==> Skeleton(u) == [u[0]] + Skeleton(u[1..])
    ensures !IsAnchor(u[0]) ==> Skeleton(u) == Skeleton(u[1..])
  {
    SkeletonCons(u[0], u[1..], u);
    SkeletonNonEmpty(u);
    SkeletonAnchors(u);
  }

  lemma SkeletonCons(c: char, u': seq<char>, u: seq<char>)
    requires u == [c] + u'
    ensures Skeleton(u) == (if IsAnchor(c) then [c] else []) + Skeleton(u')
  {
    SkeletonConcat([c], u');
    SkeletonOne(c);
  }

  lemma SkeletonNonEmpty(u: seq<char>)
    requires u != [] && IsAnchor(u[|u| - 1])
    ensures Skeleton(u) != []
  {
  }

  /** One step of the walk over a character that matches, or that the walk
      passes over without consuming the fingerprint character. */
  lemma WalkPass(text: seq<char>, fp: seq<char>, i: nat, j: nat, offset: int, j': nat, offset': int)
    requires i < |text| && j < |fp|
    requires text[i] == fp[j] ==> j' == j + 1 && offset' == offset + 1
    requires text[i] != fp[j] ==> fp[j] != ' ' && j' == j
    requires text[i] != fp[j] && IsBlank(text[i]) ==> offset' == offset + 1
    requires text[i] != fp[j] && !IsBlank(text[i]) ==> text[i] == '\r' && offset' == offset
    ensures j' <= |fp|
    ensures Walk(text, fp, i, j, offset) == Walk(text, fp, i + 1, j', offset')
  {
  }

  /** Once the skeleton is matched, the n spaces left in the fingerprint
      absorb WildcardSpan characters of the rest of the text, and the walk
      stops after them. */
  lemma {:induction false} WildcardPhase(text: seq<char>, fp: seq<char>, i: nat, j: nat, offset: int, rest: seq<char>, n: nat)
    requires i <= |text| && text[i..] == rest
    requires j <= |fp| && n == |fp| - j
    requires forall k :: j <= k < |fp| ==> fp[k] == ' '
    ensures Walk(text, fp, i, j, offset)
         == Stopped(i + WildcardSpan(rest, n), offset + NonCr(rest[..WildcardSpan(rest, n)]))
    decreases |text| - i
  {
    if i < |text| && j < |fp| {
      var c := rest[0];
      assert text[i] == c;
      assert text[i + 1..] == rest[1..];
      if IsBlank(c) {
        WildcardPhase(text, fp, i + 1, j + 1, offset + 1, rest[1..], n - 1);
        var m := WildcardSpan(rest[1..], n - 1);
        assert rest[..1 + m][1..] == rest[1..][..m];
      } else if c == '\r' {
        WildcardPhase(text, fp, i + 1, j, offset, rest[1..], n);
        var m := WildcardSpan(rest[1..], n);
        assert rest[..1 + m][1..] == rest[1..][..m];
      } else {
        assert rest[..0] == [];
      }
    } else {
      assert rest[..0] == [];
    }
  }

  /** Whitespace tolerance. Let the new text start with a plain stretch a
      that ends with an anchor (or is empty), and let the fingerprint be a's
      skeleton followed by n spaces -- which is the fingerprint of every old
      caret prefix with that skeleton and n wildcards (FingerprintShape).
      Decoding then succeeds and lands after a and after as many of the
      following blanks as there are spaces, stopping early at the first
      character that is neither blank nor '\r'. */
  lemma DecodeTolerant(a: seq<char>, t: seq<char>, n: nat, text: seq<char>, fp: seq<char>, e: nat)
    requires IsPlain(a) && (a == [] || IsAnchor(a[|a| - 1]))
    requires text == a + t && fp == Skeleton(a) + Spaces(n) && e == |a| + WildcardSpan(t, n)
    ensures e <= |text| && Decode(text, fp) == Some(StopOffset(text, e))
  {
    if a == [] && n == 0 {
      DecodeEmpty(text, fp, e);
    } else {
      if a != [] {
        SkeletonNonEmpty(a);
      }
      DecodeTolerantWalk(a, t, n, text, fp, e);
      DecodeStopped(text, fp, e);
    }
  }

  /** The empty fingerprint decodes to the start of the text. */
  lemma DecodeEmpty(text: seq<char>, fp: seq<char>, e: nat)
    requires fp == [] && e == 0
    ensures e <= |text| && Decode(text, fp) == Some(StopOffset(text, e))
  {
    assert text[..0] == [];
  }

  lemma DecodeTolerantWalk(a: seq<char>, t: seq<char>, n: nat, text: seq<char>, fp: seq<char>, e: nat)
    requires IsPlain(a) && (a == [] || IsAnchor(a[|a| - 1]))
    requires text == a + t && fp == Skeleton(a) + Spaces(n) && e == |a| + WildcardSpan(t, n)
    ensures e <= |text| && Walk(text, fp, 0, 0, 1) == Stopped(e, 1 + NonCr(text[..e]))
  {
    var s := Skeleton(a);
    TolerantSkeleton(a, t, n, text, s, fp);
    TolerantWildcards(a, t, n, text, s, fp);
  }

  /** The first phase of DecodeTolerantWalk: the walk passes a and its skeleton. */
  lemma TolerantSkeleton(a: seq<char>, t: seq<char>, n: nat, text: seq<char>, s: seq<char>, fp: seq<char>)
    requires IsPlain(a) && (a == [] || IsAnchor(a[|a| - 1]))
    requires text == a + t && s == Skeleton(a) && fp == s + Spaces(n)
    ensures |s| <= |fp| && Walk(text, fp, 0, 0, 1) == Walk(text, fp, |a|, |s|, 1 + NonCr(a))
  {
    PrefixOf(a, t, text);
    PrefixOf(s, Spaces(n), fp);
    SkeletonPhase(text, fp, 0, 0, 1, a);
  }

  lemma PrefixOf(u: seq<char>, v: seq<char>, w: seq<char>)
    requires w == u + v
    ensures |u| <= |w| && w[0..|u|] == u
  {
  }

  /** The second phase of DecodeTolerantWalk: the spaces absorb the blanks of t. */
  lemma TolerantWildcards(a: seq<char>, t: seq<char>, n: nat, text: seq<char>, s: seq<char>, fp: seq<char>)
    requires text == a + t && fp == s + Spaces(n)
    ensures |a| + WildcardSpan(t, n) <= |text|
    ensures Walk(text, fp, |a|, |s|, 1 + NonCr(a)) == Stopped(|a| + WildcardSpan(t, n), 1 + NonCr(text[..|a| + WildcardSpan(t, n)]))
  {
    var m := WildcardSpan(t, n);
    assert text[|a|..] == t;
    WildcardPhase(text, fp, |a|, |s|, 1 + NonCr(a), t, n);
    assert text[..|a| + m] == a + t[..m];
    NonCrConcat(a, t[..m]);
  }

  /** The fingerprint of every caret prefix with the skeleton of a is a's
      skeleton followed by the prefix's wildcard count in spaces. */
  lemma FingerprintShape(p: seq<char>, a: seq<char>)
    requires Skeleton(a) == Skeleton(p)
    ensures Fingerprint(p) == Skeleton(a) + Spaces(TrailingWildcards(p))
  {
  }

  /** Decode reads its result off a walk that stops. */
  lemma DecodeStopped(text: seq<char>, fp: seq<char>, e: nat)
    requires fp != [] && e <= |text| && Walk(text, fp, 0, 0, 1) == Stopped(e, 1 + NonCr(text[..e]))
    ensures Decode(text, fp) == Some(StopOffset(text, e))
  {
  }

  lemma {:induction false} TrailingOfPlainTail(a: seq<char>, b: seq<char>)
    requires a == [] || IsAnchor(a[|a| - 1])
    requires forall k :: 0 <= k < |b| ==> IsBlank(b[k]) || b[k] == '\r'
    ensures TrailingWildcards(a + b) == NonCr(b)
    decreases |b|
  {
    if b == [] {
      assert a + b == a;
      if a != [] {
        assert a[..|a| - 1] + [a[|a| - 1]] == a;
      }
    } else {
      var b' := b[..|b| - 1];
      assert (a + b)[..|a + b| - 1] == a + b';
      TrailingOfPlainTail(a, b');
      NonCrConcat(b', [b[|b| - 1]]);
      assert b' + [b[|b| - 1]] == b;
    }
  }

  lemma {:induction false} WildcardSpanOfTail(b: seq<char>, x: seq<char>)
    requires forall k :: 0 <= k < |b| ==> IsBlank(b[k]) || b[k] == '\r'
    ensures WildcardSpan(b + x, NonCr(b)) <= |b|
    ensures NonCr(b[..WildcardSpan(b + x, NonCr(b))]) == NonCr(b)
    ensures forall k :: WildcardSpan(b + x, NonCr(b)) <= k < |b| ==> b[k] == '\r'
    ensures WildcardSpan(b + x, NonCr(b)) > 0 ==> b[WildcardSpan(b + x, NonCr(b)) - 1] != '\r'
    decreases |b|
  {
    if b == [] {
      assert b[..0] == [];
    } else {
      var c := b[0];
      var b' := b[1..];
      assert (b + x)[0] == c && (b + x)[1..] == b' + x;
      WildcardSpanOfTail(b', x);
      var e' := WildcardSpan(b' + x, NonCr(b'));
      assert b[..e' + 1][1..] == b'[..e'];
      if c == '\r' && NonCr(b') == 0 {
        assert e' == 0;
        assert b[..0] == [];
      } else if c == '\r' {
        assert NonCr(b'[..e']) > 0;
        assert b'[..e'] != [];
      }
    }
  }

  lemma {:induction false} LastNonCrAfterCrs(s: seq<char>, crs: seq<char>)
    requires forall k :: 0 <= k < |crs| ==> crs[k] == '\r'
    ensures LastNonCr(s + crs) == LastNonCr(s)
    decreases |crs|
  {
    if crs == [] {
      assert s + crs == s;
    } else {
      assert (s + crs)[..|s + crs| - 1] == s + crs[..|crs| - 1];
      LastNonCrAfterCrs(s, crs[..|crs| - 1]);
    }
  }

  /** Where an unchanged document puts the caret back: one past the
      non-'\r' characters in front of it, one less when the last of them is
      a '\n' (a caret at the start of a line comes back at the end of the
      previous one). */
  function RoundTripOffset(prefix: seq<char>): int
  {
    1 + NonCr(prefix) - (if LastNonCr(prefix) == Some('\n') then 1 else 0)
  }

  /** A plain caret prefix splits at its last anchor into a plain stretch
      that ends with that anchor and a tail of blanks and '\r'. */
  lemma PlainSplit(p: seq<char>, n: nat, a: seq<char>, b: seq<char>)
    requires IsPlain(p) && n == LastAnchorEnd(p) && a == p[..n] && b == p[n..]
    ensures p == a + b && IsPlain(a) && (a == [] || IsAnchor(a[|a| - 1]))
    ensures forall k :: 0 <= k < |b| ==> IsBlank(b[k]) || b[k] == '\r'
  {
    LastAnchorEndSplit(p);
    assert p == a + b;
    PlainPrefix(p, n, a);
    PlainTail(p, n, b);
  }

  lemma PlainPrefix(p: seq<char>, n: nat, a: seq<char>)
    requires IsPlain(p) && n <= |p| && a == p[..n]
    ensures IsPlain(a) && (n > 0 ==> a[n - 1] == p[n - 1])
  {
    assert forall k :: 0 <= k < n ==> a[k] == p[k];
  }

  lemma PlainTail(p: seq<char>, n: nat, b: seq<char>)
    requires IsPlain(p) && n <= |p| && b == p[n..]
    requires forall k :: n <= k < |p| ==> !IsAnchor(p[k])
    ensures forall k :: 0 <= k < |b| ==> IsBlank(b[k]) || b[k] == '\r'
  {
    assert forall k :: 0 <= k < |b| ==> b[k] == p[n + k];
  }

  /** The fingerprint of such a prefix is the skeleton of its first part
      followed by one space per non-'\r' character of its tail. */
  lemma FingerprintOfSplit(p: seq<char>, a: seq<char>, b: seq<char>)
    requires p == a + b && (a == [] || IsAnchor(a[|a| - 1]))
    requires forall k :: 0 <= k < |b| ==> IsBlank(b[k]) || b[k] == '\r'
    ensures Fingerprint(p) == Skeleton(a) + Spaces(NonCr(b))
  {
    SkeletonConcat(a, b);
    SkeletonOfBlanks(b);
    TrailingOfPlainTail(a, b);
  }

  lemma {:induction false} SkeletonOfBlanks(b: seq<char>)
    requires forall k :: 0 <= k < |b| ==> IsBlank(b[k]) || b[k] == '\r'
    ensures Skeleton(b) == []
    decreases |b|
  {
    if b != [] {
      SkeletonOfBlanks(b[..|b| - 1]);
    }
  }

  /** The stop offset read off the text in front of the stop. */
  lemma StopOffsetOfPrefix(text: seq<char>, e: nat, s: seq<char>)
    requires e <= |text| && s == text[..e]
    ensures StopOffset(text, e) == 1 + NonCr(s) - (if s != [] && s[|s| - 1] == '\n' then 1 else 0)
  {
  }

  /** The last non-'\r' character of a text that does not end with '\r'. */
  lemma LastNonCrOfEnd(s: seq<char>)
    requires s == [] || s[|s| - 1] != '\r'
    ensures LastNonCr(s) == if s == [] then None else Some(s[|s| - 1])
  {
  }

  /** The walk over an unchanged document stops after a and the first e
      characters of the tail b, which hold all of b's non-'\r' characters. */
  lemma StopPrefix(a: seq<char>, b: seq<char>, x: seq<char>, e: nat, text: seq<char>, s: seq<char>)
    requires text == a + (b + x) && e <= |b| && s == a + b[..e]
    ensures |a| + e <= |text| && text[..|a| + e] == s
  {
  }

  /** Cutting the trailing '\r' run off the tail changes neither the count of
      non-'\r' characters nor the last of them. */
  lemma SameCount(a: seq<char>, b: seq<char>, e: nat, s: seq<char>)
    requires e <= |b| && NonCr(b[..e]) == NonCr(b) && s == a + b[..e]
    requires forall k :: e <= k < |b| ==> b[k] == '\r'
    ensures NonCr(s) == NonCr(a + b) && LastNonCr(a + b) == LastNonCr(s)
  {
    NonCrConcat(a, b[..e]);
    NonCrConcat(a, b);
    assert s + b[e..] == a + b;
    LastNonCrAfterCrs(s, b[e..]);
  }

  /** The text in front of the stop does not end with '\r'. */
  lemma PrefixEnd(a: seq<char>, b: seq<char>, e: nat, s: seq<char>)
    requires (a == [] || IsAnchor(a[|a| - 1])) && e <= |b| && s == a + b[..e]
    requires e > 0 ==> b[e - 1] != '\r'
    ensures s == [] || s[|s| - 1] != '\r'
  {
    if e == 0 {
      assert s == a;
    }
  }

  /** The stop the decoder reaches in an unchanged document is the
      round-trip offset of the prefix. */
  lemma RoundTripStop(a: seq<char>, b: seq<char>, x: seq<char>, text: seq<char>, p: seq<char>, e: nat)
    requires a == [] || IsAnchor(a[|a| - 1])
    requires forall k :: 0 <= k < |b| ==> IsBlank(b[k]) || b[k] == '\r'
    requires text == a + (b + x) && p == a + b && e == |a| + WildcardSpan(b + x, NonCr(b))
    ensures e <= |text| && StopOffset(text, e) == RoundTripOffset(p)
  {
    var s := StoppedPrefix(a, b, x, text, p, e);
    StopOffsetOfSame(text, e, s, p);
  }

  /** The text the decoder passes in an unchanged document: the caret prefix
      without its trailing '\r' run, with the same non-'\r' characters. */
  lemma StoppedPrefix(a: seq<char>, b: seq<char>, x: seq<char>, text: seq<char>, p: seq<char>, e: nat)
    returns (s: seq<char>)
    requires a == [] || IsAnchor(a[|a| - 1])
    requires forall k :: 0 <= k < |b| ==> IsBlank(b[k]) || b[k] == '\r'
    requires text == a + (b + x) && p == a + b && e == |a| + WildcardSpan(b + x, NonCr(b))
    ensures e <= |text| && text[..e] == s
    ensures NonCr(s) == NonCr(p) && LastNonCr(s) == LastNonCr(p)
    ensures s == [] || s[|s| - 1] != '\r'
  {
    var m := WildcardSpan(b + x, NonCr(b));
    WildcardSpanOfTail(b, x);
    s := a + b[..m];
    StopPrefix(a, b, x, m, text, s);
    SameCount(a, b, m, s);
    PrefixEnd(a, b, m, s);
  }

  /** A stop after a text with the prefix's non-'\r' characters, not ending
      in '\r', is the prefix's round-trip offset. */
  lemma StopOffsetOfSame(text: seq<char>, e: nat, s: seq<char>, p: seq<char>)
    requires e <= |text| && text[..e] == s
    requires NonCr(s) == NonCr(p) && LastNonCr(s) == LastNonCr(p)
    requires s == [] || s[|s| - 1] != '\r'
    ensures StopOffset(text, e) == RoundTripOffset(p)
  {
    StopOffsetOfPrefix(text, e, s);
    LastNonCrOfEnd(s);
  }

  /** Round trip on an unchanged document: when the text in front of the
      caret holds no whitespace other than ' ', '\n', '\t', '\r' and no other
      control character, decoding its fingerprint against the same document
      succeeds with RoundTripOffset. */
  lemma DecodeRoundTrip(document: seq<char>, caret: nat)
    requires caret <= |document| && IsPlain(document[..caret])
    ensures Decode(document, Fingerprint(document[..caret])) == Some(RoundTripOffset(document[..caret]))
  {
    var p := document[..caret];
    var n := LastAnchorEnd(p);
    var a, b, x := p[..n], p[n..], document[caret..];
    var e := |a| + WildcardSpan(b + x, NonCr(b));
    PlainSplit(p, n, a, b);
    FingerprintOfSplit(p, a, b);
    DocumentSplit(document, caret, p, a, b, x);
    DecodeTolerant(a, b + x, NonCr(b), document, Fingerprint(p), e);
    RoundTripStop(a, b, x, document, p, e);
  }

  lemma DocumentSplit(document: seq<char>, caret: nat, p: seq<char>, a: seq<char>, b: seq<char>, x: seq<char>)
    requires caret <= |document| && p == document[..caret] && x == document[caret..] && p == a + b
    ensures document == a + (b + x)
  {
    assert document == p + x;
  }

  /** Skeleton mismatch fails closed: after a plain stretch a that matches
      the start of the fingerprint and a run w of blanks, a character that is
      neither blank nor '\r' and differs from the next fingerprint character
      (an anchor, not a space) makes decoding fail. */
  lemma DecodeMismatch(fp: seq<char>, a: seq<char>, w: seq<char>, c: char, t: seq<char>)
    requires IsPlain(a) && (a == [] || IsAnchor(a[|a| - 1]))
    requires |Skeleton(a)| < |fp| && fp[..|Skeleton(a)|] == Skeleton(a)
    requires forall k :: 0 <= k < |w| ==> IsBlank(w[k]) || w[k] == '\r'
    requires IsAnchor(fp[|Skeleton(a)|]) && !IsBlank(c) && c != '\r' && c != fp[|Skeleton(a)|]
    ensures Decode(a + w + [c] + t, fp) == None
  {
    var text := a + w + [c] + t;
    var j := |Skeleton(a)|;
    assert Walk(text, fp, 0, 0, 1) == Walk(text, fp, |a|, j, 1 + NonCr(a)) by {
      assert text[0..|a|] == a;
      assert fp[0..j] == Skeleton(a);
      SkeletonPhase(text, fp, 0, 0, 1, a);
    }
    assert forall k :: |a| <= k < |a| + |w| ==> text[k] == w[k - |a|];
    assert text[|a| + |w|] == c;
    SkipBlanks(text, fp, |a|, j, 1 + NonCr(a), |w|);
  }

  /** Blanks and '\r' in front of a mismatching character that is neither
      blank nor '\r' do not save the walk: against a fingerprint character
      that is not a space (nor a blank), it diverges. */
  lemma {:induction false} SkipBlanks(text: seq<char>, fp: seq<char>, i: nat, j: nat, offset: int, n: nat)
    requires i + n < |text| && j < |fp| && !IsBlank(fp[j]) && fp[j] != '\r'
    requires forall k :: i <= k < i + n ==> IsBlank(text[k]) || text[k] == '\r'
    requires !IsBlank(text[i + n]) && text[i + n] != '\r' && text[i + n] != fp[j]
    ensures Walk(text, fp, i, j, offset) == Diverged
    decreases n
  {
    if n > 0 {
      SkipBlanks(text, fp, i + 1, j, offset + (if text[i] == '\r' then 0 else 1), n - 1);
    }
  }
}
