/**
 * The Python string built-ins the text pipeline is composed of: `str.isspace`,
 * `str.lower`, the `in` substring test, `str.replace`, `str.split()` with and
 * without a separator, `' '.join` and `str.strip()`.
 */
module Strings {
  import opened Seqs

  /** The characters `str.isspace()` accepts; `str.split()`, `str.strip()` and regex `\s` use the same set. */
  predicate IsSpace(c: char) {
    c == ' ' || '\t' <= c <= '\r' || '\U{1C}' <= c <= '\U{1F}' || c == '\U{85}' || c == '\U{A0}'
    || c == '\U{1680}' || '\U{2000}' <= c <= '\U{200A}' || c == '\U{2028}' || c == '\U{2029}'
    || c == '\U{202F}' || c == '\U{205F}' || c == '\U{3000}'
  }

  /** The ASCII blanks are whitespace, and no whitespace character is a word character. */
  lemma SpaceClasses(c: char)
    ensures c in [' ', '\t', '\n', '\r', '\U{B}', '\U{C}'] ==> IsSpace(c)
    ensures IsSpace(c) ==> !IsWordChar(c)
  {
  }

  predicate NotSpace(c: char) {
    !IsSpace(c)
  }

  /** Regex `\w`, restricted to ASCII: letters, digits and the underscore. */
  predicate IsWordChar(c: char) {
    'a' <= c <= 'z' || 'A' <= c <= 'Z' || '0' <= c <= '9' || c == '_'
  }

  /** `s.strip()` is non-empty: `s` holds a character that is not whitespace. */
  predicate HasText(s: string) {
    exists i | 0 <= i < |s| :: !IsSpace(s[i])
  }

  function LowerChar(c: char): (r: char)
    ensures r == '.' <==> c == '.'
  {
    if 'A' <= c <= 'Z' then (c as int + 32) as char else c
  }

  /** `s.lower()` on ASCII letters. */
  function Lower(s: string): (r: string)
    ensures |r| == |s|
    ensures forall i | 0 <= i < |s| :: r[i] == LowerChar(s[i])
    decreases |s|
  {
    if s == [] then [] else [LowerChar(s[0])] + Lower(s[1..])
  }

  predicate StartsWith(s: string, p: string) {
    |p| <= |s| && s[..|p|] == p
  }

  /** Python's `p in s`. */
  predicate Contains(s: string, p: string)
    decreases |s|
  {
    StartsWith(s, p) || (s != [] && Contains(s[1..], p))
  }

  /** `p` occurs in `s` starting at index `i`. */
  predicate OccursAt(s: string, p: string, i: int) {
    0 <= i <= |s| - |p| && s[i..i + |p|] == p
  }

  /** `p in s` holds exactly when `p` occurs in `s` at some index. */
  lemma {:induction false} ContainsIffOccurs(s: string, p: string)
    ensures Contains(s, p) <==> exists i :: OccursAt(s, p, i)
    decreases |s|
  {
    if StartsWith(s, p) {
      assert OccursAt(s, p, 0);
    } else if s != [] {
      ContainsIffOccurs(s[1..], p);
      if exists i :: OccursAt(s[1..], p, i) {
        var i :| OccursAt(s[1..], p, i);
        assert s[1..][i..i + |p|] == s[i + 1..i + 1 + |p|];
        assert OccursAt(s, p, i + 1);
      }
      if exists i :: OccursAt(s, p, i) {
        var i :| OccursAt(s, p, i);
        if i > 0 {
          assert s[1..][i - 1..i - 1 + |p|] == s[i..i + |p|];
          assert OccursAt(s[1..], p, i - 1);
        }
      }
    } else {
      assert forall i :: !OccursAt(s, p, i);
    }
  }

  /** Any string holding "female" also holds "male". */
  lemma {:induction false} FemaleHoldsMale(s: string)
    requires Contains(s, "female")
    ensures Contains(s, "male")
    decreases |s|
  {
    if StartsWith(s, "female") {
      assert s[2..][..4] == "male";
      assert Contains(s[2..], "male");
      assert s[1..][1..] == s[2..];
    } else {
      FemaleHoldsMale(s[1..]);
    }
  }

  /**
   * Python's `s.replace(p, q)`: every non-overlapping occurrence of `p`, scanned left to
   * right, becomes `q`; an empty `p` puts `q` before every character and at the end.
   */
  function ReplaceAll(s: string, p: string, q: string): (r: string)
    ensures p != [] && !Contains(s, p) ==> r == s
    decreases |s|
  {
    if s == [] then (if p == [] then q else [])
    else if p == [] then q + [s[0]] + ReplaceAll(s[1..], p, q)
    else if StartsWith(s, p) then q + ReplaceAll(s[|p|..], p, q)
    else [s[0]] + ReplaceAll(s[1..], p, q)
  }

  /** A character of an occurrence of `p` in `s`. */
  lemma OccursChar(s: string, p: string, i: int, k: int)
    ensures OccursAt(s, p, i) && 0 <= k < |p| ==> s[i + k] == p[k]
  {
    if OccursAt(s, p, i) && 0 <= k < |p| {
      assert s[i..i + |p|][k] == s[i + k];
    }
  }

  /**
   * `(a + t).replace(p, q)` when no occurrence of `p` starts inside `a`: `a` is kept as
   * it is and only `t` is rewritten.
   */
  lemma {:induction false} ReplaceAfterPrefix(a: string, t: string, p: string, q: string)
    requires p != []
    requires forall i | 0 <= i < |a| :: !OccursAt(a + t, p, i)
    ensures ReplaceAll(a + t, p, q) == a + ReplaceAll(t, p, q)
    decreases |a|
  {
    var s := a + t;
    if a == [] {
      assert s == t;
    } else {
      assert !OccursAt(s, p, 0);
      assert !StartsWith(s, p) by {
        if |p| <= |s| {
          assert s[..|p|] == s[0..|p|];
        }
      }
      assert s[1..] == a[1..] + t;
      forall i | 0 <= i ensures OccursAt(a[1..] + t, p, i) ==> OccursAt(s, p, i + 1) {
        if i <= |s[1..]| - |p| {
          assert s[1..][i..i + |p|] == s[i + 1..i + 1 + |p|];
        }
      }
      ReplaceAfterPrefix(a[1..], t, p, q);
    }
  }

  /** Length of the run of non-whitespace characters at the front of `s`. */
  function WordLen(s: string): (n: nat)
    ensures n <= |s|
    ensures forall k | 0 <= k < n :: !IsSpace(s[k])
    ensures n < |s| ==> IsSpace(s[n])
    decreases |s|
  {
    if s == [] || IsSpace(s[0]) then 0 else 1 + WordLen(s[1..])
  }

  predicate IsWord(w: string) {
    w != [] && forall k | 0 <= k < |w| :: !IsSpace(w[k])
  }

  /** Python's `s.split()`: the maximal runs of non-whitespace characters, in order. */
  function Words(s: string): (ws: seq<string>)
    ensures forall w <- ws :: IsWord(w)
    decreases |s|
  {
    if s == [] then []
    else if IsSpace(s[0]) then Words(s[1..])
    else
      var n := WordLen(s);
      [s[..n]] + Words(s[n..])
  }

  /**
   * The shape `' '.join(...)` of whitespace-free words produces: every whitespace
   * character is a single ' ' with a non-whitespace character on each side, so the
   * string has no leading, trailing or doubled whitespace.
   */
  predicate WellSpaced(s: string) {
    forall i | 0 <= i < |s| && IsSpace(s[i]) :: s[i] == ' ' && 0 < i < |s| - 1 && !IsSpace(s[i + 1])
  }

  /** Every character of `s` in `marks` is followed by whitespace. */
  predicate SpacedAfter(s: string, marks: set<char>) {
    forall i | 0 <= i < |s| && s[i] in marks :: i + 1 < |s| && IsSpace(s[i + 1])
  }

  /** No character of `w` but possibly the last is in `marks`. */
  predicate MarksOnlyLast(w: string, marks: set<char>) {
    forall k | 0 <= k < |w| - 1 :: w[k] !in marks
  }

  lemma {:induction false} JoinWordsWellSpaced(ws: seq<string>)
    requires forall w <- ws :: IsWord(w)
    ensures WellSpaced(Join(ws, " "))
    ensures ws != [] ==> Join(ws, " ") != []
    decreases |ws|
  {
    if |ws| == 1 {
      assert IsWord(ws[0]);
    } else if |ws| > 1 {
      JoinWordsWellSpaced(ws[1..]);
      var w, rest := ws[0], Join(ws[1..], " ");
      var r := Join(ws, " ");
      assert r == w + " " + rest;
      assert IsWord(w);
      forall i | 0 <= i < |r| && IsSpace(r[i])
        ensures r[i] == ' ' && 0 < i < |r| - 1 && !IsSpace(r[i + 1])
      {
        if i < |w| {
          assert false;
        } else if i == |w| {
          assert r[i + 1] == rest[0];
        } else {
          assert r[i] == rest[i - |w| - 1];
          if i + 1 < |r| {
            assert r[i + 1] == rest[i - |w|];
          }
        }
      }
    }
  }

  lemma {:induction false} JoinWordsMarks(ws: seq<string>, marks: set<char>)
    requires forall w <- ws :: IsWord(w) && MarksOnlyLast(w, marks)
    requires ' ' !in marks
    ensures forall i | 0 <= i < |Join(ws, " ")| - 1 && Join(ws, " ")[i] in marks :: Join(ws, " ")[i + 1] == ' '
    decreases |ws|
  {
    if |ws| == 1 {
      assert MarksOnlyLast(ws[0], marks);
    } else if |ws| > 1 {
      JoinWordsMarks(ws[1..], marks);
      var w, rest := ws[0], Join(ws[1..], " ");
      var r := Join(ws, " ");
      assert r == w + " " + rest;
      assert IsWord(w) && MarksOnlyLast(w, marks);
      forall i | 0 <= i < |r| - 1 && r[i] in marks ensures r[i + 1] == ' ' {
        if i < |w| {
          assert r[i] == w[i];
        } else if i == |w| {
          assert false;
        } else {
          assert r[i] == rest[i - |w| - 1];
          assert r[i + 1] == rest[i - |w|];
        }
      }
    }
  }

  lemma {:induction false} WordsMarks(s: string, marks: set<char>)
    requires SpacedAfter(s, marks)
    ensures forall w <- Words(s) :: MarksOnlyLast(w, marks)
    decreases |s|
  {
    if s != [] {
      if IsSpace(s[0]) {
        assert SpacedAfter(s[1..], marks) by {
          forall i | 0 <= i < |s[1..]| && s[1..][i] in marks
            ensures i + 1 < |s[1..]| && IsSpace(s[1..][i + 1])
          {
            assert s[1..][i] == s[i + 1];
          }
        }
        WordsMarks(s[1..], marks);
      } else {
        var n := WordLen(s);
        assert SpacedAfter(s[n..], marks) by {
          forall i | 0 <= i < |s[n..]| && s[n..][i] in marks
            ensures i + 1 < |s[n..]| && IsSpace(s[n..][i + 1])
          {
            assert s[n..][i] == s[n + i];
          }
        }
        WordsMarks(s[n..], marks);
        var w := s[..n];
        forall k | 0 <= k < |w| - 1 ensures w[k] !in marks {
          assert !IsSpace(s[k + 1]);
        }
      }
    }
  }

  /** The words of `s`, put together, are the non-whitespace characters of `s`. */
  lemma {:induction false} WordsKeepText(s: string)
    ensures Flatten(Words(s)) == Where(s, NotSpace)
    decreases |s|
  {
    if s != [] {
      if IsSpace(s[0]) {
        WordsKeepText(s[1..]);
        assert s == [s[0]] + s[1..];
        WhereConcat([s[0]], s[1..], NotSpace);
        assert Where([s[0]], NotSpace) == [];
      } else {
        var n := WordLen(s);
        WordsKeepText(s[n..]);
        assert s == s[..n] + s[n..];
        WhereConcat(s[..n], s[n..], NotSpace);
        WhereAllTrue(s[..n], NotSpace);
        assert Words(s) == [s[..n]] + Words(s[n..]);
        assert Words(s)[1..] == Words(s[n..]);
      }
    }
  }

  lemma {:induction false} JoinWordsKeepText(ws: seq<string>)
    requires forall w <- ws :: IsWord(w)
    ensures Where(Join(ws, " "), NotSpace) == Flatten(ws)
    decreases |ws|
  {
    if |ws| == 1 {
      SpaceFreeKept(ws[0]);
      assert Flatten(ws) == ws[0] + Flatten([]);
    } else if |ws| > 1 {
      JoinWordsKeepText(ws[1..]);
      SpaceFreeKept(ws[0]);
      SeparatorDropped(ws[0], Join(ws[1..], " "));
    }
  }

  lemma SpaceFreeKept(w: string)
    requires IsWord(w)
    ensures Where(w, NotSpace) == w
  {
    WhereAllTrue(w, NotSpace);
  }

  lemma SeparatorDropped(w: string, rest: string)
    ensures Where(w + " " + rest, NotSpace) == Where(w, NotSpace) + Where(rest, NotSpace)
  {
    WhereAllFalse(" ", NotSpace);
    WhereConcat(w + " ", rest, NotSpace);
    WhereConcat(w, " ", NotSpace);
  }

  /** `' '.join(s.split())` is no longer than `s`; shorter when `s` starts with whitespace and has words. */
  lemma {:induction false} JoinWordsLength(s: string)
    ensures |Join(Words(s), " ")| <= |s|
    ensures s != [] && IsSpace(s[0]) && Words(s) != [] ==> |Join(Words(s), " ")| < |s|
    decreases |s|
  {
    if s != [] {
      if IsSpace(s[0]) {
        JoinWordsLength(s[1..]);
      } else {
        var n := WordLen(s);
        var rest := s[n..];
        JoinWordsLength(rest);
        assert Words(s) == [s[..n]] + Words(rest);
        if Words(rest) != [] {
          assert rest != [] && IsSpace(rest[0]);
          assert Join(Words(s), " ") == s[..n] + " " + Join(Words(rest), " ");
        }
      }
    }
  }

  /** A word followed by whitespace or by nothing is the first word of the whole. */
  lemma WordsAfterWord(w: string, t: string)
    requires IsWord(w)
    requires t == [] || IsSpace(t[0])
    ensures Words(w + t) == [w] + Words(t)
  {
    var s := w + t;
    var n := WordLen(s);
    assert forall k | 0 <= k < |w| :: s[k] == w[k];
    assert |s| > |w| ==> s[|w|] == t[0];
    assert n == |w|;
    assert s[..n] == w && s[n..] == t;
  }

  /** Splitting words joined by single spaces gives the words back. */
  lemma {:induction false} WordsOfJoin(ws: seq<string>)
    requires forall w <- ws :: IsWord(w)
    ensures Words(Join(ws, " ")) == ws
    decreases |ws|
  {
    if |ws| == 1 {
      WordsAfterWord(ws[0], []);
      assert ws[0] + [] == ws[0];
    } else if |ws| > 1 {
      var rest := Join(ws[1..], " ");
      WordsOfJoin(ws[1..]);
      assert Join(ws, " ") == ws[0] + (" " + rest);
      WordsAfterWord(ws[0], " " + rest);
      assert (" " + rest)[1..] == rest;
    }
  }

  /** A well-spaced string is its own words joined by single spaces. */
  lemma {:induction false} WellSpacedIsJoin(s: string)
    requires WellSpaced(s)
    ensures s == Join(Words(s), " ")
    decreases |s|
  {
    if s != [] {
      var n := WordLen(s);
      if n == |s| {
        assert s[..n] == s && s[n..] == [];
      } else {
        var rest := s[n + 1..];
        WellSpacedSplit(s, n);
        WellSpacedIsJoin(rest);
        assert s == s[..n] + " " + rest;
      }
    }
  }

  /** A well-spaced string whose first word is not all of it: that word, a space, and a well-spaced rest. */
  lemma WellSpacedSplit(s: string, n: nat)
    requires WellSpaced(s) && s != [] && n == WordLen(s) && n < |s|
    ensures s[n] == ' ' && n + 1 < |s|
    ensures WellSpaced(s[n + 1..]) && Words(s[n + 1..]) != []
    ensures Words(s) == [s[..n]] + Words(s[n + 1..])
    ensures Join(Words(s), " ") == s[..n] + " " + Join(Words(s[n + 1..]), " ")
  {
    assert IsSpace(s[n]);
    var rest := s[n + 1..];
    WellSpacedSuffix(s, n + 1);
    assert Words(s) == [s[..n]] + Words(s[n..]);
    assert s[n..][1..] == rest;
    assert Words(s[n..]) == Words(rest);
    assert rest[0] == s[n + 1];
    assert Words(rest) == [rest[..WordLen(rest)]] + Words(rest[WordLen(rest)..]);
  }

  /** What follows a non-whitespace character of a well-spaced string is well spaced. */
  lemma WellSpacedSuffix(s: string, k: nat)
    requires WellSpaced(s) && k < |s| && !IsSpace(s[k])
    ensures WellSpaced(s[k..])
  {
    var t := s[k..];
    forall i | 0 <= i < |t| && IsSpace(t[i])
      ensures t[i] == ' ' && 0 < i < |t| - 1 && !IsSpace(t[i + 1])
    {
      assert t[i] == s[k + i];
      assert i + 1 < |t| ==> t[i + 1] == s[k + i + 1];
    }
  }

  /**
   * Python's `' '.join(s.split())`: the words of `s`, one space apart. The result has the
   * same words as `s`, is well spaced (so it is those words joined by single spaces),
   * keeps the non-whitespace characters of `s` in order, and never grows.
   */
  function NormalizeWhitespace(s: string): (r: string)
    ensures Words(r) == Words(s)
    ensures WellSpaced(r)
    ensures Where(r, NotSpace) == Where(s, NotSpace)
    ensures |r| <= |s|
  {
    var ws := Words(s);
    JoinWordsWellSpaced(ws);
    JoinWordsKeepText(ws);
    WordsKeepText(s);
    JoinWordsLength(s);
    WordsOfJoin(ws);
    Join(ws, " ")
  }

  /** When each mark in `s` is followed by whitespace, each mark after normalising is last or followed by ' '. */
  lemma NormalizeWhitespaceMarks(s: string, marks: set<char>)
    requires SpacedAfter(s, marks)
    requires ' ' !in marks
    ensures forall i | 0 <= i < |NormalizeWhitespace(s)| - 1 && NormalizeWhitespace(s)[i] in marks ::
      NormalizeWhitespace(s)[i + 1] == ' '
  {
    WordsMarks(s, marks);
    JoinWordsMarks(Words(s), marks);
  }

  function TrimStart(s: string): (r: string)
    ensures |r| <= |s| && r == s[|s| - |r|..]
    ensures r == [] || !IsSpace(r[0])
    ensures forall k | 0 <= k < |s| - |r| :: IsSpace(s[k])
    decreases |s|
  {
    if s != [] && IsSpace(s[0]) then TrimStart(s[1..]) else s
  }

  function TrimEnd(s: string): (r: string)
    ensures |r| <= |s| && r == s[..|r|]
    ensures r == [] || !IsSpace(r[|r| - 1])
    ensures forall k | |r| <= k < |s| :: IsSpace(s[k])
    decreases |s|
  {
    if s != [] && IsSpace(s[|s| - 1]) then TrimEnd(s[..|s| - 1]) else s
  }

  /**
   * `r` is `s` with its leading and trailing whitespace removed: a slice of `s` that
   * neither starts nor ends with whitespace, with only whitespace around it.
   */
  ghost predicate IsStripOf(r: string, s: string) {
    (r == [] || (!IsSpace(r[0]) && !IsSpace(r[|r| - 1])))
    && exists i :: StrippedAt(r, s, i)
  }

  /** `r` is the slice of `s` starting at `i`, and only whitespace lies around it. */
  ghost predicate StrippedAt(r: string, s: string, i: int) {
    0 <= i <= |s| - |r|
    && r == s[i..i + |r|]
    && (forall k | 0 <= k < i :: IsSpace(s[k]))
    && (forall k | i + |r| <= k < |s| :: IsSpace(s[k]))
  }

  /** Python's `s.strip()`. */
  function Strip(s: string): (r: string)
    ensures IsStripOf(r, s)
    ensures r == [] <==> !HasText(s)
  {
    TrimmedIsStrip(s);
    TrimmedIsBlank(s);
    TrimEnd(TrimStart(s))
  }

  /** Trimming both ends leaves a slice of `s` with only whitespace around it. */
  lemma TrimmedIsStrip(s: string)
    ensures IsStripOf(TrimEnd(TrimStart(s)), s)
  {
    var t := TrimStart(s);
    var r := TrimEnd(t);
    TrimmedAt(s);
    assert StrippedAt(r, s, |s| - |t|);
    assert r == [] || r[0] == t[0];
  }

  /** The doubly trimmed string sits in `s` where the leading whitespace ends. */
  lemma TrimmedAt(s: string)
    ensures StrippedAt(TrimEnd(TrimStart(s)), s, |s| - |TrimStart(s)|)
  {
    SliceStrippedAt(s, TrimStart(s), TrimEnd(TrimStart(s)));
  }

  /** A prefix `r` of a suffix `t` of `s`, with only whitespace cut off around it, is stripped out of `s`. */
  lemma SliceStrippedAt(s: string, t: string, r: string)
    requires |t| <= |s| && t == s[|s| - |t|..]
    requires forall k | 0 <= k < |s| - |t| :: IsSpace(s[k])
    requires |r| <= |t| && r == t[..|r|]
    requires forall k | |r| <= k < |t| :: IsSpace(t[k])
    ensures StrippedAt(r, s, |s| - |t|)
  {
    var i := |s| - |t|;
    assert r == s[i..i + |r|];
    forall k | i + |r| <= k < |s|
      ensures IsSpace(s[k])
    {
      assert s[k] == t[k - i];
    }
  }

  /** Trimming both ends leaves nothing exactly when `s` is blank. */
  lemma TrimmedIsBlank(s: string)
    ensures TrimEnd(TrimStart(s)) == [] <==> !HasText(s)
  {
    var t := TrimStart(s);
    var r := TrimEnd(t);
    var i := |s| - |t|;
    assert t == s[i..];
    if r != [] {
      assert s[i] == r[0];
    } else {
      assert forall k | i <= k < |s| :: s[k] == t[k - i];
    }
  }

  /** Stripping a string that neither starts nor ends with whitespace changes nothing. */
  lemma StripTrimmed(s: string)
    requires s == [] || (!IsSpace(s[0]) && !IsSpace(s[|s| - 1]))
    ensures Strip(s) == s
  {
  }

  /** Stripping twice is stripping once. */
  lemma StripIdempotent(s: string)
    ensures Strip(Strip(s)) == Strip(s)
  {
    StripTrimmed(Strip(s));
  }

  /** Stripping a well-spaced string changes nothing. */
  lemma StripWellSpaced(s: string)
    requires WellSpaced(s)
    ensures Strip(s) == s
  {
    if s != [] {
      assert !IsSpace(s[0]) && !IsSpace(s[|s| - 1]);
    }
    StripTrimmed(s);
  }

  /** Python's `s.split(sep)`: the pieces between separators, one more than there are separators. */
  function SplitOn(s: string, sep: char): (parts: seq<string>)
    ensures |parts| >= 1
    ensures forall part <- parts :: sep !in part
    ensures Join(parts, [sep]) == s
    decreases |s|
  {
    if s == [] then [[]]
    else
      var rest := SplitOn(s[1..], sep);
      if s[0] == sep then
        assert ([[]] + rest)[1..] == rest;
        [[]] + rest
      else
        var parts := [[s[0]] + rest[0]] + rest[1..];
        assert |rest| > 1 ==> parts[1..] == rest[1..];
        parts
  }

  /** The last piece of `s.split(sep)` is the text after the last separator, or all of `s` when there is none. */
  lemma LastPiece(s: string, sep: char)
    ensures var last := SplitOn(s, sep)[|SplitOn(s, sep)| - 1];
      |last| <= |s| && last == s[|s| - |last|..] && (|last| < |s| ==> s[|s| - |last| - 1] == sep)
  {
    var parts := SplitOn(s, sep);
    if |parts| >= 2 {
      JoinLast(parts, [sep]);
    }
  }
}
