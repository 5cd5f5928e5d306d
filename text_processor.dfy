/**
 * The text normaliser: whitespace collapse and character filter, abbreviation
 * expansion, contraction expansion, and punctuation spacing, applied in that order.
 */
module TextProcessing {
  import opened Wrappers
  import opened Seqs
  import opened Strings

  /** The abbreviation table, in insertion order (which is the order the expansion loop visits it). */
  const Abbreviations: seq<(string, string)> := [
    ("Mr.", "Mister"), ("Mrs.", "Missus"), ("Ms.", "Miss"), ("Dr.", "Doctor"),
    ("Prof.", "Professor"), ("Sr.", "Senior"), ("Jr.", "Junior"), ("Ltd.", "Limited"),
    ("Inc.", "Incorporated"), ("Corp.", "Corporation"), ("Co.", "Company"), ("etc.", "etcetera"),
    ("vs.", "versus"), ("e.g.", "for example"), ("i.e.", "that is"), ("Ave.", "Avenue"),
    ("St.", "Street"), ("Rd.", "Road"), ("Blvd.", "Boulevard")
  ]

  /** The contraction table, in insertion order: the two irregular forms come before the generic "n't". */
  const Contractions: seq<(string, string)> := [
    ("won't", "will not"), ("can't", "cannot"), ("n't", " not"), ("'re", " are"),
    ("'ve", " have"), ("'ll", " will"), ("'d", " would"), ("'m", " am")
  ]

  /** The marks after which punctuation processing guarantees a pause. */
  const PauseMarks: set<char> := {',', '.', '!', '?', ';', ':'}

  /**
   * The characters the cleaning filter keeps: the regex class `[\w\s.,!?;:'"()-]`. The
   * pause marks and the apostrophe, which the later stages act on, are among them.
   */
  predicate IsKept(c: char)
    ensures c in PauseMarks || c == '\'' ==> IsKept(c)
  {
    IsWordChar(c) || IsSpace(c) || c in ".,!?;:'\"()-"
  }

  /**
   * clean_text: collapse whitespace, then delete every character outside the kept class.
   * The result holds only kept characters, is no longer than the input, and is the
   * collapsed input with exactly its non-kept characters deleted (order kept, every kept
   * character kept as often as it occurs).
   */
  function CleanText(text: string): (r: string)
    ensures forall c <- r :: IsKept(c)
    ensures |r| <= |text|
    ensures IsSubsequence(r, NormalizeWhitespace(text))
    ensures forall c | IsKept(c) :: multiset(r)[c] == multiset(NormalizeWhitespace(text))[c]
  {
    var collapsed := NormalizeWhitespace(text);
    WhereSatisfies(collapsed, IsKept);
    WhereIsSubsequence(collapsed, IsKept);
    WhereKeepsAll(collapsed, IsKept);
    Where(collapsed, IsKept)
  }

  /**
   * `text` after `text = text.replace(key, expansion)` for each entry of `table`, first
   * entry first. Text that holds no key comes back unchanged.
   */
  function ApplyTable(table: seq<(string, string)>, text: string): (r: string)
    ensures (forall e <- table :: e.0 != [] && !Contains(text, e.0)) ==> r == text
    decreases |table|
  {
    if table == [] then text
    else
      var (key, expansion) := table[|table| - 1];
      ReplaceAll(ApplyTable(table[..|table| - 1], text), key, expansion)
  }

  /** expand_abbreviations: each abbreviation replaced everywhere, in table order. */
  method ExpandAbbreviations(text: string) returns (r: string)
    ensures r == ApplyTable(Abbreviations, text)
    ensures (forall e <- Abbreviations :: !Contains(text, e.0)) ==> r == text
  {
    r := text;
    for i := 0 to |Abbreviations|
      invariant r == ApplyTable(Abbreviations[..i], text)
    {
      assert Abbreviations[..i + 1][..i] == Abbreviations[..i];
      r := ReplaceAll(r, Abbreviations[i].0, Abbreviations[i].1);
    }
    assert Abbreviations[..|Abbreviations|] == Abbreviations;
  }

  /** handle_special_cases: each contraction replaced everywhere, in table order. */
  method HandleSpecialCases(text: string) returns (r: string)
    ensures r == ApplyTable(Contractions, text)
    ensures (forall e <- Contractions :: !Contains(text, e.0)) ==> r == text
  {
    r := text;
    for i := 0 to |Contractions|
      invariant r == ApplyTable(Contractions[..i], text)
    {
      assert Contractions[..i + 1][..i] == Contractions[..i];
      r := ReplaceAll(r, Contractions[i].0, Contractions[i].1);
    }
    assert Contractions[..|Contractions|] == Contractions;
  }

  /** Applying two tables one after the other is applying their concatenation. */
  lemma {:induction false} ApplyTableConcat(a: seq<(string, string)>, b: seq<(string, string)>, text: string)
    ensures ApplyTable(a + b, text) == ApplyTable(b, ApplyTable(a, text))
    decreases |b|
  {
    if b == [] {
      assert a + b == a;
    } else {
      ApplyTableConcat(a, b[..|b| - 1], text);
      assert (a + b)[..|a + b| - 1] == a + b[..|b| - 1];
    }
  }

  /** Splitting a table at `k`: the first `k` entries are applied first, then the rest. */
  lemma ApplyTableSplit(table: seq<(string, string)>, k: nat, text: string)
    requires k <= |table|
    ensures ApplyTable(table, text) == ApplyTable(table[k..], ApplyTable(table[..k], text))
  {
    assert table[..k] + table[k..] == table;
    ApplyTableConcat(table[..k], table[k..], text);
  }

  /** Where an apostrophe of `a + k + b` can be when `a` and `b` hold none: inside `k`. */
  lemma ApostropheInMiddle(a: string, k: string, b: string, j: int)
    requires '\'' !in a && '\'' !in b
    requires 0 <= j < |a + k + b|
    ensures (a + k + b)[j] == '\'' ==> |a| <= j < |a| + |k| && k[j - |a|] == '\''
  {
    var s := a + k + b;
    if j < |a| {
      assert s[j] == a[j];
    } else if j < |a| + |k| {
      assert s[j] == k[j - |a|];
    } else {
      assert s[j] == b[j - |a| - |k|];
    }
  }

  /**
   * `(a + k + b).replace(k, v)` for an apostrophe-free `a` and `b` and a key whose only
   * apostrophe is its fourth character: just the one occurrence is replaced.
   */
  lemma ReplaceMiddleKey(a: string, k: string, v: string, b: string)
    requires '\'' !in a && '\'' !in b
    requires |k| > 3 && k[3] == '\'' && forall j | 0 <= j < 3 :: k[j] != '\''
    ensures ReplaceAll(a + k + b, k, v) == a + v + b
  {
    var s := a + k + b;
    forall i | 0 <= i < |a| ensures !OccursAt(s, k, i) {
      OccursChar(s, k, i, 3);
      ApostropheInMiddle(a, k, b, i + 3);
    }
    assert s == a + (k + b);
    ReplaceAfterPrefix(a, k + b, k, v);
    assert StartsWith(k + b, k);
    assert (k + b)[|k|..] == b;
    ApostropheNeeded(b, k);
    assert a + (v + b) == a + v + b;
  }

  /** Anywhere in apostrophe-free surroundings, "won't" becomes "will not". */
  lemma WontExpandsAnywhere(a: string, b: string)
    requires '\'' !in a && '\'' !in b
    ensures ApplyTable(Contractions, a + "won't" + b) == a + "will not" + b
  {
    var s := a + "won't" + b;
    var r := a + "will not" + b;
    assert '\'' !in r by {
      assert '\'' !in "will not";
    }
    ReplaceMiddleKey(a, "won't", "will not", b);
    assert ApplyTable(Contractions[..1], s) == r by {
      FirstEntry(s);
    }
    ApplyTableSplit(Contractions, 1, s);
    LaterEntriesKeep(r, 1);
  }

  lemma FirstEntry(s: string)
    ensures ApplyTable(Contractions[..1], s) == ReplaceAll(s, "won't", "will not")
  {
  }

  /** Anywhere in apostrophe-free surroundings, "can't" becomes "cannot". */
  lemma CantExpandsAnywhere(a: string, b: string)
    requires '\'' !in a && '\'' !in b
    ensures ApplyTable(Contractions, a + "can't" + b) == a + "cannot" + b
  {
    var s := a + "can't" + b;
    var r := a + "cannot" + b;
    assert '\'' !in r by {
      assert '\'' !in "cannot";
    }
    NoWontAroundCant(a, b);
    ReplaceMiddleKey(a, "can't", "cannot", b);
    assert ApplyTable(Contractions[..2], s) == r by {
      FirstTwoEntries(s);
    }
    ApplyTableSplit(Contractions, 2, s);
    LaterEntriesKeep(r, 2);
  }

  lemma FirstTwoEntries(s: string)
    ensures ApplyTable(Contractions[..2], s) == ReplaceAll(ReplaceAll(s, "won't", "will not"), "can't", "cannot")
  {
    assert Contractions[..2][..1] == Contractions[..1];
  }

  lemma NoWontAroundCant(a: string, b: string)
    requires '\'' !in a && '\'' !in b
    ensures !Contains(a + "can't" + b, "won't")
  {
    var s := a + "can't" + b;
    forall i ensures !OccursAt(s, "won't", i) {
      OccursChar(s, "won't", i, 3);
      OccursChar(s, "won't", i, 0);
      if 0 <= i && i + 3 < |s| {
        ApostropheInMiddle(a, "can't", b, i + 3);
      }
      assert s[|a|] == 'c';
    }
    ContainsIffOccurs(s, "won't");
  }

  /** "won't" becomes "will not": its own entry fires before the generic "n't" rule can. */
  lemma WontExpands()
    ensures ApplyTable(Contractions, "won't") == "will not"
  {
    WontExpandsAnywhere([], []);
    assert [] + "won't" + [] == "won't" && [] + "will not" + [] == "will not";
  }

  /** "can't" becomes "cannot": "won't" does not occur in it, and its own entry comes next. */
  lemma CantExpands()
    ensures ApplyTable(Contractions, "can't") == "cannot"
  {
    CantExpandsAnywhere([], []);
    assert [] + "can't" + [] == "can't" && [] + "cannot" + [] == "cannot";
  }

  /** Every contraction key holds an apostrophe, so text without one passes any tail of the table unchanged. */
  lemma LaterEntriesKeep(t: string, k: nat)
    requires '\'' !in t
    requires k <= |Contractions|
    ensures ApplyTable(Contractions[k..], t) == t
  {
    ApostropheFreeUnchanged(t, Contractions[k..]);
  }

  /** Text without an apostrophe passes unchanged through a table whose keys all hold one. */
  lemma ApostropheFreeUnchanged(t: string, table: seq<(string, string)>)
    requires '\'' !in t
    requires forall e <- table :: '\'' in e.0
    ensures ApplyTable(table, t) == t
  {
    forall e <- table ensures e.0 != [] && !Contains(t, e.0) {
      ApostropheNeeded(t, e.0);
    }
  }

  lemma {:induction false} ApostropheNeeded(t: string, key: string)
    requires '\'' !in t && '\'' in key
    ensures !Contains(t, key)
    decreases |t|
  {
    if t != [] {
      ApostropheNeeded(t[1..], key);
    }
  }

  /** The table order matters: with the generic "n't" rule first, "won't" would become "wo not". */
  lemma GenericRuleFirstSplitsWont()
    ensures ApplyTable([("n't", " not"), ("won't", "will not")], "won't") == "wo not"
  {
    var s := "won't";
    assert s[..3][0] == 'w' && s[1..][..3][0] == 'o';
    assert !StartsWith(s, "n't") && !StartsWith(s[1..], "n't") && StartsWith(s[2..], "n't");
    assert s[2..][3..] == [];
    assert ReplaceAll(s, "n't", " not") == "wo not";
    ApostropheNeeded("wo not", "won't");
  }

  /** `s.replace(d, d + ' ')` on a string that starts with `d`. */
  lemma PadHead(s: string, d: char)
    requires s != [] && s[0] == d
    ensures ReplaceAll(s, [d], [d, ' ']) == [d] + ([' '] + ReplaceAll(s[1..], [d], [d, ' ']))
  {
    assert StartsWith(s, [d]);
  }

  /** `s.replace(d, d + ' ')` on a string that starts with another character. */
  lemma PadSkip(s: string, d: char)
    requires s != [] && s[0] != d
    ensures ReplaceAll(s, [d], [d, ' ']) == [s[0]] + ReplaceAll(s[1..], [d], [d, ' '])
  {
    assert !StartsWith(s, [d]);
  }

  /** `s.replace(d, d + ' ')` changes no non-whitespace character. */
  lemma {:induction false} SpaceAfterMarkKeepsText(s: string, d: char)
    requires !IsSpace(d)
    ensures Where(ReplaceAll(s, [d], [d, ' ']), NotSpace) == Where(s, NotSpace)
    decreases |s|
  {
    if s != [] {
      var tail := s[1..];
      SpaceAfterMarkKeepsText(tail, d);
      var t := ReplaceAll(tail, [d], [d, ' ']);
      WhereHead(s, NotSpace);
      if s[0] == d {
        PadHead(s, d);
        WhereCons(d, [' '] + t, NotSpace);
        WhereCons(' ', t, NotSpace);
      } else {
        PadSkip(s, d);
        WhereCons(s[0], t, NotSpace);
      }
    }
  }

  /** `s.replace(d, d + ' ')` keeps every mark already followed by whitespace so followed, and adds `d` to them. */
  lemma {:induction false} SpaceAfterMark(s: string, d: char, marks: set<char>)
    requires !IsSpace(d) && ' ' !in marks
    requires SpacedAfter(s, marks)
    ensures SpacedAfter(ReplaceAll(s, [d], [d, ' ']), marks + {d})
    decreases |s|
  {
    if s != [] {
      var tail := s[1..];
      assert SpacedAfter(tail, marks) by {
        forall i | 0 <= i < |tail| && tail[i] in marks ensures i + 1 < |tail| && IsSpace(tail[i + 1]) {
          assert tail[i] == s[i + 1];
        }
      }
      SpaceAfterMark(tail, d, marks);
      var t := ReplaceAll(tail, [d], [d, ' ']);
      if s[0] == d {
        PadHead(s, d);
        assert [d] + ([' '] + t) == [d, ' '] + t;
        PaddedHead(t, d, marks);
      } else {
        PadSkip(s, d);
        if s[0] in marks {
          assert tail != [] && IsSpace(tail[0]);
          PadSkip(tail, d);
        }
        KeptHead(t, s[0], marks + {d});
      }
    }
  }

  lemma PaddedHead(t: string, d: char, marks: set<char>)
    requires SpacedAfter(t, marks + {d})
    requires !IsSpace(d) && ' ' !in marks
    ensures SpacedAfter([d, ' '] + t, marks + {d})
  {
    var r := [d, ' '] + t;
    forall i | 0 <= i < |r| && r[i] in marks + {d} ensures i + 1 < |r| && IsSpace(r[i + 1]) {
      if i == 0 {
        assert r[1] == ' ' && IsSpace(' ');
      } else if i == 1 {
        assert false;
      } else {
        assert r[i] == t[i - 2];
      }
    }
  }

  lemma KeptHead(t: string, c: char, marks: set<char>)
    requires SpacedAfter(t, marks)
    requires c in marks ==> t != [] && IsSpace(t[0])
    ensures SpacedAfter([c] + t, marks)
  {
    var r := [c] + t;
    forall i | 0 <= i < |r| && r[i] in marks ensures i + 1 < |r| && IsSpace(r[i + 1]) {
      if i > 0 {
        assert r[i] == t[i - 1];
      }
    }
  }

  /** One replacement of process_punctuation: what holds before for `marks` holds after for `marks + {d}`. */
  lemma PadStep(s: string, d: char, marks: set<char>)
    requires !IsSpace(d) && ' ' !in marks
    requires SpacedAfter(s, marks)
    ensures SpacedAfter(ReplaceAll(s, [d], [d, ' ']), marks + {d})
    ensures Where(ReplaceAll(s, [d], [d, ' ']), NotSpace) == Where(s, NotSpace)
  {
    SpaceAfterMark(s, d, marks);
    SpaceAfterMarkKeepsText(s, d);
  }

  /** One pass over `s`: each character in turn, followed by a space when it is in `marks`. */
  function SpaceAfter(s: string, marks: set<char>): string
    decreases |s|
  {
    if s == [] then [] else PadChar(s[0], marks) + SpaceAfter(s[1..], marks)
  }

  /** One character of that pass. */
  function PadChar(c: char, marks: set<char>): string {
    if c in marks then [c, ' '] else [c]
  }

  /** `s.replace(d, d + ' ')` is the one pass that puts a space after each `d`. */
  lemma {:induction false} PadIsSpaceAfter(s: string, d: char)
    ensures ReplaceAll(s, [d], [d, ' ']) == SpaceAfter(s, {d})
    decreases |s|
  {
    if s != [] {
      PadIsSpaceAfter(s[1..], d);
      if s[0] == d {
        PadHead(s, d);
      } else {
        PadSkip(s, d);
      }
    }
  }

  lemma {:induction false} SpaceAfterConcat(a: string, b: string, marks: set<char>)
    ensures SpaceAfter(a + b, marks) == SpaceAfter(a, marks) + SpaceAfter(b, marks)
    decreases |a|
  {
    if a == [] {
      assert a + b == b;
    } else {
      var h := PadChar(a[0], marks);
      SpaceAfterConcat(a[1..], b, marks);
      calc {
        SpaceAfter(a + b, marks);
        { assert (a + b)[0] == a[0] && (a + b)[1..] == a[1..] + b; }
        h + SpaceAfter(a[1..] + b, marks);
        h + (SpaceAfter(a[1..], marks) + SpaceAfter(b, marks));
        (h + SpaceAfter(a[1..], marks)) + SpaceAfter(b, marks);
      }
    }
  }

  /** Padding after `d` once the marks of `marks` are padded pads after `marks + {d}`, for a new `d`. */
  lemma {:induction false} SpaceAfterAgain(s: string, marks: set<char>, d: char)
    requires d != ' ' && d !in marks
    ensures SpaceAfter(SpaceAfter(s, marks), {d}) == SpaceAfter(s, marks + {d})
    decreases |s|
  {
    if s != [] {
      var c := s[0];
      var h := PadChar(c, marks);
      SpaceAfterAgain(s[1..], marks, d);
      SpaceAfterConcat(h, SpaceAfter(s[1..], marks), {d});
      assert SpaceAfter(h, {d}) == PadChar(c, marks + {d}) by {
        assert SpaceAfter([c], {d}) == PadChar(c, {d}) + SpaceAfter([], {d});
        if c in marks {
          assert [c, ' '][1..] == [' '];
          assert SpaceAfter([' '], {d}) == [' '] + SpaceAfter([], {d});
        }
      }
    }
  }

  /** One replacement of process_punctuation, on text already padded after `marks`. */
  lemma PadOnePassStep(t: string, text: string, marks: set<char>, d: char)
    requires d != ' ' && d !in marks
    requires t == SpaceAfter(text, marks)
    ensures ReplaceAll(t, [d], [d, ' ']) == SpaceAfter(text, marks + {d})
  {
    PadIsSpaceAfter(t, d);
    SpaceAfterAgain(text, marks, d);
  }

  /** The first three replacements of process_punctuation: one pass over `, . !`, marks spaced, text kept. */
  lemma PadFirstThree(text: string)
    ensures var t3 := ReplaceAll(ReplaceAll(ReplaceAll(text, [','], [',', ' ']), ['.'], ['.', ' ']), ['!'], ['!', ' ']);
            && t3 == SpaceAfter(text, {',', '.', '!'})
            && SpacedAfter(t3, {',', '.', '!'})
            && Where(t3, NotSpace) == Where(text, NotSpace)
  {
    var t1 := ReplaceAll(text, [','], [',', ' ']);
    PadIsSpaceAfter(text, ',');
    PadStep(text, ',', {});
    assert {} + {','} == {','};
    var t2 := ReplaceAll(t1, ['.'], ['.', ' ']);
    PadOnePassStep(t1, text, {','}, '.');
    PadStep(t1, '.', {','});
    assert {','} + {'.'} == {',', '.'};
    PadOnePassStep(t2, text, {',', '.'}, '!');
    PadStep(t2, '!', {',', '.'});
    assert {',', '.'} + {'!'} == {',', '.', '!'};
  }

  /** The last three replacements of process_punctuation, after the first three: one pass over all six marks. */
  lemma PadLastThree(t3: string, text: string)
    requires t3 == SpaceAfter(text, {',', '.', '!'})
    requires SpacedAfter(t3, {',', '.', '!'})
    requires Where(t3, NotSpace) == Where(text, NotSpace)
    ensures var t6 := ReplaceAll(ReplaceAll(ReplaceAll(t3, ['?'], ['?', ' ']), [';'], [';', ' ']), [':'], [':', ' ']);
            && t6 == SpaceAfter(text, PauseMarks)
            && SpacedAfter(t6, PauseMarks)
            && Where(t6, NotSpace) == Where(text, NotSpace)
  {
    var t4 := ReplaceAll(t3, ['?'], ['?', ' ']);
    PadOnePassStep(t3, text, {',', '.', '!'}, '?');
    PadStep(t3, '?', {',', '.', '!'});
    assert {',', '.', '!'} + {'?'} == {',', '.', '!', '?'};
    var t5 := ReplaceAll(t4, [';'], [';', ' ']);
    PadOnePassStep(t4, text, {',', '.', '!', '?'}, ';');
    PadStep(t4, ';', {',', '.', '!', '?'});
    assert {',', '.', '!', '?'} + {';'} == {',', '.', '!', '?', ';'};
    PadOnePassStep(t5, text, {',', '.', '!', '?', ';'}, ':');
    PadStep(t5, ':', {',', '.', '!', '?', ';'});
    assert {',', '.', '!', '?', ';'} + {':'} == PauseMarks;
  }

  /** The six replacements of process_punctuation are the one pass over all six marks. */
  lemma PadPausesOnePass(text: string)
    ensures var t1 := ReplaceAll(text, [','], [',', ' ']);
            var t2 := ReplaceAll(t1, ['.'], ['.', ' ']);
            var t3 := ReplaceAll(t2, ['!'], ['!', ' ']);
            var t4 := ReplaceAll(t3, ['?'], ['?', ' ']);
            var t5 := ReplaceAll(t4, [';'], [';', ' ']);
            ReplaceAll(t5, [':'], [':', ' ']) == SpaceAfter(text, PauseMarks)
  {
    PadFirstThree(text);
    PadLastThree(ReplaceAll(ReplaceAll(ReplaceAll(text, [','], [',', ' ']), ['.'], ['.', ' ']), ['!'], ['!', ' ']), text);
  }

  /** The first half of process_punctuation: a space inserted after each of , . ! ? ; : */
  function PadPauses(text: string): (r: string)
    ensures r == SpaceAfter(text, PauseMarks)
    ensures SpacedAfter(r, PauseMarks)
    ensures Where(r, NotSpace) == Where(text, NotSpace)
  {
    var t1 := ReplaceAll(text, [','], [',', ' ']);
    var t2 := ReplaceAll(t1, ['.'], ['.', ' ']);
    var t3 := ReplaceAll(t2, ['!'], ['!', ' ']);
    PadFirstThree(text);
    var t4 := ReplaceAll(t3, ['?'], ['?', ' ']);
    var t5 := ReplaceAll(t4, [';'], [';', ' ']);
    var t6 := ReplaceAll(t5, [':'], [':', ' ']);
    PadLastThree(t3, text);
    t6
  }

  /** In a well-spaced string where marks are followed by ' ', a mark is last or followed by exactly one space. */
  lemma SingleSpaceAfterMarks(r: string)
    requires WellSpaced(r)
    requires forall i | 0 <= i < |r| - 1 && r[i] in PauseMarks :: r[i + 1] == ' '
    ensures forall i | 0 <= i < |r| && r[i] in PauseMarks ::
      i == |r| - 1 || (r[i + 1] == ' ' && i + 2 < |r| && !IsSpace(r[i + 2]))
  {
    forall i | 0 <= i < |r| && r[i] in PauseMarks && i != |r| - 1
      ensures r[i + 1] == ' ' && i + 2 < |r| && !IsSpace(r[i + 2])
    {
      assert IsSpace(r[i + 1]);
    }
  }

  /**
   * process_punctuation: a space after each of , . ! ? ; : and then whitespace collapsed.
   * The result has the words of the one-pass padded input and is well spaced, so it is
   * exactly those words one space apart: whitespace is only inserted or collapsed, never
   * deleted between words. Each pause mark is the last character or is followed by
   * exactly one space, and the non-whitespace characters are those of the input, in order.
   */
  function ProcessPunctuation(text: string): (r: string)
    ensures Words(r) == Words(SpaceAfter(text, PauseMarks))
    ensures WellSpaced(r)
    ensures forall i | 0 <= i < |r| && r[i] in PauseMarks ::
      i == |r| - 1 || (r[i + 1] == ' ' && i + 2 < |r| && !IsSpace(r[i + 2]))
    ensures Where(r, NotSpace) == Where(text, NotSpace)
  {
    var padded := PadPauses(text);
    NormalizeWhitespaceMarks(padded, PauseMarks);
    SingleSpaceAfterMarks(NormalizeWhitespace(padded));
    NormalizeWhitespace(padded)
  }

  /**
   * process_text: "" for a missing, non-string or empty argument; otherwise clean_text,
   * expand_abbreviations, handle_special_cases and process_punctuation in that order,
   * stripped, where the strip changes nothing. The result is well spaced and every pause
   * mark in it is the last character or is followed by exactly one space.
   */
  method ProcessText(text: Option<string>) returns (r: string)
    ensures text.None? || text == Some("") ==> r == ""
    ensures text.Some? && text.value != "" ==>
      r == Strip(ProcessPunctuation(ApplyTable(Contractions, ApplyTable(Abbreviations, CleanText(text.value)))))
    ensures text.Some? && text.value != "" ==>
      r == ProcessPunctuation(ApplyTable(Contractions, ApplyTable(Abbreviations, CleanText(text.value))))
    ensures WellSpaced(r)
    ensures forall i | 0 <= i < |r| && r[i] in PauseMarks ::
      i == |r| - 1 || (r[i + 1] == ' ' && i + 2 < |r| && !IsSpace(r[i + 2]))
  {
    if text.None? || text.value == "" {
      return "";
    }
    var t := CleanText(text.value);
    t := ExpandAbbreviations(t);
    t := HandleSpecialCases(t);
    t := ProcessPunctuation(t);
    r := Strip(t);
    StripWellSpaced(t);
    assert r == t;
  }
}
