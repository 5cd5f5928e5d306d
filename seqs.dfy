/** Generic facts about sequences shared by the string and voice-list models. */
module Seqs {

  /** The elements of `s` that satisfy `p`, in their original order (a list comprehension with a filter). */
  function Where<T>(s: seq<T>, p: T -> bool): (r: seq<T>)
    ensures |r| <= |s|
    decreases |s|
  {
    if s == [] then []
    else Where(s[..|s| - 1], p) + (if p(s[|s| - 1]) then [s[|s| - 1]] else [])
  }

  /** What the filter keeps satisfies `p` and comes from `s`. */
  lemma {:induction false} WhereSatisfies<T>(s: seq<T>, p: T -> bool)
    ensures forall x <- Where(s, p) :: p(x) && x in s
    decreases |s|
  {
    if s != [] {
      WhereSatisfies(s[..|s| - 1], p);
    }
  }

  /** `a` is obtained from `b` by deleting elements, the rest keeping their order. */
  ghost predicate IsSubsequence<T>(a: seq<T>, b: seq<T>)
    decreases |b|
  {
    if b == [] then a == []
    else
      (a != [] && a[|a| - 1] == b[|b| - 1] && IsSubsequence(a[..|a| - 1], b[..|b| - 1]))
      || IsSubsequence(a, b[..|b| - 1])
  }

  /** Python's `sep.join(parts)`. */
  function Join<T>(parts: seq<seq<T>>, sep: seq<T>): seq<T>
    decreases |parts|
  {
    if parts == [] then []
    else if |parts| == 1 then parts[0]
    else parts[0] + sep + Join(parts[1..], sep)
  }

  /** All parts one after the other, with nothing in between. */
  function Flatten<T>(parts: seq<seq<T>>): seq<T>
    decreases |parts|
  {
    if parts == [] then [] else parts[0] + Flatten(parts[1..])
  }

  /** Filtering keeps the order of what it keeps. */
  lemma {:induction false} WhereIsSubsequence<T>(s: seq<T>, p: T -> bool)
    ensures IsSubsequence(Where(s, p), s)
    decreases |s|
  {
    if s != [] {
      var init := s[..|s| - 1];
      WhereIsSubsequence(init, p);
      var r := Where(s, p);
      if p(s[|s| - 1]) {
        assert r[..|r| - 1] == Where(init, p);
      } else {
        assert r == Where(init, p);
      }
    }
  }

  /** Filtering keeps every occurrence of every element it accepts. */
  lemma {:induction false} WhereKeepsCount<T>(s: seq<T>, p: T -> bool, x: T)
    requires p(x)
    ensures multiset(Where(s, p))[x] == multiset(s)[x]
    decreases |s|
  {
    if s != [] {
      WhereKeepsCount(s[..|s| - 1], p, x);
      assert s == s[..|s| - 1] + [s[|s| - 1]];
    }
  }

  lemma WhereKeepsAll<T>(s: seq<T>, p: T -> bool)
    ensures forall x | p(x) :: multiset(Where(s, p))[x] == multiset(s)[x]
  {
    forall x | p(x) ensures multiset(Where(s, p))[x] == multiset(s)[x] {
      WhereKeepsCount(s, p, x);
    }
  }

  /** Filtering distributes over concatenation. */
  lemma {:induction false} WhereConcat<T>(a: seq<T>, b: seq<T>, p: T -> bool)
    ensures Where(a + b, p) == Where(a, p) + Where(b, p)
    decreases |b|
  {
    if b == [] {
      assert a + b == a;
    } else {
      var b', x := b[..|b| - 1], b[|b| - 1];
      var keep := if p(x) then [x] else [];
      WhereConcat(a, b', p);
      assert (a + b)[..|a + b| - 1] == a + b' && (a + b)[|a + b| - 1] == x;
      calc {
        Where(a + b, p);
        Where(a + b', p) + keep;
        Where(a, p) + Where(b', p) + keep;
        Where(a, p) + (Where(b', p) + keep);
        Where(a, p) + Where(b, p);
      }
    }
  }

  /** Filtering a sequence with a given first element. */
  lemma {:induction false} WhereCons<T>(x: T, s: seq<T>, p: T -> bool)
    ensures Where([x] + s, p) == (if p(x) then [x] else []) + Where(s, p)
    decreases |s|
  {
    if s == [] {
      assert [x] + s == [x];
      assert [x][..0] == [];
    } else {
      var s' := s[..|s| - 1];
      WhereCons(x, s', p);
      assert ([x] + s)[..|s|] == [x] + s';
    }
  }

  /** Filtering a non-empty sequence: its first element, then the rest. */
  lemma WhereHead<T>(s: seq<T>, p: T -> bool)
    requires s != []
    ensures Where(s, p) == (if p(s[0]) then [s[0]] else []) + Where(s[1..], p)
  {
    assert s == [s[0]] + s[1..];
    WhereCons(s[0], s[1..], p);
  }

  /** A filter that accepts everything changes nothing. */
  lemma {:induction false} WhereAllTrue<T>(s: seq<T>, p: T -> bool)
    requires forall i | 0 <= i < |s| :: p(s[i])
    ensures Where(s, p) == s
    decreases |s|
  {
    if s != [] {
      WhereAllTrue(s[..|s| - 1], p);
    }
  }

  /** A filter that accepts nothing leaves nothing. */
  lemma {:induction false} WhereAllFalse<T>(s: seq<T>, p: T -> bool)
    requires forall i | 0 <= i < |s| :: !p(s[i])
    ensures Where(s, p) == []
    decreases |s|
  {
    if s != [] {
      WhereAllFalse(s[..|s| - 1], p);
    }
  }

  /** Two filters that never accept the same element together keep at most all of `s`. */
  lemma {:induction false} WhereDisjointSize<T>(s: seq<T>, p: T -> bool, q: T -> bool)
    requires forall i | 0 <= i < |s| :: !(p(s[i]) && q(s[i]))
    ensures |Where(s, p)| + |Where(s, q)| <= |s|
    decreases |s|
  {
    if s != [] {
      WhereDisjointSize(s[..|s| - 1], p, q);
    }
  }

  /** The last part of a join is what follows the last separator. */
  lemma {:induction false} JoinLast<T>(parts: seq<seq<T>>, sep: seq<T>)
    requires |parts| >= 2
    ensures Join(parts, sep) == Join(parts[..|parts| - 1], sep) + sep + parts[|parts| - 1]
    decreases |parts|
  {
    if |parts| > 2 {
      JoinLast(parts[1..], sep);
      assert parts[1..][..|parts| - 2] == parts[..|parts| - 1][1..];
    }
  }
}
