/** Python's ordering of `str` and `list.sort()` on lists of strings. */
module Order {

  /** `a < b` on strings: lexicographic by code point. */
  predicate Less(a: string, b: string) {
    if b == [] then false
    else if a == [] then true
    else a[0] < b[0] || (a[0] == b[0] && Less(a[1..], b[1..]))
  }

  predicate AtMost(a: string, b: string) {
    a == b || Less(a, b)
  }

  lemma {:induction false} LessIsTotal(a: string, b: string)
    ensures Less(a, b) || a == b || Less(b, a)
  {
    if a != [] && b != [] && a[0] == b[0] {
      LessIsTotal(a[1..], b[1..]);
      assert a == [a[0]] + a[1..] && b == [b[0]] + b[1..];
    }
  }

  lemma {:induction false} LessIsAsymmetric(a: string, b: string)
    requires Less(a, b)
    ensures a != b && !Less(b, a)
  {
    if a != [] && a[0] == b[0] {
      LessIsAsymmetric(a[1..], b[1..]);
    }
  }

  lemma {:induction false} LessIsTransitive(a: string, b: string, c: string)
    requires Less(a, b) && Less(b, c)
    ensures Less(a, c)
  {
    if a != [] && a[0] == b[0] == c[0] {
      LessIsTransitive(a[1..], b[1..], c[1..]);
    }
  }

  lemma {:induction false} LessIsIrreflexive(a: string)
    ensures !Less(a, a)
  {
    if a != [] {
      LessIsIrreflexive(a[1..]);
    }
  }

  /** Up to `i` the strings agree; there `a` ends or has the lesser character. */
  ghost predicate PrecedesAt(a: string, b: string, i: nat) {
    i <= |a| && i < |b| && a[..i] == b[..i] && (i == |a| || a[i] < b[i])
  }

  lemma FirstAgrees(a: string, b: string, i: nat)
    ensures PrecedesAt(a, b, i) && i > 0 ==> a != [] && b != [] && a[0] == b[0]
  {
    if PrecedesAt(a, b, i) && i > 0 {
      assert a[..i][0] == b[..i][0];
    }
  }

  /** `a < b` exactly when `a` ends, or has the lesser character, where the two first differ. */
  lemma {:induction false} LessExactly(a: string, b: string)
    ensures Less(a, b) <==> exists i: nat :: PrecedesAt(a, b, i)
  {
    if a == [] {
      assert b != [] ==> PrecedesAt(a, b, 0);
    } else if b != [] {
      LessExactly(a[1..], b[1..]);
      if a[0] < b[0] {
        assert PrecedesAt(a, b, 0);
      } else if a[0] == b[0] {
        if i: nat :| PrecedesAt(a[1..], b[1..], i) {
          assert a[..i + 1] == [a[0]] + a[1..][..i] && b[..i + 1] == [b[0]] + b[1..][..i];
          assert PrecedesAt(a, b, i + 1);
        }
        if i: nat :| PrecedesAt(a, b, i) {
          assert i > 0;
          assert a[1..][..i - 1] == a[..i][1..] && b[1..][..i - 1] == b[..i][1..];
          assert PrecedesAt(a[1..], b[1..], i - 1);
        }
      } else {
        forall i: nat ensures !PrecedesAt(a, b, i) {
          FirstAgrees(a, b, i);
        }
      }
    }
  }

  ghost predicate Sorted(s: seq<string>) {
    forall i, j :: 0 <= i < j < |s| ==> AtMost(s[i], s[j])
  }

  /** Puts `x` behind every element of a sorted list that is at most `x`. */
  function InsertSorted(s: seq<string>, x: string): (r: seq<string>)
    requires Sorted(s)
    ensures Sorted(r)
    ensures multiset(r) == multiset(s) + multiset{x}
  {
    if s == [] then [x]
    else if AtMost(s[|s| - 1], x) then
      InsertBehind(s, x);
      s + [x]
    else
      InsertBefore(s, x);
      assert s == s[..|s| - 1] + [s[|s| - 1]];
      var front := InsertSorted(s[..|s| - 1], x);
      AllAtMost(front, s[..|s| - 1], x, s[|s| - 1]);
      front + [s[|s| - 1]]
  }

  lemma InsertBehind(s: seq<string>, x: string)
    requires Sorted(s) && s != [] && AtMost(s[|s| - 1], x)
    ensures Sorted(s + [x])
  {
    forall i | 0 <= i < |s| ensures AtMost(s[i], x) {
      if s[i] != s[|s| - 1] && s[|s| - 1] != x {
        LessIsTransitive(s[i], s[|s| - 1], x);
      }
    }
  }

  lemma InsertBefore(s: seq<string>, x: string)
    requires Sorted(s) && s != [] && !AtMost(s[|s| - 1], x)
    ensures AtMost(x, s[|s| - 1])
  {
    LessIsTotal(x, s[|s| - 1]);
  }

  lemma AllAtMost(r: seq<string>, s: seq<string>, x: string, top: string)
    requires multiset(r) == multiset(s) + multiset{x}
    requires AtMost(x, top) && forall i :: 0 <= i < |s| ==> AtMost(s[i], top)
    ensures forall i :: 0 <= i < |r| ==> AtMost(r[i], top)
  {
    forall i | 0 <= i < |r| ensures AtMost(r[i], top) {
      assert r[i] in multiset(r);
      assert r[i] == x || r[i] in multiset(s);
    }
  }

  /** `list.sort()`: the sorted arrangement of a list. */
  function Sort(s: seq<string>): (r: seq<string>)
    ensures Sorted(r)
    ensures multiset(r) == multiset(s)
  {
    if s == [] then []
    else
      assert s == s[..|s| - 1] + [s[|s| - 1]];
      InsertSorted(Sort(s[..|s| - 1]), s[|s| - 1])
  }

  lemma SortMembers(s: seq<string>)
    requires NoDup(s)
    ensures NoDup(Sort(s))
    ensures forall x :: x in Sort(s) <==> x in s
  {
    PermutationOfNoDup(s, Sort(s));
    forall x ensures x in Sort(s) <==> x in s {
      assert x in Sort(s) <==> x in Elems(Sort(s));
      assert x in s <==> x in Elems(s);
    }
  }

  ghost predicate NoDup<T>(s: seq<T>) {
    forall i, j :: 0 <= i < j < |s| ==> s[i] != s[j]
  }

  ghost function Elems<T>(s: seq<T>): set<T> {
    set x | x in s
  }

  /** A duplicate-free list is as long as its set of elements. */
  lemma {:induction false} NoDupLength<T>(s: seq<T>)
    requires NoDup(s)
    ensures |Elems(s)| == |s|
  {
    if s != [] {
      var t := s[..|s| - 1];
      NoDupLength(t);
      assert s[|s| - 1] !in t;
      assert Elems(s) == Elems(t) + {s[|s| - 1]};
    }
  }

  lemma NoDupFitsInto<T>(s: seq<T>, universe: set<T>)
    requires NoDup(s) && Elems(s) <= universe
    ensures |s| <= |universe|
    ensures |s| == |universe| ==> Elems(s) == universe
  {
    NoDupLength(s);
    SubsetSize(Elems(s), universe);
  }

  lemma SubsetSize<T>(a: set<T>, b: set<T>)
    requires a <= b
    ensures |a| <= |b|
    ensures |a| == |b| ==> a == b
  {
    assert b == a + (b - a);
    assert |b| == |a| + |b - a|;
  }

  lemma PermutationOfNoDup<T>(s: seq<T>, r: seq<T>)
    requires multiset(s) == multiset(r) && NoDup(s)
    ensures NoDup(r) && Elems(r) == Elems(s)
  {
    forall x ensures x in r <==> x in s {
      assert x in r <==> x in multiset(r);
      assert x in s <==> x in multiset(s);
    }
    forall i, j | 0 <= i < j < |r| ensures r[i] != r[j] {
      AtMostOnce(s, r[i]);
      assert r == r[..j] + r[j..];
    }
  }

  lemma Regroup<T>(a: seq<T>, b: seq<T>, c: seq<T>)
    ensures a + b + c == a + (b + c)
  {
  }

  lemma NoDupAppend<T>(s: seq<T>, more: seq<T>)
    requires NoDup(s) && |more| <= 1 && forall x :: x in s ==> x !in more
    ensures NoDup(s + more)
  {
    forall i, j | 0 <= i < j < |s + more| ensures (s + more)[i] != (s + more)[j] {
      if j == |s| {
        assert s[i] in s && more[0] in more;
      }
    }
  }

  /** Duplicate-free lists with the same members are permutations of each other. */
  lemma SameMembersPermute<T>(s: seq<T>, r: seq<T>)
    requires NoDup(s) && NoDup(r) && forall x :: x in s <==> x in r
    ensures multiset(s) == multiset(r)
  {
    forall x ensures multiset(s)[x] == multiset(r)[x] {
      AtMostOnce(s, x);
      AtMostOnce(r, x);
      assert x in s <==> x in multiset(s);
      assert x in r <==> x in multiset(r);
    }
  }

  lemma {:induction false} AtMostOnce<T>(s: seq<T>, x: T)
    requires NoDup(s)
    ensures multiset(s)[x] <= 1
  {
    if s != [] {
      var t := s[..|s| - 1];
      assert s == t + [s[|s| - 1]];
      AtMostOnce(t, x);
      if s[|s| - 1] == x {
        assert x !in t;
        assert multiset(t)[x] == 0;
      }
    }
  }

  /** `sorted(...)` of a set of strings. */
  method SortedList(nodes: set<string>) returns (r: seq<string>)
    ensures Sorted(r) && NoDup(r) && forall v :: v in r <==> v in nodes
  {
    var rest, listed := nodes, [];
    while rest != {}
      invariant NoDup(listed) && (forall v :: v in nodes <==> v in listed || v in rest)
      invariant forall v :: v in listed ==> v !in rest
      decreases |rest|
    {
      var v :| v in rest;
      rest, listed := rest - {v}, listed + [v];
    }
    SortMembers(listed);
    return Sort(listed);
  }
}
