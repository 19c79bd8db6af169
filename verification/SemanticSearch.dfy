/** semantic_search of vermyth/grimoire/repositories/casts.py: a bounded heap over the
    rows agrees with filtering, sorting and taking a prefix. */
module SemanticSearch {
  import opened Wrappers
  import opened Order
  import opened Vectors
  import opened SemanticVectors
  import opened Heap

  datatype Row = Row(castId: string, vector: SemanticVector)

  datatype Query = Query(proximityTo: Option<SemanticVector>, threshold: Option<real>, limit: int)

  ghost predicate DistinctRows(rows: seq<Row>) {
    forall i, j :: 0 <= i < j < |rows| ==> rows[i].castId != rows[j].castId
  }

  function Similarity(sqrt: real -> real, target: SemanticVector, row: Row): real {
    Cosine(sqrt, target.components, row.vector.components)
  }

  /** The items of the rows that reach the threshold, in row order. */
  function Matches(sqrt: real -> real, target: SemanticVector, threshold: real, rows: seq<Row>): seq<Item> {
    if rows == [] then []
    else
      var last := rows[|rows| - 1];
      var sim := Similarity(sqrt, target, last);
      Matches(sqrt, target, threshold, rows[..|rows| - 1]) + if sim < threshold then [] else [Item(sim, last.castId)]
  }

  function Cap(limit: int, n: nat): nat {
    if limit <= 0 then 0 else if n < limit then n else limit
  }

  lemma MatchesStep(sqrt: real -> real, target: SemanticVector, threshold: real, rows: seq<Row>, k: nat)
    requires k < |rows|
    ensures rows[..k + 1] == rows[..k] + [rows[k]]
    ensures var sim := Similarity(sqrt, target, rows[k]);
      Matches(sqrt, target, threshold, rows[..k + 1])
      == Matches(sqrt, target, threshold, rows[..k]) + if sim < threshold then [] else [Item(sim, rows[k].castId)]
  {
    assert rows[..k + 1][..k] == rows[..k];
  }

  /** What the heap and the items it let go are worth, after the matches `seen`. */
  ghost predicate Kept(top: seq<Item>, dropped: multiset<Item>, seen: seq<Item>, limit: int) {
    && IsHeap(top)
    && multiset(top) + dropped == multiset(seen)
    && |top| == Cap(limit, |seen|)
    && forall d, t :: d in dropped && t in top ==> d.sim <= t.sim
  }

  lemma PushKeeps(top: seq<Item>, dropped: multiset<Item>, seen: seq<Item>, limit: int, item: Item, top': seq<Item>)
    requires Kept(top, dropped, seen, limit) && |top| < limit
    requires IsHeap(top') && multiset(top') == multiset(top) + multiset{item}
    ensures Kept(top', dropped, seen + [item], limit)
  {
    assert |multiset(top)| == |top| && |multiset(seen)| == |seen| && |multiset(top')| == |top'|;
    if |seen| != |top| {
      assert false;
    }
    assert |dropped| == 0;
  }

  lemma ReplaceKeeps(top: seq<Item>, dropped: multiset<Item>, seen: seq<Item>, limit: int, item: Item, top': seq<Item>)
    requires Kept(top, dropped, seen, limit) && |top| >= limit > 0 && item.sim > top[0].sim
    requires IsHeap(top') && |top'| == |top| && multiset(top') == multiset(top) - multiset{top[0]} + multiset{item}
    ensures Kept(top', dropped + multiset{top[0]}, seen + [item], limit)
  {
    var head := top[0];
    assert multiset(top') + (dropped + multiset{head}) == multiset(seen + [item]) by {
      assert head in multiset(top);
      assert multiset(seen + [item]) == multiset(seen) + multiset{item};
    }
    forall d, t | d in dropped + multiset{head} && t in top' ensures d.sim <= t.sim {
      assert t in multiset(top');
      assert t == item || t in multiset(top);
      if t in top {
        var i :| 0 <= i < |top| && top[i] == t;
        HeadIsLeast(top, i);
      }
      assert head in top;
    }
  }

  lemma DropKeeps(top: seq<Item>, dropped: multiset<Item>, seen: seq<Item>, limit: int, item: Item)
    requires Kept(top, dropped, seen, limit) && |top| >= limit
    requires limit <= 0 || item.sim <= top[0].sim
    ensures Kept(top, dropped + multiset{item}, seen + [item], limit)
  {
    assert multiset(seen + [item]) == multiset(seen) + multiset{item};
    forall d, t | d in dropped + multiset{item} && t in top ensures d.sim <= t.sim {
      var i :| 0 <= i < |top| && top[i] == t;
      HeadIsLeast(top, i);
    }
  }

  /** One match: pushed while there is room, swapped in if it beats the least item, else let go. */
  method Consider(top: seq<Item>, ghost dropped: multiset<Item>, ghost seen: seq<Item>, limit: int, item: Item)
    returns (top': seq<Item>, ghost dropped': multiset<Item>)
    requires Kept(top, dropped, seen, limit)
    ensures Kept(top', dropped', seen + [item], limit)
  {
    if |top| < limit {
      top' := HeapPush(top, item);
      PushKeeps(top, dropped, seen, limit, item, top');
      dropped' := dropped;
    } else if limit > 0 && item.sim > top[0].sim {
      top' := HeapReplace(top, item);
      ReplaceKeeps(top, dropped, seen, limit, item, top');
      dropped' := dropped + multiset{top[0]};
    } else {
      DropKeeps(top, dropped, seen, limit, item);
      top', dropped' := top, dropped + multiset{item};
    }
  }

  /** Row `k`: fails on a foreign basis, ignores a similarity below the threshold. */
  method ScanRow(sqrt: real -> real, target: SemanticVector, threshold: real, limit: int, rows: seq<Row>, k: nat,
                 top: seq<Item>, ghost dropped: multiset<Item>)
    returns (r: Result<seq<Item>, string>, ghost dropped': multiset<Item>)
    requires IsSqrt(sqrt) && k < |rows| && Kept(top, dropped, Matches(sqrt, target, threshold, rows[..k]), limit)
    ensures r.Failure? <==> Basis(rows[k].vector) != Basis(target)
    ensures r.Success? ==> Kept(r.value, dropped', Matches(sqrt, target, threshold, rows[..k + 1]), limit)
  {
    var row := rows[k];
    MatchesStep(sqrt, target, threshold, rows, k);
    dropped' := dropped;
    var sim := CosineSimilarity(sqrt, target, row.vector);
    if sim.Failure? {
      return Failure(sim.error), dropped';
    }
    ghost var seen := Matches(sqrt, target, threshold, rows[..k]);
    if sim.value < threshold {
      assert seen + [] == seen;
      return Success(top), dropped';
    }
    var next;
    next, dropped' := Consider(top, dropped, seen, limit, Item(sim.value, row.castId));
    r := Success(next);
  }

  /** The row loop. */
  method ScanRows(sqrt: real -> real, target: SemanticVector, threshold: real, limit: int, rows: seq<Row>)
    returns (r: Result<seq<Item>, string>, ghost dropped: multiset<Item>)
    requires IsSqrt(sqrt)
    ensures r.Failure? <==> exists row :: row in rows && Basis(row.vector) != Basis(target)
    ensures r.Success? ==> Kept(r.value, dropped, Matches(sqrt, target, threshold, rows), limit)
  {
    var top: seq<Item> := [];
    dropped := multiset{};
    for k := 0 to |rows|
      invariant Kept(top, dropped, Matches(sqrt, target, threshold, rows[..k]), limit)
      invariant forall i :: 0 <= i < k ==> Basis(rows[i].vector) == Basis(target)
    {
      var scanned;
      scanned, dropped := ScanRow(sqrt, target, threshold, limit, rows, k, top, dropped);
      if scanned.Failure? {
        return scanned, dropped;
      }
      top := scanned.value;
    }
    assert rows[..|rows|] == rows;
    return Success(top), dropped;
  }

  // ---- The final sort ----

  ghost predicate Descending(s: seq<Item>) {
    forall i, j :: 0 <= i < j < |s| ==> s[i].sim >= s[j].sim
  }

  lemma AppendLeast(s: seq<Item>, x: Item)
    requires Descending(s) && forall y :: y in s ==> y.sim >= x.sim
    ensures Descending(s + [x])
  {
    forall i | 0 <= i < |s| ensures s[i].sim >= x.sim {
      assert s[i] in s;
    }
  }

  lemma LastIsLeast(s: seq<Item>)
    requires Descending(s) && s != []
    ensures forall y :: y in s ==> y.sim >= s[|s| - 1].sim
  {
  }

  /** Places `x` behind the items that are at least as similar, as a stable sort does. */
  function InsertDescending(s: seq<Item>, x: Item): (r: seq<Item>)
    requires Descending(s)
    ensures Descending(r) && multiset(r) == multiset(s) + multiset{x}
  {
    if s == [] then [x]
    else
      var front, last := s[..|s| - 1], s[|s| - 1];
      assert s == front + [last];
      LastIsLeast(s);
      if last.sim >= x.sim then
        AppendLeast(s, x);
        s + [x]
      else
        var placed := InsertDescending(front, x);
        InsertedMembers(placed, front, x);
        AppendLeast(placed, last);
        placed + [last]
  }

  lemma InsertedMembers(r: seq<Item>, s: seq<Item>, x: Item)
    requires multiset(r) == multiset(s) + multiset{x}
    ensures forall y :: y in r ==> y in s || y == x
  {
    forall y | y in r ensures y in s || y == x {
      assert y in multiset(r);
    }
  }

  /** `top.sort(key=lambda t: -t[0])`. */
  function SortDescending(s: seq<Item>): (r: seq<Item>)
    ensures Descending(r) && multiset(r) == multiset(s)
  {
    if s == [] then []
    else
      assert s == s[..|s| - 1] + [s[|s| - 1]];
      InsertDescending(SortDescending(s[..|s| - 1]), s[|s| - 1])
  }

  function Sims(s: seq<Item>): (r: seq<real>)
    ensures |r| == |s| && forall i :: 0 <= i < |s| ==> r[i] == s[i].sim
  {
    seq(|s|, i requires 0 <= i < |s| => s[i].sim)
  }

  lemma RemoveAt<T>(s: seq<T>, j: nat)
    requires j < |s|
    ensures multiset(s[..j] + s[j + 1..]) == multiset(s) - multiset{s[j]}
  {
    assert s == s[..j] + [s[j]] + s[j + 1..];
  }

  function Without(s: seq<Item>, j: nat): seq<Item>
    requires j < |s|
  {
    s[..j] + s[j + 1..]
  }

  lemma SimsWithout(s: seq<Item>, j: nat)
    requires j < |s|
    ensures multiset(Sims(Without(s, j))) == multiset(Sims(s)) - multiset{s[j].sim}
    ensures s[j].sim in multiset(Sims(s))
  {
    RemoveAt(Sims(s), j);
    assert Sims(Without(s, j)) == Sims(s)[..j] + Sims(s)[j + 1..];
    assert Sims(s)[j] == s[j].sim;
  }

  lemma {:induction false} SimsMultiset(s: seq<Item>, t: seq<Item>)
    requires multiset(s) == multiset(t)
    ensures multiset(Sims(s)) == multiset(Sims(t))
    decreases |s|
  {
    if s == [] {
      assert |multiset(t)| == |t|;
    } else {
      assert s[0] in multiset(t);
      var j :| 0 <= j < |t| && t[j] == s[0];
      RemoveAt(s, 0);
      RemoveAt(t, j);
      SimsMultiset(Without(s, 0), Without(t, j));
      SimsWithout(s, 0);
      SimsWithout(t, j);
      AddBack(multiset(Sims(s)), multiset(Sims(t)), s[0].sim);
    }
  }

  lemma AddBack(a: multiset<real>, b: multiset<real>, x: real)
    requires x in a && x in b && a - multiset{x} == b - multiset{x}
    ensures a == b
  {
    assert a == (a - multiset{x}) + multiset{x};
    assert b == (b - multiset{x}) + multiset{x};
  }

  ghost predicate DescendingReals(s: seq<real>) {
    forall i, j :: 0 <= i < j < |s| ==> s[i] >= s[j]
  }

  lemma FirstIsGreatest(a: seq<real>, b: seq<real>)
    requires DescendingReals(a) && multiset(a) == multiset(b) && a != [] && b != []
    ensures a[0] >= b[0]
  {
    assert b[0] in multiset(a);
    var i :| 0 <= i < |a| && a[i] == b[0];
  }

  lemma TailsAgree(a: seq<real>, b: seq<real>)
    requires multiset(a) == multiset(b) && a != [] && b != [] && a[0] == b[0]
    ensures multiset(a[1..]) == multiset(b[1..])
  {
    TailMultiset(a);
    TailMultiset(b);
  }

  lemma TailMultiset(a: seq<real>)
    requires a != []
    ensures multiset(a[1..]) == multiset(a) - multiset{a[0]}
  {
    assert a == [a[0]] + a[1..];
  }

  lemma SameSize(a: seq<real>, b: seq<real>)
    requires multiset(a) == multiset(b)
    ensures |a| == |b|
  {
    assert |multiset(a)| == |a| && |multiset(b)| == |b|;
  }

  /** A non-increasing list is determined by its multiset. */
  lemma {:induction false} DescendingIsUnique(a: seq<real>, b: seq<real>)
    requires DescendingReals(a) && DescendingReals(b) && multiset(a) == multiset(b)
    ensures a == b
  {
    SameSize(a, b);
    if a != [] {
      FirstIsGreatest(a, b);
      FirstIsGreatest(b, a);
      TailsAgree(a, b);
      DescendingIsUnique(a[1..], b[1..]);
      assert a == [a[0]] + a[1..] && b == [b[0]] + b[1..];
    }
  }

  /** The similarities of the first `limit` matches, best first. */
  function FilterSortTake(sqrt: real -> real, target: SemanticVector, threshold: real, limit: int,
                          rows: seq<Row>): seq<real>
  {
    var sorted := SortDescending(Matches(sqrt, target, threshold, rows));
    Sims(sorted)[..Cap(limit, |sorted|)]
  }

  lemma ListOf(m: multiset<Item>) returns (s: seq<Item>)
    ensures multiset(s) == m
    decreases |m|
  {
    if m == multiset{} {
      s := [];
    } else {
      var x :| x in m;
      var rest := ListOf(m - multiset{x});
      s := rest + [x];
    }
  }

  lemma SimsDescend(s: seq<Item>)
    requires Descending(s)
    ensures DescendingReals(Sims(s))
  {
  }

  lemma ConcatDescends(a: seq<Item>, b: seq<Item>)
    requires Descending(a) && Descending(b)
    requires forall x, y :: x in a && y in b ==> x.sim >= y.sim
    ensures Descending(a + b)
  {
    forall i, j | 0 <= i < |a| && 0 <= j < |b| ensures a[i].sim >= b[j].sim {
      assert a[i] in a && b[j] in b;
    }
  }

  /** Two parts, every entry of the first at least every entry of the second: one after
      the other they are the sorted whole. */
  lemma SortedParts(a: seq<Item>, b: seq<Item>, whole: seq<Item>)
    requires Descending(a) && Descending(b) && Descending(whole)
    requires multiset(a) + multiset(b) == multiset(whole)
    requires forall x, y :: x in a && y in b ==> x.sim >= y.sim
    ensures Sims(a) <= Sims(whole)
  {
    ConcatDescends(a, b);
    SimsDescend(a + b);
    SimsDescend(whole);
    SimsMultiset(a + b, whole);
    DescendingIsUnique(Sims(a + b), Sims(whole));
    assert Sims(a + b) == Sims(a) + Sims(b);
  }

  lemma SortKeepsLength(s: seq<Item>)
    ensures |SortDescending(s)| == |s|
  {
    assert |multiset(SortDescending(s))| == |SortDescending(s)| && |multiset(s)| == |s|;
  }

  lemma SortedCompare(top: seq<Item>, rest: seq<Item>)
    requires forall d, t :: d in multiset(rest) && t in top ==> d.sim <= t.sim
    ensures forall x, y :: x in SortDescending(top) && y in SortDescending(rest) ==> x.sim >= y.sim
  {
    var a, b := SortDescending(top), SortDescending(rest);
    forall x, y | x in a && y in b ensures x.sim >= y.sim {
      assert x in multiset(a) && y in multiset(b);
      assert x in top && y in multiset(rest);
    }
  }

  /** The kept items, sorted, are a prefix of all matches, sorted. */
  lemma KeptIsPrefix(top: seq<Item>, dropped: multiset<Item>, seen: seq<Item>, limit: int)
    requires Kept(top, dropped, seen, limit)
    ensures |SortDescending(seen)| == |seen|
    ensures Sims(SortDescending(top)) == Sims(SortDescending(seen))[..Cap(limit, |seen|)]
  {
    var rest := ListOf(dropped);
    SortedCompare(top, rest);
    SortedParts(SortDescending(top), SortDescending(rest), SortDescending(seen));
    SortKeepsLength(top);
    SortKeepsLength(seen);
  }

  // ---- The search ----

  function RowOf(rows: seq<Row>, castId: string): (r: Option<Row>)
    ensures r.Some? ==> r.value in rows && r.value.castId == castId
    ensures r.None? ==> forall row :: row in rows ==> row.castId != castId
  {
    if rows == [] then None
    else
      assert rows == rows[..|rows| - 1] + [rows[|rows| - 1]];
      if rows[|rows| - 1].castId == castId then Some(rows[|rows| - 1])
      else RowOf(rows[..|rows| - 1], castId)
  }

  function RowSims(sqrt: real -> real, target: SemanticVector, rows: seq<Row>): (r: seq<real>)
    ensures |r| == |rows| && forall i :: 0 <= i < |rows| ==> r[i] == Similarity(sqrt, target, rows[i])
  {
    seq(|rows|, i requires 0 <= i < |rows| => Similarity(sqrt, target, rows[i]))
  }

  lemma {:induction false} MatchMembers(sqrt: real -> real, target: SemanticVector, threshold: real, rows: seq<Row>,
                                        x: Item)
    ensures x in Matches(sqrt, target, threshold, rows)
       <==> exists row :: row in rows && row.castId == x.id
                          && x.sim == Similarity(sqrt, target, row) && x.sim >= threshold
  {
    if rows != [] {
      MatchMembers(sqrt, target, threshold, rows[..|rows| - 1], x);
      assert rows == rows[..|rows| - 1] + [rows[|rows| - 1]];
    }
  }

  lemma {:induction false} MatchesAreDistinct(sqrt: real -> real, target: SemanticVector, threshold: real,
                                              rows: seq<Row>)
    requires DistinctRows(rows)
    ensures NoDup(Matches(sqrt, target, threshold, rows))
  {
    if rows != [] {
      var front := rows[..|rows| - 1];
      MatchesAreDistinct(sqrt, target, threshold, front);
      forall x | x in Matches(sqrt, target, threshold, front) ensures x.id != rows[|rows| - 1].castId {
        MatchMembers(sqrt, target, threshold, front, x);
      }
    }
  }

  lemma RowOfIsTheRow(rows: seq<Row>, row: Row)
    requires DistinctRows(rows) && row in rows
    ensures RowOf(rows, row.castId) == Some(row)
  {
    var found := RowOf(rows, row.castId).value;
    var i :| 0 <= i < |rows| && rows[i] == row;
    var j :| 0 <= j < |rows| && rows[j] == found;
    assert i == j;
  }

  ghost predicate AllFound(rows: seq<Row>, items: seq<Item>) {
    forall i :: 0 <= i < |items| ==> RowOf(rows, items[i].id).Some?
  }

  /** `[by_id[cid] for _, cid in top]`. */
  function RowsOf(rows: seq<Row>, items: seq<Item>): (r: seq<Row>)
    requires AllFound(rows, items)
    ensures |r| == |items| && forall i :: 0 <= i < |items| ==> r[i] == RowOf(rows, items[i].id).value
  {
    seq(|items|, i requires 0 <= i < |items| => RowOf(rows, items[i].id).value)
  }

  /** The row behind a match. */
  lemma MatchRow(sqrt: real -> real, target: SemanticVector, threshold: real, rows: seq<Row>, x: Item)
    requires DistinctRows(rows) && x in Matches(sqrt, target, threshold, rows)
    ensures RowOf(rows, x.id).Some?
    ensures var row := RowOf(rows, x.id).value;
      row in rows && row.castId == x.id && Similarity(sqrt, target, row) == x.sim && x.sim >= threshold
  {
    MatchMembers(sqrt, target, threshold, rows, x);
    var row :| row in rows && row.castId == x.id && x.sim == Similarity(sqrt, target, row) && x.sim >= threshold;
    RowOfIsTheRow(rows, row);
  }

  /** What a search returns: matching rows, each once, as many as the limit allows, with the
      similarities of filter-sort-take, and no omitted match better than a returned row. */
  ghost predicate IsTop(sqrt: real -> real, target: SemanticVector, threshold: real, limit: int, rows: seq<Row>,
                        found: seq<Row>)
  {
    && NoDup(found)
    && (forall row :: row in found ==> row in rows && Similarity(sqrt, target, row) >= threshold)
    && |found| == Cap(limit, |Matches(sqrt, target, threshold, rows)|)
    && RowSims(sqrt, target, found) == FilterSortTake(sqrt, target, threshold, limit, rows)
    && NoBetterOmitted(sqrt, target, threshold, rows, found)
  }

  ghost predicate NoBetterOmitted(sqrt: real -> real, target: SemanticVector, threshold: real, rows: seq<Row>,
                                  found: seq<Row>)
  {
    forall row, x :: row in rows && row !in found && Similarity(sqrt, target, row) >= threshold && x in found ==>
      Similarity(sqrt, target, row) <= Similarity(sqrt, target, x)
  }

  lemma SubsetNoDup(part: seq<Item>, rest: multiset<Item>, whole: seq<Item>)
    requires NoDup(whole) && multiset(part) + rest == multiset(whole)
    ensures NoDup(part)
  {
    forall i, j | 0 <= i < j < |part| ensures part[i] != part[j] {
      AtMostOnce(whole, part[i]);
      assert part == part[..j] + part[j..];
    }
  }

  /** The rows behind the sorted heap. */
  lemma HeapRows(sqrt: real -> real, target: SemanticVector, threshold: real, rows: seq<Row>,
                 sorted: seq<Item>, dropped: multiset<Item>)
    requires DistinctRows(rows)
    requires multiset(sorted) + dropped == multiset(Matches(sqrt, target, threshold, rows))
    ensures AllFound(rows, sorted)
    ensures var found := RowsOf(rows, sorted);
      && NoDup(found)
      && RowSims(sqrt, target, found) == Sims(sorted)
      && forall row :: row in found ==> row in rows && Similarity(sqrt, target, row) >= threshold
  {
    var matches := Matches(sqrt, target, threshold, rows);
    forall x | x in sorted ensures x in matches && RowOf(rows, x.id).Some? {
      assert x in multiset(sorted) && x in multiset(matches);
      MatchRow(sqrt, target, threshold, rows, x);
    }
    var found := RowsOf(rows, sorted);
    forall i | 0 <= i < |found|
      ensures found[i] in rows && found[i].castId == sorted[i].id
      ensures Similarity(sqrt, target, found[i]) == sorted[i].sim && sorted[i].sim >= threshold
    {
      assert sorted[i] in sorted;
      MatchRow(sqrt, target, threshold, rows, sorted[i]);
    }
    MatchesAreDistinct(sqrt, target, threshold, rows);
    SubsetNoDup(sorted, dropped, matches);
    forall i, j | 0 <= i < j < |found| ensures found[i] != found[j] {
      assert sorted[i] != sorted[j];
    }
  }

  /** The sorted heap, turned back into rows, is what a search returns. */
  lemma SortedHeapIsTop(sqrt: real -> real, target: SemanticVector, threshold: real, limit: int, rows: seq<Row>,
                        top: seq<Item>, dropped: multiset<Item>)
    requires DistinctRows(rows) && Kept(top, dropped, Matches(sqrt, target, threshold, rows), limit)
    ensures AllFound(rows, SortDescending(top))
    ensures IsTop(sqrt, target, threshold, limit, rows, RowsOf(rows, SortDescending(top)))
  {
    HeapRows(sqrt, target, threshold, rows, SortDescending(top), dropped);
    HeapSims(sqrt, target, threshold, limit, rows, top, dropped);
    HeapOmitsWorse(sqrt, target, threshold, limit, rows, top, dropped);
  }

  lemma HeapSims(sqrt: real -> real, target: SemanticVector, threshold: real, limit: int, rows: seq<Row>,
                 top: seq<Item>, dropped: multiset<Item>)
    requires Kept(top, dropped, Matches(sqrt, target, threshold, rows), limit)
    ensures Sims(SortDescending(top)) == FilterSortTake(sqrt, target, threshold, limit, rows)
    ensures |SortDescending(top)| == Cap(limit, |Matches(sqrt, target, threshold, rows)|)
  {
    SortKeepsLength(top);
    KeptIsPrefix(top, dropped, Matches(sqrt, target, threshold, rows), limit);
  }

  lemma HeapOmitsWorse(sqrt: real -> real, target: SemanticVector, threshold: real, limit: int, rows: seq<Row>,
                       top: seq<Item>, dropped: multiset<Item>)
    requires DistinctRows(rows) && Kept(top, dropped, Matches(sqrt, target, threshold, rows), limit)
    requires AllFound(rows, SortDescending(top))
    requires RowSims(sqrt, target, RowsOf(rows, SortDescending(top))) == Sims(SortDescending(top))
    ensures NoBetterOmitted(sqrt, target, threshold, rows, RowsOf(rows, SortDescending(top)))
  {
    var found := RowsOf(rows, SortDescending(top));
    forall row, x | row in rows && row !in found && Similarity(sqrt, target, row) >= threshold && x in found
      ensures Similarity(sqrt, target, row) <= Similarity(sqrt, target, x)
    {
      OmittedIsWorse(sqrt, target, threshold, limit, rows, top, dropped, row, found, x);
    }
  }

  lemma OmittedIsWorse(sqrt: real -> real, target: SemanticVector, threshold: real, limit: int, rows: seq<Row>,
                       top: seq<Item>, dropped: multiset<Item>, row: Row, found: seq<Row>, x: Row)
    requires DistinctRows(rows) && Kept(top, dropped, Matches(sqrt, target, threshold, rows), limit)
    requires row in rows && row !in found && Similarity(sqrt, target, row) >= threshold && x in found
    requires AllFound(rows, SortDescending(top))
    requires found == RowsOf(rows, SortDescending(top))
    requires RowSims(sqrt, target, found) == Sims(SortDescending(top))
    ensures Similarity(sqrt, target, row) <= Similarity(sqrt, target, x)
  {
    var sorted := SortDescending(top);
    OmittedIsDropped(sqrt, target, threshold, limit, rows, top, dropped, row, found);
    var i :| 0 <= i < |found| && found[i] == x;
    assert RowSims(sqrt, target, found)[i] == sorted[i].sim;
    assert sorted[i] in multiset(sorted);
    assert sorted[i] in top;
  }

  lemma OmittedIsDropped(sqrt: real -> real, target: SemanticVector, threshold: real, limit: int, rows: seq<Row>,
                         top: seq<Item>, dropped: multiset<Item>, row: Row, found: seq<Row>)
    requires DistinctRows(rows) && Kept(top, dropped, Matches(sqrt, target, threshold, rows), limit)
    requires row in rows && row !in found && Similarity(sqrt, target, row) >= threshold
    requires AllFound(rows, SortDescending(top))
    requires found == RowsOf(rows, SortDescending(top))
    ensures Item(Similarity(sqrt, target, row), row.castId) in dropped
  {
    var x, sorted := Item(Similarity(sqrt, target, row), row.castId), SortDescending(top);
    MatchMembers(sqrt, target, threshold, rows, x);
    assert x in multiset(Matches(sqrt, target, threshold, rows));
    RowOfIsTheRow(rows, row);
    forall i | 0 <= i < |sorted| ensures sorted[i] != x {
      assert found[i] in found;
    }
    assert x !in multiset(sorted);
  }

  /** semantic_search: fails without a target or a threshold, or when a row's basis differs
      from the target's; otherwise the top matches, whatever the row order and the ties. */
  method Search(sqrt: real -> real, q: Query, rows: seq<Row>) returns (r: Result<seq<Row>, string>)
    requires IsSqrt(sqrt) && DistinctRows(rows)
    ensures r.Failure? <==>
      || q.proximityTo.None? || q.threshold.None?
      || exists row :: row in rows && Basis(row.vector) != Basis(q.proximityTo.value)
    ensures r.Success? ==> IsTop(sqrt, q.proximityTo.value, q.threshold.value, q.limit, rows, r.value)
  {
    if q.proximityTo.None? || q.threshold.None? {
      return Failure("proximity_to and proximity_threshold are required");
    }
    var target, threshold := q.proximityTo.value, q.threshold.value;
    var top, dropped := ScanRows(sqrt, target, threshold, q.limit, rows);
    if top.Failure? {
      return Failure(top.error);
    }
    SortedHeapIsTop(sqrt, target, threshold, q.limit, rows, top.value, dropped);
    return Success(RowsOf(rows, SortDescending(top.value)));
  }

  // ---- What the result means ----

  function ItemsOf(sqrt: real -> real, target: SemanticVector, found: seq<Row>): (r: seq<Item>)
    ensures |r| == |found|
    ensures forall i :: 0 <= i < |found| ==> r[i] == Item(Similarity(sqrt, target, found[i]), found[i].castId)
  {
    seq(|found|, i requires 0 <= i < |found| => Item(Similarity(sqrt, target, found[i]), found[i].castId))
  }

  lemma SameIdSameRow(rows: seq<Row>, x: Row, y: Row)
    requires DistinctRows(rows) && x in rows && y in rows && x.castId == y.castId
    ensures x == y
  {
    var i :| 0 <= i < |rows| && rows[i] == x;
    var j :| 0 <= j < |rows| && rows[j] == y;
    assert i == j;
  }

  lemma ItemsAreDistinct(sqrt: real -> real, target: SemanticVector, rows: seq<Row>, found: seq<Row>)
    requires DistinctRows(rows) && NoDup(found) && forall row :: row in found ==> row in rows
    ensures NoDup(ItemsOf(sqrt, target, found))
  {
    var items := ItemsOf(sqrt, target, found);
    forall i, j | 0 <= i < j < |items| ensures items[i] != items[j] {
      assert found[i] in found && found[j] in found;
      if found[i].castId == found[j].castId {
        SameIdSameRow(rows, found[i], found[j]);
      }
    }
  }

  /** Where as many rows are found as match, every match is found. */
  lemma AllMatchesFound(sqrt: real -> real, target: SemanticVector, threshold: real, rows: seq<Row>,
                        found: seq<Row>, row: Row)
    requires DistinctRows(rows) && NoDup(found)
    requires forall x :: x in found ==> x in rows && Similarity(sqrt, target, x) >= threshold
    requires |found| == |Matches(sqrt, target, threshold, rows)|
    requires row in rows && Similarity(sqrt, target, row) >= threshold
    ensures row in found
  {
    var items, matches := ItemsOf(sqrt, target, found), Matches(sqrt, target, threshold, rows);
    ItemsAreDistinct(sqrt, target, rows, found);
    MatchesAreDistinct(sqrt, target, threshold, rows);
    NoDupLength(matches);
    forall x | x in items ensures x in matches {
      var i :| 0 <= i < |items| && items[i] == x;
      assert found[i] in found;
      MatchMembers(sqrt, target, threshold, rows, x);
    }
    NoDupFitsInto(items, Elems(matches));
    var x := Item(Similarity(sqrt, target, row), row.castId);
    MatchMembers(sqrt, target, threshold, rows, x);
    assert x in Elems(matches);
    assert x in items;
    var i :| 0 <= i < |items| && items[i] == x;
    assert found[i] in found;
    SameIdSameRow(rows, found[i], row);
  }

  lemma FoundDescend(sqrt: real -> real, target: SemanticVector, threshold: real, limit: int, rows: seq<Row>,
                     found: seq<Row>, i: nat, j: nat)
    requires IsTop(sqrt, target, threshold, limit, rows, found) && i < j < |found|
    ensures Similarity(sqrt, target, found[i]) >= Similarity(sqrt, target, found[j])
  {
    var sorted := SortDescending(Matches(sqrt, target, threshold, rows));
    SimsDescend(sorted);
    assert RowSims(sqrt, target, found)[i] == Sims(sorted)[i] && RowSims(sqrt, target, found)[j] == Sims(sorted)[j];
  }

  /** Told by cosines: a limit below one finds nothing; what is found matches, best first; and
      a match is left out only from a full result none of whose rows is less similar. */
  lemma TopMeans(sqrt: real -> real, target: SemanticVector, threshold: real, limit: int, rows: seq<Row>,
                 found: seq<Row>)
    requires DistinctRows(rows) && IsTop(sqrt, target, threshold, limit, rows, found)
    ensures limit <= 0 ==> found == []
    ensures limit > 0 ==> |found| <= limit
    ensures forall i, j :: 0 <= i < j < |found| ==>
      Cosine(sqrt, target.components, found[i].vector.components)
      >= Cosine(sqrt, target.components, found[j].vector.components)
    ensures forall row :: row in rows && Cosine(sqrt, target.components, row.vector.components) >= threshold ==>
      || row in found
      || (|found| == (if limit > 0 then limit else 0)
          && forall x :: x in found ==>
               Cosine(sqrt, target.components, row.vector.components)
               <= Cosine(sqrt, target.components, x.vector.components))
  {
    forall i, j | 0 <= i < j < |found|
      ensures Similarity(sqrt, target, found[i]) >= Similarity(sqrt, target, found[j])
    {
      FoundDescend(sqrt, target, threshold, limit, rows, found, i, j);
    }
    forall row | row in rows && Similarity(sqrt, target, row) >= threshold && row !in found
      ensures |found| == (if limit > 0 then limit else 0)
      ensures forall x :: x in found ==> Similarity(sqrt, target, row) <= Similarity(sqrt, target, x)
    {
      if |found| == |Matches(sqrt, target, threshold, rows)| {
        AllMatchesFound(sqrt, target, threshold, rows, found, row);
      }
    }
  }

  /** A search for a stored vector: its row is as similar as can be, so if the threshold lets it
      match, something is found, and the first row found is as similar. */
  lemma OwnVectorFirst(sqrt: real -> real, target: SemanticVector, threshold: real, limit: int, rows: seq<Row>,
                       found: seq<Row>, own: Row)
    requires IsSqrt(sqrt) && DistinctRows(rows) && IsTop(sqrt, target, threshold, limit, rows, found)
    requires own in rows && own.vector.components == target.components && Norm(sqrt, target.components) != 0.0
    ensures Cosine(sqrt, target.components, own.vector.components) == 1.0
    ensures forall row :: row in rows ==> Cosine(sqrt, target.components, row.vector.components) <= 1.0
    ensures limit > 0 && threshold <= 1.0 ==>
      found != [] && Cosine(sqrt, target.components, found[0].vector.components) == 1.0
  {
    CosineOfSelf(sqrt, target.components);
    forall row: Row ensures Cosine(sqrt, target.components, row.vector.components) <= 1.0 {
      CosineInRange(sqrt, target.components, row.vector.components);
    }
    if limit > 0 && threshold <= 1.0 {
      TopMeans(sqrt, target, threshold, limit, rows, found);
      if own !in found {
        assert found[0] in found;
      } else {
        var i :| 0 <= i < |found| && found[i] == own;
        assert i > 0 ==> Cosine(sqrt, target.components, found[0].vector.components) >= 1.0;
      }
    }
  }
}
