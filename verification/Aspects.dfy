/** The aspect registry (vermyth/schema/_legacy.py, vermyth/registry.py) and the
    memoised canonical key (vermyth/engine/keys.py). */
module Aspects {
  import opened Wrappers
  import opened Order

  /** A canonical aspect, or a registered one, which is equal to any other of its name. */
  datatype Aspect = Canonical(name: string) | Registered(name: string)

  const CANONICAL_ORDER: seq<Aspect> := [
    Canonical("VOID"), Canonical("FORM"), Canonical("MOTION"), Canonical("MIND"), Canonical("DECAY"),
    Canonical("LIGHT")]

  predicate NameChar(c: char) {
    'A' <= c <= 'Z' || '0' <= c <= '9' || c == '_'
  }

  /** The name pattern of registered aspects, 1 to 30 characters. */
  predicate ValidName(name: string) {
    1 <= |name| <= 30 && 'A' <= name[0] <= 'Z' && forall c <- name :: NameChar(c)
  }

  /** A full order as the registry builds it: names are plain and distinct. */
  ghost predicate ValidOrder(order: seq<Aspect>) {
    && |order| < UNREGISTERED
    && (forall i :: 0 <= i < |order| ==> ValidName(order[i].name))
    && forall i, j :: 0 <= i < j < |order| ==> order[i].name != order[j].name
  }

  lemma CanonicalOrderIsValid()
    ensures ValidOrder(CANONICAL_ORDER)
  {
    var names := ["VOID", "FORM", "MOTION", "MIND", "DECAY", "LIGHT"];
    assert forall i :: 0 <= i < 6 ==> CANONICAL_ORDER[i].name == names[i];
    assert forall i :: 0 <= i < 6 ==> ValidName(names[i]);
    assert names[0][0] == 'V' && names[1][0] == 'F' && names[2][1] == 'O' && names[3][1] == 'I';
    assert names[2][0] == 'M' && names[3][0] == 'M' && names[4][0] == 'D' && names[5][0] == 'L';
  }

  lemma OrderIsNoDup(order: seq<Aspect>)
    requires ValidOrder(order)
    ensures NoDup(order)
  {
  }

  /** In an order, an aspect is determined by its name. */
  lemma NamesAreUnique(order: seq<Aspect>, a: Aspect, b: Aspect)
    requires ValidOrder(order) && a in order && b in order && a.name == b.name
    ensures a == b
  {
    var i :| 0 <= i < |order| && order[i] == a;
    var j :| 0 <= j < |order| && order[j] == b;
    assert i == j;
  }

  // ---- Ranks and listings ----

  const UNREGISTERED: nat := 1_000_000_000

  function IndexOf(order: seq<Aspect>, a: Aspect): (i: nat)
    requires a in order
    ensures i < |order| && order[i] == a
  {
    if order[0] == a then 0 else IndexOf(order[1..], a) + 1
  }

  /** `order_index.get(a, 10**9)`. */
  function Rank(order: seq<Aspect>, a: Aspect): nat {
    if a in order then IndexOf(order, a) else UNREGISTERED
  }

  ghost predicate RanksAscend(order: seq<Aspect>, l: seq<Aspect>) {
    forall i, j :: 0 <= i < j < |l| ==> Rank(order, l[i]) <= Rank(order, l[j])
  }

  /** A list `sorted(aspects, key=rank)` may return: unregistered aspects tie. */
  ghost predicate IsListing(order: seq<Aspect>, s: set<Aspect>, l: seq<Aspect>) {
    NoDup(l) && Elems(l) == s && RanksAscend(order, l)
  }

  lemma RankOfOrdered(order: seq<Aspect>, more: seq<Aspect>, a: Aspect)
    requires NoDup(order + more) && a in order
    ensures Rank(order + more, a) == Rank(order, a) < |order|
  {
    assert (order + more)[IndexOf(order, a)] == a;
    assert a in order + more;
  }

  lemma RankOfLater(order: seq<Aspect>, more: seq<Aspect>, a: Aspect)
    requires NoDup(order + more) && a !in order && |order + more| <= UNREGISTERED
    ensures Rank(order + more, a) >= |order|
  {
    if a in order + more {
      assert (order + more)[IndexOf(order + more, a)] == a;
    }
  }

  lemma RankIsInjective(order: seq<Aspect>, a: Aspect, b: Aspect)
    requires a in order && Rank(order, a) == Rank(order, b) && |order| < UNREGISTERED
    ensures a == b
  {
  }

  /** At most one aspect of the set is unregistered. */
  ghost predicate NearlyRegistered(order: seq<Aspect>, s: set<Aspect>) {
    forall a, b :: a in s && b in s && a !in order && b !in order ==> a == b
  }

  lemma RanksAreStrict(order: seq<Aspect>, s: set<Aspect>, l: seq<Aspect>, i: nat, j: nat)
    requires IsListing(order, s, l) && NearlyRegistered(order, s) && |order| < UNREGISTERED
    requires i < j < |l|
    ensures Rank(order, l[i]) < Rank(order, l[j]) && l[i] in order
  {
    assert l[i] in Elems(l) && l[j] in Elems(l);
    assert Rank(order, l[i]) <= Rank(order, l[j]);
    if l[i] in order && Rank(order, l[i]) == Rank(order, l[j]) {
      RankIsInjective(order, l[i], l[j]);
    }
  }

  /** A listing of a nearly registered set stays a listing whatever is registered later. */
  lemma ListingSurvives(order: seq<Aspect>, more: seq<Aspect>, s: set<Aspect>, l: seq<Aspect>)
    requires IsListing(order, s, l) && NearlyRegistered(order, s)
    requires NoDup(order + more) && |order + more| < UNREGISTERED
    ensures IsListing(order + more, s, l) && NearlyRegistered(order + more, s)
  {
    forall i, j | 0 <= i < j < |l| ensures Rank(order + more, l[i]) <= Rank(order + more, l[j]) {
      RanksAreStrict(order, s, l, i, j);
      RankOfOrdered(order, more, l[i]);
      if l[j] in order {
        RankOfOrdered(order, more, l[j]);
      } else {
        RankOfLater(order, more, l[j]);
      }
    }
  }

  /** An aspect that may be registered on top of an order: validated, its name not taken. */
  ghost predicate Registrable(order: seq<Aspect>, a: Aspect) {
    a.Registered? && ValidName(a.name) && forall b :: b in order ==> b.name != a.name
  }

  /** What later registrations can append to an order. */
  ghost predicate Extends(order: seq<Aspect>, more: seq<Aspect>) {
    ValidOrder(order + more) && forall a :: a in more ==> a.Registered?
  }

  lemma RegistrableExtends(order: seq<Aspect>, a: Aspect)
    requires ValidOrder(order) && Registrable(order, a) && |order| + 1 < UNREGISTERED
    ensures Extends(order, [a]) && a !in order
  {
    forall i | 0 <= i < |order| ensures order[i].name != a.name {
      assert order[i] in order;
    }
  }

  /** A listing is stable under every later registration exactly when at most one of its
      aspects was unregistered: of two, the later listed may be registered first. */
  lemma StableExactly(order: seq<Aspect>, s: set<Aspect>, l: seq<Aspect>)
    requires IsListing(order, s, l) && ValidOrder(order) && |order| + 1 < UNREGISTERED
    requires forall a :: a in s ==> a in order || Registrable(order, a)
    ensures (forall more :: Extends(order, more) ==> IsListing(order + more, s, l)) <==> NearlyRegistered(order, s)
  {
    if NearlyRegistered(order, s) {
      forall more | Extends(order, more) ensures IsListing(order + more, s, l) {
        OrderIsNoDup(order + more);
        ListingSurvives(order, more, s, l);
      }
    } else {
      var a, b :| a in s && b in s && a !in order && b !in order && a != b;
      LaterListedOvertakes(order, s, l, a, b);
    }
  }

  lemma LaterListedOvertakes(order: seq<Aspect>, s: set<Aspect>, l: seq<Aspect>, a: Aspect, b: Aspect)
    requires IsListing(order, s, l) && ValidOrder(order) && |order| + 1 < UNREGISTERED
    requires a in s && b in s && a != b && Registrable(order, a) && Registrable(order, b)
    ensures exists more :: Extends(order, more) && !IsListing(order + more, s, l)
  {
    assert a in Elems(l) && b in Elems(l);
    var i :| 0 <= i < |l| && l[i] == a;
    var j :| 0 <= j < |l| && l[j] == b;
    var first, last := if i < j then a else b, if i < j then b else a;
    RegistrableExtends(order, last);
    RegistrableExtends(order, first);
    RankOfListed(order, last);
    assert first !in order + [last];
    assert Rank(order + [last], first) > Rank(order + [last], last);
    assert !RanksAscend(order + [last], l);
  }

  lemma RankOfListed(order: seq<Aspect>, a: Aspect)
    requires a !in order
    ensures a in order + [a] && Rank(order + [a], a) == |order|
  {
    assert (order + [a])[|order|] == a;
    var i := IndexOf(order + [a], a);
    assert (order + [a])[i] == a;
  }

  // ---- Keys ----

  function Join(names: seq<string>): string {
    if names == [] then ""
    else if |names| == 1 then names[0]
    else names[0] + "+" + Join(names[1..])
  }

  function Names(l: seq<Aspect>): (r: seq<string>)
    ensures |r| == |l| && forall i :: 0 <= i < |l| ==> r[i] == l[i].name
  {
    seq(|l|, i requires 0 <= i < |l| => l[i].name)
  }

  function KeyOf(l: seq<Aspect>): string {
    Join(Names(l))
  }

  ghost predicate PlainNames(names: seq<string>) {
    forall i :: 0 <= i < |names| ==> names[i] != "" && '+' !in names[i]
  }

  lemma FirstFieldLength(a: seq<string>, b: seq<string>)
    requires PlainNames(a) && PlainNames(b) && a != [] && b != [] && Join(a) == Join(b)
    ensures |a[0]| >= |b[0]|
  {
    if |a[0]| < |b[0]| {
      FieldChar(b, |a[0]|);
    }
  }

  lemma FieldChar(b: seq<string>, n: nat)
    requires PlainNames(b) && b != [] && n < |b[0]|
    ensures n < |Join(b)| && Join(b)[n] != '+'
  {
    assert Join(b)[n] == b[0][n];
  }

  /** '+' occurs in no name, so joining loses nothing. */
  lemma {:induction false} JoinIsInjective(a: seq<string>, b: seq<string>)
    requires PlainNames(a) && PlainNames(b) && Join(a) == Join(b)
    ensures a == b
  {
    if a != [] && b != [] {
      FirstFieldLength(a, b);
      FirstFieldLength(b, a);
      var n := |a[0]|;
      assert a[0] == Join(a)[..n] && b[0] == Join(b)[..n];
      if |a| > 1 && |b| > 1 {
        assert Join(a)[n + 1..] == Join(a[1..]) && Join(b)[n + 1..] == Join(b[1..]);
        JoinIsInjective(a[1..], b[1..]);
        assert a == [a[0]] + a[1..] && b == [b[0]] + b[1..];
      }
    }
  }

  /** The aspects of `s` in the order's order. */
  function Filter(order: seq<Aspect>, s: set<Aspect>): (l: seq<Aspect>)
    ensures forall a :: a in l <==> a in order && a in s
  {
    if order == [] then []
    else
      assert order == [order[0]] + order[1..];
      (if order[0] in s then [order[0]] else []) + Filter(order[1..], s)
  }

  /** The key of a set of registered aspects. */
  function Key(order: seq<Aspect>, s: set<Aspect>): string {
    KeyOf(Filter(order, s))
  }

  ghost predicate InRegistry(order: seq<Aspect>, s: set<Aspect>) {
    forall a :: a in s ==> a in order
  }

  lemma {:induction false} FilterIsListing(order: seq<Aspect>, s: set<Aspect>)
    requires NoDup(order) && InRegistry(order, s)
    ensures IsListing(order, s, Filter(order, s))
  {
    FilterAscends(order, s);
  }

  lemma RankInTail(order: seq<Aspect>, a: Aspect)
    requires NoDup(order) && order != [] && a in order[1..]
    ensures a != order[0] && Rank(order, a) == Rank(order[1..], a) + 1
  {
    var i :| 0 <= i < |order[1..]| && order[1..][i] == a;
    assert order[i + 1] == a;
  }

  lemma PrependAscends(order: seq<Aspect>, rest: seq<Aspect>)
    requires NoDup(order) && order != []
    requires NoDup(rest) && RanksAscend(order[1..], rest) && forall a :: a in rest ==> a in order[1..]
    ensures NoDup(rest) && RanksAscend(order, rest)
    ensures NoDup([order[0]] + rest) && RanksAscend(order, [order[0]] + rest)
  {
    forall i | 0 <= i < |rest| ensures rest[i] != order[0] && Rank(order, rest[i]) == Rank(order[1..], rest[i]) + 1 {
      assert rest[i] in rest;
      RankInTail(order, rest[i]);
    }
    assert Rank(order, order[0]) == 0;
  }

  lemma {:induction false} FilterAscends(order: seq<Aspect>, s: set<Aspect>)
    requires NoDup(order)
    ensures NoDup(Filter(order, s)) && RanksAscend(order, Filter(order, s))
  {
    if order != [] {
      var rest := Filter(order[1..], s);
      FilterAscends(order[1..], s);
      PrependAscends(order, rest);
      assert Filter(order, s) == if order[0] in s then [order[0]] + rest else rest;
    }
  }

  /** A nearly registered set has only one listing. */
  lemma ListingIsUnique(order: seq<Aspect>, s: set<Aspect>, l: seq<Aspect>, m: seq<Aspect>)
    requires IsListing(order, s, l) && IsListing(order, s, m) && NearlyRegistered(order, s) && |order| < UNREGISTERED
    ensures l == m
  {
    NoDupLength(l);
    NoDupLength(m);
    forall i | 0 <= i < |l| ensures l[i] == m[i] {
      SamePlace(order, s, l, m, i);
    }
  }

  /** What is left of `m` holds what comes next in `l`. */
  lemma NoLowerRank(order: seq<Aspect>, s: set<Aspect>, l: seq<Aspect>, m: seq<Aspect>, i: nat)
    requires IsListing(order, s, l) && IsListing(order, s, m) && |l| == |m| && i < |l|
    requires forall k :: 0 <= k < i ==> l[k] == m[k]
    ensures Rank(order, m[i]) <= Rank(order, l[i])
  {
    assert l[i] in Elems(l);
    var j :| 0 <= j < |m| && m[j] == l[i];
    assert j >= i;
  }

  /** Both lists start alike, so the least of what is left comes next in both. */
  lemma {:induction false} SamePlace(order: seq<Aspect>, s: set<Aspect>, l: seq<Aspect>, m: seq<Aspect>, i: nat)
    requires IsListing(order, s, l) && IsListing(order, s, m) && NearlyRegistered(order, s) && |order| < UNREGISTERED
    requires |l| == |m| && i < |l|
    ensures l[i] == m[i]
    decreases i
  {
    forall k | 0 <= k < i ensures l[k] == m[k] {
      SamePlace(order, s, l, m, k);
    }
    NoLowerRank(order, s, l, m, i);
    NoLowerRank(order, s, m, l, i);
    assert l[i] in Elems(l) && m[i] in Elems(m);
    if l[i] in order {
      RankIsInjective(order, l[i], m[i]);
    }
  }

  lemma PlainListing(order: seq<Aspect>, s: set<Aspect>)
    requires ValidOrder(order)
    ensures PlainNames(Names(Filter(order, s)))
  {
    var l := Filter(order, s);
    assert !NameChar('+');
    forall i | 0 <= i < |l| ensures l[i].name != "" && '+' !in l[i].name {
      assert l[i] in l;
      assert ValidName(l[i].name);
    }
  }

  /** The key is injective on sets of registered aspects. */
  lemma KeyIsInjective(order: seq<Aspect>, s: set<Aspect>, t: set<Aspect>)
    requires ValidOrder(order) && InRegistry(order, s) && InRegistry(order, t)
    requires Key(order, s) == Key(order, t)
    ensures s == t
  {
    PlainListing(order, s);
    PlainListing(order, t);
    JoinIsInjective(Names(Filter(order, s)), Names(Filter(order, t)));
    forall a | a in s ensures a in t { SameNamesSameSet(order, s, t, a); }
    forall a | a in t ensures a in s { SameNamesSameSet(order, t, s, a); }
  }

  lemma SameNamesSameSet(order: seq<Aspect>, s: set<Aspect>, t: set<Aspect>, a: Aspect)
    requires ValidOrder(order) && InRegistry(order, s)
    requires Names(Filter(order, s)) == Names(Filter(order, t)) && a in s
    ensures a in t
  {
    var l, m := Filter(order, s), Filter(order, t);
    assert a in l;
    var i :| 0 <= i < |l| && l[i] == a;
    assert Names(l)[i] == Names(m)[i] && m[i] in m;
    NamesAreUnique(order, a, m[i]);
  }

  /** `r` is the key of some listing of `s`. */
  ghost predicate IsKey(order: seq<Aspect>, s: set<Aspect>, r: string) {
    exists l :: IsListing(order, s, l) && r == KeyOf(l)
  }

  lemma KeyOfRegistered(order: seq<Aspect>, s: set<Aspect>, r: string)
    requires ValidOrder(order) && InRegistry(order, s)
    ensures IsKey(order, s, r) <==> r == Key(order, s)
  {
    OrderIsNoDup(order);
    FilterIsListing(order, s);
    if IsKey(order, s, r) {
      var l :| IsListing(order, s, l) && r == KeyOf(l);
      ListingIsUnique(order, s, l, Filter(order, s));
    }
  }

  // ---- The registry and the memo table ----

  function AsRegistered(names: seq<string>): (r: seq<Aspect>)
    ensures |r| == |names| && forall i :: 0 <= i < |names| ==> r[i] == Registered(names[i])
  {
    seq(|names|, i requires 0 <= i < |names| => Registered(names[i]))
  }

  /** The dict from names to the aspects of the order. */
  ghost predicate NameTable(order: seq<Aspect>, byName: map<string, Aspect>) {
    && (forall a :: a in order ==> a.name in byName)
    && (forall n :: n in byName ==> byName[n] in order && byName[n].name == n)
  }

  ghost predicate HoldsFor(order: seq<Aspect>, cache: map<set<Aspect>, string>, s: set<Aspect>) {
    s in cache && NearlyRegistered(order, s) && IsKey(order, s, cache[s])
  }

  /** Every cached key but the loose ones is a key under the present order. */
  ghost predicate CacheHolds(order: seq<Aspect>, cache: map<set<Aspect>, string>, loose: set<set<Aspect>>) {
    forall s {:trigger HoldsFor(order, cache, s)} :: s in cache && s !in loose ==> HoldsFor(order, cache, s)
  }

  /** The module-level registry state, its singleton's name table, and the cache of
      canonical_aspect_key, which outlives every change of the registry. */
  class AspectState {
    const canonical: seq<Aspect>
    var registered: seq<string>
    var basisVersion: nat
    var byName: map<string, Aspect>
    var cache: map<set<Aspect>, string>
    /** The sets whose cached key may go stale: cached while two of their aspects were
        unregistered, or before a reset that forgot two of them. */
    ghost var loose: set<set<Aspect>>

    function FullOrder(): seq<Aspect>
      reads this
    {
      canonical + AsRegistered(registered)
    }

    ghost predicate Valid()
      reads this
    {
      && ValidOrder(FullOrder())
      && basisVersion == |registered|
      && NameTable(FullOrder(), byName)
      && CacheHolds(FullOrder(), cache, loose)
    }

    constructor (canonical: seq<Aspect>)
      requires ValidOrder(canonical)
      ensures Valid() && this.canonical == canonical && registered == [] && cache == map[] && loose == {}
    {
      this.canonical, registered, basisVersion := canonical, [], 0;
      byName := ByName(canonical);
      cache, loose := map[], {};
      new;
      ByNameIsTable(canonical);
      assert FullOrder() == canonical;
    }

    /** The registry over the six canonical aspects. */
    constructor Canonical()
      ensures Valid() && canonical == CANONICAL_ORDER && registered == [] && cache == map[] && loose == {}
    {
      canonical, registered, basisVersion := CANONICAL_ORDER, [], 0;
      byName := ByName(CANONICAL_ORDER);
      cache, loose := map[], {};
      new;
      CanonicalOrderIsValid();
      ByNameIsTable(CANONICAL_ORDER);
      assert FullOrder() == CANONICAL_ORDER;
    }

    /** RegisteredAspect and AspectRegistry.register: refuses a malformed name and one already
        taken, canonical or registered; otherwise appends to the order. No earlier position
        and no key held good changes. */
    method Register(name: string) returns (r: Result<(), string>)
      requires Valid() && |FullOrder()| + 1 < UNREGISTERED
      modifies this`registered, this`basisVersion, this`byName
      ensures Valid()
      ensures r.Failure? <==> !ValidName(name) || exists a :: a in old(FullOrder()) && a.name == name
      ensures r.Failure? ==> unchanged(this)
      ensures r.Success? ==> FullOrder() == old(FullOrder()) + [Registered(name)]
    {
      if !ValidName(name) {
        return Failure("invalid aspect name");
      }
      if exists a <- canonical :: a.name == name {
        ghost var a :| a in canonical && a.name == name;
        assert a in FullOrder();
        return Failure("conflicts with canonical AspectID");
      }
      if name in registered {
        TakenName(name);
        return Failure("already exists");
      }
      FreeName(name);
      ghost var order := FullOrder();
      RegistrableExtends(order, Registered(name));
      OrderIsNoDup(order + [Registered(name)]);
      CacheSurvives(order, [Registered(name)], cache, loose);
      registered := registered + [name];
      basisVersion := basisVersion + 1;
      byName := byName[name := Registered(name)];
      assert FullOrder() == order + [Registered(name)];
      return Success(());
    }

    lemma TakenName(name: string)
      requires name in registered
      ensures Registered(name) in FullOrder()
    {
      var i :| 0 <= i < |registered| && registered[i] == name;
      assert FullOrder()[|canonical| + i] == Registered(name);
    }

    lemma FreeName(name: string)
      requires Valid() && ValidName(name) && name !in registered && forall a :: a in canonical ==> a.name != name
      ensures Registrable(FullOrder(), Registered(name))
    {
      forall b | b in FullOrder() ensures b.name != name {
        var i :| 0 <= i < |FullOrder()| && FullOrder()[i] == b;
        if i < |canonical| {
          assert b == canonical[i];
        } else {
          assert b == Registered(registered[i - |canonical|]);
        }
      }
    }

    /** AspectRegistry.reset: forgets the registrations but not the cache, so keys of sets
        with two or more registered aspects may go stale. */
    method Reset()
      requires Valid()
      modifies this
      ensures Valid() && registered == [] && basisVersion == 0 && cache == old(cache)
      ensures loose == old(loose) + LooseAfterReset(canonical, cache)
    {
      PrefixIsValid(canonical, AsRegistered(registered));
      OrderIsNoDup(FullOrder());
      CacheShrinks(canonical, AsRegistered(registered), cache, loose);
      ByNameIsTable(canonical);
      registered, basisVersion, byName := [], 0, ByName(canonical);
      loose := loose + LooseAfterReset(canonical, cache);
      assert FullOrder() == canonical;
    }

    /** AspectRegistry.resolve. */
    method Resolve(name: string) returns (r: Result<Aspect, string>)
      requires Valid()
      ensures r.Success? <==> exists a :: a in FullOrder() && a.name == name
      ensures r.Success? ==> r.value in FullOrder() && r.value.name == name
    {
      if name in byName {
        return Success(byName[name]);
      }
      return Failure(name);
    }

    /** canonical_aspect_key: computed once per set, and still right for every set that had at
        most one unregistered aspect when it was first asked for. */
    method CanonicalAspectKey(s: set<Aspect>) returns (r: string)
      requires Valid()
      modifies this`cache, this`loose
      ensures Valid() && cache == old(cache)[s := r]
      ensures s in old(cache) ==> r == old(cache)[s] && loose == old(loose)
      ensures s !in old(cache) ==>
        IsKey(FullOrder(), s, r) && loose == old(loose) + (if NearlyRegistered(FullOrder(), s) then {} else {s})
      ensures s !in loose ==> IsKey(FullOrder(), s, r)
    {
      if s in cache {
        assert s !in loose ==> HoldsFor(FullOrder(), cache, s);
        return cache[s];
      }
      var l := SortByRank(FullOrder(), s);
      r := KeyOf(l);
      CacheGrows(FullOrder(), cache, loose, s, l);
      cache := cache[s := r];
      loose := loose + (if NearlyRegistered(FullOrder(), s) then {} else {s});
    }
  }

  ghost function LooseAfterReset(order: seq<Aspect>, cache: map<set<Aspect>, string>): set<set<Aspect>> {
    set s | s in cache && !NearlyRegistered(order, s)
  }

  lemma PrefixIsValid(order: seq<Aspect>, more: seq<Aspect>)
    requires ValidOrder(order + more)
    ensures ValidOrder(order)
  {
    forall i | 0 <= i < |order| ensures order[i] == (order + more)[i] {}
  }

  lemma CacheSurvives(order: seq<Aspect>, more: seq<Aspect>, cache: map<set<Aspect>, string>, loose: set<set<Aspect>>)
    requires CacheHolds(order, cache, loose) && NoDup(order + more) && |order + more| < UNREGISTERED
    ensures CacheHolds(order + more, cache, loose)
  {
    forall s | s in cache && s !in loose ensures HoldsFor(order + more, cache, s) {
      assert HoldsFor(order, cache, s);
      var l :| IsListing(order, s, l) && cache[s] == KeyOf(l);
      ListingSurvives(order, more, s, l);
    }
  }

  lemma CacheShrinks(order: seq<Aspect>, more: seq<Aspect>, cache: map<set<Aspect>, string>, loose: set<set<Aspect>>)
    requires CacheHolds(order + more, cache, loose) && NoDup(order + more) && |order + more| < UNREGISTERED
    ensures CacheHolds(order, cache, loose + LooseAfterReset(order, cache))
  {
    forall s | s in cache && s !in loose && NearlyRegistered(order, s) ensures HoldsFor(order, cache, s) {
      assert HoldsFor(order + more, cache, s);
      var l :| IsListing(order + more, s, l) && cache[s] == KeyOf(l);
      ListingShrinks(order, more, s, l);
    }
  }

  lemma CacheGrows(order: seq<Aspect>, cache: map<set<Aspect>, string>, loose: set<set<Aspect>>, s: set<Aspect>,
                   l: seq<Aspect>)
    requires CacheHolds(order, cache, loose) && IsListing(order, s, l)
    ensures IsKey(order, s, KeyOf(l))
    ensures CacheHolds(order, cache[s := KeyOf(l)], loose + (if NearlyRegistered(order, s) then {} else {s}))
  {
    var grown := cache[s := KeyOf(l)];
    var loosened := loose + (if NearlyRegistered(order, s) then {} else {s});
    forall t | t in grown && t !in loosened ensures HoldsFor(order, grown, t) {
      assert t != s ==> HoldsFor(order, cache, t);
    }
  }

  /** The name table of a new registry without registrations. */
  function ByName(order: seq<Aspect>): map<string, Aspect> {
    if order == [] then map[]
    else ByName(order[..|order| - 1])[order[|order| - 1].name := order[|order| - 1]]
  }

  lemma {:induction false} ByNameIsTable(order: seq<Aspect>)
    requires ValidOrder(order)
    ensures NameTable(order, ByName(order))
  {
    if order != [] {
      var front, last := order[..|order| - 1], order[|order| - 1];
      assert order == front + [last];
      PrefixIsValid(front, [last]);
      ByNameIsTable(front);
    }
  }

  /** A listing stays one when registrations are forgotten, if at most one aspect loses its place. */
  lemma ListingShrinks(order: seq<Aspect>, more: seq<Aspect>, s: set<Aspect>, l: seq<Aspect>)
    requires IsListing(order + more, s, l) && NearlyRegistered(order, s)
    requires NoDup(order + more) && |order + more| < UNREGISTERED
    ensures IsListing(order, s, l)
  {
    forall i, j | 0 <= i < j < |l| ensures Rank(order, l[i]) <= Rank(order, l[j]) {
      assert l[i] in Elems(l) && l[j] in Elems(l);
      assert Rank(order + more, l[i]) <= Rank(order + more, l[j]);
      if l[j] in order {
        RankOfOrdered(order, more, l[j]);
        if l[i] in order {
          RankOfOrdered(order, more, l[i]);
        } else {
          RankOfLater(order, more, l[i]);
        }
      } else if l[i] in order {
        RankOfOrdered(order, more, l[i]);
      }
    }
  }

  /** `sorted(aspects, key=rank)` over the set's iteration order. */
  method SortByRank(order: seq<Aspect>, s: set<Aspect>) returns (l: seq<Aspect>)
    ensures IsListing(order, s, l)
  {
    l := [];
    var rest := s;
    while rest != {}
      invariant rest <= s && Elems(l) == s - rest && NoDup(l) && RanksAscend(order, l)
      decreases |rest|
    {
      var a :| a in rest;
      rest := rest - {a};
      assert a !in Elems(l);
      l := InsertByRank(order, l, a);
    }
  }

  /** Puts `a` behind every aspect of no greater rank. */
  method InsertByRank(order: seq<Aspect>, l: seq<Aspect>, a: Aspect) returns (r: seq<Aspect>)
    requires NoDup(l) && RanksAscend(order, l) && a !in l
    ensures NoDup(r) && RanksAscend(order, r) && Elems(r) == Elems(l) + {a}
  {
    var k := |l|;
    while k > 0 && Rank(order, l[k - 1]) > Rank(order, a)
      invariant 0 <= k <= |l| && forall i :: k <= i < |l| ==> Rank(order, l[i]) > Rank(order, a)
    {
      k := k - 1;
    }
    r := l[..k] + [a] + l[k..];
    InsertedElems(l, a, k);
    InsertedAscends(order, l, a, k);
  }

  lemma InsertedElems(l: seq<Aspect>, a: Aspect, k: nat)
    requires k <= |l|
    ensures Elems(l[..k] + [a] + l[k..]) == Elems(l) + {a}
  {
    assert l == l[..k] + l[k..];
  }

  lemma InsertedAscends(order: seq<Aspect>, l: seq<Aspect>, a: Aspect, k: nat)
    requires NoDup(l) && RanksAscend(order, l) && a !in l && k <= |l|
    requires forall i :: k <= i < |l| ==> Rank(order, l[i]) > Rank(order, a)
    requires k > 0 ==> Rank(order, l[k - 1]) <= Rank(order, a)
    ensures NoDup(l[..k] + [a] + l[k..]) && RanksAscend(order, l[..k] + [a] + l[k..])
  {
    var r := l[..k] + [a] + l[k..];
    forall i, j | 0 <= i < j < |r| ensures r[i] != r[j] && Rank(order, r[i]) <= Rank(order, r[j]) {
      var x := if i < k then l[i] else if i == k then a else l[i - 1];
      var y := if j < k then l[j] else if j == k then a else l[j - 1];
      assert r[i] == x && r[j] == y;
    }
  }

  /** After a reset the cache can be wrong: the same two aspects registered the other way
      round have another key, while the old one stays cached. */
  lemma ResetStalesKeys(order: seq<Aspect>, a: Aspect, b: Aspect)
    requires ValidOrder(order + [a, b])
    ensures Key(order + [a, b], {a, b}) != Key(order + [b, a], {a, b})
  {
    KeyOfPair(order, a, b);
    KeyOfPair(order, b, a);
    assert {a, b} == {b, a};
    assert (order + [a, b])[|order|] == a && (order + [a, b])[|order| + 1] == b;
    PairKeysDiffer(a, b);
  }

  lemma PairKeysDiffer(a: Aspect, b: Aspect)
    requires ValidName(a.name) && ValidName(b.name) && a.name != b.name
    ensures KeyOf([a, b]) != KeyOf([b, a])
  {
    var ab, ba := Names([a, b]), Names([b, a]);
    assert !NameChar('+');
    assert ab[0] == a.name && ab[1] == b.name && ba[0] == b.name && ba[1] == a.name;
    if Join(ab) == Join(ba) {
      JoinIsInjective(ab, ba);
    }
  }

  lemma FilterPair(a: Aspect, b: Aspect)
    ensures Filter([a, b], {a, b}) == [a, b]
  {
    assert [a, b][1..] == [b] && [b][1..] == [];
    assert Filter([b], {a, b}) == [b];
  }

  lemma KeyOfPair(order: seq<Aspect>, a: Aspect, b: Aspect)
    requires ValidOrder(order + [a, b]) || ValidOrder(order + [b, a])
    ensures Filter(order + [a, b], {a, b}) == [a, b]
  {
    var whole := if ValidOrder(order + [a, b]) then order + [a, b] else order + [b, a];
    forall c | c in order ensures c !in {a, b} {
      var i :| 0 <= i < |order| && order[i] == c;
      assert whole[i].name != whole[|order|].name && whole[i].name != whole[|order| + 1].name;
    }
    FilterSkips(order, [a, b], {a, b});
    FilterPair(a, b);
  }

  lemma {:induction false} FilterSkips(skipped: seq<Aspect>, rest: seq<Aspect>, s: set<Aspect>)
    requires forall a :: a in skipped ==> a !in s
    ensures Filter(skipped + rest, s) == Filter(rest, s)
  {
    if skipped == [] {
      assert skipped + rest == rest;
    } else {
      assert (skipped + rest)[1..] == skipped[1..] + rest;
      FilterSkips(skipped[1..], rest, s);
    }
  }

  // ---- Names and keys in plain terms ----

  /** A valid name: 1 to 30 capital letters, digits and underscores, a letter first. */
  lemma ValidNameExactly(name: string)
    ensures ValidName(name) <==>
      && 1 <= |name| <= 30 && name[0] in "ABCDEFGHIJKLMNOPQRSTUVWXYZ"
      && forall i :: 0 <= i < |name| ==> name[i] in "ABCDEFGHIJKLMNOPQRSTUVWXYZ0123456789_"
  {
    forall c: char ensures 'A' <= c <= 'Z' <==> c in "ABCDEFGHIJKLMNOPQRSTUVWXYZ" {}
    forall c: char ensures NameChar(c) <==> c in "ABCDEFGHIJKLMNOPQRSTUVWXYZ0123456789_" {}
  }

  /** The names come in order, one '+' between any two. */
  lemma {:induction false} JoinConcat(a: seq<string>, b: seq<string>)
    requires a != [] && b != []
    ensures Join(a + b) == Join(a) + "+" + Join(b)
  {
    if |a| == 1 {
      assert (a + b)[1..] == b;
    } else {
      JoinConcat(a[1..], b);
      assert (a + b)[1..] == a[1..] + b;
    }
  }

  lemma JoinOfOne(name: string)
    ensures Join([name]) == name && Join([]) == ""
  {
  }

  /** A listing follows the order of registration. */
  lemma ListingFollows(order: seq<Aspect>, s: set<Aspect>, l: seq<Aspect>, i: nat, j: nat, x: nat, y: nat)
    requires ValidOrder(order) && IsListing(order, s, l) && i < j < |l| && x < |order| && y < |order|
    requires l[i] == order[x] && l[j] == order[y]
    ensures x < y
  {
    OrderIsNoDup(order);
    assert order[IndexOf(order, l[i])] == l[i] && order[IndexOf(order, l[j])] == l[j];
    assert Rank(order, l[i]) <= Rank(order, l[j]);
  }

  /** An aspect that is not registered comes behind all that are. */
  lemma UnregisteredLast(order: seq<Aspect>, s: set<Aspect>, l: seq<Aspect>, i: nat, j: nat)
    requires ValidOrder(order) && IsListing(order, s, l) && i < j < |l| && l[j] in order
    ensures l[i] in order
  {
    assert Rank(order, l[i]) <= Rank(order, l[j]);
  }
}
