/** The composition table of vermyth/engine/composition.py: lookup and registration of
    sigil entries under canonical keys. */
module Composition {
  import opened Wrappers
  import opened Schema
  import opened Aspects

  /** A row of the table; `override` is its own severity, if it names a known one. */
  datatype Entry = Entry(name: string, effectClass: string, ceiling: real, override: Option<Severity>)

  datatype Sigil = Sigil(name: string, aspects: set<Aspect>, effectClass: string, ceiling: real, severity: Severity)

  function SeverityFor(contradictions: map<string, Severity>, key: string, entry: Entry): Severity {
    if entry.override.Some? then entry.override.value
    else if key in contradictions then contradictions[key]
    else NoContradiction
  }

  /** What composing a set looks up under `key`. */
  function LookUp(table: map<string, Entry>, contradictions: map<string, Severity>, key: string,
                  s: set<Aspect>): Result<Sigil, string>
  {
    if |s| < 1 then Failure("aspects must contain at least one AspectID")
    else if |s| > 3 then Failure("aspects must contain at most three AspectIDs")
    else if key !in table then Failure("no defined resolution for aspect combination")
    else
      var entry := table[key];
      Success(Sigil(entry.name, s, entry.effectClass, entry.ceiling, SeverityFor(contradictions, key, entry)))
  }

  /** What composing a set of registered aspects gives. */
  function Composed(table: map<string, Entry>, contradictions: map<string, Severity>, order: seq<Aspect>,
                    s: set<Aspect>): Result<Sigil, string>
  {
    LookUp(table, contradictions, Key(order, s), s)
  }

  /** Registering one entry changes what its own aspect set composes to, and no other. */
  lemma OneEntryOneSet(table: map<string, Entry>, contradictions: map<string, Severity>, order: seq<Aspect>,
                       s: set<Aspect>, entry: Entry, t: set<Aspect>)
    requires ValidOrder(order) && InRegistry(order, s) && InRegistry(order, t)
    ensures t != s ==>
      Composed(table[Key(order, s) := entry], contradictions, order, t) == Composed(table, contradictions, order, t)
    ensures t == s && 1 <= |s| <= 3 ==>
      var r := Composed(table[Key(order, s) := entry], contradictions, order, t);
      && r.Success? && r.value.name == entry.name && r.value.ceiling == entry.ceiling
      && r.value.effectClass == entry.effectClass
  {
    if Key(order, s) == Key(order, t) {
      KeyIsInjective(order, s, t);
    }
  }

  lemma {:induction false} FilterOfLonger(order: seq<Aspect>, more: seq<Aspect>, s: set<Aspect>)
    requires forall a :: a in more ==> a !in s
    ensures Filter(order + more, s) == Filter(order, s)
  {
    if order == [] {
      assert order + more == more;
      FilterSkips(more, [], s);
      assert more + [] == more;
    } else {
      assert (order + more)[1..] == order[1..] + more;
      FilterOfLonger(order[1..], more, s);
    }
  }

  /** Later registrations change no composition of aspects registered before. */
  lemma GrowthKeepsCompositions(table: map<string, Entry>, contradictions: map<string, Severity>,
                                order: seq<Aspect>, more: seq<Aspect>, s: set<Aspect>)
    requires ValidOrder(order + more) && InRegistry(order, s)
    ensures Composed(table, contradictions, order + more, s) == Composed(table, contradictions, order, s)
  {
    forall a | a in more ensures a !in s {
      var j :| 0 <= j < |more| && more[j] == a;
      assert (order + more)[|order| + j] == a;
      forall i | 0 <= i < |order| ensures order[i] != a {
        assert (order + more)[i] == order[i];
      }
    }
    FilterOfLonger(order, more, s);
  }

  class CompositionEngine {
    const aspects: AspectState
    const contradictions: map<string, Severity>
    var table: map<string, Entry>

    constructor (aspects: AspectState, contradictions: map<string, Severity>)
      ensures this.aspects == aspects && this.contradictions == contradictions && table == map[]
    {
      this.aspects, this.contradictions, table := aspects, contradictions, map[];
    }

    /** The set's memoised key is not one that may be stale. */
    ghost predicate Sound(s: set<Aspect>)
      reads this, aspects
    {
      InRegistry(aspects.FullOrder(), s) && s !in aspects.loose
    }

    /** compose: for registered aspects, whatever was composed or registered before, the entry
        under the set's key. */
    method Compose(s: set<Aspect>) returns (r: Result<Sigil, string>)
      requires aspects.Valid()
      modifies aspects`cache, aspects`loose
      ensures aspects.Valid()
      ensures |s| < 1 || |s| > 3 ==> r.Failure? && unchanged(aspects)
      ensures old(Sound(s)) ==>
        Sound(s) && aspects.loose == old(aspects.loose) && r == Composed(table, contradictions, aspects.FullOrder(), s)
    {
      if |s| < 1 {
        return Failure("aspects must contain at least one AspectID");
      }
      if |s| > 3 {
        return Failure("aspects must contain at most three AspectIDs");
      }
      var key := aspects.CanonicalAspectKey(s);
      KeyOfRegisteredIfSound(s, key);
      if key !in table {
        return Failure("no defined resolution for aspect combination");
      }
      var entry := table[key];
      return Success(Sigil(entry.name, s, entry.effectClass, entry.ceiling, SeverityFor(contradictions, key, entry)));
    }

    lemma KeyOfRegisteredIfSound(s: set<Aspect>, key: string)
      requires aspects.Valid() && (s !in aspects.loose ==> IsKey(aspects.FullOrder(), s, key))
      ensures Sound(s) ==> key == Key(aspects.FullOrder(), s)
    {
      if Sound(s) {
        KeyOfRegistered(aspects.FullOrder(), s, key);
      }
    }

    /** register_sigil_entry: refuses to replace an entry unless told to. */
    method RegisterSigilEntry(s: set<Aspect>, entry: Entry, allowOverride: bool) returns (r: Result<(), string>)
      requires aspects.Valid()
      modifies this`table, aspects`cache, aspects`loose
      ensures aspects.Valid()
      ensures r.Failure? ==> table == old(table)
      ensures old(Sound(s)) ==>
        var key := Key(aspects.FullOrder(), s);
        && Sound(s) && aspects.loose == old(aspects.loose)
        && (r.Failure? <==> key in old(table) && !allowOverride)
        && (r.Success? ==> table == old(table)[key := entry])
    {
      var key := aspects.CanonicalAspectKey(s);
      KeyOfRegisteredIfSound(s, key);
      if key in table && !allowOverride {
        return Failure("already exists; set allow_override=True to replace");
      }
      table := table[key := entry];
      return Success(());
    }

    /** Registering an entry for `s` between two compositions of `t`: the second gives the entry
        if `t` is `s`, and what the first gave otherwise, whatever the memo holds. */
    method ComposeAround(s: set<Aspect>, entry: Entry, allowOverride: bool, t: set<Aspect>)
      returns (before: Result<Sigil, string>, registered: Result<(), string>, after: Result<Sigil, string>)
      requires aspects.Valid() && Sound(s) && Sound(t)
      modifies this`table, aspects`cache, aspects`loose
      ensures aspects.Valid() && Sound(s) && Sound(t)
      ensures t != s || registered.Failure? ==> after == before
      ensures t == s && registered.Success? && 1 <= |s| <= 3 ==>
        && after.Success?
        && after.value.name == entry.name && after.value.ceiling == entry.ceiling
        && after.value.effectClass == entry.effectClass
      ensures registered.Failure? && 1 <= |s| <= 3 && t == s ==> before.Success? && !allowOverride
    {
      before := Compose(t);
      OneEntryOneSet(table, contradictions, aspects.FullOrder(), s, entry, t);
      registered := RegisterSigilEntry(s, entry, allowOverride);
      after := Compose(t);
    }
  }

  // ---- What is composed, in plain terms ----

  /** A set composes exactly if it has one to three aspects and its key has an entry; the sigil is
      the entry's, under the entry's own severity if it has one, else that of the key's
      contradiction, else none. */
  lemma ComposedExactly(table: map<string, Entry>, contradictions: map<string, Severity>, order: seq<Aspect>,
                        s: set<Aspect>)
    ensures var r, key := Composed(table, contradictions, order, s), Key(order, s);
      && (r.Success? <==> |s| in {1, 2, 3} && key in table)
      && (r.Success? ==>
            && r.value.name == table[key].name && r.value.aspects == s
            && r.value.effectClass == table[key].effectClass && r.value.ceiling == table[key].ceiling
            && (table[key].override.Some? ==> Some(r.value.severity) == table[key].override)
            && (table[key].override.None? && key in contradictions ==> r.value.severity == contradictions[key])
            && (table[key].override.None? && key !in contradictions ==> r.value.severity == NoContradiction))
  {
  }
}
