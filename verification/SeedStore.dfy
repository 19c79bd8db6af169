/** The glyph seed table (vermyth/grimoire/repositories/seeds.py) and what every cast does to it
    (vermyth/mcp/tools/casting/_legacy.py): accumulate, write back, crystallize, restart. */
module SeedStore {
  import opened Reals
  import opened Wrappers
  import opened Order
  import Schema
  import opened Casting
  import opened Vectors
  import opened Seeds

  type Compose = Pattern -> Option<Vector>

  // ---- The life of one row ----

  /** A row's seed, with the observations behind it: those of each generation that crystallized,
      and those since. */
  datatype Life = Life(seed: GlyphSeed, past: seq<seq<Observation>>, since: seq<Observation>)

  predicate Settles(seed: GlyphSeed, compose: Compose) {
    MayCrystallize(seed) && compose(seed.pattern).Some?
  }

  /** What a cast leaves of an accumulated seed: it starts again if it crystallized. */
  function Settled(seed: GlyphSeed, compose: Compose): GlyphSeed {
    if Settles(seed, compose) then Restarted(seed) else seed
  }

  function Settle(life: Life, compose: Compose): Life {
    if Settles(life.seed, compose) then Life(Restarted(life.seed), life.past + [life.since], []) else life
  }

  /** The life of a row that took these observations. */
  function LifeOf(taken: seq<Observation>, compose: Compose): Life
    requires taken != []
  {
    if |taken| == 1 then Settle(Life(Fresh(taken[0]), [], [taken[0]]), compose)
    else
      var before, o := LifeOf(taken[..|taken| - 1], compose), taken[|taken| - 1];
      Settle(Life(Updated(before.seed, o), before.past, before.since + [o]), compose)
  }

  function Flat(past: seq<seq<Observation>>): seq<Observation> {
    if past == [] then [] else Flat(past[..|past| - 1]) + past[|past| - 1]
  }

  ghost predicate AllBack(past: seq<seq<Observation>>) {
    forall i :: 0 <= i < |past| ==> Backs(past[i], i + 1)
  }

  /** The statistics are those of the observations since the row last crystallized, its
      generation counts the crystallizations, and each of them was backed. */
  ghost predicate LifeExact(life: Life) {
    StatsOf(life.seed, life.since) && life.seed.generation == 1 + |life.past| && AllBack(life.past)
  }

  lemma SettleIsExact(life: Life, compose: Compose)
    requires LifeExact(life)
    ensures LifeExact(Settle(life, compose))
    ensures Flat(Settle(life, compose).past) + Settle(life, compose).since == Flat(life.past) + life.since
    ensures Settle(life, compose).seed == Settled(life.seed, compose)
  {
    if Settles(life.seed, compose) {
      CrystallizesBacked(life.seed, life.since);
      var past := life.past + [life.since];
      assert past[..|life.past|] == life.past;
      forall i | 0 <= i < |past| ensures Backs(past[i], i + 1) {
        assert i < |life.past| ==> past[i] == life.past[i];
      }
    }
  }

  /** At every generation, a row's count, mean and coherence are exactly those of what it took
      since it last crystallized, which with the earlier generations is all it took. */
  lemma {:induction false} LifeIsExact(taken: seq<Observation>, compose: Compose)
    requires taken != []
    ensures LifeExact(LifeOf(taken, compose))
    ensures Flat(LifeOf(taken, compose).past) + LifeOf(taken, compose).since == taken
    ensures LifeOf(taken, compose).seed.pattern == taken[0].pattern
  {
    if |taken| == 1 {
      FreshIsExact(taken[0]);
      assert Flat([]) + [taken[0]] == taken;
      SettleIsExact(Life(Fresh(taken[0]), [], [taken[0]]), compose);
    } else {
      var front, o := taken[..|taken| - 1], taken[|taken| - 1];
      LifeIsExact(front, compose);
      var before := LifeOf(front, compose);
      ExtendedLife(before, o, front);
      assert taken == front + [o];
      SettleIsExact(Life(Updated(before.seed, o), before.past, before.since + [o]), compose);
    }
  }

  lemma ExtendedLife(before: Life, o: Observation, front: seq<Observation>)
    requires LifeExact(before) && Flat(before.past) + before.since == front
    ensures LifeExact(Life(Updated(before.seed, o), before.past, before.since + [o]))
    ensures Flat(before.past) + (before.since + [o]) == front + [o]
  {
    UpdatedStats(before.seed, before.since, o);
  }

  /** What a row keeps all its life. */
  ghost predicate Keeps(seed: GlyphSeed, first: Observation) {
    seed.pattern == first.pattern && seed.effectClass == Some(first.effectClass) && !seed.crystallized
  }

  lemma {:induction false} LifeKeeps(taken: seq<Observation>, compose: Compose)
    requires taken != []
    ensures Keeps(LifeOf(taken, compose).seed, taken[0])
  {
    if |taken| > 1 {
      LifeKeeps(taken[..|taken| - 1], compose);
    }
  }

  /** No proper part of the list, from its start, backs the generation. */
  ghost predicate FirstBacked(h: seq<Observation>, generation: nat) {
    forall k :: 0 <= k < |h| ==> !Backs(h[..k], generation)
  }

  /** Every crystallization came as soon as it was backed, and the next one is not backed yet. */
  ghost predicate Prompt(life: Life) {
    && (forall i :: 0 <= i < |life.past| ==> FirstBacked(life.past[i], i + 1))
    && FirstBacked(life.since, |life.past| + 1) && !Backs(life.since, |life.past| + 1)
  }

  lemma NothingBacks(generation: nat)
    requires generation > 0
    ensures !Backs([], generation)
  {
  }

  lemma FirstBackedGrows(h: seq<Observation>, o: Observation, generation: nat)
    requires FirstBacked(h, generation) && !Backs(h, generation)
    ensures FirstBacked(h + [o], generation)
  {
    forall k | 0 <= k < |h + [o]| ensures !Backs((h + [o])[..k], generation) {
      assert (h + [o])[..k] == h[..k];
      assert h[..|h|] == h;
    }
  }

  lemma SettleIsPrompt(life: Life, compose: Compose)
    requires LifeExact(life) && life.since != [] && !life.seed.crystallized && life.seed.effectClass.Some?
    requires compose(life.seed.pattern).Some? && FirstBacked(life.since, |life.past| + 1)
    requires forall i :: 0 <= i < |life.past| ==> FirstBacked(life.past[i], i + 1)
    ensures Prompt(Settle(life, compose))
  {
    CrystallizesExactly(life.seed, life.since);
    if Settles(life.seed, compose) {
      var past := life.past + [life.since];
      NothingBacks(|past| + 1);
      forall i | 0 <= i < |past| ensures FirstBacked(past[i], i + 1) {
        assert i < |life.past| ==> past[i] == life.past[i];
      }
    }
  }

  lemma FirstIsPrompt(o: Observation, compose: Compose)
    requires compose(o.pattern).Some?
    ensures Prompt(LifeOf([o], compose))
  {
    FreshIsExact(o);
    NothingBacks(1);
    FirstBackedGrows([], o, 1);
    assert [] + [o] == [o];
    SettleIsPrompt(Life(Fresh(o), [], [o]), compose);
  }

  lemma PromptGrows(before: Life, o: Observation, compose: Compose)
    requires LifeExact(before) && Prompt(before) && !before.seed.crystallized && before.seed.effectClass.Some?
    requires compose(before.seed.pattern).Some?
    ensures Prompt(Settle(Life(Updated(before.seed, o), before.past, before.since + [o]), compose))
  {
    FirstBackedGrows(before.since, o, |before.past| + 1);
    UpdatedStats(before.seed, before.since, o);
    SettleIsPrompt(Life(Updated(before.seed, o), before.past, before.since + [o]), compose);
  }

  /** If a row's pattern composes, it crystallizes exactly where its results first back it, at
      every generation. With LifeIsExact this fixes every generation's results. */
  lemma {:induction false} LifeIsPrompt(taken: seq<Observation>, compose: Compose)
    requires taken != [] && compose(taken[0].pattern).Some?
    ensures Prompt(LifeOf(taken, compose))
  {
    if |taken| == 1 {
      assert taken == [taken[0]];
      FirstIsPrompt(taken[0], compose);
    } else {
      var front := taken[..|taken| - 1];
      LifeIsPrompt(front, compose);
      LifeIsExact(front, compose);
      LifeKeeps(front, compose);
      PromptGrows(LifeOf(front, compose), taken[|taken| - 1], compose);
    }
  }

  /** If it does not compose, never. */
  lemma {:induction false} LifeWithoutPattern(taken: seq<Observation>, compose: Compose)
    requires taken != [] && compose(taken[0].pattern).None?
    ensures LifeOf(taken, compose).past == []
  {
    if |taken| > 1 {
      LifeWithoutPattern(taken[..|taken| - 1], compose);
      LifeKeeps(taken[..|taken| - 1], compose);
    }
  }

  /** A row with something counted ties its mean to its coherence, at any generation. */
  lemma RowsTrackCoherence(taken: seq<Observation>, compose: Compose)
    requires taken != [] && forall o :: o in taken ==> ValidObservation(o)
    ensures var life := LifeOf(taken, compose);
      life.since != [] ==>
        0.75 * life.seed.coherence <= life.seed.mean <= 0.75 + 0.25 * life.seed.coherence
  {
    var life := LifeOf(taken, compose);
    LifeIsExact(taken, compose);
    if life.since != [] {
      forall o | o in life.since ensures ValidObservation(o) {
        assert o in Flat(life.past) + life.since;
      }
      ExactTracks(life.seed, life.since);
    }
  }

  lemma LifeOfOne(o: Observation, compose: Compose)
    ensures LifeOf([o], compose).seed == Settled(Fresh(o), compose)
  {
  }

  lemma LifeOfMore(taken: seq<Observation>, o: Observation, compose: Compose)
    requires taken != []
    ensures LifeOf(taken + [o], compose).seed == Settled(Updated(LifeOf(taken, compose).seed, o), compose)
  {
    assert (taken + [o])[..|taken|] == taken;
  }

  // ---- The table as a function of the casts ----

  /** A cast's result, with the order in which its pattern lists when the table is queried, and
      the one in which it lists when a row is written. A set of names lists in no fixed order. */
  datatype SeedCast = SeedCast(o: Observation, asked: seq<string>, stored: seq<string>)

  ghost predicate Lists(c: SeedCast) {
    Elems(c.asked) == c.o.pattern && Elems(c.stored) == c.o.pattern
  }

  /** A row: its id, the pattern's names as listed when it was last written, and all it took. */
  datatype Entry = Entry(id: nat, listing: seq<string>, taken: seq<Observation>)

  /** `SELECT ... WHERE aspect_pattern_json = ?`, in table order: rows are looked up by the list,
      not by the pattern. */
  function Found(entries: seq<Entry>, asked: seq<string>): (r: seq<Entry>)
    ensures forall e :: e in r <==> e in entries && e.listing == asked
    ensures r == [] <==> forall e :: e in entries ==> e.listing != asked
  {
    if entries == [] then []
    else
      var front, last := entries[..|entries| - 1], entries[|entries| - 1];
      assert entries == front + [last];
      Found(front, asked) + if last.listing == asked then [last] else []
  }

  function Without(entries: seq<Entry>, id: nat): (r: seq<Entry>)
    ensures forall e :: e in r <==> e in entries && e.id != id
  {
    if entries == [] then []
    else
      var front, last := entries[..|entries| - 1], entries[|entries| - 1];
      assert entries == front + [last];
      Without(front, id) + if last.id == id then [] else [last]
  }

  /** What a cast does to the table; `id` is fresh. The first row found is accumulated, and the
      result written under the id of the last. */
  function Step(entries: seq<Entry>, id: nat, c: SeedCast): seq<Entry> {
    var found := Found(entries, c.asked);
    if found == [] then
      if VerdictOf(c.o.adjusted) == Schema.Incoherent then entries else entries + [Entry(id, c.stored, [c.o])]
    else
      var last := found[|found| - 1].id;
      Without(entries, last) + [Entry(last, c.stored, found[0].taken + [c.o])]
  }

  /** The table after a history of casts, of any patterns. */
  function Run(history: seq<SeedCast>): seq<Entry> {
    if history == [] then []
    else
      var front := history[..|history| - 1];
      Step(Run(front), |front|, history[|history| - 1])
  }

  /** A pattern's first result leaves a row exactly if it scores at least 0.45. */
  lemma FirstResult(c: SeedCast)
    ensures Run([c]) == if c.o.adjusted < 0.45 then [] else [Entry(0, c.stored, [c.o])]
  {
    assert [c][..0] == [];
  }

  /** Of two rows with the list asked for, a cast continues what the first took, and writes it in
      place of the second. */
  lemma TwoRowsFound(first: Entry, second: Entry, id: nat, c: SeedCast)
    requires first.listing == second.listing == c.asked && first.id != second.id
    ensures Step([first, second], id, c) == [first, Entry(second.id, c.stored, first.taken + [c.o])]
  {
    var entries := [first, second];
    assert entries[..1] == [first] && [first][..0] == [];
    assert Found([first], c.asked) == [first] && Found(entries, c.asked) == entries;
    assert Without([first], second.id) == [first] && Without(entries, second.id) == [first];
  }

  lemma RunAppend(history: seq<SeedCast>, c: SeedCast)
    ensures Run(history + [c]) == Step(Run(history), |history|, c)
  {
    assert (history + [c])[..|history|] == history;
  }

  ghost predicate EntryFits(e: Entry, n: nat) {
    && e.id < n && e.taken != []
    && forall o :: o in e.taken ==> o.pattern == Elems(e.listing)
  }

  ghost predicate AllFit(entries: seq<Entry>, n: nat) {
    forall e :: e in entries ==> EntryFits(e, n)
  }

  ghost predicate DistinctIds(entries: seq<Entry>) {
    forall e, f :: e in entries && f in entries && e.id == f.id ==> e == f
  }

  lemma StepFits(entries: seq<Entry>, id: nat, c: SeedCast)
    requires AllFit(entries, id) && DistinctIds(entries) && Lists(c)
    ensures AllFit(Step(entries, id, c), id + 1) && DistinctIds(Step(entries, id, c))
  {
    var found := Found(entries, c.asked);
    if found != [] {
      assert found[0] in found && found[|found| - 1] in found;
      assert EntryFits(found[0], id) && EntryFits(found[|found| - 1], id);
    }
    forall e | e in entries ensures EntryFits(e, id + 1) {
      assert EntryFits(e, id);
    }
  }

  /** In every run, rows are of one pattern and ids are unique. */
  lemma {:induction false} RunFits(history: seq<SeedCast>)
    requires forall c :: c in history ==> Lists(c)
    ensures AllFit(Run(history), |history|) && DistinctIds(Run(history))
  {
    if history != [] {
      var front, c := history[..|history| - 1], history[|history| - 1];
      assert c in history && forall d :: d in front ==> d in history;
      RunFits(front);
      StepFits(Run(front), |front|, c);
    }
  }

  // ---- When a pattern keeps one row ----

  /** The casts of a pattern, from its first result that is not incoherent on. */
  function Kept(history: seq<SeedCast>, pattern: Pattern): seq<SeedCast> {
    if history == [] then []
    else
      KeepOne(Kept(history[..|history| - 1], pattern), history[|history| - 1], pattern)
  }

  function KeepOne(kept: seq<SeedCast>, c: SeedCast, pattern: Pattern): seq<SeedCast> {
    if c.o.pattern != pattern then kept
    else if kept == [] && VerdictOf(c.o.adjusted) == Schema.Incoherent then []
    else kept + [c]
  }

  function Observations(casts: seq<SeedCast>): (r: seq<Observation>)
    ensures |r| == |casts| && forall i :: 0 <= i < |r| ==> r[i] == casts[i].o
  {
    seq(|casts|, i requires 0 <= i < |casts| => casts[i].o)
  }

  /** Each cast asks for the list under which the one before it was written. */
  ghost predicate ListedAlike(casts: seq<SeedCast>) {
    forall i, j :: 0 <= i < |casts| && 0 <= j < |casts| && j == i + 1 ==> casts[j].asked == casts[i].stored
  }

  ghost predicate IsRowOf(entries: seq<Entry>, pattern: Pattern, e: Entry) {
    e in entries && Elems(e.listing) == pattern
  }

  /** `e` is the pattern's only row, listed as last written, with every observation of the pattern. */
  ghost predicate OnlyRow(entries: seq<Entry>, pattern: Pattern, kept: seq<SeedCast>, e: Entry) {
    && kept != [] && IsRowOf(entries, pattern, e)
    && e.listing == kept[|kept| - 1].stored
    && e.taken == Observations(kept)
    && forall f :: IsRowOf(entries, pattern, f) ==> f == e
  }

  /** No row has as many observations as the pattern. */
  ghost predicate AllShort(entries: seq<Entry>, pattern: Pattern, n: nat) {
    forall e :: IsRowOf(entries, pattern, e) ==> |e.taken| < n
  }

  ghost predicate PatternLaw(entries: seq<Entry>, pattern: Pattern, kept: seq<SeedCast>) {
    && (kept == [] ==> forall e :: !IsRowOf(entries, pattern, e))
    && (kept != [] && ListedAlike(kept) ==> exists e :: OnlyRow(entries, pattern, kept, e))
    && (!ListedAlike(kept) ==> AllShort(entries, pattern, |kept|))
  }

  ghost predicate OnlyFound(entries: seq<Entry>, asked: seq<string>, e: Entry) {
    e in Found(entries, asked) && forall f :: f in Found(entries, asked) ==> f == e
  }

  /** The entry a cast writes, and what it leaves of the rows of its own and of other patterns. */
  lemma StepWrites(entries: seq<Entry>, id: nat, c: SeedCast) returns (e: Entry)
    requires AllFit(entries, id) && DistinctIds(entries) && Lists(c)
    requires Found(entries, c.asked) != [] || VerdictOf(c.o.adjusted) != Schema.Incoherent
    ensures e.listing == c.stored
    ensures forall f :: f in Step(entries, id, c) <==> f == e || (f in entries && f.id != e.id)
    ensures forall f :: f in entries && f.id == e.id ==> Elems(f.listing) == c.o.pattern
    ensures var found := Found(entries, c.asked);
      if found == [] then e.taken == [c.o]
      else found[0] in entries && found[0].listing == c.asked && e.taken == found[0].taken + [c.o]
    ensures forall f :: OnlyFound(entries, c.asked, f) ==> e.id == f.id
  {
    var found := Found(entries, c.asked);
    if found == [] {
      e := Entry(id, c.stored, [c.o]);
      forall f | f in entries ensures f.id != id {
        assert EntryFits(f, id);
      }
    } else {
      var last := found[|found| - 1];
      assert found[0] in found && last in found;
      e := Entry(last.id, c.stored, found[0].taken + [c.o]);
      forall f | f in entries && f.id == e.id ensures Elems(f.listing) == c.o.pattern {
        assert f == last;
      }
    }
  }

  /** Casts of other patterns leave a pattern's rows alone. */
  lemma OtherLaw(entries: seq<Entry>, id: nat, c: SeedCast, pattern: Pattern, kept: seq<SeedCast>)
    requires AllFit(entries, id) && DistinctIds(entries) && Lists(c) && c.o.pattern != pattern
    requires PatternLaw(entries, pattern, kept)
    ensures PatternLaw(Step(entries, id, c), pattern, kept)
  {
    if Found(entries, c.asked) != [] || VerdictOf(c.o.adjusted) != Schema.Incoherent {
      var written := StepWrites(entries, id, c);
      forall e ensures IsRowOf(Step(entries, id, c), pattern, e) <==> IsRowOf(entries, pattern, e) {}
      if kept != [] && ListedAlike(kept) {
        var only :| OnlyRow(entries, pattern, kept, only);
        assert OnlyRow(Step(entries, id, c), pattern, kept, only);
      }
    }
  }

  lemma AlikeAppend(kept: seq<SeedCast>, c: SeedCast)
    ensures ListedAlike(kept + [c]) <==> ListedAlike(kept) && (kept != [] ==> c.asked == kept[|kept| - 1].stored)
  {
    var longer := kept + [c];
    if ListedAlike(longer) {
      forall i, j | 0 <= i < |kept| && 0 <= j < |kept| && j == i + 1 ensures kept[j].asked == kept[i].stored {
        assert longer[j].asked == longer[i].stored;
      }
      if kept != [] {
        assert longer[|kept|].asked == longer[|kept| - 1].stored;
      }
    }
  }

  lemma NothingFound(entries: seq<Entry>, c: SeedCast)
    requires Lists(c) && forall e :: IsRowOf(entries, c.o.pattern, e) ==> e.listing != c.asked
    ensures Found(entries, c.asked) == []
  {
    forall e | e in entries ensures e.listing != c.asked {
      assert !IsRowOf(entries, c.o.pattern, e) ==> Elems(e.listing) != Elems(c.asked);
    }
  }

  /** A pattern's first row. */
  lemma FirstCast(entries: seq<Entry>, id: nat, c: SeedCast)
    requires AllFit(entries, id) && DistinctIds(entries) && Lists(c)
    requires forall e :: !IsRowOf(entries, c.o.pattern, e)
    ensures PatternLaw(Step(entries, id, c), c.o.pattern, KeepOne([], c, c.o.pattern))
  {
    NothingFound(entries, c);
    if VerdictOf(c.o.adjusted) != Schema.Incoherent {
      var written := StepWrites(entries, id, c);
      assert KeepOne([], c, c.o.pattern) == [c];
      forall f | IsRowOf(Step(entries, id, c), c.o.pattern, f) ensures f == written {
        assert f != written ==> IsRowOf(entries, c.o.pattern, f);
      }
      assert OnlyRow(Step(entries, id, c), c.o.pattern, [c], written);
    }
  }

  /** A cast that asks for the only row under its list extends it. */
  lemma FoundAlike(entries: seq<Entry>, id: nat, c: SeedCast, kept: seq<SeedCast>, only: Entry)
    requires AllFit(entries, id) && DistinctIds(entries) && Lists(c)
    requires OnlyRow(entries, c.o.pattern, kept, only) && c.asked == kept[|kept| - 1].stored
    ensures exists e :: OnlyRow(Step(entries, id, c), c.o.pattern, kept + [c], e)
  {
    var found := Found(entries, c.asked);
    assert only in found;
    forall h | h in found ensures h == only {
      assert IsRowOf(entries, c.o.pattern, h);
    }
    assert found[0] in found && OnlyFound(entries, c.asked, only);
    var written := StepWrites(entries, id, c);
    forall f | IsRowOf(Step(entries, id, c), c.o.pattern, f) ensures f == written {
      assert f != written ==> IsRowOf(entries, c.o.pattern, f);
    }
    assert OnlyRow(Step(entries, id, c), c.o.pattern, kept + [c], written);
  }

  /** A cast that asks under another list falls short, and so does every later one. */
  lemma FoundShort(entries: seq<Entry>, id: nat, c: SeedCast, n: nat)
    requires AllFit(entries, id) && DistinctIds(entries) && Lists(c) && n >= 1
    requires AllShort(entries, c.o.pattern, n)
      || (AllShort(entries, c.o.pattern, n + 1) && Found(entries, c.asked) == [])
    ensures AllShort(Step(entries, id, c), c.o.pattern, n + 1)
  {
    var found := Found(entries, c.asked);
    if found != [] || VerdictOf(c.o.adjusted) != Schema.Incoherent {
      var written := StepWrites(entries, id, c);
      if found != [] {
        assert IsRowOf(entries, c.o.pattern, found[0]);
      }
      forall e | IsRowOf(Step(entries, id, c), c.o.pattern, e) ensures |e.taken| < n + 1 {
        assert e != written ==> IsRowOf(entries, c.o.pattern, e);
      }
    }
  }

  /** One cast keeps the law of its own pattern. */
  lemma OwnLaw(entries: seq<Entry>, id: nat, c: SeedCast, kept: seq<SeedCast>)
    requires AllFit(entries, id) && DistinctIds(entries) && Lists(c) && kept != []
    requires PatternLaw(entries, c.o.pattern, kept)
    ensures PatternLaw(Step(entries, id, c), c.o.pattern, kept + [c])
  {
    AlikeAppend(kept, c);
    if !ListedAlike(kept) {
      FoundShort(entries, id, c, |kept|);
    } else {
      var only :| OnlyRow(entries, c.o.pattern, kept, only);
      if c.asked == kept[|kept| - 1].stored {
        FoundAlike(entries, id, c, kept, only);
      } else {
        NothingFound(entries, c);
        FoundShort(entries, id, c, |kept|);
      }
    }
  }

  /** One cast keeps the law of every pattern. */
  lemma StepKeepsLaw(entries: seq<Entry>, id: nat, c: SeedCast, pattern: Pattern, kept: seq<SeedCast>)
    requires AllFit(entries, id) && DistinctIds(entries) && Lists(c)
    requires PatternLaw(entries, pattern, kept)
    ensures PatternLaw(Step(entries, id, c), pattern, KeepOne(kept, c, pattern))
  {
    if c.o.pattern != pattern {
      OtherLaw(entries, id, c, pattern, kept);
    } else if kept == [] {
      FirstCast(entries, id, c);
    } else {
      OwnLaw(entries, id, c, kept);
    }
  }

  /** In every run, the law holds of every pattern. */
  lemma {:induction false} RunKeepsLaw(history: seq<SeedCast>, pattern: Pattern)
    requires forall c :: c in history ==> Lists(c)
    ensures PatternLaw(Run(history), pattern, Kept(history, pattern))
  {
    if history != [] {
      var front, c := history[..|history| - 1], history[|history| - 1];
      assert c in history && forall d :: d in front ==> d in history;
      RunFits(front);
      RunKeepsLaw(front, pattern);
      StepKeepsLaw(Run(front), |front|, c, pattern, Kept(front, pattern));
    }
  }

  /** Some row has taken every observation of a pattern, from its first result that is not
      incoherent on, exactly when every cast asked for the list the one before it wrote; and
      then the row is the pattern's only one. */
  lemma OneRowExactly(history: seq<SeedCast>, pattern: Pattern)
    requires forall c :: c in history ==> Lists(c)
    requires Kept(history, pattern) != []
    ensures var entries, kept := Run(history), Kept(history, pattern);
      && ((exists e :: IsRowOf(entries, pattern, e) && e.taken == Observations(kept)) <==> ListedAlike(kept))
      && (ListedAlike(kept) ==> exists e :: OnlyRow(entries, pattern, kept, e))
  {
    var entries, kept := Run(history), Kept(history, pattern);
    RunKeepsLaw(history, pattern);
    if ListedAlike(kept) {
      var e :| OnlyRow(entries, pattern, kept, e);
      assert IsRowOf(entries, pattern, e);
    }
  }

  /** A second cast of a pattern that asks for another list than the first one wrote opens a second
      row: each takes one observation of two. */
  lemma TwoRows(c: SeedCast, d: SeedCast)
    requires Lists(c) && Lists(d) && c.o.pattern == d.o.pattern && d.asked != c.stored
    requires VerdictOf(c.o.adjusted) != Schema.Incoherent && VerdictOf(d.o.adjusted) != Schema.Incoherent
    ensures Run([c, d]) == [Entry(0, c.stored, [c.o]), Entry(1, d.stored, [d.o])]
  {
    var e, f := Entry(0, c.stored, [c.o]), Entry(1, d.stored, [d.o]);
    assert [c][..0] == [] && [c, d][..1] == [c];
    assert Run([c]) == Step([], 0, c) == [e];
    assert [e] + [f] == [e, f];
  }

  /** Such casts exist for every pattern of two names. */
  lemma TwoListings(a: string, b: string, o: Observation) returns (c: SeedCast, d: SeedCast)
    requires a != b && o.pattern == {a, b}
    ensures c == SeedCast(o, [a, b], [a, b]) && d == SeedCast(o, [b, a], [b, a])
    ensures Lists(c) && Lists(d) && d.asked != c.stored
  {
    c, d := SeedCast(o, [a, b], [a, b]), SeedCast(o, [b, a], [b, a]);
    assert d.asked[0] != c.stored[0];
  }

  // ---- A row that crystallizes ----

  function Repeated(o: Observation, n: nat): (h: seq<Observation>)
    ensures |h| == n && forall i :: 0 <= i < n ==> h[i] == o
  {
    if n == 0 then [] else Repeated(o, n - 1) + [o]
  }

  lemma {:induction false} RepeatedSums(o: Observation, n: nat)
    requires o.adjusted == 0.8
    ensures SumAdjusted(Repeated(o, n)) == 0.8 * n as real && SumHits(Repeated(o, n)) == n as real
  {
    if n > 0 {
      RepeatedSums(o, n - 1);
      SumsAppend(Repeated(o, n - 1), o);
    }
  }

  lemma TenClearTheBar(seed: GlyphSeed, o: Observation)
    requires o.adjusted == 0.8 && StatsOf(seed, Repeated(o, 10))
    requires seed.generation == 1 && !seed.crystallized && seed.effectClass.Some?
    ensures MayCrystallize(seed)
  {
    RepeatedSums(o, 10);
    CancelFactor(0.8, seed.mean, 10.0);
    CancelFactor(1.0, seed.coherence, 10.0);
  }

  lemma FewDoNotCrystallize(seed: GlyphSeed)
    requires seed.count < 10
    ensures !MayCrystallize(seed)
  {
    assert RequiredCount(Generation(seed)) >= 10;
  }

  /** The life of a row that took `n` equal results and has not crystallized. */
  ghost predicate Accumulating(life: Life, o: Observation, n: nat) {
    && life.past == [] && life.since == Repeated(o, n) && LifeExact(life)
    && !life.seed.crystallized && life.seed.effectClass.Some? && life.seed.pattern == o.pattern
  }

  lemma OneMore(before: Life, o: Observation, n: nat)
    requires Accumulating(before, o, n)
    ensures Accumulating(Life(Updated(before.seed, o), before.past, before.since + [o]), o, n + 1)
  {
    ExtendedLife(before, o, Repeated(o, n));
  }

  lemma FewStay(life: Life, o: Observation, compose: Compose, n: nat)
    requires Accumulating(life, o, n) && n < 10
    ensures Settle(life, compose) == life
  {
    FewDoNotCrystallize(life.seed);
  }

  /** Fewer than ten results never crystallize. */
  lemma {:induction false} StillAccumulating(o: Observation, compose: Compose, n: nat)
    requires 1 <= n < 10
    ensures Accumulating(LifeOf(Repeated(o, n), compose), o, n)
  {
    var taken := Repeated(o, n);
    if n == 1 {
      assert taken == [o];
      FreshIsExact(o);
      FewStay(Life(Fresh(o), [], [o]), o, compose, 1);
    } else {
      var before := LifeOf(Repeated(o, n - 1), compose);
      var life := Life(Updated(before.seed, o), before.past, before.since + [o]);
      StillAccumulating(o, compose, n - 1);
      OneMore(before, o, n - 1);
      FewStay(life, o, compose, n);
      LifeStep(taken, Repeated(o, n - 1), o, compose);
    }
  }

  lemma LifeStep(taken: seq<Observation>, front: seq<Observation>, o: Observation, compose: Compose)
    requires front != [] && taken == front + [o]
    ensures var before := LifeOf(front, compose);
      LifeOf(taken, compose) == Settle(Life(Updated(before.seed, o), before.past, before.since + [o]), compose)
  {
    assert taken[..|taken| - 1] == front;
  }

  /** Ten results of 0.8 crystallize, if the pattern composes: the row counts from 0 again, one
      generation on. */
  lemma TenthCrystallizes(o: Observation, compose: Compose)
    requires o.adjusted == 0.8 && compose(o.pattern).Some?
    ensures var life := LifeOf(Repeated(o, 10), compose);
      && life.seed.count == 0 && life.seed.mean == 0.0 && life.seed.coherence == 0.0
      && life.seed.generation == 2 && life.past == [Repeated(o, 10)] && life.since == []
  {
    var taken := Repeated(o, 10);
    var before := LifeOf(Repeated(o, 9), compose);
    StillAccumulating(o, compose, 9);
    OneMore(before, o, 9);
    TenClearTheBar(Updated(before.seed, o), o);
    LifeStep(taken, Repeated(o, 9), o, compose);
  }

  // ---- The table in the database ----

  datatype SeedRow = SeedRow(id: nat, listing: seq<string>, seed: GlyphSeed)

  /** The seed of a row, by what it took. */
  type Lives = seq<Observation> -> GlyphSeed

  /** What rows hold where patterns compose so. */
  function LivesUnder(compose: Compose): Lives {
    (taken: seq<Observation>) =>
      if taken == [] then GlyphSeed({}, 0, 0.0, 0.0, None, false, 1) else LifeOf(taken, compose).seed
  }

  function RowOf(e: Entry, lives: Lives): SeedRow {
    SeedRow(e.id, e.listing, lives(e.taken))
  }

  /** `rows` are the rows of `entries`. */
  ghost predicate Holds(rows: seq<SeedRow>, entries: seq<Entry>, lives: Lives) {
    |rows| == |entries| && forall i :: 0 <= i < |rows| ==> rows[i] == RowOf(entries[i], lives)
  }

  function Query(rows: seq<SeedRow>, asked: seq<string>): seq<SeedRow> {
    if rows == [] then []
    else
      var last := rows[|rows| - 1];
      Query(rows[..|rows| - 1], asked) + if last.listing == asked then [last] else []
  }

  function Deleted(rows: seq<SeedRow>, id: nat): seq<SeedRow> {
    if rows == [] then []
    else
      var last := rows[|rows| - 1];
      Deleted(rows[..|rows| - 1], id) + if last.id == id then [] else [last]
  }

  lemma HoldsAppend(rows: seq<SeedRow>, entries: seq<Entry>, lives: Lives, e: Entry)
    requires Holds(rows, entries, lives)
    ensures Holds(rows + [RowOf(e, lives)], entries + [e], lives)
  {
  }

  lemma {:induction false} QueryHolds(rows: seq<SeedRow>, entries: seq<Entry>, lives: Lives, asked: seq<string>)
    requires Holds(rows, entries, lives)
    ensures Holds(Query(rows, asked), Found(entries, asked), lives)
  {
    if rows != [] {
      var n := |rows| - 1;
      QueryHolds(rows[..n], entries[..n], lives, asked);
      if entries[n].listing == asked {
        HoldsAppend(Query(rows[..n], asked), Found(entries[..n], asked), lives, entries[n]);
      }
    }
  }

  lemma {:induction false} DeletedHolds(rows: seq<SeedRow>, entries: seq<Entry>, lives: Lives, id: nat)
    requires Holds(rows, entries, lives)
    ensures Holds(Deleted(rows, id), Without(entries, id), lives)
  {
    if rows != [] {
      var n := |rows| - 1;
      DeletedHolds(rows[..n], entries[..n], lives, id);
      assert rows[n] == RowOf(entries[n], lives);
      if entries[n].id != id {
        HoldsAppend(Deleted(rows[..n], id), Without(entries[..n], id), lives, entries[n]);
      }
    }
  }

  lemma {:induction false} DeletedNone(rows: seq<SeedRow>, id: nat)
    requires forall i :: 0 <= i < |rows| ==> rows[i].id != id
    ensures Deleted(rows, id) == rows
  {
    if rows != [] {
      DeletedNone(rows[..|rows| - 1], id);
    }
  }

  lemma {:induction false} DeletedOthers(rows: seq<SeedRow>, id: nat)
    ensures forall i :: 0 <= i < |Deleted(rows, id)| ==> Deleted(rows, id)[i].id != id
  {
    if rows != [] {
      DeletedOthers(rows[..|rows| - 1], id);
    }
  }

  lemma DeletedTwice(rows: seq<SeedRow>, row: SeedRow)
    ensures Deleted(Deleted(rows, row.id) + [row], row.id) == Deleted(rows, row.id)
  {
    var others := Deleted(rows, row.id);
    DeletedOthers(rows, row.id);
    DeletedNone(others, row.id);
    assert (others + [row])[..|others|] == others;
  }

  /** `rows` is the table that the casts of a history leave. */
  ghost predicate IsTable(rows: seq<SeedRow>, nextId: nat, history: seq<SeedCast>, compose: Compose) {
    && Holds(rows, Run(history), LivesUnder(compose)) && nextId == |history|
    && forall c :: c in history ==> Lists(c)
  }

  class SeedRepository {
    const compose: Compose
    var rows: seq<SeedRow>
    var nextId: nat
    ghost var history: seq<SeedCast>

    /** The table is the one the casts so far give. */
    ghost predicate Valid()
      reads this
    {
      IsTable(rows, nextId, history, compose)
    }

    constructor (compose: Compose)
      ensures Valid() && rows == [] && history == [] && this.compose == compose
    {
      this.compose := compose;
      rows, nextId, history := [], 0, [];
    }

    /** query_seeds for a pattern, by its list of names. */
    method QuerySeeds(asked: seq<string>) returns (r: seq<SeedRow>)
      ensures r == Query(rows, asked)
    {
      r := [];
      for i := 0 to |rows|
        invariant r == Query(rows[..i], asked)
      {
        assert rows[..i + 1][..i] == rows[..i];
        if rows[i].listing == asked {
          r := r + [rows[i]];
        }
      }
      assert rows[..|rows|] == rows;
    }

    /** write_seed, `INSERT OR REPLACE`: the row of that id goes, the new one comes last. */
    method WriteSeed(row: SeedRow)
      modifies this`rows
      ensures rows == Deleted(old(rows), row.id) + [row]
    {
      var kept: seq<SeedRow> := [];
      for i := 0 to |rows|
        invariant rows == old(rows) && kept == Deleted(rows[..i], row.id)
      {
        assert rows[..i + 1][..i] == rows[..i];
        if rows[i].id != row.id {
          kept := kept + [rows[i]];
        }
      }
      assert rows[..|rows|] == rows;
      rows := kept + [row];
    }

    /** Writes an accumulated seed, asks whether it crystallizes, and restarts it if so. */
    method WriteAndCrystallize(id: nat, listing: seq<string>, seed: GlyphSeed)
      returns (r: Result<Option<Vector>, string>)
      modifies this`rows
      ensures r == Crystallize(seed, compose)
      ensures rows == Deleted(old(rows), id) + [SeedRow(id, listing, Settled(seed, compose))]
    {
      WriteSeed(SeedRow(id, listing, seed));
      r := Crystallize(seed, compose);
      if r.Success? && r.value.Some? {
        WriteSeed(SeedRow(id, listing, Restarted(seed)));
        DeletedTwice(old(rows), SeedRow(id, listing, seed));
      }
    }

    /** Writes the accumulated seed back, if there is one. */
    method WriteBack(id: nat, listing: seq<string>, seed: Option<GlyphSeed>) returns (r: Result<Option<Vector>, string>)
      modifies this`rows
      ensures rows == WrittenBack(old(rows), id, listing, seed, compose) && r == Outcome(seed, compose)
    {
      r := Success(None);
      if seed.Some? {
        r := WriteAndCrystallize(id, listing, seed.value);
      }
    }

    /** Queries the pattern's rows and accumulates against them. */
    method AccumulateFound(c: SeedCast) returns (found: seq<SeedRow>, seed: Option<GlyphSeed>)
      requires Valid() && Lists(c)
      ensures found == Query(rows, c.asked) && seed == Candidate(rows, c)
    {
      found := QuerySeeds(c.asked);
      FirstIsMatched(rows, nextId, history, c, compose, found);
      seed := Accumulate(c.o, SeedsOf(found));
    }

    /** What will be written, and under which id. */
    method Prepare(c: SeedCast) returns (id: nat, seed: Option<GlyphSeed>)
      requires Valid() && Lists(c)
      ensures seed == Candidate(rows, c)
      ensures IsTable(WrittenBack(rows, id, c.stored, seed, compose), nextId + 1, history + [c], compose)
    {
      var found;
      found, seed := AccumulateFound(c);
      id := LastId(found, nextId);
      TableStep(rows, nextId, history, c, compose, seed, id);
    }

    /** What a cast tool does with a result: raises if the seed may crystallize but its pattern does
        not compose, after the accumulated row is written. */
    method Record(c: SeedCast) returns (r: Result<Option<Vector>, string>)
      requires Valid() && Lists(c)
      modifies this
      ensures Valid() && history == old(history) + [c]
      ensures r == Outcome(Candidate(old(rows), c), compose)
    {
      var id, seed := Prepare(c);
      r := WriteBack(id, c.stored, seed);
      history := history + [c];
      nextId := nextId + 1;
    }
  }

  /** The id of the last row found, or a fresh one. */
  function LastId(found: seq<SeedRow>, n: nat): nat {
    if found == [] then n else found[|found| - 1].id
  }

  /** What crystallizing a seed, if there is one, gives. */
  function Outcome(seed: Option<GlyphSeed>, compose: Compose): Result<Option<Vector>, string> {
    if seed == None then Success(None) else Crystallize(seed.value, compose)
  }

  /** The rows once a seed, if there is one, is written back. */
  function WrittenBack(rows: seq<SeedRow>, id: nat, listing: seq<string>, seed: Option<GlyphSeed>,
                       compose: Compose): seq<SeedRow>
  {
    if seed == None then rows else Deleted(rows, id) + [SeedRow(id, listing, Settled(seed.value, compose))]
  }

  /** The rows after a cast are those of the longer history. */
  lemma TableStep(rows: seq<SeedRow>, nextId: nat, history: seq<SeedCast>, c: SeedCast, compose: Compose,
                  seed: Option<GlyphSeed>, id: nat)
    requires IsTable(rows, nextId, history, compose) && Lists(c) && seed == Candidate(rows, c)
    requires id == LastId(Query(rows, c.asked), nextId)
    ensures IsTable(WrittenBack(rows, id, c.stored, seed, compose), nextId + 1, history + [c], compose)
  {
    RunFits(history);
    RunAppend(history, c);
    if seed == None {
      NothingWritten(rows, Run(history), |history|, c, compose);
    } else {
      SomethingWritten(rows, Run(history), |history|, c, compose, seed.value, id);
    }
  }

  lemma NothingWritten(rows: seq<SeedRow>, entries: seq<Entry>, n: nat, c: SeedCast, compose: Compose)
    requires Holds(rows, entries, LivesUnder(compose)) && Candidate(rows, c) == None
    ensures Step(entries, n, c) == entries
  {
    QueryHolds(rows, entries, LivesUnder(compose), c.asked);
  }

  lemma SomethingWritten(rows: seq<SeedRow>, entries: seq<Entry>, n: nat, c: SeedCast, compose: Compose,
                         seed: GlyphSeed, id: nat)
    requires Holds(rows, entries, LivesUnder(compose)) && AllFit(entries, n) && Candidate(rows, c) == Some(seed)
    requires id == LastId(Query(rows, c.asked), n)
    ensures Holds(Deleted(rows, id) + [SeedRow(id, c.stored, Settled(seed, compose))], Step(entries, n, c),
                  LivesUnder(compose))
  {
    CandidateLives(rows, entries, n, c, compose, seed);
    SameId(rows, entries, n, c, LivesUnder(compose));
    StepHolds(rows, entries, n, c, LivesUnder(compose));
  }

  function SeedsOf(rows: seq<SeedRow>): (seeds: seq<GlyphSeed>)
    ensures |seeds| == |rows| && forall i :: 0 <= i < |rows| ==> seeds[i] == rows[i].seed
  {
    seq(|rows|, i requires 0 <= i < |rows| => rows[i].seed)
  }

  /** What accumulate makes of a cast, if anything: it goes by the first row found. */
  function Candidate(rows: seq<SeedRow>, c: SeedCast): Option<GlyphSeed> {
    var found := Query(rows, c.asked);
    Next(if found == [] then None else Some(found[0].seed), c.o)
  }

  /** The rows found under a pattern's list are of that pattern, so accumulate takes the first. */
  lemma FoundMatches(found: seq<SeedRow>, entries: seq<Entry>, n: nat, compose: Compose, c: SeedCast)
    requires AllFit(entries, n) && Lists(c) && Holds(found, Found(entries, c.asked), LivesUnder(compose))
    ensures FirstMatch(SeedsOf(found), c.o.pattern) == if found == [] then None else Some(found[0].seed)
  {
    if found != [] {
      var first := Found(entries, c.asked)[0];
      assert first in Found(entries, c.asked);
      assert EntryFits(first, n) && first.taken[0] in first.taken;
      LifeIsExact(first.taken, compose);
    }
  }

  lemma FirstIsMatched(rows: seq<SeedRow>, nextId: nat, history: seq<SeedCast>, c: SeedCast, compose: Compose,
                       found: seq<SeedRow>)
    requires IsTable(rows, nextId, history, compose) && Lists(c) && found == Query(rows, c.asked)
    ensures Next(FirstMatch(SeedsOf(found), c.o.pattern), c.o) == Candidate(rows, c)
  {
    RunFits(history);
    QueryHolds(rows, Run(history), LivesUnder(compose), c.asked);
    FoundMatches(found, Run(history), nextId, compose, c);
  }

  /** What the entry a cast writes has taken. */
  function TakenBy(entries: seq<Entry>, c: SeedCast): seq<Observation> {
    var found := Found(entries, c.asked);
    (if found == [] then [] else found[0].taken) + [c.o]
  }

  /** The accumulated seed, settled, is the life of what the entry then has taken. */
  lemma CandidateLives(rows: seq<SeedRow>, entries: seq<Entry>, n: nat, c: SeedCast, compose: Compose, seed: GlyphSeed)
    requires Holds(rows, entries, LivesUnder(compose)) && AllFit(entries, n) && Candidate(rows, c) == Some(seed)
    ensures Settled(seed, compose) == LivesUnder(compose)(TakenBy(entries, c))
    ensures Found(entries, c.asked) != [] || VerdictOf(c.o.adjusted) != Schema.Incoherent
  {
    var found := Found(entries, c.asked);
    QueryHolds(rows, entries, LivesUnder(compose), c.asked);
    if found == [] {
      assert TakenBy(entries, c) == [c.o];
      LifeOfOne(c.o, compose);
    } else {
      assert found[0] in found;
      assert EntryFits(found[0], n);
      LifeOfMore(found[0].taken, c.o, compose);
    }
  }

  lemma NoSuchId(rows: seq<SeedRow>, entries: seq<Entry>, n: nat, lives: Lives)
    requires Holds(rows, entries, lives) && AllFit(entries, n)
    ensures Deleted(rows, n) == rows
  {
    forall i | 0 <= i < |rows| ensures rows[i].id != n {
      assert entries[i] in entries;
      assert EntryFits(entries[i], n);
    }
    DeletedNone(rows, n);
  }

  lemma HoldsOpened(rows: seq<SeedRow>, entries: seq<Entry>, n: nat, e: Entry, lives: Lives)
    requires Holds(rows, entries, lives) && AllFit(entries, n)
    ensures Holds(Deleted(rows, n) + [RowOf(e, lives)], entries + [e], lives)
  {
    NoSuchId(rows, entries, n, lives);
    HoldsAppend(rows, entries, lives, e);
  }

  lemma HoldsExtended(rows: seq<SeedRow>, entries: seq<Entry>, id: nat, e: Entry, lives: Lives)
    requires Holds(rows, entries, lives)
    ensures Holds(Deleted(rows, id) + [RowOf(e, lives)], Without(entries, id) + [e], lives)
  {
    DeletedHolds(rows, entries, lives, id);
    HoldsAppend(Deleted(rows, id), Without(entries, id), lives, e);
  }

  /** The id a cast writes under. */
  function WrittenId(entries: seq<Entry>, n: nat, c: SeedCast): nat {
    var found := Found(entries, c.asked);
    if found == [] then n else found[|found| - 1].id
  }

  lemma StepOf(entries: seq<Entry>, n: nat, c: SeedCast)
    requires Found(entries, c.asked) != [] || VerdictOf(c.o.adjusted) != Schema.Incoherent
    ensures var e := Entry(WrittenId(entries, n, c), c.stored, TakenBy(entries, c));
      Step(entries, n, c) == (if Found(entries, c.asked) == [] then entries else Without(entries, e.id)) + [e]
  {
    if Found(entries, c.asked) == [] {
      assert TakenBy(entries, c) == [c.o];
    }
  }

  lemma SameId(rows: seq<SeedRow>, entries: seq<Entry>, n: nat, c: SeedCast, lives: Lives)
    requires Holds(rows, entries, lives)
    ensures WrittenId(entries, n, c) == LastId(Query(rows, c.asked), n)
  {
    QueryHolds(rows, entries, lives, c.asked);
  }

  /** The rows a written seed leaves are those of the step. */
  lemma StepHolds(rows: seq<SeedRow>, entries: seq<Entry>, n: nat, c: SeedCast, lives: Lives)
    requires Holds(rows, entries, lives) && AllFit(entries, n)
    requires Found(entries, c.asked) != [] || VerdictOf(c.o.adjusted) != Schema.Incoherent
    ensures var e := Entry(WrittenId(entries, n, c), c.stored, TakenBy(entries, c));
      Holds(Deleted(rows, e.id) + [RowOf(e, lives)], Step(entries, n, c), lives)
  {
    var e := Entry(WrittenId(entries, n, c), c.stored, TakenBy(entries, c));
    StepOf(entries, n, c);
    if Found(entries, c.asked) == [] {
      HoldsOpened(rows, entries, n, e, lives);
    } else {
      HoldsExtended(rows, entries, e.id, e, lives);
    }
  }
}
