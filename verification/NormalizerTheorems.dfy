/**
 * From a provider envelope to a scored hand: what the normaliser hands over the validator takes,
 * what the validator takes is a duplicate-free action order with strategies of 10000 points, and
 * a published combo is scored on two such strategies.
 */
module NormalizerTheorems {
  import opened Common
  import opened Sets
  import opened Sums
  import opened Sorting
  import opened Apportionment
  import opened Normalizer
  import S = Scoring

  // ------------------------------------------------------ sums over objects

  /** Along an order that lists the keys once, the sum of the values is the sum of the vector. */
  lemma {:induction false} MapSumAlong(order: seq<string>, m: map<string, int>)
    requires Distinct(order) && m.Keys == set k | k in order
    ensures MapSum(m) == Sum(S.Along(order, m))
  {
    if order == [] {
      assert m == map[];
    } else {
      var rest := order[1..];
      assert order == [order[0]] + rest;
      MapSumWithout(m, order[0]);
      var n := m - {order[0]};
      assert n.Keys == set k | k in rest;
      MapSumAlong(rest, n);
      AlongRest(order, m);
      hide S.Along;
    }
  }

  lemma AlongRest(order: seq<string>, m: map<string, int>)
    requires order != [] && Distinct(order) && order[0] in m
    ensures var v := S.Along(order, m); v[0] == m[order[0]] && v[1..] == S.Along(order[1..], m - {order[0]})
  {
  }

  // ------------------------------------------------------------- validator

  lemma {:induction false} NoComboError(env: Envelope, combos: seq<string>)
    ensures FirstComboError(env, combos).None? <==> forall c :: c in combos ==> ComboError(env, c).None?
  {
    if combos != [] {
      var n := |combos| - 1;
      NoComboError(env, combos[..n]);
      assert combos == combos[..n] + [combos[n]];
    }
  }

  /** As many keys as ids, all of them ids: then the ids are distinct and the keys are all of them. */
  lemma KeysAreTheIds(m: map<string, int>, ids: seq<string>)
    requires |m| == |ids| && forall id :: id in m ==> id in ids
    ensures Distinct(ids) && m.Keys == set id | id in ids
  {
    var all := set id | id in ids;
    DistinctSize(ids);
    assert m.Keys <= all;
    assert all == m.Keys + (all - m.Keys);
    SubsetSize(m.Keys, all);
  }

  lemma VerdictGives(env: Envelope)
    requires Verdict(env).None?
    ensures InRange(env) && env.actionIds == env.actionOrder && FirstComboError(env, Dedup(env.selectable)).None?
    ensures env.byCombo.Keys == set c | c in env.selectable
  {
  }

  lemma FrequencyInRange(env: Envelope, combo: string, id: string)
    requires InRange(env) && combo in env.byCombo && id in env.byCombo[combo].frequencies
    ensures IsBasis(env.byCombo[combo].frequencies[id])
  {
  }

  /**
   * An accepted envelope has a duplicate-free action order, and every selectable combo a strategy
   * along it: whole points, none negative, 10000 in all.
   */
  lemma AcceptedEnvelopesAreSound(env: Envelope, combo: string)
    requires Verdict(env).None? && combo in env.selectable
    ensures env.actionIds == env.actionOrder && Distinct(env.actionOrder)
    ensures combo in env.byCombo && IsActive(env.byCombo[combo])
    ensures env.byCombo[combo].frequencies.Keys == (set id | id in env.actionOrder)
    ensures S.IsStrategy(S.Along(env.actionOrder, env.byCombo[combo].frequencies))
    ensures env.byCombo.Keys == set c | c in env.selectable
  {
    VerdictGives(env);
    hide Verdict;
    NoComboError(env, Dedup(env.selectable));
    assert ComboError(env, combo).None?;
    var f := env.byCombo[combo].frequencies;
    forall id | id in f ensures IsBasis(f[id]) {
      FrequencyInRange(env, combo, id);
    }
    hide InRange, FirstComboError, IsActive, Dedup;
    KeysAreTheIds(f, env.actionOrder);
    AlongIsStrategy(env.actionOrder, f);
  }

  lemma AlongIsStrategy(order: seq<string>, f: map<string, int>)
    requires Distinct(order) && f.Keys == (set id | id in order) && MapSum(f) == 10000
    requires forall id :: id in f ==> IsBasis(f[id])
    ensures S.IsStrategy(S.Along(order, f))
  {
    MapSumAlong(order, f);
    hide MapSum, Sum;
    assert forall i :: 0 <= i < |order| ==> order[i] in f.Keys;
  }

  /** The reach that a combo needs to be scored: its own, or else its weight. */
  predicate PlaysEnough(s: Strategy) {
    match s.rawReach case Some(reach) => reach >= 0.000000001 case None => s.reachWeight >= 0.000000001
  }

  /** A strategy on exactly the listed actions, each listed once, for a combo that plays often enough. */
  ghost predicate IsSound(s: Strategy, order: seq<string>) {
    && Distinct(order) && s.frequencies.Keys == (set id | id in order)
    && S.IsStrategy(S.Along(order, s.frequencies)) && PlaysEnough(s)
  }

  predicate BoundedFrequencies(s: Strategy) {
    forall id :: id in s.frequencies ==> 0 <= s.frequencies[id] <= 10000
  }

  /** The validator's combo checks accept exactly envelopes of sound strategies for exactly the selectable combos. */
  lemma AcceptedExactly(env: Envelope)
    ensures Verdict(env).None? <==>
      && env.actionIds == env.actionOrder
      && env.byCombo.Keys == (set c | c in env.selectable)
      && (forall c :: c in env.byCombo ==>
            BoundedFrequencies(env.byCombo[c]) && IsSound(env.byCombo[c], env.actionOrder))
  {
    if Verdict(env).None? {
      forall c | c in env.byCombo
        ensures BoundedFrequencies(env.byCombo[c]) && IsSound(env.byCombo[c], env.actionOrder)
      {
        AcceptedEnvelopesAreSound(env, c);
        forall id | id in env.byCombo[c].frequencies ensures IsBasis(env.byCombo[c].frequencies[id]) {
          FrequencyInRange(env, c, id);
        }
        hide Verdict, S.Along;
      }
    } else if env.actionIds == env.actionOrder && env.byCombo.Keys == (set c | c in env.selectable)
      && (forall c :: c in env.byCombo ==>
            BoundedFrequencies(env.byCombo[c]) && IsSound(env.byCombo[c], env.actionOrder))
    {
      forall c | c in Dedup(env.selectable) ensures ComboError(env, c).None? {
        SoundPasses(env, c);
      }
      NoComboError(env, Dedup(env.selectable));
    }
  }

  lemma SoundPasses(env: Envelope, c: string)
    requires c in env.byCombo && env.actionIds == env.actionOrder && IsSound(env.byCombo[c], env.actionOrder)
    ensures ComboError(env, c).None?
  {
    var f := env.byCombo[c].frequencies;
    MapSumAlong(env.actionOrder, f);
    DistinctSize(env.actionOrder);
    assert f.Keys == set id | id in env.actionOrder;
    hide S.Along, MapSum;
  }

  // ------------------------------------------------------------ normaliser

  lemma {:induction false} ResolveAllMeaning(byCombo: map<string, Strategy>, combos: seq<string>)
    requires ResolveAll(byCombo, combos).Ok?
    ensures var r := ResolveAll(byCombo, combos).value;
      |r| == |combos| && forall i :: 0 <= i < |combos| ==> ResolveCombo(byCombo, combos[i]) == Ok(r[i])
  {
    hide ResolveCombo;
    if combos != [] {
      var n := |combos| - 1;
      ResolveAllMeaning(byCombo, combos[..n]);
      var done, c := ResolveAll(byCombo, combos[..n]).value, ResolveCombo(byCombo, combos[n]).value;
      assert ResolveAll(byCombo, combos).value == done + [c];
      hide ResolveAll;
      assert forall i :: 0 <= i < n ==> combos[..n][i] == combos[i] && (done + [c])[i] == done[i];
    }
  }

  /** The range entry of a combo, under either order of its cards. */
  function RangeReach(p: Provider, c: string): Option<Reach> {
    if c in p.heroReached then Some(p.heroReached[c])
    else if |c| > 2 && c[2..] + c[..2] in p.heroReached then Some(p.heroReached[c[2..] + c[..2]])
    else None
  }

  /**
   * The strategy stored for a combo is made of the combo's own entry: its frequencies apportioned,
   * its reaches, and where it has none those of the hero's range.
   */
  predicate MadeFrom(p: Provider, c: string, raw: RawStrategy, s: Strategy) {
    && raw.RawStrategy? && raw.frequencies.Some?
    && Frequencies(raw.frequencies, p.actionOrder) == Ok(s.frequencies)
    && (raw.rawReach.Some? ==> s.rawReach == raw.rawReach)
    && (raw.rawReach.None? ==> s.rawReach == match RangeReach(p, c) case Some(r) => r.rawReach case None => None)
    && (raw.reachWeight.Some? ==> s.reachWeight == raw.reachWeight.value)
    && (raw.reachWeight.None? ==>
          s.reachWeight == match RangeReach(p, c) case Some(r) => r.normalizedReach case None => 0.0)
  }

  /** The entry of a combo; of several the last counts. */
  predicate IsEntryOf(entries: seq<(string, RawStrategy)>, c: string, i: nat) {
    i < |entries| && entries[i].0 == c && forall j :: i < j < |entries| ==> entries[j].0 != c
  }

  ghost predicate ComesFromItsEntry(p: Provider, entries: seq<(string, RawStrategy)>, c: string, s: Strategy) {
    exists i: nat :: IsEntryOf(entries, c, i) && MadeFrom(p, c, entries[i].1, s)
  }

  lemma NormalizedEntry(p: Provider, c: string, raw: RawStrategy)
    ensures NormalizeStrategy(p, c, raw).Ok? <==> raw.RawStrategy? && Frequencies(raw.frequencies, p.actionOrder).Ok?
    ensures NormalizeStrategy(p, c, raw).Ok? ==> MadeFrom(p, c, raw, NormalizeStrategy(p, c, raw).value)
  {
    hide Weights, Leftover, RemainderOrder, Quotas, FromEntries, RealSum;
  }

  /** Normalising the entries works exactly when it works for each; each combo then has what its entry gives. */
  lemma {:induction false} StrategiesComeFromEntries(p: Provider, entries: seq<(string, RawStrategy)>)
    ensures NormalizeStrategies(p, entries).Ok? <==>
      forall i :: 0 <= i < |entries| ==> NormalizeStrategy(p, entries[i].0, entries[i].1).Ok?
    ensures NormalizeStrategies(p, entries).Ok? ==>
      var m := NormalizeStrategies(p, entries).value;
      && (forall c :: c in m ==> ComesFromItsEntry(p, entries, c, m[c]))
      && (forall i :: 0 <= i < |entries| ==> entries[i].0 in m)
  {
    hide NormalizeStrategy, MadeFrom, IsEntryOf;
    if entries != [] {
      var n := |entries| - 1;
      var rest := entries[..n];
      assert entries == rest + [entries[n]];
      StrategiesComeFromEntries(p, rest);
      if NormalizeStrategies(p, entries).Ok? {
        var m, last := NormalizeStrategies(p, rest).value, NormalizeStrategy(p, entries[n].0, entries[n].1).value;
        assert NormalizeStrategies(p, entries).value == m[entries[n].0 := last];
        hide NormalizeStrategies;
        forall c | c in m && c != entries[n].0 ensures ComesFromItsEntry(p, entries, c, m[c]) {
          EntryStays(p, rest, entries[n], c, m[c]);
        }
        LastEntry(p, rest, entries[n], last);
      }
    }
  }

  lemma EntryStays(
      p: Provider, rest: seq<(string, RawStrategy)>, last: (string, RawStrategy), c: string, s: Strategy)
    requires ComesFromItsEntry(p, rest, c, s) && c != last.0
    ensures ComesFromItsEntry(p, rest + [last], c, s)
  {
    var i: nat :| IsEntryOf(rest, c, i) && MadeFrom(p, c, rest[i].1, s);
    assert IsEntryOf(rest + [last], c, i);
  }

  lemma LastEntry(p: Provider, rest: seq<(string, RawStrategy)>, last: (string, RawStrategy), s: Strategy)
    requires NormalizeStrategy(p, last.0, last.1) == Ok(s)
    ensures ComesFromItsEntry(p, rest + [last], last.0, s)
  {
    NormalizedEntry(p, last.0, last.1);
    hide NormalizeStrategy, MadeFrom;
    assert IsEntryOf(rest + [last], last.0, |rest|);
  }

  /** The steps of a normalisation that returns. */
  lemma NormalizeSteps(p: Provider, env: Envelope)
    requires Normalize(p) == Ok(env)
    ensures NormalizeStrategies(p, p.entries).Ok?
    ensures var byCombo := NormalizeStrategies(p, p.entries).value;
      && ResolveAll(byCombo, RequestedCombos(p)).Ok?
      && env.selectable == Dedup(ResolveAll(byCombo, RequestedCombos(p)).value) != []
      && env.byCombo == (map c | c in env.selectable && c in byCombo :: byCombo[c])
      && FindVariant(env.byCombo, RequestedFeatured(p)) == Some(env.featured)
      && env.actionIds == ActionIds(p.legalActions) && env.actionOrder == p.actionOrder
  {
  }

  /** What the normaliser promises of the combos when it returns. */
  lemma NormalizedCombos(p: Provider, env: Envelope)
    requires Normalize(p) == Ok(env)
    ensures Distinct(env.selectable) && env.selectable != [] && env.byCombo.Keys == set c | c in env.selectable
    ensures env.featured in env.selectable && env.featured in ComboVariants(RequestedFeatured(p))
    ensures forall c :: c in env.byCombo ==> PlaysEnough(env.byCombo[c])
    ensures forall c :: c in env.byCombo ==> ComesFromItsEntry(p, p.entries, c, env.byCombo[c])
    ensures forall c :: c in RequestedCombos(p) ==> FindVariant(env.byCombo, c).Some?
  {
    hide Normalize, NormalizeStrategies, RequestedCombos, ResolveAll, Frequencies, IsCombo, ComesFromItsEntry,
      RequestedFeatured, Dedup;
    NormalizeSteps(p, env);
    var byCombo, requested := NormalizeStrategies(p, p.entries).value, RequestedCombos(p);
    var resolved := ResolveAll(byCombo, requested).value;
    ResolveAllMeaning(byCombo, requested);
    forall c | c in resolved ensures c in byCombo && IsActive(byCombo[c]) {
      var i :| 0 <= i < |resolved| && resolved[i] == c;
      assert ResolveCombo(byCombo, requested[i]) == Ok(c);
    }
    StrategiesComeFromEntries(p, p.entries);
    forall c | c in requested ensures FindVariant(env.byCombo, c).Some? {
      var i :| 0 <= i < |requested| && requested[i] == c;
      assert ResolveCombo(byCombo, c) == Ok(resolved[i]);
      assert resolved[i] in resolved;
    }
  }

  /** The last two errors of the normaliser cannot happen: the featured combo was asked for, so it was resolved. */
  lemma FeaturedIsAlwaysSelectable(p: Provider)
    ensures Normalize(p) != Err(EmptyCatalog) && Normalize(p) != Err(FeaturedNotSelectable)
  {
    hide IsCombo, IsActive, Frequencies;
    NoLateErrors(p, p.entries);
    var strategies, requested := NormalizeStrategies(p, p.entries), RequestedCombos(p);
    hide NormalizeStrategies;
    if strategies.Ok? {
      FeaturedIsRequested(p);
      ResolveErrors(strategies.value, requested);
      if ResolveAll(strategies.value, requested).Ok? {
        FeaturedIsStored(strategies.value, requested);
      }
      hide RequestedCombos, ResolveAll, Dedup;
    }
  }

  lemma FeaturedIsRequested(p: Provider)
    ensures RequestedCombos(p) != [] && RequestedCombos(p)[0] == RequestedFeatured(p)
  {
  }

  /** The first combo asked for is found among the stored ones. */
  lemma FeaturedIsStored(byCombo: map<string, Strategy>, requested: seq<string>)
    requires requested != [] && ResolveAll(byCombo, requested).Ok?
    ensures var selectable := Dedup(ResolveAll(byCombo, requested).value);
      && selectable != []
      && FindVariant(map c | c in selectable && c in byCombo :: byCombo[c], requested[0]).Some?
  {
    ResolveAllMeaning(byCombo, requested);
    hide ResolveAll, IsCombo, IsActive;
    var resolved := ResolveAll(byCombo, requested).value;
    assert ResolveCombo(byCombo, requested[0]) == Ok(resolved[0]);
    assert resolved[0] in Dedup(resolved);
  }

  predicate IsCard(rank: char, suit: char) {
    && rank in {'2', '3', '4', '5', '6', '7', '8', '9', 'T', 'J', 'Q', 'K', 'A'}
    && suit in {'c', 'd', 'h', 's'}
  }

  predicate TwoCards(c: string) { |c| == 4 && IsCard(c[0], c[1]) && IsCard(c[2], c[3]) }

  lemma CombosAreTwoCards(c: string)
    ensures IsCombo(c) <==> TwoCards(c)
  {
    if |c| == 4 {
      CardsAre(c, 0);
      CardsAre(c, 2);
    }
  }

  lemma CardsAre(c: string, i: nat)
    requires i + 1 < |c|
    ensures CardAt(c, i) <==> IsCard(c[i], c[i + 1])
  {
    var ranks, suits := "23456789TJQKA", "cdhs";
    assert ranks[0] == '2' && ranks[1] == '3' && ranks[2] == '4' && ranks[3] == '5' && ranks[4] == '6';
    assert ranks[5] == '7' && ranks[6] == '8' && ranks[7] == '9' && ranks[8] == 'T' && ranks[9] == 'J';
    assert ranks[10] == 'Q' && ranks[11] == 'K' && ranks[12] == 'A';
    assert suits[0] == 'c' && suits[1] == 'd' && suits[2] == 'h' && suits[3] == 's';
  }

  /** The combo that the provider features: the named one, or the one of the first entry. */
  predicate Features(p: Provider, c: string) {
    match p.featured case Some(named) => c == named case None => p.entries != [] && c == p.entries[0].0
  }

  /** The combos asked for: the featured one, and those listed or else all that have an entry. */
  predicate AsksFor(p: Provider, c: string) {
    || Features(p, c)
    || (if p.selectable.Some? then c in p.selectable.value else exists i :: 0 <= i < |p.entries| && p.entries[i].0 == c)
  }

  lemma RequestedAre(p: Provider)
    requires RequestedFeatured(p) != ""
    ensures forall c :: c in RequestedCombos(p) <==> AsksFor(p, c)
  {
    var more := if p.selectable.Some? then p.selectable.value else Keys(p.entries);
    var all := [RequestedFeatured(p)] + more;
    hide Dedup;
    forall c ensures c in all <==> AsksFor(p, c) {
      if c in more {
        var i :| 0 <= i < |more| && more[i] == c;
        assert all[i + 1] == c;
      }
      if p.selectable.None? && exists i :: 0 <= i < |p.entries| && p.entries[i].0 == c {
        var i :| 0 <= i < |p.entries| && p.entries[i].0 == c;
        assert Keys(p.entries)[i] == c;
      }
    }
  }

  /** The reach that decides: the entry's own, the range's, the entry's weight, the range's weight, or zero. */
  function DecidingReach(p: Provider, c: string, raw: RawStrategy): real
    requires raw.RawStrategy?
  {
    var range := RangeReach(p, c);
    if raw.rawReach.Some? then raw.rawReach.value
    else if range.Some? && range.value.rawReach.Some? then range.value.rawReach.value
    else if raw.reachWeight.Some? then raw.reachWeight.value
    else if range.Some? then range.value.normalizedReach
    else 0.0
  }

  predicate HasEntry(p: Provider, c: string) { exists i :: 0 <= i < |p.entries| && p.entries[i].0 == c }

  /** Two cards with an entry, under this order of the cards or else the other, that is played often enough. */
  ghost predicate Playable(p: Provider, c: string) {
    TwoCards(c) &&
    var name := if HasEntry(p, c) then c else c[2..] + c[..2];
    exists i: nat :: IsEntryOf(p.entries, name, i) && p.entries[i].1.RawStrategy?
      && DecidingReach(p, name, p.entries[i].1) >= 0.000000001
  }

  lemma StoredIsPlayed(p: Provider, c: string, s: Strategy, i: nat)
    requires ComesFromItsEntry(p, p.entries, c, s) && IsEntryOf(p.entries, c, i)
    ensures p.entries[i].1.RawStrategy? && (IsActive(s) <==> DecidingReach(p, c, p.entries[i].1) >= 0.000000001)
  {
    hide Frequencies;
    var j: nat :| IsEntryOf(p.entries, c, j) && MadeFrom(p, c, p.entries[j].1, s);
    assert i == j;
  }

  lemma SomeEntryIsLast(entries: seq<(string, RawStrategy)>, c: string) returns (i: nat)
    requires exists k :: 0 <= k < |entries| && entries[k].0 == c
    ensures IsEntryOf(entries, c, i)
  {
    i := |entries| - 1;
    while entries[i].0 != c
      invariant i < |entries| && forall j :: i < j < |entries| ==> entries[j].0 != c
      decreases i
    {
      i := i - 1;
    }
  }

  lemma ResolvesExactly(p: Provider, byCombo: map<string, Strategy>, c: string)
    requires forall x :: x in byCombo ==> ComesFromItsEntry(p, p.entries, x, byCombo[x])
    requires forall i :: 0 <= i < |p.entries| ==> p.entries[i].0 in byCombo
    ensures ResolveCombo(byCombo, c).Ok? <==> Playable(p, c)
  {
    CombosAreTwoCards(c);
    assert TwoCards(c) ==> |c| == 4;
    hide IsCombo, IsActive, TwoCards, MadeFrom, DecidingReach;
    if IsCombo(c) {
      var name := if HasEntry(p, c) then c else c[2..] + c[..2];
      assert name in byCombo ==> HasEntry(p, name);
      assert HasEntry(p, c) <==> c in byCombo;
      if HasEntry(p, name) {
        var i := SomeEntryIsLast(p.entries, name);
        StoredIsPlayed(p, name, byCombo[name], i);
      }
    }
  }

  /**
   * Normalisation returns an envelope exactly when a combo is featured, every entry is a strategy
   * with usable frequencies, and every combo asked for can be played.
   */
  lemma NormalizeSucceedsExactly(p: Provider)
    ensures Normalize(p).Ok? <==>
      && (exists c :: Features(p, c) && c != "")
      && (forall i :: 0 <= i < |p.entries| ==>
            p.entries[i].1.RawStrategy? && Frequencies(p.entries[i].1.frequencies, p.actionOrder).Ok?)
      && (forall c :: AsksFor(p, c) ==> Playable(p, c))
  {
    FeaturedIsAlwaysSelectable(p);
    StrategiesComeFromEntries(p, p.entries);
    forall i | 0 <= i < |p.entries|
      ensures NormalizeStrategy(p, p.entries[i].0, p.entries[i].1).Ok?
        <==> p.entries[i].1.RawStrategy? && Frequencies(p.entries[i].1.frequencies, p.actionOrder).Ok?
    {
      NormalizedEntry(p, p.entries[i].0, p.entries[i].1);
    }
    if RequestedFeatured(p) != "" {
      assert Features(p, RequestedFeatured(p));
    }
    assert (exists c :: Features(p, c) && c != "") <==> RequestedFeatured(p) != "";
    hide NormalizeStrategy, NormalizeStrategies, Frequencies, RequestedFeatured, RequestedCombos, ResolveAll,
      ResolveCombo, Playable, AsksFor, ComesFromItsEntry, Dedup, FindVariant, Features;
    var strategies := NormalizeStrategies(p, p.entries);
    if RequestedFeatured(p) != "" && strategies.Ok? {
      RequestedAre(p);
      ResolvesAllExactly(p, strategies.value, RequestedCombos(p));
    }
  }

  lemma ResolvesAllExactly(p: Provider, byCombo: map<string, Strategy>, combos: seq<string>)
    requires forall x :: x in byCombo ==> ComesFromItsEntry(p, p.entries, x, byCombo[x])
    requires forall i :: 0 <= i < |p.entries| ==> p.entries[i].0 in byCombo
    ensures ResolveAll(byCombo, combos).Ok? <==> forall c :: c in combos ==> Playable(p, c)
  {
    hide ResolveCombo, Playable;
    forall c ensures ResolveCombo(byCombo, c).Ok? <==> Playable(p, c) { ResolvesExactly(p, byCombo, c); }
    if ResolveAll(byCombo, combos).Ok? {
      ResolveAllMeaning(byCombo, combos);
      hide ResolveAll;
      forall c | c in combos ensures Playable(p, c) {
        var i :| 0 <= i < |combos| && combos[i] == c;
      }
    } else if forall c :: c in combos ==> Playable(p, c) {
      ResolveAllSucceeds(byCombo, combos);
    }
  }

  lemma {:induction false} NoLateErrors(p: Provider, entries: seq<(string, RawStrategy)>)
    ensures var r := NormalizeStrategies(p, entries); r.Err? ==> r.error.MalformedStrategy? || r.error.BadFrequencies?
  {
    if entries != [] {
      NoLateErrors(p, entries[..|entries| - 1]);
    }
  }

  lemma {:induction false} ResolveErrors(byCombo: map<string, Strategy>, combos: seq<string>)
    ensures var r := ResolveAll(byCombo, combos); r.Err? ==>
      r.error.InvalidCombo? || r.error.NoExactStrategy? || r.error.InactiveCombo?
  {
    if combos != [] {
      ResolveErrors(byCombo, combos[..|combos| - 1]);
    }
  }

  /** Apportioned frequencies pass the checks on a strategy. */
  lemma ApportionedPasses(order: seq<string>, raw: map<string, Raw>, f: map<string, int>)
    requires Distinct(order) && Frequencies(Some(raw), order) == Ok(f)
    ensures f.Keys == (set k | k in order) && |f| == |order| && MapSum(f) == 10000 && S.IsStrategy(S.Along(order, f))
  {
    var w := Weights(raw, order).value;
    FrequenciesAreBasisPoints(raw, order, w);
    DistinctSize(order);
    var a := seq(|order|, i requires 0 <= i < |order| => f[order[i]]);
    assert S.Along(order, f) == a;
    MapSumAlong(order, f);
  }

  lemma {:induction false} FromEntriesValues(keys: seq<string>, values: seq<int>)
    requires |keys| == |values|
    ensures forall k :: k in FromEntries(keys, values) ==> FromEntries(keys, values)[k] in values
  {
    if keys != [] {
      FromEntriesValues(keys[..|keys| - 1], values[..|keys| - 1]);
    }
  }

  /** Every apportioned frequency is within the schema's bound, even along an order with repeated ids. */
  lemma ApportionedInRange(order: seq<string>, raw: map<string, Raw>, f: map<string, int>)
    requires Frequencies(Some(raw), order) == Ok(f)
    ensures forall id :: id in f ==> IsBasis(f[id])
  {
    var q := Quotas(Weights(raw, order).value);
    QuotasTotal(Weights(raw, order).value);
    ApportionIsLargestRemainder(q);
    var a := Apportion(q);
    FromEntriesValues(order, a);
    forall i | 0 <= i < |a| ensures IsBasis(a[i]) {
      S.PartBelowTotal(a, i);
    }
  }

  lemma FrequenciesOf(p: Provider, c: string, s: Strategy) returns (raw: map<string, Raw>)
    requires ComesFromItsEntry(p, p.entries, c, s)
    ensures Frequencies(Some(raw), p.actionOrder) == Ok(s.frequencies)
  {
    hide Frequencies;
    var i: nat :| IsEntryOf(p.entries, c, i) && MadeFrom(p, c, p.entries[i].1, s);
    raw := p.entries[i].1.frequencies.value;
  }

  lemma ComboPasses(env: Envelope, c: string, raw: map<string, Raw>)
    requires c in env.byCombo && IsActive(env.byCombo[c]) && env.actionIds == env.actionOrder
    requires Distinct(env.actionOrder)
    requires Frequencies(Some(raw), env.actionOrder) == Ok(env.byCombo[c].frequencies)
    ensures ComboError(env, c).None?
  {
    hide Frequencies, S.Along, IsActive;
    ApportionedPasses(env.actionOrder, raw, env.byCombo[c].frequencies);
  }

  /**
   * Of the validator's combo checks, only the one on the action order can reject what the
   * normaliser made; it passes exactly for a0, a1, ...
   */
  lemma NormalizedIsAcceptedExactly(p: Provider, env: Envelope)
    requires Normalize(p) == Ok(env)
    ensures Verdict(env).None? <==> p.actionOrder == ActionIds(p.legalActions)
    ensures Verdict(env).Some? ==> Verdict(env) == Some(ActionOrderMismatch)
  {
    hide Normalize, NormalizeStrategies, ResolveAll, ActionIds, RequestedCombos, RequestedFeatured, Dedup, Frequencies,
      S.Along, ComboError;
    NormalizedCombos(p, env);
    NormalizeSteps(p, env);
    forall c | c in env.byCombo
      ensures forall id :: id in env.byCombo[c].frequencies ==> IsBasis(env.byCombo[c].frequencies[id])
    {
      var raw := FrequenciesOf(p, c, env.byCombo[c]);
      ApportionedInRange(p.actionOrder, raw, env.byCombo[c].frequencies);
    }
    if env.actionIds == env.actionOrder {
      ActionIdsDiffer(p.legalActions);
      forall c | c in Dedup(env.selectable) ensures ComboError(env, c).None? {
        var raw := FrequenciesOf(p, c, env.byCombo[c]);
        ComboPasses(env, c, raw);
      }
      NoComboError(env, Dedup(env.selectable));
    }
  }

  // ---------------------------------------------------------------- lookup

  /** `resolveExactComboStrategy`. */
  function ResolveExact(byCombo: map<string, Strategy>, combo: string): Option<Strategy> {
    var found := FindVariant(byCombo, combo);
    if found.Some? then Some(byCombo[found.value]) else None
  }

  lemma SwapTwice(combo: string)
    requires |combo| == 4
    ensures Swap(Swap(combo)) == combo && |Swap(combo)| == 4
  {
    assert combo == combo[..2] + combo[2..];
  }

  /**
   * Both card orders find the same strategy exactly when the two spellings are not stored with
   * different strategies.
   */
  lemma LookupIgnoresCardOrderExactly(byCombo: map<string, Strategy>, combo: string)
    requires |combo| == 4
    ensures ResolveExact(byCombo, combo) == ResolveExact(byCombo, Swap(combo))
      <==> !(combo in byCombo && Swap(combo) in byCombo && byCombo[combo] != byCombo[Swap(combo)])
  {
    SwapTwice(combo);
  }

  lemma {:induction false} ResolveAllSucceeds(byCombo: map<string, Strategy>, combos: seq<string>)
    requires forall c :: c in combos ==> ResolveCombo(byCombo, c).Ok?
    ensures ResolveAll(byCombo, combos).Ok?
  {
    if combos != [] {
      ResolveAllSucceeds(byCombo, combos[..|combos| - 1]);
    }
  }

  function Pure(id: string, other: string): RawStrategy {
    RawStrategy(Some(1.0), Some(1.0), Some(map[id := Finite(10000.0), other := Finite(0.0)]))
  }

  /** A provider that lists one hand under both spellings, always betting under one and never under the other. */
  function TwoSpellings(): Provider {
    Provider([("AhKh", Pure("a0", "a1")), ("KhAh", Pure("a1", "a0"))], map[], Some("AhKh"), None, ["a0", "a1"], 2)
  }

  lemma TwoEntries(v: seq<int>)
    requires |v| == 2
    ensures FromEntries(["a0", "a1"], v) == map["a0" := v[0], "a1" := v[1]]
  {
    var order := ["a0", "a1"];
    assert order[..1] == ["a0"] && v[..1] == [v[0]] && order[..1][..0] == [] && v[..1][..0] == [];
    assert FromEntries(order[..1], v[..1]) == map["a0" := v[0]];
  }

  /** Weights that are basis points already come through as they are. */
  lemma BasisPointsComeThrough(raw: map<string, Raw>, order: seq<string>, v: seq<int>)
    requires (forall i :: 0 <= i < |v| ==> v[i] >= 0) && Sum(v) == 10000 && |order| == |v|
    requires Weights(raw, order) == Ok(AsReals(v))
    ensures Frequencies(Some(raw), order) == Ok(FromEntries(order, v))
  {
    BasisPointsUnchanged(v, []);
    var w := AsReals(v);
    assert RealSum(w) > 0.0;
    QuotasTotal(w);
    hide RealSum, Quotas, Topped, Weights;
    ApportionIsLargestRemainder(Quotas(w));
    BasisPointsUnchanged(v, Apportion(Quotas(w)));
  }

  lemma PureWeights(id: string, other: string)
    requires (id == "a0" && other == "a1") || (id == "a1" && other == "a0")
    ensures Weights(Pure(id, other).frequencies.value, ["a0", "a1"])
      == Ok(AsReals(if id == "a0" then [10000, 0] else [0, 10000]))
  {
    var raw, order := Pure(id, other).frequencies.value, ["a0", "a1"];
    var v := if id == "a0" then [10000, 0] else [0, 10000];
    hide Weights;
    assert order[0] == "a0" && order[1] == "a1";
    assert RawAt(raw, "a0") == Finite(v[0] as real) && RawAt(raw, "a1") == Finite(v[1] as real);
    assert Weights(raw, order).Ok? && Weights(raw, order).value == AsReals(v);
  }

  /** A pure strategy comes through the apportionment as it is. */
  lemma PureFrequencies(id: string, other: string)
    requires (id == "a0" && other == "a1") || (id == "a1" && other == "a0")
    ensures Frequencies(Pure(id, other).frequencies, ["a0", "a1"]) == Ok(map[id := 10000, other := 0])
  {
    var v := if id == "a0" then [10000, 0] else [0, 10000];
    assert v[1..][1..] == [] && Sum(v[1..]) == v[1];
    TwoEntries(v);
    PureWeights(id, other);
    hide Frequencies, Weights, FromEntries;
    BasisPointsComeThrough(Pure(id, other).frequencies.value, ["a0", "a1"], v);
    assert map["a0" := v[0], "a1" := v[1]] == map[id := 10000, other := 0];
  }

  lemma TwoSpellingsStored()
    ensures var r := NormalizeStrategies(TwoSpellings(), TwoSpellings().entries);
      r == Ok(map["AhKh" := Strategy(Some(1.0), 1.0, map["a0" := 10000, "a1" := 0]),
                  "KhAh" := Strategy(Some(1.0), 1.0, map["a1" := 10000, "a0" := 0])])
  {
    PureFrequencies("a0", "a1");
    PureFrequencies("a1", "a0");
    hide Frequencies;
    var p := TwoSpellings();
    assert p.entries[..1] == [p.entries[0]] && p.entries[..1][..0] == [];
    var ace := Strategy(Some(1.0), 1.0, map["a0" := 10000, "a1" := 0]);
    var king := Strategy(Some(1.0), 1.0, map["a1" := 10000, "a0" := 0]);
    assert NormalizeStrategy(p, "AhKh", Pure("a0", "a1")) == Ok(ace);
    assert NormalizeStrategy(p, "KhAh", Pure("a1", "a0")) == Ok(king);
    hide NormalizeStrategy;
    assert NormalizeStrategies(p, []) == Ok(map[]);
    assert NormalizeStrategies(p, p.entries[..1]) == Ok(map["AhKh" := ace]);
  }

  lemma TwoSpellingsAreCombos()
    ensures IsCombo("AhKh") && IsCombo("KhAh") && Swap("AhKh") == "KhAh"
  {
    var ranks, suits := "23456789TJQKA", "cdhs";
    assert ranks[11] == 'K' && ranks[12] == 'A' && suits[2] == 'h';
  }

  lemma TwoActionIds()
    ensures ActionIds(2) == ["a0", "a1"]
  {
    assert Decimal(0) == "0" && Decimal(1) == "1";
    assert ActionId(0) == "a0" && ActionId(1) == "a1";
  }

  lemma TwoSpellingsRequested()
    ensures var requested := RequestedCombos(TwoSpellings());
      && RequestedFeatured(TwoSpellings()) == "AhKh"
      && forall c :: c in requested <==> c == "AhKh" || c == "KhAh"
  {
    var p := TwoSpellings();
    assert Keys(p.entries) == ["AhKh", "KhAh"];
    var asked := ["AhKh"] + Keys(p.entries);
    assert RequestedCombos(p) == Dedup(asked);
    assert asked == ["AhKh", "AhKh", "KhAh"];
    hide Dedup, RequestedCombos;
    forall c ensures c in asked <==> c == "AhKh" || c == "KhAh" {
      assert asked[0] == "AhKh" && asked[2] == "KhAh";
    }
  }

  lemma TwoSpellingsResolve(byCombo: map<string, Strategy>, combo: string)
    requires Ok(byCombo) == NormalizeStrategies(TwoSpellings(), TwoSpellings().entries)
    requires combo == "AhKh" || combo == "KhAh"
    ensures ResolveCombo(byCombo, combo) == Ok(combo)
    ensures "AhKh" in byCombo && "KhAh" in byCombo && byCombo["AhKh"] != byCombo["KhAh"]
  {
    TwoSpellingsStored();
    TwoSpellingsAreCombos();
    hide TwoSpellings, NormalizeStrategies, IsCombo;
    assert map["a0" := 10000, "a1" := 0]["a0"] != map["a1" := 10000, "a0" := 0]["a0"];
  }

  lemma TwoSpellingsNormalize()
    ensures Normalize(TwoSpellings()).Ok? && NormalizeStrategies(TwoSpellings(), TwoSpellings().entries).Ok?
  {
    var p := TwoSpellings();
    TwoSpellingsStored();
    TwoSpellingsRequested();
    FeaturedIsAlwaysSelectable(p);
    var byCombo := NormalizeStrategies(p, p.entries).value;
    forall c | c in RequestedCombos(p) ensures ResolveCombo(byCombo, c).Ok? {
      TwoSpellingsResolve(byCombo, c);
    }
    ResolveAllSucceeds(byCombo, RequestedCombos(p));
    hide TwoSpellings, NormalizeStrategies, RequestedCombos, RequestedFeatured, ResolveAll, ResolveCombo;
  }

  /** Both spellings get through the normaliser and the validator, and the lookups disagree. */
  lemma LookupDependsOnCardOrder()
    ensures Normalize(TwoSpellings()).Ok?
    ensures var env := Normalize(TwoSpellings()).value;
      Verdict(env).None? && ResolveExact(env.byCombo, "AhKh") != ResolveExact(env.byCombo, "KhAh")
  {
    var p := TwoSpellings();
    assert p.actionOrder == ["a0", "a1"] && p.legalActions == 2;
    hide *;
    TwoSpellingsNormalize();
    TwoActionIds();
    TwoSpellingsRequested();
    var env, byCombo, requested := Normalize(p).value, NormalizeStrategies(p, p.entries).value, RequestedCombos(p);
    NormalizeSteps(p, env);
    NormalizedIsAcceptedExactly(p, env);
    ResolveAllMeaning(byCombo, requested);
    forall c | c in requested ensures ResolveCombo(byCombo, c) == Ok(c) {
      TwoSpellingsResolve(byCombo, c);
    }
    TwoSpellingsResolve(byCombo, "AhKh");
    StoredUnderBoth(byCombo, requested, env);
  }

  lemma StoredUnderBoth(byCombo: map<string, Strategy>, requested: seq<string>, env: Envelope)
    requires "AhKh" in requested && "KhAh" in requested && "AhKh" in byCombo && "KhAh" in byCombo
    requires byCombo["AhKh"] != byCombo["KhAh"]
    requires ResolveAll(byCombo, requested).Ok?
    requires var r := ResolveAll(byCombo, requested).value;
      |r| == |requested| && forall i :: 0 <= i < |requested| ==> ResolveCombo(byCombo, requested[i]) == Ok(r[i])
    requires forall c :: c in requested ==> ResolveCombo(byCombo, c) == Ok(c)
    requires env.selectable == Dedup(ResolveAll(byCombo, requested).value)
    requires env.byCombo == map c | c in env.selectable && c in byCombo :: byCombo[c]
    ensures ResolveExact(env.byCombo, "AhKh") != ResolveExact(env.byCombo, "KhAh")
  {
    hide ResolveAll, ResolveCombo, Dedup;
    var r := ResolveAll(byCombo, requested).value;
    forall c | c in requested ensures c in r {
      var i :| 0 <= i < |requested| && requested[i] == c;
      assert r[i] == c;
    }
  }

  // ------------------------------------------------------------ end to end

  /**
   * A combo that the provider asked to be selectable, in an accepted envelope, is found by the
   * scorer, is active, and is scored on two strategies of 10000 points: the stored number is
   * their overlap, full exactly when they are equal.
   */
  lemma RequestedCombosAreScored(p: Provider, env: Envelope, combo: string, submitted: map<string, int>)
    requires Normalize(p) == Ok(env) && Verdict(env).None? && combo in RequestedCombos(p)
    requires S.IsStrategy(S.Along(env.actionOrder, submitted))
    ensures ResolveExact(env.byCombo, combo).Some? && IsActive(ResolveExact(env.byCombo, combo).value)
    ensures var gto := ResolveExact(env.byCombo, combo).value.frequencies;
      var mine, theirs := S.Along(env.actionOrder, submitted), S.Along(env.actionOrder, gto);
      && S.IsStrategy(theirs)
      && S.ScoreHands(env.actionOrder, submitted, gto).Ok?
      && S.HandBasisPoints(S.ScoreHands(env.actionOrder, submitted, gto).value.similarity) == S.Overlap(mine, theirs)
      && (S.Overlap(mine, theirs) == 10000 <==> mine == theirs)
  {
    NormalizedCombos(p, env);
    var stored := FindVariant(env.byCombo, combo).value;
    var gto := env.byCombo[stored].frequencies;
    AcceptedEnvelopesAreSound(env, stored);
    NormalizeSteps(p, env);
    hide Normalize, NormalizeStrategies, ResolveAll, ActionIds, Verdict, RequestedCombos, RequestedFeatured, Dedup,
      Frequencies, S.Along;
    var raw := FrequenciesOf(p, stored, env.byCombo[stored]);
    ApportionedPasses(p.actionOrder, raw, gto);
    S.ScoreHandsMeaning(env.actionOrder, submitted, gto);
  }
}
