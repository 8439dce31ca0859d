/**
 * Combos of a provider envelope: how the normaliser resolves them (src/solver/provider.ts:46-57,
 * 111-113 and 223-264), what the validator checks of them (src/solver/normalized.ts:175-189), and
 * how scoring looks one up (src/application/public-api.ts:39-47, src/solver/reach.ts).
 */
module Normalizer {
  import opened Common
  import opened Sets
  import opened Sums
  import opened Sorting
  import opened Apportionment
  import S = Scoring

  // ---------------------------------------------------------------- combos

  /** The same two cards in the other order. */
  function Swap(combo: string): string {
    if |combo| <= 2 then combo else combo[2..] + combo[..2]
  }

  function ComboVariants(combo: string): seq<string> { [combo, Swap(combo)] }

  predicate CardAt(s: string, i: nat)
    requires i + 1 < |s|
  {
    s[i] in "23456789TJQKA" && s[i + 1] in "cdhs"
  }

  predicate IsCombo(s: string) { |s| == 4 && CardAt(s, 0) && CardAt(s, 2) }

  /** `find` over the two spellings. */
  function FindVariant<T>(records: map<string, T>, combo: string): (r: Option<string>)
    ensures r.Some? ==> r.value in records && r.value in ComboVariants(combo)
    ensures r.None? <==> combo !in records && Swap(combo) !in records
  {
    if combo in records then Some(combo) else if Swap(combo) in records then Some(Swap(combo)) else None
  }

  // ----------------------------------------------------------------- reach

  datatype Reach = Reach(rawReach: Option<real>, normalizedReach: real)

  datatype Strategy = Strategy(rawReach: Option<real>, reachWeight: real, frequencies: map<string, int>)

  const MINIMUM_REACH: real := 0.000000001

  predicate IsActive(s: Strategy) { (if s.rawReach.Some? then s.rawReach.value else s.reachWeight) >= MINIMUM_REACH }

  // ------------------------------------------------------------ normalising

  /** A provider's strategy entry; `optionalNumber` has dropped unusable reaches. */
  datatype RawStrategy = Malformed | RawStrategy(rawReach: Option<real>, reachWeight: Option<real>,
    frequencies: Option<map<string, Raw>>)

  /** The part of a provider envelope that concerns combos; entries in the order of the object's keys. */
  datatype Provider = Provider(
    entries: seq<(string, RawStrategy)>, heroReached: map<string, Reach>, featured: Option<string>,
    selectable: Option<seq<string>>, actionOrder: seq<string>, legalActions: nat)

  datatype Envelope = Envelope(
    actionIds: seq<string>, actionOrder: seq<string>, featured: string, selectable: seq<string>,
    byCombo: map<string, Strategy>)

  datatype NormalizeError =
    | FeaturedMissing
    | MalformedStrategy(combo: string)
    | BadFrequencies(combo: string, cause: FrequencyError)
    | InvalidCombo(combo: string)
    | NoExactStrategy(combo: string)
    | InactiveCombo(combo: string)
    | EmptyCatalog
    | FeaturedNotSelectable

  function Or<T>(a: Option<T>, b: Option<T>): Option<T> { if a.Some? then a else b }

  function NormalizeStrategy(p: Provider, combo: string, raw: RawStrategy): Result<Strategy, NormalizeError> {
    if raw.Malformed? then Err(MalformedStrategy(combo))
    else
      var found := FindVariant(p.heroReached, combo);
      var reach := if found.Some? then Some(p.heroReached[found.value]) else None;
      match Frequencies(raw.frequencies, p.actionOrder)
      case Err(e) => Err(BadFrequencies(combo, e))
      case Ok(f) =>
        Ok(Strategy(
          Or(raw.rawReach, if reach.Some? then reach.value.rawReach else None),
          if raw.reachWeight.Some? then raw.reachWeight.value else if reach.Some? then reach.value.normalizedReach
            else 0.0,
          f))
  }

  /** All entries in turn; the first error wins. */
  function NormalizeStrategies(
      p: Provider, entries: seq<(string, RawStrategy)>): Result<map<string, Strategy>, NormalizeError> {
    if entries == [] then Ok(map[])
    else
      var n := |entries| - 1;
      match NormalizeStrategies(p, entries[..n])
      case Err(e) => Err(e)
      case Ok(m) =>
        match NormalizeStrategy(p, entries[n].0, entries[n].1)
        case Err(e) => Err(e)
        case Ok(s) => Ok(m[entries[n].0 := s])
  }

  /** Each thing once, where it first occurs; the first `n` are looked at. */
  function DedupUpTo(s: seq<string>, n: nat): (r: seq<string>)
    requires n <= |s|
    ensures Distinct(r) && forall x :: x in r <==> exists i :: 0 <= i < n && s[i] == x
    ensures n > 0 ==> r != [] && r[0] == s[0]
  {
    if n == 0 then []
    else
      var rest := DedupUpTo(s, n - 1);
      if s[n - 1] in rest then rest else rest + [s[n - 1]]
  }

  function Dedup(s: seq<string>): (r: seq<string>)
    ensures Distinct(r) && forall x :: x in r <==> x in s
    ensures s != [] ==> r != [] && r[0] == s[0]
  {
    DedupUpTo(s, |s|)
  }

  /** The stored spelling of a requested combo. */
  function ResolveCombo(byCombo: map<string, Strategy>, combo: string): Result<string, NormalizeError> {
    if !IsCombo(combo) then Err(InvalidCombo(combo))
    else
      var resolved := FindVariant(byCombo, combo);
      if resolved.None? then Err(NoExactStrategy(combo))
      else if !IsActive(byCombo[resolved.value]) then Err(InactiveCombo(combo))
      else Ok(resolved.value)
  }

  function ResolveAll(byCombo: map<string, Strategy>, combos: seq<string>): Result<seq<string>, NormalizeError> {
    if combos == [] then Ok([])
    else
      var n := |combos| - 1;
      match ResolveAll(byCombo, combos[..n])
      case Err(e) => Err(e)
      case Ok(done) =>
        match ResolveCombo(byCombo, combos[n])
        case Err(e) => Err(e)
        case Ok(c) => Ok(done + [c])
  }

  function Keys(entries: seq<(string, RawStrategy)>): seq<string> {
    seq(|entries|, i requires 0 <= i < |entries| => entries[i].0)
  }

  function RequestedFeatured(p: Provider): string {
    if p.featured.Some? then p.featured.value else if p.entries != [] then p.entries[0].0 else ""
  }

  function RequestedCombos(p: Provider): seq<string> {
    Dedup([RequestedFeatured(p)] + if p.selectable.Some? then p.selectable.value else Keys(p.entries))
  }

  function Normalize(p: Provider): Result<Envelope, NormalizeError> {
    if RequestedFeatured(p) == "" then Err(FeaturedMissing)
    else
      match NormalizeStrategies(p, p.entries)
      case Err(e) => Err(e)
      case Ok(byCombo) =>
        match ResolveAll(byCombo, RequestedCombos(p))
        case Err(e) => Err(e)
        case Ok(resolved) =>
          var selectable := Dedup(resolved);
          if selectable == [] then Err(EmptyCatalog)
          else
            var stored := map c | c in selectable && c in byCombo :: byCombo[c];
            match FindVariant(stored, RequestedFeatured(p))
            case None => Err(FeaturedNotSelectable)
            case Some(featured) => Ok(Envelope(ActionIds(p.legalActions), p.actionOrder, featured, selectable, stored))
  }

  // ------------------------------------------------------------ action ids

  function Decimal(n: nat): string {
    if n < 10 then [('0' as int + n) as char] else Decimal(n / 10) + [('0' as int + n % 10) as char]
  }

  function ActionId(i: nat): string { "a" + Decimal(i) }

  /** The ids a0, a1, ... that the normaliser gives the legal actions. */
  function ActionIds(n: nat): seq<string> { seq(n, i requires 0 <= i < n => ActionId(i)) }

  lemma {:induction false} DecimalUnique(m: nat, n: nat)
    requires Decimal(m) == Decimal(n)
    ensures m == n
    decreases m
  {
    assert Decimal(m)[|Decimal(m)| - 1] as int - '0' as int == m % 10;
    assert Decimal(n)[|Decimal(n)| - 1] as int - '0' as int == n % 10;
    if m >= 10 && n >= 10 {
      assert Decimal(m / 10) == Decimal(m)[..|Decimal(m)| - 1] && Decimal(n / 10) == Decimal(n)[..|Decimal(n)| - 1];
      DecimalUnique(m / 10, n / 10);
    }
  }

  lemma ActionIdsDiffer(n: nat)
    ensures Distinct(ActionIds(n))
  {
    forall i, j | 0 <= i < j < n ensures ActionId(i) != ActionId(j) {
      if ActionId(i) == ActionId(j) {
        assert ActionId(i)[1..] == Decimal(i) && ActionId(j)[1..] == Decimal(j);
        DecimalUnique(i, j);
      }
    }
  }

  // ------------------------------------------------------------- validating

  datatype ValidateError =
    | SchemaError
    | ActionOrderMismatch
    | MissingStrategy(combo: string)
    | ActionMismatch(combo: string)
    | BadTotal(combo: string)
    | InactiveReach(combo: string)
    | ExtraCombos

  /** The sum of an object's values, in whatever order. */
  ghost function MapSum(m: map<string, int>): int
    decreases |m|
  {
    if m == map[] then 0
    else
      var k :| k in m;
      m[k] + MapSum(m - {k})
  }

  lemma {:induction false} MapSumWithout(m: map<string, int>, k: string)
    requires k in m
    ensures MapSum(m) == m[k] + MapSum(m - {k})
    decreases |m|
  {
    var j :| j in m && MapSum(m) == m[j] + MapSum(m - {j});
    if j != k {
      MapSumWithout(m - {j}, k);
      MapSumWithout(m - {k}, j);
      assert m - {j} - {k} == m - {k} - {j};
    }
  }

  method SumOfValues(m: map<string, int>) returns (sum: int)
    ensures sum == MapSum(m)
  {
    sum := 0;
    var rest := m;
    while rest != map[]
      invariant rest.Keys <= m.Keys && sum + MapSum(rest) == MapSum(m)
      decreases |rest|
    {
      assert rest.Keys != {};
      var k :| k in rest.Keys;
      MapSumWithout(rest, k);
      sum := sum + rest[k];
      rest := rest - {k};
    }
  }

  ghost function ComboError(env: Envelope, combo: string): Option<ValidateError> {
    if combo !in env.byCombo then Some(MissingStrategy(combo))
    else
      var s := env.byCombo[combo];
      if |s.frequencies| != |env.actionIds| || exists id :: id in s.frequencies && id !in env.actionIds
        then Some(ActionMismatch(combo))
      else if MapSum(s.frequencies) != 10000 then Some(BadTotal(combo))
      else if !IsActive(s) then Some(InactiveReach(combo))
      else None
  }

  ghost function FirstComboError(env: Envelope, combos: seq<string>): Option<ValidateError> {
    if combos == [] then None
    else
      var n := |combos| - 1;
      Or(FirstComboError(env, combos[..n]), ComboError(env, combos[n]))
  }

  /** The schema's bound on a frequency. */
  predicate IsBasis(x: int) { 0 <= x <= 10000 }

  predicate InRange(env: Envelope) {
    forall c :: c in env.byCombo ==> forall id :: id in env.byCombo[c].frequencies ==>
      IsBasis(env.byCombo[c].frequencies[id])
  }

  /** What `validateNormalizedEnvelope` finds wrong with the combos, if anything. */
  ghost function Verdict(env: Envelope): Option<ValidateError> {
    if !InRange(env) then Some(SchemaError)
    else if env.actionIds != env.actionOrder then Some(ActionOrderMismatch)
    else
      var first := FirstComboError(env, Dedup(env.selectable));
      if first.Some? then first
      else if env.byCombo.Keys != (set c | c in env.selectable) then Some(ExtraCombos)
      else None
  }

  /** One turn of the validator's loop. */
  method CheckCombo(env: Envelope, combo: string) returns (e: Option<ValidateError>)
    ensures e == ComboError(env, combo)
  {
    if combo !in env.byCombo {
      return Some(MissingStrategy(combo));
    }
    var strategy := env.byCombo[combo];
    if |strategy.frequencies| != |env.actionIds| || exists id :: id in strategy.frequencies && id !in env.actionIds {
      return Some(ActionMismatch(combo));
    }
    var total := SumOfValues(strategy.frequencies);
    if total != 10000 {
      return Some(BadTotal(combo));
    }
    if !IsActive(strategy) {
      return Some(InactiveReach(combo));
    }
    return None;
  }

  method ValidateNormalizedEnvelope(env: Envelope) returns (e: Option<ValidateError>)
    ensures e == Verdict(env)
  {
    if !InRange(env) {
      return Some(SchemaError);
    }
    var publicActionIds := env.actionIds;
    if publicActionIds != env.actionOrder {
      return Some(ActionOrderMismatch);
    }
    var selectable := Dedup(env.selectable);
    for k := 0 to |selectable|
      invariant FirstComboError(env, selectable[..k]).None?
    {
      assert selectable[..k + 1][..k] == selectable[..k];
      var error := CheckCombo(env, selectable[k]);
      if error.Some? {
        FirstComboErrorStays(env, selectable, k + 1);
        return error;
      }
    }
    assert selectable[..|selectable|] == selectable;
    SizesTell(env.byCombo, selectable, env.selectable);
    if |env.byCombo.Keys| != |selectable| || exists combo :: combo in env.byCombo && combo !in selectable {
      return Some(ExtraCombos);
    }
    return None;
  }

  lemma {:induction false} FirstComboErrorStays(env: Envelope, combos: seq<string>, k: nat)
    requires k <= |combos| && FirstComboError(env, combos[..k]).Some?
    ensures FirstComboError(env, combos) == FirstComboError(env, combos[..k])
  {
    if k == |combos| {
      assert combos[..k] == combos;
    } else {
      var n := |combos| - 1;
      assert combos[..n][..k] == combos[..k];
      FirstComboErrorStays(env, combos[..n], k);
    }
  }

  lemma SizesTell(byCombo: map<string, Strategy>, distinct: seq<string>, selectable: seq<string>)
    requires Distinct(distinct) && forall c :: c in distinct <==> c in selectable
    ensures byCombo.Keys != (set c | c in selectable)
      <==> |byCombo.Keys| != |distinct| || exists combo :: combo in byCombo && combo !in distinct
  {
    DistinctSize(distinct);
    var all := set c | c in selectable;
    assert (set c | c in distinct) == all;
    if |byCombo.Keys| == |distinct| && forall combo :: combo in byCombo ==> combo in distinct {
      SubsetSize(byCombo.Keys, all);
    }
  }

  lemma {:induction false} DistinctSize(s: seq<string>)
    ensures |set x | x in s| <= |s|
    ensures |set x | x in s| == |s| <==> Distinct(s)
  {
    if s == [] {
      assert (set x | x in s) == {};
    } else {
      var n := |s| - 1;
      DistinctSize(s[..n]);
      assert s == s[..n] + [s[n]];
      assert (set x | x in s) == (set x | x in s[..n]) + {s[n]};
    }
  }

}
