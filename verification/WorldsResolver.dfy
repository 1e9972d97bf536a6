/** Validating and resolving the worlds configuration, as the server does at startup. */
module WorldsResolver {
  import opened Wrappers
  import opened Fallible
  import opened Sequences
  import opened WorldsConfig

  // ---------------------------------------------------------------- seeds

  /** The random number generator, as the count of numbers drawn from it. */
  class RandomSource {
    var drawn: nat

    constructor ()
      ensures drawn == 0
    {
      drawn := 0;
    }
  }

  lemma WrapShift(n: int, k: int)
    ensures Wrap64(n + k * TWO_64) == Wrap64(n)
  {
    assert (n + k * TWO_64 + TWO_63) % TWO_64 == (n + TWO_63) % TWO_64;
  }

  lemma WrapMeaning(n: int) returns (k: int)
    ensures Wrap64(n) == n + k * TWO_64
  {
    k := -((n + TWO_63) / TWO_64);
  }

  /** Wrapping at every operation is wrapping once at the end. */
  lemma WrapStep(n: int, b: int)
    ensures Wrap64(Wrap64(31 * Wrap64(n)) + b) == Wrap64(31 * n + b)
  {
    var k := WrapMeaning(n);
    var m := WrapMeaning(31 * Wrap64(n));
    WrapShift(31 * n + b, 31 * k + m);
  }

  /** The loop of `seed_from_config` with its wrapping arithmetic. */
  method HashSeed(text: SeedText) returns (hash: int)
    ensures hash == Wrap64(Polynomial(text))
  {
    hash := 0;
    for i := 0 to |text|
      invariant hash == Wrap64(Polynomial(text[..i]))
    {
      assert text[..i + 1][..i] == text[..i];
      WrapStep(Polynomial(text[..i]), text[i]);
      hash := Wrap64(31 * hash);
      hash := Wrap64(hash + text[i]);
    }
    assert text[..|text|] == text;
  }

  /** `seed_from_config`. */
  method SeedFromConfig(env: Env, source: RandomSource, text: SeedText) returns (seed: int)
    modifies source
    ensures seed == SeedOf(env, text, old(source.drawn))
    ensures source.drawn == old(source.drawn) + if text == [] then 1 else 0
  {
    if text == [] {
      seed := env.random(source.drawn);
      source.drawn := source.drawn + 1;
    } else {
      var parsed := env.parse(text);
      if parsed.Some? {
        seed := parsed.value;
      } else {
        seed := HashSeed(text);
      }
    }
  }

  // ---------------------------------------------------------------- one world

  /** `resolve_explicit_portal_target`. */
  method ResolveTarget(domain: string, source: string, target: Option<string>) returns (r: Result<Option<Identifier>>)
    ensures r == if TargetOk(source, target) then Ok(TargetKey(domain, target)) else Err
  {
    if target.None? {
      return Ok(None);
    }
    if target.value == "" || '/' in target.value || !ValidPath(target.value) {
      return Err;
    }
    if target.value == source {
      return Err;
    }
    return Ok(Some(Identifier(domain, target.value)));
  }

  /** `resolve_world_config`. */
  method ResolveWorld(env: Env, source: RandomSource, domain: string, storage: Storage, defaults: Defaults, w: World)
    returns (r: Result<ResolvedWorld>)
    modifies source
    ensures r.Ok? <==> WorldOk(env, storage, w)
    ensures r.Ok? ==> r.value == WorldOf(env, domain, storage, defaults, w, old(source.drawn))
    ensures r.Ok? ==> source.drawn == old(source.drawn) + if w.seed == Some([]) then 1 else 0
  {
    if !ValidWorldName(w.name) {
      return Err;
    }
    var generator := env.generate(w.generator, Or(w.config, EMPTY_TABLE));
    if generator.None? {
      return Err;
    }
    var worldStorage := Or(w.storage, storage);
    if !env.storageOk(worldStorage) {
      return Err;
    }
    var nether := ResolveTarget(domain, w.name, w.netherTarget);
    if nether.Err? {
      return Err;
    }
    var end := ResolveTarget(domain, w.name, w.endTarget);
    if end.Err? {
      return Err;
    }
    if end.value.Some? && generator.value.isEnd {
      return Err;
    }
    var seed := defaults.seed;
    if w.seed.Some? {
      seed := SeedFromConfig(env, source, w.seed.value);
    }
    return Ok(ResolvedWorld(
                Identifier(domain, w.name), domain, w.name, w.generator, generator.value, seed,
                Or(w.gamemode, defaults.gamemode), Or(w.difficulty, defaults.difficulty),
                worldStorage, nether.value, end.value));
  }

  // ---------------------------------------------------------------- the worlds of a domain

  /** What the loop over the worlds has collected. */
  datatype Collected = Collected(
    seen: set<string>,
    defaultWorld: Option<Identifier>,
    ids: seq<Identifier>,
    resolved: seq<ResolvedWorld>)

  ghost predicate AtMostOneDefault(worlds: seq<World>) {
    forall i, j :: 0 <= i < j < |worlds| ==> !(worlds[i].isDefault && worlds[j].isDefault)
  }

  ghost predicate SeenNames(worlds: seq<World>, seen: set<string>) {
    forall name :: name in seen <==> Declared(worlds, name)
  }

  ghost predicate DefaultIs(domain: string, worlds: seq<World>, default: Option<Identifier>) {
    match default
    case None => forall i :: 0 <= i < |worlds| ==> !worlds[i].isDefault
    case Some(key) => exists i :: OnlyDefaultWorld(worlds, i) && key == Identifier(domain, worlds[i].name)
  }

  /** The loop has checked the given worlds. */
  ghost predicate Checked(check: Check, domain: string, worlds: seq<World>, c: Collected) {
    && WorldsOk(check, worlds) && AtMostOneDefault(worlds)
    && SeenNames(worlds, c.seen)
    && DefaultIs(domain, worlds, c.defaultWorld)
  }

  /** The loop has resolved the given worlds. */
  ghost predicate Filled(domain: string, scope: Scope, worlds: seq<World>, draw: nat, c: Collected) {
    c.ids == Keys(domain, worlds) && c.resolved == WorldsOf(scope, worlds, draw)
  }

  /** The loop state after the given worlds. */
  ghost predicate Through(check: Check, domain: string, scope: Scope, worlds: seq<World>, draw: nat, c: Collected) {
    Checked(check, domain, worlds, c) && Filled(domain, scope, worlds, draw, c)
  }

  lemma WorldsOkSnoc(check: Check, worlds: seq<World>, w: World)
    ensures WorldsOk(check, worlds + [w]) <==> WorldsOk(check, worlds) && check(w) && !Declared(worlds, w.name)
  {
    var longer := worlds + [w];
    assert longer[|worlds|] == w;
    assert forall i :: 0 <= i < |worlds| ==> longer[i] == worlds[i];
    if WorldsOk(check, longer) {
      assert check(longer[|worlds|]);
      forall i | 0 <= i < |worlds|
        ensures check(worlds[i]) && worlds[i].name != w.name
      {
        assert check(longer[i]);
        assert longer[i].name != longer[|worlds|].name;
      }
    }
  }

  lemma AtMostOneSnoc(worlds: seq<World>, w: World)
    ensures AtMostOneDefault(worlds + [w])
       <==> AtMostOneDefault(worlds) && (w.isDefault ==> forall i :: 0 <= i < |worlds| ==> !worlds[i].isDefault)
  {
    var longer := worlds + [w];
    assert longer[|worlds|] == w;
    assert forall i :: 0 <= i < |worlds| ==> longer[i] == worlds[i];
    if AtMostOneDefault(longer) && w.isDefault {
      forall i | 0 <= i < |worlds|
        ensures !worlds[i].isDefault
      {
        assert longer[|worlds|].isDefault && longer[i] == worlds[i];
      }
    }
  }

  /** A list that fails early fails as a whole. */
  lemma PrefixFails(check: Check, worlds: seq<World>, n: nat)
    requires n <= |worlds| && !(WorldsOk(check, worlds[..n]) && AtMostOneDefault(worlds[..n]))
    ensures !(WorldsOk(check, worlds) && AtMostOneDefault(worlds))
  {
    assert forall i :: 0 <= i < n ==> worlds[..n][i] == worlds[i];
  }

  lemma SeenSnoc(worlds: seq<World>, w: World, seen: set<string>)
    requires SeenNames(worlds, seen)
    ensures SeenNames(worlds + [w], seen + {w.name})
  {
    var longer := worlds + [w];
    forall name
      ensures name in seen + {w.name} <==> Declared(longer, name)
    {
      assert name in seen <==> Declared(worlds, name);
      if Declared(worlds, name) {
        var i :| 0 <= i < |worlds| && worlds[i].name == name;
        assert longer[i].name == name;
      }
      if name == w.name {
        assert longer[|worlds|].name == name;
      }
    }
  }

  lemma DefaultSnoc(domain: string, worlds: seq<World>, w: World, default: Option<Identifier>)
    requires DefaultIs(domain, worlds, default) && (w.isDefault ==> default.None?)
    ensures DefaultIs(domain, worlds + [w], if w.isDefault then Some(Identifier(domain, w.name)) else default)
  {
    var longer := worlds + [w];
    assert longer[|worlds|] == w;
    assert forall i :: 0 <= i < |worlds| ==> longer[i] == worlds[i];
    if w.isDefault {
      assert OnlyDefaultWorld(longer, |worlds|);
    } else if default.Some? {
      var i :| OnlyDefaultWorld(worlds, i) && default.value == Identifier(domain, worlds[i].name);
      assert OnlyDefaultWorld(longer, i);
    }
  }

  lemma KeysSnoc(domain: string, worlds: seq<World>, w: World)
    ensures Keys(domain, worlds + [w]) == Keys(domain, worlds) + [Identifier(domain, w.name)]
  {
  }

  /** The loop state with one more world. */
  function Extended(domain: string, c: Collected, w: World, resolved: ResolvedWorld): Collected {
    Collected(
      c.seen + {w.name},
      if w.isDefault then Some(Identifier(domain, w.name)) else c.defaultWorld,
      c.ids + [Identifier(domain, w.name)],
      c.resolved + [resolved])
  }

  lemma CheckedNext(check: Check, domain: string, worlds: seq<World>, c: Collected, w: World, r: ResolvedWorld)
    requires Checked(check, domain, worlds, c) && CanAdd(check, c, w)
    ensures Checked(check, domain, worlds + [w], Extended(domain, c, w, r))
  {
    WorldsOkSnoc(check, worlds, w);
    AtMostOneSnoc(worlds, w);
    SeenSnoc(worlds, w, c.seen);
    DefaultSnoc(domain, worlds, w, c.defaultWorld);
  }

  lemma {:induction false} FilledNext(domain: string, scope: Scope, worlds: seq<World>, draw: nat, c: Collected,
                                      w: World)
    requires Filled(domain, scope, worlds, draw, c)
    ensures Filled(domain, scope, worlds + [w], draw, Extended(domain, c, w, scope(w, draw + WorldDraws(worlds))))
  {
    KeysSnoc(domain, worlds, w);
    ResolvedSnoc(scope, worlds, draw, w);
  }

  lemma {:induction false} ThroughNext(check: Check, domain: string, scope: Scope, worlds: seq<World>, draw: nat,
                                       c: Collected, w: World)
    requires Through(check, domain, scope, worlds, draw, c) && CanAdd(check, c, w)
    ensures Through(check, domain, scope, worlds + [w], draw,
                    Extended(domain, c, w, scope(w, draw + WorldDraws(worlds))))
  {
    CheckedNext(check, domain, worlds, c, w, scope(w, draw + WorldDraws(worlds)));
    FilledNext(domain, scope, worlds, draw, c, w);
  }

  lemma {:induction false} ResolvedSnoc(scope: Scope, worlds: seq<World>, draw: nat, w: World)
    ensures WorldsOf(scope, worlds + [w], draw)
         == WorldsOf(scope, worlds, draw) + [scope(w, draw + WorldDraws(worlds))]
  {
    var longer := worlds + [w];
    assert longer[..|worlds|] == worlds;
  }

  lemma {:induction false} WorldDrawsSnoc(worlds: seq<World>, w: World)
    ensures WorldDraws(worlds + [w]) == WorldDraws(worlds) + Draws(w.seed)
  {
    assert (worlds + [w])[..|worlds|] == worlds;
  }

  /** The next world passes the checks of the loop. */
  predicate CanAdd(check: Check, c: Collected, w: World) {
    check(w) && w.name !in c.seen && (w.isDefault ==> c.defaultWorld.None?)
  }

  lemma CanAddIff(check: Check, domain: string, worlds: seq<World>, c: Collected, w: World)
    requires WorldsOk(check, worlds) && AtMostOneDefault(worlds)
    requires SeenNames(worlds, c.seen) && DefaultIs(domain, worlds, c.defaultWorld)
    ensures CanAdd(check, c, w) <==> WorldsOk(check, worlds + [w]) && AtMostOneDefault(worlds + [w])
  {
    WorldsOkSnoc(check, worlds, w);
    AtMostOneSnoc(worlds, w);
  }

  /** One round of the loop over the worlds of a domain. */
  method CollectWorld(env: Env, source: RandomSource, domain: string, storage: Storage, defaults: Defaults,
                      c: Collected, w: World) returns (r: Result<Collected>)
    modifies source
    ensures r.Ok? <==> CanAdd(CheckOf(env, storage), c, w)
    ensures r.Ok? ==> source.drawn == old(source.drawn) + Draws(w.seed)
    ensures r.Ok? ==>
              r.value == Extended(domain, c, w, ScopeOf(env, domain, storage, defaults)(w, old(source.drawn)))
  {
    var resolved := ResolveWorld(env, source, domain, storage, defaults, w);
    if resolved.Err? {
      return Err;
    }
    if w.name in c.seen {
      return Err;
    }
    if w.isDefault && c.defaultWorld.Some? {
      return Err;
    }
    return Ok(Collected(
                c.seen + {w.name},
                if w.isDefault then Some(resolved.value.key) else c.defaultWorld,
                c.ids + [resolved.value.key],
                c.resolved + [resolved.value]));
  }

  /** The loop over the worlds of a domain. */
  method CollectWorlds(env: Env, source: RandomSource, domain: string, storage: Storage, defaults: Defaults,
                       worlds: seq<World>) returns (r: Result<Collected>)
    modifies source
    ensures r.Ok? <==> WorldsOk(CheckOf(env, storage), worlds) && AtMostOneDefault(worlds)
    ensures r.Ok? ==> Through(CheckOf(env, storage), domain, ScopeOf(env, domain, storage, defaults), worlds,
                              old(source.drawn), r.value)
    ensures r.Ok? ==> source.drawn == old(source.drawn) + WorldDraws(worlds)
  {
    var c := Collected({}, None, [], []);
    ghost var draw, check, scope := source.drawn, CheckOf(env, storage), ScopeOf(env, domain, storage, defaults);
    for i := 0 to |worlds|
      invariant Through(check, domain, scope, worlds[..i], draw, c)
      invariant source.drawn == draw + WorldDraws(worlds[..i])
    {
      ghost var at := source.drawn;
      var next := CollectWorld(env, source, domain, storage, defaults, c, worlds[i]);
      if next.Err? {
        CollectFails(check, domain, worlds, c, i);
        return Err;
      }
      CollectKeeps(check, domain, scope, worlds, draw, c, i, at);
      c := next.value;
    }
    assert worlds[..|worlds|] == worlds;
    return Ok(c);
  }

  /** What a successful round keeps. */
  lemma CollectKeeps(check: Check, domain: string, scope: Scope, worlds: seq<World>, draw: nat, c: Collected, i: nat,
                     at: nat)
    requires i < |worlds| && Through(check, domain, scope, worlds[..i], draw, c) && CanAdd(check, c, worlds[i])
    requires at == draw + WorldDraws(worlds[..i])
    ensures draw + WorldDraws(worlds[..i + 1]) == at + Draws(worlds[i].seed)
    ensures Through(check, domain, scope, worlds[..i + 1], draw,
                    Extended(domain, c, worlds[i], scope(worlds[i], at)))
  {
    assert worlds[..i + 1] == worlds[..i] + [worlds[i]];
    WorldDrawsSnoc(worlds[..i], worlds[i]);
    ThroughNext(check, domain, scope, worlds[..i], draw, c, worlds[i]);
  }

  /** What a failing round means. */
  lemma CollectFails(check: Check, domain: string, worlds: seq<World>, c: Collected, i: nat)
    requires i < |worlds| && Checked(check, domain, worlds[..i], c) && !CanAdd(check, c, worlds[i])
    ensures !(WorldsOk(check, worlds) && AtMostOneDefault(worlds))
  {
    assert worlds[..i + 1] == worlds[..i] + [worlds[i]];
    CanAddIff(check, domain, worlds[..i], c, worlds[i]);
    PrefixFails(check, worlds, i + 1);
  }

  // ---------------------------------------------------------------- portal targets

  lemma {:induction false} WorldsOfAt(scope: Scope, worlds: seq<World>, draw: nat, i: nat)
    requires i < |worlds|
    ensures WorldsOf(scope, worlds, draw)[i] == scope(worlds[i], draw + WorldDraws(worlds[..i]))
    decreases |worlds|
  {
    var n := |worlds| - 1;
    if i < n {
      WorldsOfAt(scope, worlds[..n], draw, i);
      assert worlds[..n][..i] == worlds[..i];
    }
  }

  /** The parts of a resolved world that the portal checks look at. */
  ghost predicate Shows(env: Env, domain: string, w: World, r: ResolvedWorld) {
    && r.name == w.name
    && r.netherTarget == TargetKey(domain, w.netherTarget)
    && r.endTarget == TargetKey(domain, w.endTarget)
    && GeneratorOf(env, w) == Some(r.generatorConfig)
  }

  ghost predicate AllShow(env: Env, domain: string, worlds: seq<World>, resolved: seq<ResolvedWorld>) {
    |resolved| == |worlds| && forall i :: 0 <= i < |worlds| ==> Shows(env, domain, worlds[i], resolved[i])
  }

  lemma {:induction false} ThroughShows(env: Env, domain: string, storage: Storage, defaults: Defaults,
                                        worlds: seq<World>, draw: nat)
    requires WorldsOk(CheckOf(env, storage), worlds)
    ensures AllShow(env, domain, worlds, WorldsOf(ScopeOf(env, domain, storage, defaults), worlds, draw))
  {
    var scope := ScopeOf(env, domain, storage, defaults);
    forall i | 0 <= i < |worlds|
      ensures Shows(env, domain, worlds[i], WorldsOf(scope, worlds, draw)[i])
    {
      WorldsOfAt(scope, worlds, draw, i);
      assert CheckOf(env, storage)(worlds[i]);
    }
  }

  /** The index by name answers, for declared names only, whether the world is an End world. */
  ghost predicate Indexes(env: Env, worlds: seq<World>, byName: map<string, ResolvedWorld>) {
    forall name :: name in byName ==>
      Declared(worlds, name) && (byName[name].generatorConfig.isEnd <==> DeclaredEnd(env, worlds, name))
  }

  ghost predicate Covers(worlds: seq<World>, byName: map<string, ResolvedWorld>) {
    forall i :: 0 <= i < |worlds| ==> worlds[i].name in byName
  }

  /** The map from names to worlds that the checks are given. */
  method IndexByName(env: Env, ghost domain: string, ghost worlds: seq<World>, resolved: seq<ResolvedWorld>)
    returns (byName: map<string, ResolvedWorld>)
    requires DistinctWorlds(worlds) && AllShow(env, domain, worlds, resolved)
    ensures Indexes(env, worlds, byName) && Covers(worlds, byName)
  {
    byName := map[];
    for i := 0 to |resolved|
      invariant forall j :: 0 <= j < i ==> worlds[j].name in byName
      invariant forall name :: name in byName ==>
                  exists j :: 0 <= j < i && worlds[j].name == name && byName[name] == resolved[j]
    {
      byName := byName[resolved[i].name := resolved[i]];
    }
    forall name | name in byName
      ensures Declared(worlds, name) && (byName[name].generatorConfig.isEnd <==> DeclaredEnd(env, worlds, name))
    {
      var j :| 0 <= j < |resolved| && worlds[j].name == name && byName[name] == resolved[j];
      EndIffDeclared(env, worlds, j);
      assert Shows(env, domain, worlds[j], resolved[j]);
    }
  }

  lemma EndIffDeclared(env: Env, worlds: seq<World>, j: nat)
    requires DistinctWorlds(worlds) && j < |worlds|
    ensures IsEnd(env, worlds[j]) <==> DeclaredEnd(env, worlds, worlds[j].name)
  {
    if DeclaredEnd(env, worlds, worlds[j].name) {
      var i :| 0 <= i < |worlds| && worlds[i].name == worlds[j].name && IsEnd(env, worlds[i]);
      assert i == j;
    }
  }

  /** `validate_explicit_portal_target` for both targets, then the dimension of the End target. */
  method CheckPortals(env: Env, ghost domain: string, ghost worlds: seq<World>, ghost w: World, r: ResolvedWorld,
                      seen: set<string>, byName: map<string, ResolvedWorld>) returns (ok: bool)
    requires Shows(env, domain, w, r) && SeenNames(worlds, seen)
    requires Indexes(env, worlds, byName) && Covers(worlds, byName)
    ensures ok <==> PortalsOk(env, worlds, w)
  {
    if r.netherTarget.Some? && r.netherTarget.value.path !in seen {
      return false;
    }
    if r.endTarget.Some? && r.endTarget.value.path !in seen {
      return false;
    }
    if r.endTarget.None? || r.endTarget.value.path !in byName {
      return true;
    }
    return byName[r.endTarget.value.path].generatorConfig.isEnd;
  }

  /** `validate_explicit_portal_targets`. */
  method ValidatePortals(env: Env, ghost domain: string, ghost worlds: seq<World>, resolved: seq<ResolvedWorld>,
                         seen: set<string>) returns (ok: bool)
    requires DistinctWorlds(worlds) && AllShow(env, domain, worlds, resolved) && SeenNames(worlds, seen)
    ensures ok <==> AllPortalsOk(env, worlds)
  {
    var byName := IndexByName(env, domain, worlds, resolved);
    ok := CheckAllPortals(env, domain, worlds, resolved, seen, byName);
  }

  method CheckAllPortals(env: Env, ghost domain: string, ghost worlds: seq<World>, resolved: seq<ResolvedWorld>,
                         seen: set<string>, byName: map<string, ResolvedWorld>) returns (ok: bool)
    requires AllShow(env, domain, worlds, resolved) && SeenNames(worlds, seen)
    requires Indexes(env, worlds, byName) && Covers(worlds, byName)
    ensures ok <==> AllPortalsOk(env, worlds)
  {
    ok := true;
    for i := 0 to |resolved|
      invariant ok && PortalsOkUpto(env, worlds, i)
    {
      assert Shows(env, domain, worlds[i], resolved[i]);
      ok := CheckPortals(env, domain, worlds, worlds[i], resolved[i], seen, byName);
      if !ok {
        return;
      }
    }
  }

  ghost predicate PortalsOkUpto(env: Env, worlds: seq<World>, n: nat) {
    n <= |worlds| && forall i :: 0 <= i < n ==> PortalsOk(env, worlds, worlds[i])
  }

  // ---------------------------------------------------------------- one domain

  /** What resolving a domain yields, apart from its worlds. */
  ghost predicate DomainResult(d: Domain, r: ResolvedDomain) {
    && r.name == d.name
    && r.worlds == Keys(d.name, d.worlds)
    && exists i :: OnlyDefaultWorld(d.worlds, i) && r.defaultWorld == Identifier(d.name, d.worlds[i].name)
  }

  lemma DefaultNeeded(domain: string, worlds: seq<World>, default: Option<Identifier>)
    requires DefaultIs(domain, worlds, default)
    ensures default.Some? <==> exists i :: OnlyDefaultWorld(worlds, i)
  {
  }

  lemma OnlyIsAtMostOne(worlds: seq<World>, i: int)
    requires OnlyDefaultWorld(worlds, i)
    ensures AtMostOneDefault(worlds)
  {
  }

  /** `resolve_domain_config`. */
  method ResolveDomain(env: Env, source: RandomSource, ghost config: Config, root: Defaults, rootStorage: Storage,
                       d: Domain) returns (r: Result<(ResolvedDomain, seq<ResolvedWorld>)>)
    requires root == RootDefaults(env, config) && rootStorage == RootStorage(config)
    modifies source
    ensures r.Ok? <==> DomainOk(env, config, d)
    ensures r.Ok? ==> DomainResult(d, r.value.0)
    ensures r.Ok? ==> r.value.1 == BlockOf(env, config)(d, old(source.drawn))
    ensures r.Ok? ==> source.drawn == old(source.drawn) + Draws(d.seed) + WorldDraws(d.worlds)
  {
    if !ValidDomainName(d.name) || d.worlds == [] {
      return Err;
    }
    var seed := root.seed;
    if d.seed.Some? {
      seed := SeedFromConfig(env, source, d.seed.value);
    }
    var defaults := Defaults(seed, Or(d.gamemode, root.gamemode), Or(d.difficulty, root.difficulty));
    var storage := Or(d.storage, rootStorage);
    if !env.storageOk(storage) {
      return Err;
    }
    r := FinishDomain(env, source, config, storage, defaults, d);
  }

  method FinishDomain(env: Env, source: RandomSource, ghost config: Config, storage: Storage, defaults: Defaults,
                      d: Domain) returns (r: Result<(ResolvedDomain, seq<ResolvedWorld>)>)
    requires storage == DomainStorage(config, d)
    modifies source
    ensures r.Ok? <==> && WorldsOk(CheckOf(env, storage), d.worlds) && AllPortalsOk(env, d.worlds)
                       && exists i :: OnlyDefaultWorld(d.worlds, i)
    ensures r.Ok? ==> DomainResult(d, r.value.0)
    ensures r.Ok? ==> r.value.1 == WorldsOf(ScopeOf(env, d.name, storage, defaults), d.worlds, old(source.drawn))
    ensures r.Ok? ==> source.drawn == old(source.drawn) + WorldDraws(d.worlds)
  {
    ghost var draw := source.drawn;
    var collected := CollectWorlds(env, source, d.name, storage, defaults, d.worlds);
    if collected.Err? {
      if i :| OnlyDefaultWorld(d.worlds, i) {
        OnlyIsAtMostOne(d.worlds, i);
      }
      return Err;
    }
    var c := collected.value;
    ThroughShows(env, d.name, storage, defaults, d.worlds, draw);
    var portals := ValidatePortals(env, d.name, d.worlds, c.resolved, c.seen);
    DefaultNeeded(d.name, d.worlds, c.defaultWorld);
    if !portals || c.defaultWorld.None? {
      return Err;
    }
    return Ok((ResolvedDomain(d.name, c.defaultWorld.value, c.ids), c.resolved));
  }

  // ---------------------------------------------------------------- the whole file

  type DomainCheck = Domain -> bool

  ghost function DomainCheckOf(env: Env, config: Config): DomainCheck {
    (d: Domain) => DomainOk(env, config, d)
  }

  ghost predicate AllDomainsOk(check: DomainCheck, domains: seq<Domain>) {
    forall i :: 0 <= i < |domains| ==> check(domains[i])
  }

  ghost predicate AtMostOneDefaultDomain(domains: seq<Domain>) {
    forall i, j :: 0 <= i < j < |domains| ==> !(domains[i].isDefault && domains[j].isDefault)
  }

  ghost predicate DefaultDomainIs(domains: seq<Domain>, default: Option<string>) {
    match default
    case None => forall i :: 0 <= i < |domains| ==> !domains[i].isDefault
    case Some(name) => exists i :: OnlyDefaultDomain(domains, i) && name == domains[i].name
  }

  ghost predicate AllResults(domains: seq<Domain>, resolved: seq<ResolvedDomain>) {
    |resolved| == |domains| && forall i :: 0 <= i < |domains| ==> DomainResult(domains[i], resolved[i])
  }

  /** What the loop over the domains has gathered. */
  datatype Gathered = Gathered(
    defaultDomain: Option<string>,
    domains: seq<ResolvedDomain>,
    worlds: seq<ResolvedWorld>)

  ghost predicate Upto(check: DomainCheck, block: Block, config: Config, domains: seq<Domain>, g: Gathered) {
    && AllDomainsOk(check, domains) && AtMostOneDefaultDomain(domains)
    && DefaultDomainIs(domains, g.defaultDomain)
    && AllResults(domains, g.domains)
    && g.worlds == AllWorlds(block, config, domains)
  }

  lemma DomainsOkSnoc(check: DomainCheck, domains: seq<Domain>, d: Domain)
    ensures AllDomainsOk(check, domains + [d]) <==> AllDomainsOk(check, domains) && check(d)
  {
    var longer := domains + [d];
    if AllDomainsOk(check, longer) {
      assert longer[|domains|] == d;
      forall i | 0 <= i < |domains|
        ensures check(domains[i])
      {
        assert longer[i] == domains[i];
      }
    }
  }

  lemma AtMostOneDomainSnoc(domains: seq<Domain>, d: Domain, default: Option<string>)
    requires DefaultDomainIs(domains, default) && AtMostOneDefaultDomain(domains)
    ensures AtMostOneDefaultDomain(domains + [d]) <==> !(d.isDefault && default.Some?)
  {
    var longer := domains + [d];
    assert longer[|domains|] == d;
    assert forall i :: 0 <= i < |domains| ==> longer[i] == domains[i];
    if default.Some? {
      var i :| OnlyDefaultDomain(domains, i);
      assert longer[i].isDefault;
    }
  }

  lemma DefaultDomainSnoc(domains: seq<Domain>, d: Domain, default: Option<string>)
    requires DefaultDomainIs(domains, default) && (d.isDefault ==> default.None?)
    ensures DefaultDomainIs(domains + [d], if d.isDefault then Some(d.name) else default)
  {
    var longer := domains + [d];
    assert longer[|domains|] == d;
    assert forall i :: 0 <= i < |domains| ==> longer[i] == domains[i];
    if d.isDefault {
      assert OnlyDefaultDomain(longer, |domains|);
    } else if default.Some? {
      var i :| OnlyDefaultDomain(domains, i) && default.value == domains[i].name;
      assert OnlyDefaultDomain(longer, i);
    }
  }

  lemma {:induction false} AllWorldsSnoc(block: Block, config: Config, domains: seq<Domain>, d: Domain)
    ensures AllWorlds(block, config, domains + [d])
         == AllWorlds(block, config, domains) + block(d, DrawsBefore(config, domains))
    ensures DrawsBefore(config, domains + [d])
         == DrawsBefore(config, domains) + Draws(d.seed) + WorldDraws(d.worlds)
  {
    var last := block(d, DrawsBefore(config, domains));
    assert (domains + [d])[..|domains|] == domains;
    assert Blocks(block, config, domains + [d]) == Blocks(block, config, domains) + [last];
    FlattenSnoc(Blocks(block, config, domains), last);
  }

  lemma AllResultsSnoc(domains: seq<Domain>, resolved: seq<ResolvedDomain>, d: Domain, r: ResolvedDomain)
    requires AllResults(domains, resolved) && DomainResult(d, r)
    ensures AllResults(domains + [d], resolved + [r])
  {
  }

  /** The next domain passes the checks of the loop. */
  ghost predicate CanGather(check: DomainCheck, g: Gathered, d: Domain) {
    check(d) && (d.isDefault ==> g.defaultDomain.None?)
  }

  /** The loop state with one more domain. */
  function WithDomain(g: Gathered, d: Domain, r: ResolvedDomain, worlds: seq<ResolvedWorld>): Gathered {
    Gathered(if d.isDefault then Some(d.name) else g.defaultDomain, g.domains + [r], g.worlds + worlds)
  }

  lemma {:induction false} UptoNext(check: DomainCheck, block: Block, config: Config, domains: seq<Domain>,
                                    g: Gathered, d: Domain, r: ResolvedDomain)
    requires Upto(check, block, config, domains, g) && CanGather(check, g, d) && DomainResult(d, r)
    ensures Upto(check, block, config, domains + [d], WithDomain(g, d, r, block(d, DrawsBefore(config, domains))))
  {
    DomainsOkSnoc(check, domains, d);
    AtMostOneDomainSnoc(domains, d, g.defaultDomain);
    DefaultDomainSnoc(domains, d, g.defaultDomain);
    AllWorldsSnoc(block, config, domains, d);
    AllResultsSnoc(domains, g.domains, d, r);
  }

  /** One round of the loop over the domains. */
  method GatherDomain(env: Env, source: RandomSource, ghost config: Config, root: Defaults, rootStorage: Storage,
                      g: Gathered, d: Domain) returns (r: Result<Gathered>)
    requires root == RootDefaults(env, config) && rootStorage == RootStorage(config)
    modifies source
    ensures r.Ok? <==> CanGather(DomainCheckOf(env, config), g, d)
    ensures r.Ok? ==> |r.value.domains| == |g.domains| + 1 && DomainResult(d, r.value.domains[|g.domains|])
    ensures r.Ok? ==> r.value == WithDomain(g, d, r.value.domains[|g.domains|],
                                            BlockOf(env, config)(d, old(source.drawn)))
    ensures r.Ok? ==> source.drawn == old(source.drawn) + Draws(d.seed) + WorldDraws(d.worlds)
  {
    if d.isDefault && g.defaultDomain.Some? {
      return Err;
    }
    var resolved := ResolveDomain(env, source, config, root, rootStorage, d);
    if resolved.Err? {
      return Err;
    }
    r := Ok(WithDomain(g, d, resolved.value.0, resolved.value.1));
  }

  lemma DomainPrefixFails(check: DomainCheck, domains: seq<Domain>, n: nat)
    requires n <= |domains| && !(AllDomainsOk(check, domains[..n]) && AtMostOneDefaultDomain(domains[..n]))
    ensures !(AllDomainsOk(check, domains) && AtMostOneDefaultDomain(domains))
  {
    assert forall i :: 0 <= i < n ==> domains[..n][i] == domains[i];
  }

  /** What a failing round means. */
  lemma GatherFails(check: DomainCheck, block: Block, config: Config, domains: seq<Domain>, g: Gathered, i: nat)
    requires i < |domains| && Upto(check, block, config, domains[..i], g) && !CanGather(check, g, domains[i])
    ensures !(AllDomainsOk(check, domains) && AtMostOneDefaultDomain(domains))
  {
    var before, d := domains[..i], domains[i];
    assert domains[..i + 1] == before + [d];
    DomainsOkSnoc(check, before, d);
    AtMostOneDomainSnoc(before, d, g.defaultDomain);
    DomainPrefixFails(check, domains, i + 1);
  }

  /** What a successful round keeps. */
  lemma {:induction false} GatherKeeps(check: DomainCheck, block: Block, config: Config, domains: seq<Domain>,
                                       g: Gathered, i: nat, at: nat, r: ResolvedDomain)
    requires i < |domains| && Upto(check, block, config, domains[..i], g) && CanGather(check, g, domains[i])
    requires at == DrawsBefore(config, domains[..i]) && DomainResult(domains[i], r)
    ensures Upto(check, block, config, domains[..i + 1], WithDomain(g, domains[i], r, block(domains[i], at)))
    ensures DrawsBefore(config, domains[..i + 1]) == at + Draws(domains[i].seed) + WorldDraws(domains[i].worlds)
  {
    assert domains[..i + 1] == domains[..i] + [domains[i]];
    UptoNext(check, block, config, domains[..i], g, domains[i], r);
    AllWorldsSnoc(block, config, domains[..i], domains[i]);
  }

  /** The loop over the domains. */
  method GatherDomains(env: Env, source: RandomSource, config: Config, root: Defaults, rootStorage: Storage)
    returns (r: Result<Gathered>)
    requires root == RootDefaults(env, config) && rootStorage == RootStorage(config)
    requires source.drawn == DrawsBefore(config, [])
    modifies source
    ensures r.Ok? <==> AllDomainsOk(DomainCheckOf(env, config), config.domains)
                       && AtMostOneDefaultDomain(config.domains)
    ensures r.Ok? ==> Upto(DomainCheckOf(env, config), BlockOf(env, config), config, config.domains, r.value)
  {
    var domains := config.domains;
    ghost var check, block := DomainCheckOf(env, config), BlockOf(env, config);
    var g := Gathered(None, [], []);
    for i := 0 to |domains|
      invariant Upto(check, block, config, domains[..i], g)
      invariant source.drawn == DrawsBefore(config, domains[..i])
    {
      ghost var at := source.drawn;
      var next := GatherDomain(env, source, config, root, rootStorage, g, domains[i]);
      if next.Err? {
        GatherFails(check, block, config, domains, g, i);
        return Err;
      }
      GatherKeeps(check, block, config, domains, g, i, at, next.value.domains[|g.domains|]);
      g := next.value;
    }
    assert domains[..|domains|] == domains;
    return Ok(g);
  }

  /** The resolved configuration answers to the file. */
  ghost predicate Resolves(env: Env, config: Config, out: Resolved) {
    && out.savePath == config.savePath
    && out.playerStorage == PlayerStorage(config)
    && (exists i :: OnlyDefaultDomain(config.domains, i) && out.defaultDomain == config.domains[i].name)
    && AllResults(config.domains, out.domains)
    && out.worlds == AllWorlds(BlockOf(env, config), config, config.domains)
  }

  lemma SomeWorld(env: Env, config: Config, domains: seq<Domain>)
    requires domains != [] && AllDomainsOk(DomainCheckOf(env, config), domains)
    ensures AllWorlds(BlockOf(env, config), config, domains) != []
  {
    var n := |domains| - 1;
    assert DomainCheckOf(env, config)(domains[n]);
    LastBlock(BlockOf(env, config), config, domains);
    assert |BlockOf(env, config)(domains[n], DrawsBefore(config, domains[..n]))| == |domains[n].worlds|;
  }

  lemma {:induction false} LastBlock(block: Block, config: Config, domains: seq<Domain>)
    requires domains != []
    ensures var n := |domains| - 1;
            |AllWorlds(block, config, domains)| >= |block(domains[n], DrawsBefore(config, domains[..n]))|
  {
    var n := |domains| - 1;
    assert domains == domains[..n] + [domains[n]];
    AllWorldsSnoc(block, config, domains[..n], domains[n]);
  }

  lemma DefaultDomainNeeded(domains: seq<Domain>, default: Option<string>)
    requires DefaultDomainIs(domains, default)
    ensures default.Some? <==> exists i :: OnlyDefaultDomain(domains, i)
  {
  }

  /** `validate_and_resolve`: succeeds exactly on the well-formed files. */
  method ValidateAndResolve(env: Env, config: Config) returns (r: Result<Resolved>)
    ensures r.Ok? <==> WellFormed(env, config)
    ensures r.Ok? ==> Resolves(env, config, r.value)
  {
    if !CleanPath(env, config.savePath) || config.domains == [] {
      return Err;
    }
    var source := new RandomSource();
    var seed := SeedFromConfig(env, source, Or(config.seed, []));
    var root := Defaults(seed, Or(config.gamemode, Survival), Or(config.difficulty, Normal));
    var rootStorage := Or(config.storage, DISK);
    if !env.storageOk(rootStorage) {
      return Err;
    }
    var playerStorage := Or(config.playerStorage, DISK);
    if !PlayerStorageOk(playerStorage) {
      return Err;
    }
    var gathered := GatherDomains(env, source, config, root, rootStorage);
    if gathered.Err? {
      if i :| OnlyDefaultDomain(config.domains, i) {
        OnlyIsAtMostOneDomain(config.domains, i);
      }
      return Err;
    }
    r := Finish(env, config, playerStorage, gathered.value);
  }

  method Finish(env: Env, config: Config, playerStorage: Storage, g: Gathered) returns (r: Result<Resolved>)
    requires config.domains != [] && playerStorage == PlayerStorage(config)
    requires Upto(DomainCheckOf(env, config), BlockOf(env, config), config, config.domains, g)
    ensures r.Ok? <==> exists i :: OnlyDefaultDomain(config.domains, i)
    ensures r.Ok? ==> Resolves(env, config, r.value)
  {
    SomeWorld(env, config, config.domains);
    DefaultDomainNeeded(config.domains, g.defaultDomain);
    if g.worlds == [] || g.defaultDomain.None? {
      return Err;
    }
    return Ok(Resolved(config.savePath, g.defaultDomain.value, g.domains, g.worlds, playerStorage));
  }

  lemma OnlyIsAtMostOneDomain(domains: seq<Domain>, i: int)
    requires OnlyDefaultDomain(domains, i)
    ensures AtMostOneDefaultDomain(domains)
  {
  }
}
