/** What holds of every resolved worlds configuration. */
module WorldsResolution {
  import opened Wrappers
  import opened Sequences
  import opened WorldsConfig
  import opened WorldsResolver

  // ---------------------------------------------------------------- where each world ends up

  ghost predicate In(config: Config, i: nat, j: nat) {
    i < |config.domains| && j < |config.domains[i].worlds|
  }

  /** World `j` of domain `i`, resolved. */
  function ResolvedAt(env: Env, config: Config, i: nat, j: nat): ResolvedWorld
    requires i < |config.domains| && j < |config.domains[i].worlds|
  {
    var d := config.domains[i];
    DomainScope(env, config, d, DomainDraw(config, i))(d.worlds[j], WorldDraw(config, i, j))
  }

  /** The number of the draw that the seed of domain `i` takes. */
  function DomainDraw(config: Config, i: nat): nat
    requires i < |config.domains|
  {
    DrawsBefore(config, config.domains[..i])
  }

  /** The number of the draw that the seed of its world `j` takes. */
  function WorldDraw(config: Config, i: nat, j: nat): nat
    requires i < |config.domains| && j < |config.domains[i].worlds|
  {
    DomainDraw(config, i) + Draws(config.domains[i].seed) + WorldDraws(config.domains[i].worlds[..j])
  }

  /** Where the worlds of a domain start in the list of all worlds. */
  function Start(domains: seq<Domain>, i: nat): nat
    requires i <= |domains|
  {
    Offset(WorldLists(domains), i)
  }

  function WorldLists(domains: seq<Domain>): (lists: seq<seq<World>>)
    ensures |lists| == |domains|
  {
    seq(|domains|, i requires 0 <= i < |domains| => domains[i].worlds)
  }

  lemma {:induction false} BlocksAt(block: Block, config: Config, domains: seq<Domain>, i: nat)
    requires i < |domains|
    ensures Blocks(block, config, domains)[i] == block(domains[i], DrawsBefore(config, domains[..i]))
    decreases |domains|
  {
    var n := |domains| - 1;
    if i < n {
      BlocksAt(block, config, domains[..n], i);
      assert domains[..n][..i] == domains[..i];
    }
  }

  /** A block has one resolved world for each world of its domain. */
  ghost predicate Sized(block: Block) {
    forall d: Domain, draw: nat :: |block(d, draw)| == |d.worlds|
  }

  lemma {:induction false} StartIsOffset(block: Block, config: Config, i: nat)
    requires i <= |config.domains| && Sized(block)
    ensures Start(config.domains, i) == Offset(Blocks(block, config, config.domains), i)
  {
    if i > 0 {
      StartIsOffset(block, config, i - 1);
      BlocksAt(block, config, config.domains, i - 1);
    }
  }

  /** World `j` of domain `i` in the list of all worlds. */
  lemma AllWorldsAt(block: Block, config: Config, i: nat, j: nat)
    requires Sized(block) && In(config, i, j)
    ensures var a, worlds := Start(config.domains, i) + j, AllWorlds(block, config, config.domains);
            a < |worlds| && worlds[a] == block(config.domains[i], DomainDraw(config, i))[j]
  {
    BlocksAt(block, config, config.domains, i);
    FlattenAt(Blocks(block, config, config.domains), i, j);
    StartIsOffset(block, config, i);
  }

  lemma AllWorldsSize(block: Block, config: Config)
    requires Sized(block)
    ensures |AllWorlds(block, config, config.domains)| == Start(config.domains, |config.domains|)
  {
    FlattenSize(Blocks(block, config, config.domains));
    StartIsOffset(block, config, |config.domains|);
  }

  lemma BlockEntry(env: Env, config: Config, i: nat, j: nat)
    requires In(config, i, j)
    ensures var worlds := BlockOf(env, config)(config.domains[i], DomainDraw(config, i));
            j < |worlds| && worlds[j] == ResolvedAt(env, config, i, j)
  {
    var d, draw := config.domains[i], DomainDraw(config, i);
    WorldsOfAt(DomainScope(env, config, d, draw), d.worlds, draw + Draws(d.seed), j);
  }

  /** Every declared world is resolved. */
  lemma Listed(env: Env, config: Config, out: Resolved, i: nat, j: nat)
    requires Resolves(env, config, out) && In(config, i, j)
    ensures Start(config.domains, i) + j < |out.worlds|
    ensures out.worlds[Start(config.domains, i) + j] == ResolvedAt(env, config, i, j)
  {
    BlockIsSized(env, config);
    AllWorldsAt(BlockOf(env, config), config, i, j);
    BlockEntry(env, config, i, j);
  }

  lemma BlockIsSized(env: Env, config: Config)
    ensures Sized(BlockOf(env, config))
  {
  }

  /** And every resolved world comes from one declared world. */
  lemma Located(env: Env, config: Config, out: Resolved, a: nat) returns (i: nat, j: nat)
    requires Resolves(env, config, out) && a < |out.worlds|
    ensures In(config, i, j) && a == Start(config.domains, i) + j
  {
    BlockIsSized(env, config);
    AllWorldsSize(BlockOf(env, config), config);
    i, j := FlattenLocate(WorldLists(config.domains), |config.domains|, a);
  }

  /** The parts of a resolved world that come from its own declaration. */
  ghost predicate Mirrors(env: Env, d: Domain, w: World, r: ResolvedWorld) {
    && r.key == Identifier(d.name, w.name) && r.domain == d.name
    && r.netherTarget == TargetKey(d.name, w.netherTarget)
    && r.endTarget == TargetKey(d.name, w.endTarget)
    && r.generatorConfig == Or(GeneratorOf(env, w), NO_GENERATOR)
  }

  /** Every declared world is mirrored at its place in the list, and the list has no others. */
  ghost predicate Mirrored(env: Env, config: Config, worlds: seq<ResolvedWorld>) {
    && |worlds| == Start(config.domains, |config.domains|)
    && forall i: nat, j: nat :: In(config, i, j) ==> MirroredAt(env, config, worlds, i, j)
  }

  ghost predicate MirroredAt(env: Env, config: Config, worlds: seq<ResolvedWorld>, i: nat, j: nat)
    requires In(config, i, j)
  {
    var a := Start(config.domains, i) + j;
    a < |worlds| && Mirrors(env, config.domains[i], config.domains[i].worlds[j], worlds[a])
  }

  lemma ResolvedMirrors(env: Env, config: Config, i: nat, j: nat)
    requires In(config, i, j)
    ensures Mirrors(env, config.domains[i], config.domains[i].worlds[j], ResolvedAt(env, config, i, j))
  {
  }

  lemma ResolvesMirrored(env: Env, config: Config, out: Resolved)
    requires Resolves(env, config, out)
    ensures Mirrored(env, config, out.worlds)
  {
    forall i: nat, j: nat | In(config, i, j)
      ensures MirroredAt(env, config, out.worlds, i, j)
    {
      Listed(env, config, out, i, j);
      ResolvedMirrors(env, config, i, j);
    }
    BlockIsSized(env, config);
    AllWorldsSize(BlockOf(env, config), config);
  }

  // ---------------------------------------------------------------- keys

  /** No two resolved worlds have the same key. */
  lemma KeysAreUnique(env: Env, config: Config, out: Resolved, a: nat, b: nat)
    requires WellFormed(env, config) && DistinctDomains(config) && Resolves(env, config, out)
    requires a < b < |out.worlds|
    ensures out.worlds[a].key != out.worlds[b].key
  {
    ResolvesMirrored(env, config, out);
    forall i | 0 <= i < |config.domains|
      ensures DistinctWorlds(config.domains[i].worlds)
    {
      assert DomainOk(env, config, config.domains[i]);
    }
    KeysDifferAt(env, config, out.worlds, a, b);
  }

  lemma KeysDifferAt(env: Env, config: Config, worlds: seq<ResolvedWorld>, a: nat, b: nat)
    requires DistinctDomains(config) && Mirrored(env, config, worlds) && a < b < |worlds|
    requires forall i :: 0 <= i < |config.domains| ==> DistinctWorlds(config.domains[i].worlds)
    ensures worlds[a].key != worlds[b].key
  {
    var i, j := FlattenLocate(WorldLists(config.domains), |config.domains|, a);
    var k, l := FlattenLocate(WorldLists(config.domains), |config.domains|, b);
    KeysDiffer(env, config, worlds, i, j, k, l);
  }

  lemma KeysDiffer(env: Env, config: Config, worlds: seq<ResolvedWorld>, i: nat, j: nat, k: nat, l: nat)
    requires Mirrored(env, config, worlds) && DistinctDomains(config)
    requires In(config, i, j) && In(config, k, l) && (i != k || j != l)
    requires DistinctWorlds(config.domains[i].worlds)
    ensures var a, b := Start(config.domains, i) + j, Start(config.domains, k) + l;
            a < |worlds| && b < |worlds| && worlds[a].key != worlds[b].key
  {
    assert MirroredAt(env, config, worlds, i, j) && MirroredAt(env, config, worlds, k, l);
    if i == k {
      NamesDiffer(config.domains[i].worlds, j, l);
    } else {
      DomainNamesDiffer(config, i, k);
    }
  }

  lemma NamesDiffer(worlds: seq<World>, j: nat, l: nat)
    requires DistinctWorlds(worlds) && j < |worlds| && l < |worlds| && j != l
    ensures worlds[j].name != worlds[l].name
  {
    assert j < l ==> worlds[j].name != worlds[l].name;
    assert l < j ==> worlds[l].name != worlds[j].name;
  }

  lemma DomainNamesDiffer(config: Config, i: nat, k: nat)
    requires DistinctDomains(config) && i < |config.domains| && k < |config.domains| && i != k
    ensures config.domains[i].name != config.domains[k].name
  {
    assert i < k ==> config.domains[i].name != config.domains[k].name;
    assert k < i ==> config.domains[k].name != config.domains[i].name;
  }

  // ---------------------------------------------------------------- portals

  /** Another resolved world of the same domain has the key. */
  ghost predicate Neighbour(worlds: seq<ResolvedWorld>, a: nat, key: Identifier, b: int)
    requires a < |worlds|
  {
    0 <= b < |worlds| && b != a && worlds[b].domain == worlds[a].domain && worlds[b].key == key
  }

  lemma NeighbourAt(env: Env, config: Config, worlds: seq<ResolvedWorld>, i: nat, j: nat, l: nat)
    requires Mirrored(env, config, worlds) && In(config, i, j) && In(config, i, l) && j != l
    ensures var a, b := Start(config.domains, i) + j, Start(config.domains, i) + l;
            var d := config.domains[i];
            && a < |worlds| && Neighbour(worlds, a, Identifier(d.name, d.worlds[l].name), b)
            && worlds[b].generatorConfig == Or(GeneratorOf(env, d.worlds[l]), NO_GENERATOR)
  {
    assert MirroredAt(env, config, worlds, i, j) && MirroredAt(env, config, worlds, i, l);
  }

  /** Nether portals lead to another world of the same domain. */
  lemma NetherPortalsStayInside(env: Env, config: Config, out: Resolved, a: nat)
    requires WellFormed(env, config) && Resolves(env, config, out) && a < |out.worlds|
    requires out.worlds[a].netherTarget.Some?
    ensures exists b :: Neighbour(out.worlds, a, out.worlds[a].netherTarget.value, b)
  {
    ResolvesMirrored(env, config, out);
    var i, j := Located(env, config, out, a);
    NetherFrom(env, config, out.worlds, i, j);
  }

  lemma NetherFrom(env: Env, config: Config, worlds: seq<ResolvedWorld>, i: nat, j: nat)
    requires Mirrored(env, config, worlds) && In(config, i, j) && DomainOk(env, config, config.domains[i])
    ensures var a := Start(config.domains, i) + j;
            a < |worlds| && (worlds[a].netherTarget.Some? ==>
              exists b :: Neighbour(worlds, a, worlds[a].netherTarget.value, b))
  {
    var d := config.domains[i];
    var w := d.worlds[j];
    assert MirroredAt(env, config, worlds, i, j);
    assert CheckOf(env, DomainStorage(config, d))(w) && PortalsOk(env, d.worlds, w);
    if w.netherTarget.Some? {
      var l :| 0 <= l < |d.worlds| && d.worlds[l].name == w.netherTarget.value;
      NeighbourAt(env, config, worlds, i, j, l);
    }
  }

  /** End portals lead from a world that is not an End world to one of the same domain that is. */
  lemma EndPortalsLeadToTheEnd(env: Env, config: Config, out: Resolved, a: nat)
    requires WellFormed(env, config) && Resolves(env, config, out) && a < |out.worlds|
    requires out.worlds[a].endTarget.Some?
    ensures !out.worlds[a].generatorConfig.isEnd
    ensures exists b :: Neighbour(out.worlds, a, out.worlds[a].endTarget.value, b)
                        && out.worlds[b].generatorConfig.isEnd
  {
    ResolvesMirrored(env, config, out);
    var i, j := Located(env, config, out, a);
    EndFrom(env, config, out.worlds, i, j);
  }

  lemma EndFrom(env: Env, config: Config, worlds: seq<ResolvedWorld>, i: nat, j: nat)
    requires Mirrored(env, config, worlds) && In(config, i, j) && DomainOk(env, config, config.domains[i])
    ensures var a := Start(config.domains, i) + j;
            a < |worlds| && (worlds[a].endTarget.Some? ==>
              && !worlds[a].generatorConfig.isEnd
              && exists b :: Neighbour(worlds, a, worlds[a].endTarget.value, b) && worlds[b].generatorConfig.isEnd)
  {
    var d := config.domains[i];
    var w := d.worlds[j];
    assert MirroredAt(env, config, worlds, i, j);
    assert CheckOf(env, DomainStorage(config, d))(w) && PortalsOk(env, d.worlds, w);
    if w.endTarget.Some? {
      var l :| 0 <= l < |d.worlds| && d.worlds[l].name == w.endTarget.value && IsEnd(env, d.worlds[l]);
      NeighbourAt(env, config, worlds, i, j, l);
    }
  }

  // ---------------------------------------------------------------- defaults

  /** Exactly one listed domain has the name of the default domain: the one declared so. */
  lemma DefaultDomainIsTheOne(env: Env, config: Config, out: Resolved, i: nat)
    requires DistinctDomains(config) && Resolves(env, config, out)
    requires i < |out.domains|
    ensures out.domains[i].name == out.defaultDomain <==> config.domains[i].isDefault
  {
    var k :| OnlyDefaultDomain(config.domains, k) && out.defaultDomain == config.domains[k].name;
    assert DomainResult(config.domains[i], out.domains[i]);
    if i != k {
      DomainNamesDiffer(config, i, k);
    }
  }

  /** The default world of every domain is the one world declared so, and it is resolved. */
  lemma DefaultWorldIsTheOne(env: Env, config: Config, out: Resolved, i: nat, j: nat)
    requires WellFormed(env, config) && Resolves(env, config, out) && In(config, i, j)
    ensures var a := Start(config.domains, i) + j;
            && i < |out.domains| && a < |out.worlds|
            && (out.worlds[a].key == out.domains[i].defaultWorld <==> config.domains[i].worlds[j].isDefault)
            && out.worlds[a].key in out.domains[i].worlds
  {
    ResolvesMirrored(env, config, out);
    DefaultWorldAt(env, config, out.domains, out.worlds, i, j);
  }

  lemma DefaultWorldAt(env: Env, config: Config, domains: seq<ResolvedDomain>, worlds: seq<ResolvedWorld>,
                       i: nat, j: nat)
    requires Mirrored(env, config, worlds) && In(config, i, j)
    requires AllResults(config.domains, domains) && DomainOk(env, config, config.domains[i])
    ensures var a := Start(config.domains, i) + j;
            && i < |domains| && a < |worlds|
            && (worlds[a].key == domains[i].defaultWorld <==> config.domains[i].worlds[j].isDefault)
            && worlds[a].key in domains[i].worlds
  {
    assert MirroredAt(env, config, worlds, i, j);
    DefaultWorldKey(config.domains[i], domains[i], j);
  }

  lemma DefaultWorldKey(d: Domain, r: ResolvedDomain, j: nat)
    requires DistinctWorlds(d.worlds) && DomainResult(d, r) && j < |d.worlds|
    ensures var key := Identifier(d.name, d.worlds[j].name);
            (key == r.defaultWorld <==> d.worlds[j].isDefault) && key in r.worlds
  {
    var k :| OnlyDefaultWorld(d.worlds, k) && r.defaultWorld == Identifier(d.name, d.worlds[k].name);
    assert r.worlds[j] == Identifier(d.name, d.worlds[j].name);
    if j != k {
      NamesDiffer(d.worlds, j, k);
    }
  }

  // ---------------------------------------------------------------- the nearest override

  /** The first value that is set, from the world outwards. */
  function Nearest<T>(layers: seq<Option<T>>, fallback: T): T {
    if layers == [] then fallback
    else if layers[0].Some? then layers[0].value
    else Nearest(layers[1..], fallback)
  }

  lemma NearestOfThree<T>(own: Option<T>, domain: Option<T>, root: Option<T>, fallback: T)
    ensures Nearest([own, domain, root], fallback) == Or(own, Or(domain, Or(root, fallback)))
  {
    assert [root][1..] == [] && [domain, root][1..] == [root] && [own, domain, root][1..] == [domain, root];
    assert Nearest([root], fallback) == Or(root, fallback);
    assert Nearest([domain, root], fallback) == Or(domain, Or(root, fallback));
  }

  /** Game mode, difficulty and storage of a world are the nearest that is set. */
  lemma NearestOverrideWins(env: Env, config: Config, out: Resolved, i: nat, j: nat)
    requires Resolves(env, config, out) && In(config, i, j)
    ensures var d := config.domains[i];
            var w := d.worlds[j];
            var a := Start(config.domains, i) + j;
            && a < |out.worlds|
            && out.worlds[a].gamemode == Nearest([w.gamemode, d.gamemode, config.gamemode], Survival)
            && out.worlds[a].difficulty == Nearest([w.difficulty, d.difficulty, config.difficulty], Normal)
            && out.worlds[a].storage
               == Nearest([w.storage, d.storage, config.storage], Storage(Identifier("steel", "disk"), None))
  {
    var d := config.domains[i];
    var w := d.worlds[j];
    Listed(env, config, out, i, j);
    NearestOfThree(w.gamemode, d.gamemode, config.gamemode, Survival);
    NearestOfThree(w.difficulty, d.difficulty, config.difficulty, Normal);
    NearestOfThree(w.storage, d.storage, config.storage, DISK);
  }

  /** The seed of the nearest text. */
  function NearestSeed(env: Env, config: Config, i: nat, j: nat): int
    requires i < |config.domains| && j < |config.domains[i].worlds|
  {
    var d := config.domains[i];
    var w := d.worlds[j];
    if w.seed.Some? then SeedOf(env, w.seed.value, WorldDraw(config, i, j))
    else if d.seed.Some? then SeedOf(env, d.seed.value, DomainDraw(config, i))
    else SeedOf(env, Or(config.seed, []), 0)
  }

  lemma SeedResolved(env: Env, config: Config, i: nat, j: nat)
    requires In(config, i, j)
    ensures ResolvedAt(env, config, i, j).seed == NearestSeed(env, config, i, j)
  {
  }

  /** The seed of a world is that of the nearest text. Worlds that inherit a random seed share one
      draw: the draw of the domain, or draw 0 of the root. */
  lemma NearestSeedWins(env: Env, config: Config, out: Resolved, i: nat, j: nat)
    requires Resolves(env, config, out) && In(config, i, j)
    ensures var a := Start(config.domains, i) + j;
            a < |out.worlds| && out.worlds[a].seed == NearestSeed(env, config, i, j)
  {
    Listed(env, config, out, i, j);
    SeedResolved(env, config, i, j);
  }

  lemma {:induction false} WorldDrawsGrow(worlds: seq<World>, j: nat, l: nat)
    requires j < l <= |worlds| && worlds[j].seed == Some([])
    ensures WorldDraws(worlds[..j]) < WorldDraws(worlds[..l])
    decreases l
  {
    assert worlds[..l][..l - 1] == worlds[..l - 1];
    if j < l - 1 {
      WorldDrawsGrow(worlds, j, l - 1);
    }
  }

  lemma {:induction false} DomainDrawsGrow(config: Config, i: nat, k: nat)
    requires i < k <= |config.domains|
    ensures DrawsBefore(config, config.domains[..i]) + Draws(config.domains[i].seed)
              + WorldDraws(config.domains[i].worlds)
         <= DrawsBefore(config, config.domains[..k])
    decreases k
  {
    assert config.domains[..k][..k - 1] == config.domains[..k - 1];
    if i < k - 1 {
      DomainDrawsGrow(config, i, k - 1);
    }
  }

  /** The places in the file that can ask for a random seed. */
  datatype Place = Root | OfDomain(i: nat) | OfWorld(i: nat, j: nat)

  ghost predicate Asks(config: Config, place: Place) {
    match place
    case Root => Or(config.seed, []) == []
    case OfDomain(i) => i < |config.domains| && config.domains[i].seed == Some([])
    case OfWorld(i, j) => In(config, i, j) && config.domains[i].worlds[j].seed == Some([])
  }

  /** The number of the draw that a place takes. */
  ghost function DrawOf(config: Config, place: Place): nat
    requires Asks(config, place)
  {
    match place
    case Root => 0
    case OfDomain(i) => DomainDraw(config, i)
    case OfWorld(i, j) => WorldDraw(config, i, j)
  }

  /** The order in which the places draw. */
  predicate Before(a: Place, b: Place) {
    match (a, b)
    case (Root, OfDomain(_)) => true
    case (Root, OfWorld(_, _)) => true
    case (OfDomain(i), OfDomain(k)) => i < k
    case (OfDomain(i), OfWorld(k, _)) => i <= k
    case (OfWorld(i, _), OfDomain(k)) => i < k
    case (OfWorld(i, j), OfWorld(k, l)) => i < k || (i == k && j < l)
    case _ => false
  }

  lemma {:induction false} RootDrawsFirst(config: Config, domains: seq<Domain>)
    ensures DrawsBefore(config, domains) >= Draws(Some(Or(config.seed, [])))
    decreases |domains|
  {
    if domains != [] {
      RootDrawsFirst(config, domains[..|domains| - 1]);
    }
  }

  /** A world that draws does so before every later domain. */
  lemma {:induction false} WorldBeforeDomain(config: Config, i: nat, j: nat, k: nat)
    requires Asks(config, OfWorld(i, j)) && i < k <= |config.domains|
    ensures WorldDraw(config, i, j) < DrawsBefore(config, config.domains[..k])
  {
    var worlds := config.domains[i].worlds;
    assert worlds[..|worlds|] == worlds;
    WorldDrawsGrow(worlds, j, |worlds|);
    DomainDrawsGrow(config, i, k);
  }

  lemma DrawsInOrder(config: Config, a: Place, b: Place)
    requires Asks(config, a) && Asks(config, b) && Before(a, b)
    ensures DrawOf(config, a) < DrawOf(config, b)
  {
    if a.Root? {
      RootDrawsFirst(config, config.domains[..b.i]);
    } else if a.i < b.i {
      if a.OfWorld? {
        WorldBeforeDomain(config, a.i, a.j, b.i);
      } else {
        DomainDrawsGrow(config, a.i, b.i);
      }
    } else if a.OfWorld? {
      WorldDrawsGrow(config.domains[a.i].worlds, a.j, b.j);
    }
  }

  /** The root, the domains and the worlds that ask for a random seed of their own all get a draw
      of their own. */
  lemma OwnDrawsDiffer(config: Config, a: Place, b: Place)
    requires Asks(config, a) && Asks(config, b) && a != b
    ensures DrawOf(config, a) != DrawOf(config, b)
  {
    if Before(a, b) {
      DrawsInOrder(config, a, b);
    } else {
      DrawsInOrder(config, b, a);
    }
  }
}
