/** The worlds configuration: when it is well formed, and what it resolves to. */
module WorldsConfig {
  import opened Wrappers
  import opened Bytes
  import opened Sequences

  // ---------------------------------------------------------------- the parsed file

  datatype Identifier = Identifier(space: string, path: string)

  datatype GameType = Survival | Creative | Adventure | Spectator

  datatype Difficulty = Peaceful | Easy | Normal | Hard

  /** A configuration table that only its own backend understands. */
  type Table = string

  const EMPTY_TABLE: Table := ""

  datatype Storage = Storage(kind: Identifier, config: Option<Table>)

  /** Seed texts are byte strings; an empty text asks for a random seed. */
  type SeedText = seq<byte>

  datatype World = World(
    name: string,
    generator: Identifier,
    isDefault: bool,
    seed: Option<SeedText>,
    gamemode: Option<GameType>,
    difficulty: Option<Difficulty>,
    storage: Option<Storage>,
    netherTarget: Option<string>,
    endTarget: Option<string>,
    config: Option<Table>)

  datatype Domain = Domain(
    name: string,
    isDefault: bool,
    seed: Option<SeedText>,
    gamemode: Option<GameType>,
    difficulty: Option<Difficulty>,
    storage: Option<Storage>,
    worlds: seq<World>)

  datatype Config = Config(
    savePath: string,
    seed: Option<SeedText>,
    gamemode: Option<GameType>,
    difficulty: Option<Difficulty>,
    storage: Option<Storage>,
    playerStorage: Option<Storage>,
    domains: seq<Domain>)

  /** Domains are the entries of a map, listed in the order of their names. */
  ghost predicate DistinctDomains(config: Config) {
    forall i, j :: 0 <= i < j < |config.domains| ==> config.domains[i].name != config.domains[j].name
  }

  // ---------------------------------------------------------------- registries and libraries

  datatype PathPart = NormalPart | RootPart | PrefixPart | CurrentPart | ParentPart

  /** A generator configuration that its generator accepted. */
  datatype Generator = Generator(isEnd: bool, settings: Table)

  /** The generator and storage registries, path and number parsing, and the random numbers. */
  datatype Env = Env(
    generate: (Identifier, Table) -> Option<Generator>,
    storageOk: Storage -> bool,
    parts: string -> seq<PathPart>,
    absolute: string -> bool,
    parse: SeedText -> Option<int>,
    random: nat -> int)

  // ---------------------------------------------------------------- names and paths

  predicate NamespaceChar(c: char) {
    c == '_' || c == '-' || 'a' <= c <= 'z' || '0' <= c <= '9' || c == '.'
  }

  predicate ValidNamespace(s: string) {
    s != ".." && forall i :: 0 <= i < |s| ==> NamespaceChar(s[i])
  }

  predicate ValidPath(s: string) {
    forall i :: 0 <= i < |s| ==> NamespaceChar(s[i]) || s[i] == '/'
  }

  predicate ValidDomainName(s: string) {
    s != "global" && s != "" && ValidNamespace(s)
  }

  predicate ValidWorldName(s: string) {
    s != "" && '/' !in s && ValidPath(s)
  }

  predicate CleanPart(absolute: bool, part: PathPart) {
    match part
    case NormalPart => true
    case RootPart => absolute
    case PrefixPart => absolute
    case CurrentPart => false
    case ParentPart => false
  }

  predicate CleanPath(env: Env, path: string) {
    var parts := env.parts(path);
    path != "" && forall i :: 0 <= i < |parts| ==> CleanPart(env.absolute(path), parts[i])
  }

  // ---------------------------------------------------------------- inheriting values

  function Or<T>(own: Option<T>, inherited: T): T {
    if own.Some? then own.value else inherited
  }

  const DISK := Storage(Identifier("steel", "disk"), None)

  function RootStorage(config: Config): Storage {
    Or(config.storage, DISK)
  }

  function DomainStorage(config: Config, d: Domain): Storage {
    Or(d.storage, RootStorage(config))
  }

  function PlayerStorage(config: Config): Storage {
    Or(config.playerStorage, DISK)
  }

  predicate PlayerStorageOk(s: Storage) {
    (s.kind == Identifier("steel", "disk") || s.kind == Identifier("steel", "ram")) && s.config.None?
  }

  function GeneratorOf(env: Env, w: World): Option<Generator> {
    env.generate(w.generator, Or(w.config, EMPTY_TABLE))
  }

  predicate IsEnd(env: Env, w: World) {
    GeneratorOf(env, w).Some? && GeneratorOf(env, w).value.isEnd
  }

  // ---------------------------------------------------------------- well-formedness

  /** A portal target that a world may name. */
  predicate TargetOk(source: string, target: Option<string>) {
    target.Some? ==> ValidWorldName(target.value) && target.value != source
  }

  /** What is asked of a world by itself. */
  predicate WorldOk(env: Env, domainStorage: Storage, w: World) {
    && ValidWorldName(w.name)
    && GeneratorOf(env, w).Some?
    && env.storageOk(Or(w.storage, domainStorage))
    && TargetOk(w.name, w.netherTarget)
    && TargetOk(w.name, w.endTarget)
    && (w.endTarget.Some? ==> !IsEnd(env, w))
  }

  /** A world of the list has the name. */
  ghost predicate Declared(worlds: seq<World>, name: string) {
    exists i :: 0 <= i < |worlds| && worlds[i].name == name
  }

  ghost predicate DeclaredEnd(env: Env, worlds: seq<World>, name: string) {
    exists i :: 0 <= i < |worlds| && worlds[i].name == name && IsEnd(env, worlds[i])
  }

  /** The targets of a world are declared in its domain, and an End target is an End world. */
  ghost predicate PortalsOk(env: Env, worlds: seq<World>, w: World) {
    && (w.netherTarget.Some? ==> Declared(worlds, w.netherTarget.value))
    && (w.endTarget.Some? ==> DeclaredEnd(env, worlds, w.endTarget.value))
  }

  ghost predicate DistinctWorlds(worlds: seq<World>) {
    forall i, j :: 0 <= i < j < |worlds| ==> worlds[i].name != worlds[j].name
  }

  /** The one default world of the list. */
  ghost predicate OnlyDefaultWorld(worlds: seq<World>, i: int) {
    && 0 <= i < |worlds| && worlds[i].isDefault
    && forall j :: 0 <= j < |worlds| && j != i ==> !worlds[j].isDefault
  }

  type Check = World -> bool

  function CheckOf(env: Env, domainStorage: Storage): Check {
    (w: World) => WorldOk(env, domainStorage, w)
  }

  /** Every world passes the check and no two have the same name. */
  ghost predicate WorldsOk(check: Check, worlds: seq<World>) {
    && (forall i :: 0 <= i < |worlds| ==> check(worlds[i]))
    && DistinctWorlds(worlds)
  }

  ghost predicate AllPortalsOk(env: Env, worlds: seq<World>) {
    forall i :: 0 <= i < |worlds| ==> PortalsOk(env, worlds, worlds[i])
  }

  ghost predicate DomainOk(env: Env, config: Config, d: Domain) {
    && ValidDomainName(d.name)
    && d.worlds != []
    && env.storageOk(DomainStorage(config, d))
    && WorldsOk(CheckOf(env, DomainStorage(config, d)), d.worlds)
    && AllPortalsOk(env, d.worlds)
    && exists i :: OnlyDefaultWorld(d.worlds, i)
  }

  ghost predicate OnlyDefaultDomain(domains: seq<Domain>, i: int) {
    && 0 <= i < |domains| && domains[i].isDefault
    && forall j :: 0 <= j < |domains| && j != i ==> !domains[j].isDefault
  }

  ghost predicate WellFormed(env: Env, config: Config) {
    && CleanPath(env, config.savePath)
    && config.domains != []
    && env.storageOk(RootStorage(config))
    && PlayerStorageOk(PlayerStorage(config))
    && (forall i :: 0 <= i < |config.domains| ==> DomainOk(env, config, config.domains[i]))
    && exists i :: OnlyDefaultDomain(config.domains, i)
  }

  // ---------------------------------------------------------------- seeds

  const TWO_63 := 0x8000_0000_0000_0000
  const TWO_64 := 0x1_0000_0000_0000_0000

  /** The i64 congruent to a number modulo 2^64. */
  function Wrap64(n: int): int {
    (n + TWO_63) % TWO_64 - TWO_63
  }

  /** The polynomial in 31 with the bytes as coefficients. */
  function Polynomial(text: SeedText): int {
    if text == [] then 0 else 31 * Polynomial(text[..|text| - 1]) + text[|text| - 1]
  }

  /** The seed of a text; `draw` numbers the random draw that an empty text takes. */
  function SeedOf(env: Env, text: SeedText, draw: nat): int {
    if text == [] then env.random(draw)
    else
      match env.parse(text)
      case Some(n) => n
      case None => Wrap64(Polynomial(text))
  }

  /** Whether an override of its own takes a draw. */
  function Draws(seed: Option<SeedText>): nat {
    if seed == Some([]) then 1 else 0
  }

  function WorldDraws(worlds: seq<World>): nat {
    if worlds == [] then 0 else WorldDraws(worlds[..|worlds| - 1]) + Draws(worlds[|worlds| - 1].seed)
  }

  /** The draws taken up to some point: one for the root unless it has a seed, then one for each
      empty seed of the domains and of the worlds in them, in order. */
  function DrawsBefore(config: Config, domains: seq<Domain>): nat {
    if domains == [] then Draws(Some(Or(config.seed, [])))
    else
      var last := domains[|domains| - 1];
      DrawsBefore(config, domains[..|domains| - 1]) + Draws(last.seed) + WorldDraws(last.worlds)
  }

  // ---------------------------------------------------------------- the resolved configuration

  datatype Defaults = Defaults(seed: int, gamemode: GameType, difficulty: Difficulty)

  datatype ResolvedWorld = ResolvedWorld(
    key: Identifier,
    domain: string,
    name: string,
    generator: Identifier,
    generatorConfig: Generator,
    seed: int,
    gamemode: GameType,
    difficulty: Difficulty,
    storage: Storage,
    netherTarget: Option<Identifier>,
    endTarget: Option<Identifier>)

  datatype ResolvedDomain = ResolvedDomain(name: string, defaultWorld: Identifier, worlds: seq<Identifier>)

  datatype Resolved = Resolved(
    savePath: string,
    defaultDomain: string,
    domains: seq<ResolvedDomain>,
    worlds: seq<ResolvedWorld>,
    playerStorage: Storage)

  function RootDefaults(env: Env, config: Config): Defaults {
    Defaults(SeedOf(env, Or(config.seed, []), 0), Or(config.gamemode, Survival), Or(config.difficulty, Normal))
  }

  function DomainDefaults(env: Env, root: Defaults, d: Domain, draw: nat): Defaults {
    Defaults(
      if d.seed.Some? then SeedOf(env, d.seed.value, draw) else root.seed,
      Or(d.gamemode, root.gamemode),
      Or(d.difficulty, root.difficulty))
  }

  function TargetKey(domain: string, target: Option<string>): Option<Identifier> {
    if target.Some? then Some(Identifier(domain, target.value)) else None
  }

  const NO_GENERATOR := Generator(false, EMPTY_TABLE)

  function WorldOf(env: Env, domain: string, storage: Storage, defaults: Defaults, w: World, draw: nat): ResolvedWorld {
    ResolvedWorld(
      Identifier(domain, w.name),
      domain,
      w.name,
      w.generator,
      Or(GeneratorOf(env, w), NO_GENERATOR),
      if w.seed.Some? then SeedOf(env, w.seed.value, draw) else defaults.seed,
      Or(w.gamemode, defaults.gamemode),
      Or(w.difficulty, defaults.difficulty),
      Or(w.storage, storage),
      TargetKey(domain, w.netherTarget),
      TargetKey(domain, w.endTarget))
  }

  /** How a scope resolves a world, given the draws taken before it. */
  type Scope = (World, nat) -> ResolvedWorld

  function ScopeOf(env: Env, domain: string, storage: Storage, defaults: Defaults): Scope {
    (w: World, draw: nat) => WorldOf(env, domain, storage, defaults, w, draw)
  }

  /** The worlds of a domain, when `draw` draws were taken before its first world. */
  function WorldsOf(scope: Scope, worlds: seq<World>, draw: nat): (r: seq<ResolvedWorld>)
    ensures |r| == |worlds|
    decreases |worlds|
  {
    if worlds == [] then []
    else
      var n := |worlds| - 1;
      WorldsOf(scope, worlds[..n], draw) + [scope(worlds[n], draw + WorldDraws(worlds[..n]))]
  }

  function Keys(domain: string, worlds: seq<World>): (r: seq<Identifier>)
    ensures |r| == |worlds|
  {
    seq(|worlds|, i requires 0 <= i < |worlds| => Identifier(domain, worlds[i].name))
  }

  /** The scope of a domain, given the draws taken before the domain. */
  function DomainScope(env: Env, config: Config, d: Domain, draw: nat): Scope {
    ScopeOf(env, d.name, DomainStorage(config, d), DomainDefaults(env, RootDefaults(env, config), d, draw))
  }

  /** How the worlds of a domain are resolved, given the draws taken before the domain. */
  type Block = (Domain, nat) -> seq<ResolvedWorld>

  function BlockOf(env: Env, config: Config): Block {
    (d: Domain, draw: nat) => WorldsOf(DomainScope(env, config, d, draw), d.worlds, draw + Draws(d.seed))
  }

  /** The worlds of the domains, domain by domain. */
  function Blocks(block: Block, config: Config, domains: seq<Domain>): (blocks: seq<seq<ResolvedWorld>>)
    ensures |blocks| == |domains|
    decreases |domains|
  {
    if domains == [] then []
    else
      var n := |domains| - 1;
      Blocks(block, config, domains[..n]) + [block(domains[n], DrawsBefore(config, domains[..n]))]
  }

  function AllWorlds(block: Block, config: Config, domains: seq<Domain>): seq<ResolvedWorld> {
    Flatten(Blocks(block, config, domains))
  }
}
