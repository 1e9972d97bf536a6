/** What a worlds configuration means, spelled out: seeds, names, paths and every field of a resolved
    world. */
module WorldsMeaning {
  import opened Wrappers
  import opened Bytes
  import opened WorldsConfig
  import opened WorldsResolver
  import opened WorldsResolution

  // ---------------------------------------------------------------- seeds

  function Pow31(n: nat): nat {
    if n == 0 then 1 else 31 * Pow31(n - 1)
  }

  /** The sum of `text[k] * 31^(|text| - 1 - k)`, from the first byte on. */
  function HashSum(text: SeedText): nat {
    if text == [] then 0 else text[0] * Pow31(|text| - 1) + HashSum(text[1..])
  }

  lemma {:induction false} HashSumSnoc(text: SeedText, b: byte)
    ensures HashSum(text + [b]) == 31 * HashSum(text) + b
    decreases |text|
  {
    if text == [] {
      assert ([] + [b])[1..] == [];
    } else {
      var a, p := text[0], Pow31(|text| - 1);
      assert (text + [b])[1..] == text[1..] + [b];
      HashSumSnoc(text[1..], b);
      assert a * (31 * p) == 31 * (a * p);
    }
  }

  lemma {:induction false} PolynomialIsSum(text: SeedText)
    ensures Polynomial(text) == HashSum(text)
    decreases |text|
  {
    if text != [] {
      var n := |text| - 1;
      assert text == text[..n] + [text[n]];
      PolynomialIsSum(text[..n]);
      HashSumSnoc(text[..n], text[n]);
    }
  }

  /** The number is the 64-bit two's-complement reading of the sum. */
  predicate IsHash(seed: int, text: SeedText) {
    -0x8000_0000_0000_0000 <= seed < 0x8000_0000_0000_0000 && (seed - HashSum(text)) % 0x1_0000_0000_0000_0000 == 0
  }

  lemma {:induction false} WrapIsHash(text: SeedText)
    ensures IsHash(Wrap64(Polynomial(text)), text)
  {
    PolynomialIsSum(text);
    WrapIsCongruent(HashSum(text));
  }

  lemma WrapIsCongruent(n: int)
    ensures -TWO_63 <= Wrap64(n) < TWO_63 && (Wrap64(n) - n) % TWO_64 == 0
  {
    var m := n + TWO_63;
    assert m % TWO_64 - m == -(m / TWO_64) * TWO_64;
  }

  /** What the seed of a text is: a random draw for an empty text, the number that the text denotes,
      or else its hash. */
  ghost predicate IsSeed(env: Env, seed: int, text: SeedText, draw: nat) {
    if text == [] then seed == env.random(draw)
    else if env.parse(text).Some? then seed == env.parse(text).value
    else IsHash(seed, text)
  }

  lemma SeedMeans(env: Env, text: SeedText, draw: nat)
    ensures IsSeed(env, SeedOf(env, text, draw), text, draw)
  {
    WrapIsHash(text);
  }

  /** Every resolved world has the seed of the nearest text: its own, that of its domain, or that of
      the root, which is empty when it is not given. */
  lemma ResolvedSeed(env: Env, config: Config, out: Resolved, i: nat, j: nat)
    requires Resolves(env, config, out) && In(config, i, j)
    ensures var d := config.domains[i];
            var w := d.worlds[j];
            var a := Start(config.domains, i) + j;
            var draw := if w.seed.Some? then WorldDraw(config, i, j)
                        else if d.seed.Some? then DomainDraw(config, i) else 0;
            a < |out.worlds| && IsSeed(env, out.worlds[a].seed, Nearest([w.seed, d.seed, config.seed], []), draw)
  {
    var d := config.domains[i];
    var w := d.worlds[j];
    NearestSeedWins(env, config, out, i, j);
    NearestOfThree(w.seed, d.seed, config.seed, []);
    if w.seed.Some? {
      SeedMeans(env, w.seed.value, WorldDraw(config, i, j));
    } else if d.seed.Some? {
      SeedMeans(env, d.seed.value, DomainDraw(config, i));
    } else {
      SeedMeans(env, Or(config.seed, []), 0);
    }
  }

  // ---------------------------------------------------------------- names, paths and storages

  const LETTERS := "abcdefghijklmnopqrstuvwxyz"
  const DIGITS := "0123456789"
  const SIGNS := "_-."

  predicate NameChar(c: char) {
    c in LETTERS || c in DIGITS || c in SIGNS
  }

  lemma LetterListed(c: char)
    ensures 'a' <= c <= 'z' <==> c in LETTERS
  {
    if 'a' <= c <= 'z' {
      assert LETTERS[c as int - 'a' as int] == c;
    }
  }

  lemma DigitListed(c: char)
    ensures '0' <= c <= '9' <==> c in DIGITS
  {
    if '0' <= c <= '9' {
      assert DIGITS[c as int - '0' as int] == c;
    }
  }

  lemma NameCharListed(c: char)
    ensures NamespaceChar(c) <==> NameChar(c)
    ensures NameChar(c) ==> c != '/'
  {
    LetterListed(c);
    DigitListed(c);
    assert c in SIGNS <==> c == SIGNS[0] || c == SIGNS[1] || c == SIGNS[2];
  }

  /** Domain names are lower-case names other than `global` and `..`; world names are any such names.
      Neither is empty. */
  lemma NamesMean(s: string)
    ensures ValidDomainName(s) <==> s !in ["", "global", ".."] && forall i :: 0 <= i < |s| ==> NameChar(s[i])
    ensures ValidWorldName(s) <==> s != "" && forall i :: 0 <= i < |s| ==> NameChar(s[i])
  {
    forall i | 0 <= i < |s|
      ensures NamespaceChar(s[i]) <==> NameChar(s[i])
      ensures NameChar(s[i]) ==> s[i] != '/'
    {
      NameCharListed(s[i]);
    }
  }

  /** A clean path is not empty, stays out of `.` and `..`, and has a root only when it is absolute. */
  lemma PathMeans(env: Env, path: string)
    ensures CleanPath(env, path) <==>
              && path != "" && CurrentPart !in env.parts(path) && ParentPart !in env.parts(path)
              && (env.absolute(path) || (RootPart !in env.parts(path) && PrefixPart !in env.parts(path)))
  {
    var parts := env.parts(path);
    if path != "" && forall part :: part in parts ==> CleanPart(env.absolute(path), part) {
      assert CleanPath(env, path);
    }
  }

  /** Players are stored on disk or in memory, without further configuration. */
  lemma PlayerStorageMeans(s: Storage)
    ensures PlayerStorageOk(s) <==>
              s == Storage(Identifier("steel", "disk"), None) || s == Storage(Identifier("steel", "ram"), None)
  {
  }

  // ---------------------------------------------------------------- portal targets

  /** Another world of the domain has the name. */
  ghost predicate Other(worlds: seq<World>, j: nat, name: string, l: int) {
    0 <= l < |worlds| && l != j && worlds[l].name == name
  }

  /** Where all names are valid and different: a Nether target must be another world of the domain. */
  lemma NetherTargetMeans(env: Env, worlds: seq<World>, j: nat)
    requires j < |worlds| && DistinctWorlds(worlds)
    requires forall l :: 0 <= l < |worlds| ==> ValidWorldName(worlds[l].name)
    ensures var w := worlds[j];
            (TargetOk(w.name, w.netherTarget) && (w.netherTarget.Some? ==> Declared(worlds, w.netherTarget.value))) <==>
              w.netherTarget.None? || exists l :: Other(worlds, j, w.netherTarget.value, l)
  {
    var w := worlds[j];
    if w.netherTarget.Some? {
      TargetIsOther(worlds, j, w.netherTarget.value);
    }
  }

  lemma TargetIsOther(worlds: seq<World>, j: nat, name: string)
    requires j < |worlds| && DistinctWorlds(worlds)
    requires forall l :: 0 <= l < |worlds| ==> ValidWorldName(worlds[l].name)
    ensures ValidWorldName(name) && name != worlds[j].name && Declared(worlds, name)
       <==> exists l :: Other(worlds, j, name, l)
  {
    if Declared(worlds, name) && name != worlds[j].name {
      var l :| 0 <= l < |worlds| && worlds[l].name == name;
      assert Other(worlds, j, name, l);
    }
    if exists l :: Other(worlds, j, name, l) {
      var l :| Other(worlds, j, name, l);
      NamesDiffer(worlds, j, l);
    }
  }

  /** And an End target must be another world of the domain that is an End world, named by a world that
      is not. */
  lemma EndTargetMeans(env: Env, worlds: seq<World>, j: nat)
    requires j < |worlds| && DistinctWorlds(worlds)
    requires forall l :: 0 <= l < |worlds| ==> ValidWorldName(worlds[l].name)
    ensures var w := worlds[j];
            (&& TargetOk(w.name, w.endTarget) && (w.endTarget.Some? ==> !IsEnd(env, w))
             && (w.endTarget.Some? ==> DeclaredEnd(env, worlds, w.endTarget.value))) <==>
              || w.endTarget.None?
              || (!IsEnd(env, w) && exists l :: Other(worlds, j, w.endTarget.value, l) && IsEnd(env, worlds[l]))
  {
    var w := worlds[j];
    if w.endTarget.Some? && DeclaredEnd(env, worlds, w.endTarget.value) && w.endTarget.value != w.name {
      var l :| 0 <= l < |worlds| && worlds[l].name == w.endTarget.value && IsEnd(env, worlds[l]);
      assert Other(worlds, j, w.endTarget.value, l);
    }
    if w.endTarget.Some? && exists l :: Other(worlds, j, w.endTarget.value, l) {
      TargetIsOther(worlds, j, w.endTarget.value);
    }
  }

  // ---------------------------------------------------------------- what is resolved

  /** Every field of a resolved world comes from its own declaration, and what was accepted for it is
      acceptable: its name, its generator's configuration and its storage. */
  lemma ResolvedFields(env: Env, config: Config, out: Resolved, i: nat, j: nat)
    requires WellFormed(env, config) && Resolves(env, config, out) && In(config, i, j)
    ensures var d := config.domains[i];
            var w := d.worlds[j];
            var a := Start(config.domains, i) + j;
            a < |out.worlds| && var r := out.worlds[a];
            && r.key == Identifier(d.name, w.name) && r.domain == d.name && r.name == w.name
            && r.generator == w.generator
            && env.generate(w.generator, Nearest([w.config], "")) == Some(r.generatorConfig)
            && env.storageOk(r.storage)
            && (r.netherTarget.Some? <==> w.netherTarget.Some?) && (r.endTarget.Some? <==> w.endTarget.Some?)
            && (w.netherTarget.Some? ==> r.netherTarget == Some(Identifier(d.name, w.netherTarget.value)))
            && (w.endTarget.Some? ==> r.endTarget == Some(Identifier(d.name, w.endTarget.value)))
            && w.name != "" && forall k :: 0 <= k < |w.name| ==> NameChar(w.name[k])
  {
    var d := config.domains[i];
    assert DomainOk(env, config, d);
    assert CheckOf(env, DomainStorage(config, d))(d.worlds[j]);
    Listed(env, config, out, i, j);
    NamesMean(d.worlds[j].name);
  }

  /** Every domain has a valid name, at least one world and an acceptable storage, and lists the keys
      of its worlds in order. */
  lemma ResolvedDomains(env: Env, config: Config, out: Resolved, i: nat)
    requires WellFormed(env, config) && Resolves(env, config, out) && i < |config.domains|
    ensures var d := config.domains[i];
            i < |out.domains| == |config.domains| && var r := out.domains[i];
            && r.name == d.name && d.name !in ["", "global", ".."]
            && (forall k :: 0 <= k < |d.name| ==> NameChar(d.name[k]))
            && 0 < |r.worlds| == |d.worlds|
            && (forall j :: 0 <= j < |d.worlds| ==> r.worlds[j] == Identifier(d.name, d.worlds[j].name))
            && env.storageOk(Nearest([d.storage, config.storage], Storage(Identifier("steel", "disk"), None)))
  {
    var d := config.domains[i];
    assert DomainOk(env, config, d) && DomainResult(d, out.domains[i]);
    NamesMean(d.name);
    assert [d.storage, config.storage][1..] == [config.storage] && [config.storage][1..] == [];
    assert Nearest([config.storage], DISK) == RootStorage(config);
  }

  /** The rest of the result: the path as given and clean, the storages, at least one domain. */
  lemma ResolvedRoot(env: Env, config: Config, out: Resolved)
    requires WellFormed(env, config) && Resolves(env, config, out)
    ensures var disk := Storage(Identifier("steel", "disk"), None);
            && out.savePath == config.savePath != "" && ParentPart !in env.parts(out.savePath)
            && out.playerStorage == Nearest([config.playerStorage], disk)
            && (out.playerStorage == disk || out.playerStorage == Storage(Identifier("steel", "ram"), None))
            && env.storageOk(Nearest([config.storage], disk))
            && out.domains != [] && out.worlds != []
  {
    PathMeans(env, config.savePath);
    PlayerStorageMeans(out.playerStorage);
    assert [config.playerStorage][1..] == [] && [config.storage][1..] == [];
    ResolvedDomains(env, config, out, 0);
    Listed(env, config, out, 0, 0);
  }

  // ---------------------------------------------------------------- what is enough

  /** The smallest file: one default domain with one default world, no portals. */
  predicate Smallest(config: Config) {
    && |config.domains| == 1 && config.domains[0].isDefault
    && |config.domains[0].worlds| == 1 && config.domains[0].worlds[0].isDefault
    && config.domains[0].worlds[0].netherTarget.None? && config.domains[0].worlds[0].endTarget.None?
    && config.playerStorage.None?
  }

  /** Nothing more is asked than a clean path, valid names, a generator that accepts its configuration
      and storages that are registered. */
  lemma SmallestIsEnough(env: Env, config: Config)
    requires Smallest(config) && (forall s :: env.storageOk(s))
    ensures var d := config.domains[0];
            var w := d.worlds[0];
            WellFormed(env, config) <==>
              && CleanPath(env, config.savePath) && ValidDomainName(d.name) && ValidWorldName(w.name)
              && env.generate(w.generator, Nearest([w.config], "")).Some?
  {
    var d := config.domains[0];
    assert OnlyDefaultDomain(config.domains, 0) && OnlyDefaultWorld(d.worlds, 0);
    assert [d.worlds[0].config][1..] == [];
    assert WellFormed(env, config) ==> DomainOk(env, config, d);
    assert DomainOk(env, config, d) ==> CheckOf(env, DomainStorage(config, d))(d.worlds[0]);
  }
}
