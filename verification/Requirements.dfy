/** Enchantment effect requirements: trees of conditions evaluated in three-valued logic, with
    entity types only, with random draws, or against a live entity. */
module Requirements {
  import opened Wrappers

  // ---------------------------------------------------------------- conditions

  type EntityType = string

  const PLAYER: EntityType := "minecraft:player"

  datatype Target = This | Attacker | DirectAttacker

  datatype TypePredicate = AnyType | OfType(key: EntityType) | InTag(tag: string) | UnsupportedType

  datatype VehiclePredicate = AnyVehicle | VehiclePresent | UnsupportedVehicle

  datatype FlagsPredicate = FlagsPredicate(
    isFallFlying: Option<bool>,
    isInWater: Option<bool>,
    unsupported: bool)
  {
    predicate HasConstraints() {
      isFallFlying.Some? || isInWater.Some? || unsupported
    }
  }

  datatype PlayerPredicate = PlayerPredicate(
    gameModes: seq<nat>,
    foodLevelMin: Option<int>,
    unsupported: bool)

  datatype TypeSpecific = AnySpecific | PlayerSpecific(player: PlayerPredicate) | UnsupportedSpecific

  datatype EntityPredicate = EntityPredicate(
    entityType: TypePredicate,
    vehicle: VehiclePredicate,
    flags: FlagsPredicate,
    typeSpecific: TypeSpecific,
    unsupported: bool)

  datatype TagPredicate = TagPredicate(tag: string, expected: bool)

  datatype DamageSourcePredicate = DamageSourcePredicate(tags: seq<TagPredicate>, isDirect: Option<bool>)

  datatype DamageSource = DamageSource(direct: bool, tags: set<string>)

  /** A condition without parts. The chance is a function of the enchantment level. */
  datatype Leaf =
    | EntityProperties(target: Target, criteria: EntityPredicate)
    | DamageSourceProperties(source: DamageSourcePredicate)
    | RandomChance(chance: int -> real)
    | MatchTool
    | UnsupportedCondition

  datatype Requirement =
    | AllOf(terms: seq<Requirement>)
    | AnyOf(terms: seq<Requirement>)
    | Inverted(term: Requirement)
    | Condition(leaf: Leaf)

  /** Which tags an entity type is in: the registry. */
  type Tags = (EntityType, string) -> bool

  /** What damage calculation knows of the entities: their types only. */
  datatype Context = Context(
    thisType: EntityType,
    attackerType: Option<EntityType>,
    directAttackerType: Option<EntityType>,
    source: DamageSource)
  {
    function TypeOf(target: Target): Option<EntityType> {
      match target
      case This => Some(thisType)
      case Attacker => attackerType
      case DirectAttacker => directAttackerType
    }
  }

  datatype PlayerState = PlayerState(gameMode: nat, foodLevel: int)

  /** A live entity. Only living entities can fall-fly. */
  datatype Entity = Entity(
    entityType: EntityType,
    hasVehicle: bool,
    fallFlying: bool,
    inWater: bool,
    player: Option<PlayerState>)

  /** Exactly the entities of the player type are players. */
  predicate Consistent(e: Entity) {
    e.player.Some? <==> e.entityType == PLAYER
  }

  // ---------------------------------------------------------------- leaf evaluation

  function TypeMatches(tags: Tags, p: TypePredicate, t: EntityType): Option<bool> {
    match p
    case AnyType => Some(true)
    case OfType(key) => Some(t == key)
    case InTag(tag) => Some(tags(t, tag))
    case UnsupportedType => None
  }

  function MatchesType(tags: Tags, p: EntityPredicate, t: EntityType): Option<bool> {
    if p.unsupported || !p.vehicle.AnyVehicle? || p.flags.HasConstraints() then None
    else
      match TypeMatches(tags, p.entityType, t)
      case None => None
      case Some(false) => Some(false)
      case Some(true) =>
        match p.typeSpecific
        case AnySpecific => Some(true)
        case UnsupportedSpecific => None
        case PlayerSpecific(player) =>
          if t != PLAYER then Some(false)
          else if player.unsupported || player.gameModes != [] || player.foodLevelMin.Some? then None
          else Some(true)
  }

  function MatchesPlayer(p: PlayerPredicate, player: PlayerState): Option<bool> {
    if p.unsupported then None
    else if p.gameModes != [] && player.gameMode !in p.gameModes then Some(false)
    else if p.foodLevelMin.Some? && player.foodLevel < p.foodLevelMin.value then Some(false)
    else Some(true)
  }

  function MatchesSpecific(p: TypeSpecific, e: Entity): Option<bool> {
    match p
    case AnySpecific => Some(true)
    case UnsupportedSpecific => None
    case PlayerSpecific(player) =>
      if e.player.None? then Some(false) else MatchesPlayer(player, e.player.value)
  }

  function MatchesEntity(tags: Tags, p: EntityPredicate, e: Entity): Option<bool> {
    if p.unsupported then None
    else
      match TypeMatches(tags, p.entityType, e.entityType)
      case None => None
      case Some(false) => Some(false)
      case Some(true) =>
        if p.vehicle.VehiclePresent? && !e.hasVehicle then Some(false)
        else if p.vehicle.UnsupportedVehicle? then None
        else if p.flags.unsupported then None
        else if p.flags.isFallFlying.Some? && e.fallFlying != p.flags.isFallFlying.value then Some(false)
        else if p.flags.isInWater.Some? && e.inWater != p.flags.isInWater.value then Some(false)
        else MatchesSpecific(p.typeSpecific, e)
  }

  predicate DamageMatches(p: DamageSourcePredicate, source: DamageSource) {
    && (p.isDirect.Some? ==> source.direct == p.isDirect.value)
    && forall i :: 0 <= i < |p.tags| ==> (p.tags[i].tag in source.tags) == p.tags[i].expected
  }

  /** The leaves of `requirements_state`. */
  function TypeLeaf(tags: Tags, c: Context, leaf: Leaf): Option<bool> {
    match leaf
    case EntityProperties(target, p) =>
      (match c.TypeOf(target)
       case None => None
       case Some(t) => MatchesType(tags, p, t))
    case DamageSourceProperties(p) => Some(DamageMatches(p, c.source))
    case _ => None
  }

  /** The leaves of `requirements_state_with_random`; `i` counts the draws taken so far. */
  function RandomLeaf(tags: Tags, c: Context, level: int, draws: nat -> real, leaf: Leaf, i: nat): (Option<bool>, nat) {
    match leaf
    case RandomChance(chance) => (Some(draws(i) < chance(level)), i + 1)
    case _ => (TypeLeaf(tags, c, leaf), i)
  }

  /** The leaves of `entity_requirements_state`. */
  function EntityLeaf(tags: Tags, e: Entity, level: int, draws: nat -> real, leaf: Leaf, i: nat): (Option<bool>, nat) {
    match leaf
    case EntityProperties(This, p) => (MatchesEntity(tags, p, e), i)
    case RandomChance(chance) => (Some(draws(i) < chance(level)), i + 1)
    case _ => (None, i)
  }

  // ---------------------------------------------------------------- what the leaves mean

  /** The entity type is as asked for. */
  predicate TypeHolds(tags: Tags, p: TypePredicate, t: EntityType) {
    && (p.OfType? ==> t == p.key)
    && (p.InTag? ==> tags(t, p.tag))
  }

  predicate VehicleHolds(p: VehiclePredicate, e: Entity) {
    p.VehiclePresent? ==> e.hasVehicle
  }

  predicate FlagsHold(p: FlagsPredicate, e: Entity) {
    && (p.isFallFlying.None? || p.isFallFlying == Some(e.fallFlying))
    && (p.isInWater.None? || p.isInWater == Some(e.inWater))
  }

  /** The entity is a player in one of the game modes, if any are listed, with enough food. */
  predicate PlayerHolds(p: PlayerPredicate, e: Entity) {
    && e.player.Some?
    && (|p.gameModes| > 0 ==> e.player.value.gameMode in p.gameModes)
    && (p.foodLevelMin.Some? ==> p.foodLevelMin.value <= e.player.value.foodLevel)
  }

  predicate SpecificHolds(p: TypeSpecific, e: Entity) {
    p.PlayerSpecific? ==> PlayerHolds(p.player, e)
  }

  /** The part about players cannot be decided for the entity. */
  predicate SpecificOpen(p: TypeSpecific, e: Entity) {
    p.UnsupportedSpecific? || (p.PlayerSpecific? && p.player.unsupported && e.player.Some?)
  }

  /** The live evaluation is undecided exactly when it meets an unsupported part before a part that
      does not hold, and otherwise says whether all parts hold. */
  lemma MatchesEntityExactly(tags: Tags, p: EntityPredicate, e: Entity)
    ensures MatchesEntity(tags, p, e) == None <==>
              || p.unsupported || p.entityType.UnsupportedType?
              || (&& TypeHolds(tags, p.entityType, e.entityType)
                  && (|| p.vehicle.UnsupportedVehicle?
                      || (&& VehicleHolds(p.vehicle, e)
                          && (p.flags.unsupported || (FlagsHold(p.flags, e) && SpecificOpen(p.typeSpecific, e))))))
    ensures MatchesEntity(tags, p, e).Some? ==>
              MatchesEntity(tags, p, e).value
              == (&& TypeHolds(tags, p.entityType, e.entityType) && VehicleHolds(p.vehicle, e)
                  && FlagsHold(p.flags, e) && SpecificHolds(p.typeSpecific, e))
  {
  }

  /** From the type alone nothing is decided when there is a constraint on vehicle or flags. Otherwise
      it is decided that the type is wrong, or that nothing else is asked. */
  lemma MatchesTypeExactly(tags: Tags, p: EntityPredicate, t: EntityType)
    ensures MatchesType(tags, p, t) == None <==>
              || p.unsupported || p.entityType.UnsupportedType? || p.vehicle != AnyVehicle
              || p.flags != FlagsPredicate(None, None, false)
              || (&& TypeHolds(tags, p.entityType, t)
                  && (|| p.typeSpecific.UnsupportedSpecific?
                      || (&& p.typeSpecific.PlayerSpecific? && t == "minecraft:player"
                          && p.typeSpecific.player != PlayerPredicate([], None, false))))
    ensures MatchesType(tags, p, t).Some? ==>
              MatchesType(tags, p, t).value
              == (&& TypeHolds(tags, p.entityType, t)
                  && (p.typeSpecific.PlayerSpecific? ==> t == "minecraft:player"))
  {
  }

  /** A damage source matches when it is direct or not as asked and has exactly the tags it should
      have among those listed. */
  lemma DamageMatchesExactly(p: DamageSourcePredicate, source: DamageSource)
    ensures DamageMatches(p, source) <==>
              && (p.isDirect.None? || p.isDirect == Some(source.direct))
              && (forall tag :: TagPredicate(tag, true) in p.tags ==> tag in source.tags)
              && (forall tag :: TagPredicate(tag, false) in p.tags ==> tag !in source.tags)
  {
    if !DamageMatches(p, source) && (p.isDirect.None? || p.isDirect == Some(source.direct)) {
      var i :| 0 <= i < |p.tags| && (p.tags[i].tag in source.tags) != p.tags[i].expected;
      assert TagPredicate(p.tags[i].tag, p.tags[i].expected) in p.tags;
    }
  }

  /** A chance takes one draw and holds when the draw is below it; no other leaf draws. Without a
      live entity the leaves are about the types in question and the damage source, with one only
      about the entity itself. */
  lemma LeavesMean(tags: Tags, c: Context, e: Entity, level: int, draws: nat -> real, leaf: Leaf, i: nat)
    ensures leaf.RandomChance? ==>
              && RandomLeaf(tags, c, level, draws, leaf, i) == (Some(draws(i) < leaf.chance(level)), i + 1)
              && EntityLeaf(tags, e, level, draws, leaf, i) == (Some(draws(i) < leaf.chance(level)), i + 1)
              && TypeLeaf(tags, c, leaf) == None
    ensures !leaf.RandomChance? ==>
              && RandomLeaf(tags, c, level, draws, leaf, i) == (TypeLeaf(tags, c, leaf), i)
              && EntityLeaf(tags, e, level, draws, leaf, i).1 == i
    ensures leaf.MatchTool? || leaf.UnsupportedCondition? ==> TypeLeaf(tags, c, leaf) == None
    ensures leaf.DamageSourceProperties? ==> TypeLeaf(tags, c, leaf) == Some(DamageMatches(leaf.source, c.source))
    ensures leaf.EntityProperties? ==>
              && (leaf.target.This? ==> TypeLeaf(tags, c, leaf) == MatchesType(tags, leaf.criteria, c.thisType))
              && (leaf.target.Attacker? && c.attackerType.Some? ==>
                    TypeLeaf(tags, c, leaf) == MatchesType(tags, leaf.criteria, c.attackerType.value))
              && (leaf.target.DirectAttacker? && c.directAttackerType.Some? ==>
                    TypeLeaf(tags, c, leaf) == MatchesType(tags, leaf.criteria, c.directAttackerType.value))
              && (leaf.target.Attacker? && c.attackerType.None? ==> TypeLeaf(tags, c, leaf) == None)
              && (leaf.target.DirectAttacker? && c.directAttackerType.None? ==> TypeLeaf(tags, c, leaf) == None)
    ensures EntityLeaf(tags, e, level, draws, leaf, i).0
         == if leaf.EntityProperties? && leaf.target.This? then MatchesEntity(tags, leaf.criteria, e)
            else if leaf.RandomChance? then Some(draws(i) < leaf.chance(level)) else None
  {
  }

  // ---------------------------------------------------------------- three-valued logic

  /** A junction is decided by one term with the value `stop`, and otherwise undecided by one
      undecided term. */
  function Combine(results: seq<Option<bool>>, stop: bool): Option<bool> {
    if Some(stop) in results then Some(stop)
    else if None in results then None
    else Some(!stop)
  }

  function Negate(v: Option<bool>): Option<bool> {
    match v
    case None => None
    case Some(b) => Some(!b)
  }

  /** The value of a requirement in Kleene's three-valued logic. */
  function Kleene(leaf: Leaf -> Option<bool>, r: Requirement): Option<bool> {
    match r
    case AllOf(terms) => Combine(seq(|terms|, i requires 0 <= i < |terms| => Kleene(leaf, terms[i])), false)
    case AnyOf(terms) => Combine(seq(|terms|, i requires 0 <= i < |terms| => Kleene(leaf, terms[i])), true)
    case Inverted(term) => Negate(Kleene(leaf, term))
    case Condition(l) => leaf(l)
  }

  function Values(leaf: Leaf -> Option<bool>, terms: seq<Requirement>): seq<Option<bool>> {
    seq(|terms|, i requires 0 <= i < |terms| => Kleene(leaf, terms[i]))
  }

  // ---------------------------------------------------------------- the source's evaluators

  /** A leaf evaluator that may take random draws: it gets and returns the draw counter. */
  type DrawingLeaf = (Leaf, nat) -> (Option<bool>, nat)

  /** Left to right, stopping at the first deciding term; draws not reached are not taken. */
  function Evaluate(leaf: DrawingLeaf, r: Requirement, i: nat): (Option<bool>, nat)
    decreases r, 1
  {
    match r
    case AllOf(terms) => EvaluateTerms(leaf, terms, i, false, false)
    case AnyOf(terms) => EvaluateTerms(leaf, terms, i, true, false)
    case Inverted(term) => var v := Evaluate(leaf, term, i); (Negate(v.0), v.1)
    case Condition(l) => leaf(l, i)
  }

  function EvaluateTerms(leaf: DrawingLeaf, terms: seq<Requirement>, i: nat, stop: bool,
                         hasUnknown: bool): (Option<bool>, nat)
    decreases terms, 0
  {
    if terms == [] then (if hasUnknown then None else Some(!stop), i)
    else
      var v := Evaluate(leaf, terms[0], i);
      if v.0 == Some(stop) then v
      else EvaluateTerms(leaf, terms[1..], v.1, stop, hasUnknown || v.0.None?)
  }

  /** The common shape of the three evaluators of the source. */
  method State(leaf: DrawingLeaf, r: Requirement, i: nat) returns (v: Option<bool>, next: nat)
    ensures (v, next) == Evaluate(leaf, r, i)
    decreases r, 1
  {
    match r {
      case AllOf(terms) => v, next := TermsState(leaf, terms, i, false);
      case AnyOf(terms) => v, next := TermsState(leaf, terms, i, true);
      case Inverted(term) =>
        v, next := State(leaf, term, i);
        v := Negate(v);
      case Condition(l) => return leaf(l, i).0, leaf(l, i).1;
    }
  }

  method TermsState(leaf: DrawingLeaf, terms: seq<Requirement>, i: nat, stop: bool) returns (v: Option<bool>, next: nat)
    ensures (v, next) == EvaluateTerms(leaf, terms, i, stop, false)
    decreases terms, 0
  {
    var hasUnknown := false;
    next := i;
    for k := 0 to |terms|
      invariant EvaluateTerms(leaf, terms, i, stop, false)
             == EvaluateTerms(leaf, terms[k..], next, stop, hasUnknown)
    {
      assert terms[k..][0] == terms[k] && terms[k..][1..] == terms[k + 1..];
      v, next := State(leaf, terms[k], next);
      if v == Some(stop) {
        return v, next;
      }
      if v.None? {
        hasUnknown := true;
      }
    }
    return if hasUnknown then None else Some(!stop), next;
  }

  function Junction(terms: seq<Requirement>, stop: bool): Requirement {
    if stop then AnyOf(terms) else AllOf(terms)
  }

  lemma {:induction false} TermsSnoc(leaf: DrawingLeaf, terms: seq<Requirement>, t: Requirement, i: nat, stop: bool,
                                     hasUnknown: bool)
    ensures var (v, j) := EvaluateTerms(leaf, terms, i, stop, hasUnknown);
            var (w, k) := Evaluate(leaf, t, j);
            EvaluateTerms(leaf, terms + [t], i, stop, hasUnknown)
            == if v == Some(stop) then (v, j)
               else if w == Some(stop) then (w, k)
               else (if v.None? || w.None? then None else Some(!stop), k)
    decreases |terms|
  {
    var longer := terms + [t];
    if terms == [] {
      assert longer[0] == t && longer[1..] == [];
    } else {
      assert longer[0] == terms[0] && longer[1..] == terms[1..] + [t];
      var v := Evaluate(leaf, terms[0], i);
      if v.0 != Some(stop) {
        TermsSnoc(leaf, terms[1..], t, v.1, stop, hasUnknown || v.0.None?);
      }
    }
  }

  /** Terms are evaluated from left to right, each with the draws that the ones before it left. A
      decided junction takes no more draws; otherwise one more term decides it, leaves it undecided
      or leaves it as it was. */
  lemma {:induction false} JunctionSnoc(leaf: DrawingLeaf, terms: seq<Requirement>, t: Requirement, stop: bool, i: nat)
    ensures Evaluate(leaf, Junction([], stop), i) == (Some(!stop), i)
    ensures var (v, j) := Evaluate(leaf, Junction(terms, stop), i);
            var (w, k) := Evaluate(leaf, t, j);
            Evaluate(leaf, Junction(terms + [t], stop), i)
            == if v == Some(stop) then (v, j)
               else if w == Some(stop) then (w, k)
               else (if v.None? || w.None? then None else Some(!stop), k)
  {
    TermsSnoc(leaf, terms, t, i, stop, false);
  }

  /** An inversion takes the draws of its term and turns a decision around. */
  lemma {:induction false} InversionMeans(leaf: DrawingLeaf, t: Requirement, i: nat)
    ensures Evaluate(leaf, Inverted(t), i).1 == Evaluate(leaf, t, i).1
    ensures forall b :: Evaluate(leaf, Inverted(t), i).0 == Some(b) <==> Evaluate(leaf, t, i).0 == Some(!b)
  {
  }

  /** A leaf evaluator that takes no draws. */
  function Silent(leaf: Leaf -> Option<bool>): DrawingLeaf {
    (l: Leaf, i: nat) => (leaf(l), i)
  }

  lemma {:induction false} EvaluateIsKleene(leaf: Leaf -> Option<bool>, r: Requirement, i: nat)
    ensures Evaluate(Silent(leaf), r, i) == (Kleene(leaf, r), i)
    decreases r, 1
  {
    match r {
      case AllOf(terms) => TermsAreKleene(leaf, terms, i, false, false);
      case AnyOf(terms) => TermsAreKleene(leaf, terms, i, true, false);
      case Inverted(term) => EvaluateIsKleene(leaf, term, i);
      case Condition(_) =>
    }
  }

  lemma {:induction false} TermsAreKleene(leaf: Leaf -> Option<bool>, terms: seq<Requirement>, i: nat, stop: bool,
                                          hasUnknown: bool)
    ensures var values := Values(leaf, terms);
            EvaluateTerms(Silent(leaf), terms, i, stop, hasUnknown)
            == (if hasUnknown && Some(stop) !in values then None else Combine(values, stop), i)
    decreases terms, 0
  {
    if terms != [] {
      var values := Values(leaf, terms);
      assert values == [values[0]] + Values(leaf, terms[1..]);
      EvaluateIsKleene(leaf, terms[0], i);
      TermsAreKleene(leaf, terms[1..], i, stop, hasUnknown || values[0].None?);
    }
  }

  // ---------------------------------------------------------------- decided means forced

  /** Two-valued evaluation when each undecided occurrence of a leaf, named by its path from
      the root, is given a boolean of its own. */
  function Classical(leaf: Leaf -> Option<bool>, assign: seq<nat> -> bool, r: Requirement, path: seq<nat>): bool {
    match r
    case AllOf(terms) =>
      forall i :: 0 <= i < |terms| ==> Classical(leaf, assign, terms[i], path + [i])
    case AnyOf(terms) =>
      exists i :: 0 <= i < |terms| && Classical(leaf, assign, terms[i], path + [i])
    case Inverted(term) => !Classical(leaf, assign, term, path + [0])
    case Condition(l) => if leaf(l).Some? then leaf(l).value else assign(path)
  }

  /** A junction whose terms were evaluated classically: one term equal to `stop` decides. */
  lemma {:induction false} JunctionClassical(leaf: Leaf -> Option<bool>, assign: seq<nat> -> bool, r: Requirement,
                                             path: seq<nat>)
    requires r.AllOf? || r.AnyOf?
    ensures Classical(leaf, assign, r, path) == r.AnyOf?
            <==> exists k :: 0 <= k < |r.terms| && Classical(leaf, assign, r.terms[k], path + [k]) == r.AnyOf?
  {
  }

  lemma {:induction false} DecidedIsForced(leaf: Leaf -> Option<bool>, assign: seq<nat> -> bool, r: Requirement,
                                           path: seq<nat>)
    requires Kleene(leaf, r).Some?
    ensures Classical(leaf, assign, r, path) == Kleene(leaf, r).value
  {
    match r {
      case Inverted(term) => DecidedIsForced(leaf, assign, term, path + [0]);
      case Condition(_) =>
      case _ =>
        var values := Values(leaf, r.terms);
        forall k | 0 <= k < |values| && values[k].Some?
          ensures Classical(leaf, assign, r.terms[k], path + [k]) == values[k].value
        {
          DecidedIsForced(leaf, assign, r.terms[k], path + [k]);
        }
        JunctionForced(leaf, assign, r, path);
    }
  }

  /** A decided junction is forced when its decided terms are. */
  lemma {:induction false} JunctionForced(leaf: Leaf -> Option<bool>, assign: seq<nat> -> bool, r: Requirement,
                                          path: seq<nat>)
    requires (r.AllOf? || r.AnyOf?) && Kleene(leaf, r).Some?
    requires var values := Values(leaf, r.terms);
             forall k :: 0 <= k < |values| && values[k].Some? ==>
               Classical(leaf, assign, r.terms[k], path + [k]) == values[k].value
    ensures Classical(leaf, assign, r, path) == Kleene(leaf, r).value
  {
    var values := Values(leaf, r.terms);
    assert forall k :: 0 <= k < |values| ==> values[k] in values;
    JunctionClassical(leaf, assign, r, path);
  }

  /** The boolean that, given to an undecided leaf, pushes the whole requirement towards `b`:
      `b` itself, flipped by every inversion on the way. */
  function PushAt(r: Requirement, b: bool, path: seq<nat>): bool {
    if path == [] then b
    else
      match r
      case AllOf(terms) => if path[0] < |terms| then PushAt(terms[path[0]], b, path[1..]) else b
      case AnyOf(terms) => if path[0] < |terms| then PushAt(terms[path[0]], b, path[1..]) else b
      case Inverted(term) => PushAt(term, !b, path[1..])
      case Condition(_) => b
  }

  ghost predicate Pushes(assign: seq<nat> -> bool, path: seq<nat>, r: Requirement, b: bool) {
    forall tail :: assign(path + tail) == PushAt(r, b, tail)
  }

  lemma PushesTerm(assign: seq<nat> -> bool, path: seq<nat>, r: Requirement, b: bool, k: nat)
    requires Pushes(assign, path, r, b)
    requires (r.AllOf? || r.AnyOf?) && k < |r.terms|
    ensures Pushes(assign, path + [k], r.terms[k], b)
  {
    forall tail
      ensures assign(path + [k] + tail) == PushAt(r.terms[k], b, tail)
    {
      assert path + [k] + tail == path + ([k] + tail);
      assert ([k] + tail)[1..] == tail;
    }
  }

  lemma PushesInverted(assign: seq<nat> -> bool, path: seq<nat>, term: Requirement, b: bool)
    requires Pushes(assign, path, Inverted(term), b)
    ensures Pushes(assign, path + [0], term, !b)
  {
    forall tail
      ensures assign(path + [0] + tail) == PushAt(term, !b, tail)
    {
      assert path + [0] + tail == path + ([0] + tail);
      assert ([0] + tail)[1..] == tail;
    }
  }

  /** Pushing towards `b` reaches it unless the opposite is already decided. */
  lemma {:induction false} PushReaches(leaf: Leaf -> Option<bool>, assign: seq<nat> -> bool, r: Requirement,
                                       path: seq<nat>, b: bool)
    requires Pushes(assign, path, r, b) && Kleene(leaf, r) != Some(!b)
    ensures Classical(leaf, assign, r, path) == b
  {
    match r {
      case Inverted(term) =>
        PushesInverted(assign, path, term, b);
        PushReaches(leaf, assign, term, path + [0], !b);
      case Condition(_) =>
        assert path + [] == path;
        assert assign(path + []) == PushAt(r, b, []);
      case _ =>
        var values := Values(leaf, r.terms);
        forall k | 0 <= k < |values| && values[k] != Some(!b)
          ensures Classical(leaf, assign, r.terms[k], path + [k]) == b
        {
          PushesTerm(assign, path, r, b, k);
          PushReaches(leaf, assign, r.terms[k], path + [k], b);
        }
        assert forall k :: 0 <= k < |values| ==> values[k] in values;
        JunctionClassical(leaf, assign, r, path);
        if b == r.AnyOf? {
          assert exists k :: 0 <= k < |values| && values[k] != Some(!b);
        }
    }
  }

  /** The evaluator answers `b` exactly when every way of settling the undecided conditions
      makes the requirement `b`; it answers nothing exactly when both outcomes are possible. */
  lemma {:induction false} DecidedIffForced(leaf: Leaf -> Option<bool>, r: Requirement, b: bool)
    ensures Kleene(leaf, r) == Some(b)
            <==> forall assign: seq<nat> -> bool :: Classical(leaf, assign, r, []) == b
  {
    if Kleene(leaf, r) == Some(b) {
      forall assign: seq<nat> -> bool
        ensures Classical(leaf, assign, r, []) == b
      {
        DecidedIsForced(leaf, assign, r, []);
      }
    } else {
      var assign := (path: seq<nat>) => PushAt(r, !b, path);
      assert Pushes(assign, [], r, !b) by {
        forall tail
          ensures assign([] + tail) == PushAt(r, !b, tail)
        {
          assert [] + tail == tail;
        }
      }
      PushReaches(leaf, assign, r, [], !b);
    }
  }

  // ---------------------------------------------------------------- order does not matter

  /** For the junction at a path, the order in which its terms are to be listed. */
  type Order = (seq<nat>, nat) -> seq<nat>

  ghost predicate IsPermutation(order: seq<nat>, n: nat) {
    && |order| == n
    && (forall k :: 0 <= k < n ==> order[k] < n)
    && (forall j: nat :: j < n ==> j in order)
  }

  ghost predicate IsOrder(order: Order) {
    forall path, n :: IsPermutation(order(path, n), n)
  }

  /** The requirement with the terms of every junction, at every depth, listed in a new order. */
  ghost function Shuffle(order: Order, r: Requirement, path: seq<nat>): Requirement
    requires IsOrder(order)
    decreases r, 1
  {
    match r
    case AllOf(terms) => AllOf(ShuffleTerms(order, terms, path))
    case AnyOf(terms) => AnyOf(ShuffleTerms(order, terms, path))
    case Inverted(term) => Inverted(Shuffle(order, term, path + [0]))
    case Condition(_) => r
  }

  ghost function ShuffleTerms(order: Order, terms: seq<Requirement>, path: seq<nat>): (shuffled: seq<Requirement>)
    requires IsOrder(order)
    ensures |shuffled| == |terms|
    decreases terms, 0
  {
    var listed := order(path, |terms|);
    assert IsPermutation(listed, |terms|);
    seq(|terms|, k requires 0 <= k < |terms| => Shuffle(order, terms[listed[k]], path + [listed[k]]))
  }

  lemma CombineSameElements(v: seq<Option<bool>>, w: seq<Option<bool>>, stop: bool)
    requires forall i :: 0 <= i < |v| ==> v[i] in w
    requires forall j :: 0 <= j < |w| ==> w[j] in v
    ensures Combine(v, stop) == Combine(w, stop)
  {
  }

  lemma {:induction false} ShuffleTermsSameValues(leaf: Leaf -> Option<bool>, order: Order, terms: seq<Requirement>,
                                                  path: seq<nat>, stop: bool)
    requires IsOrder(order)
    ensures Combine(Values(leaf, ShuffleTerms(order, terms, path)), stop) == Combine(Values(leaf, terms), stop)
    decreases terms, 0
  {
    var n := |terms|;
    var listed := order(path, n);
    assert IsPermutation(listed, n);
    var v := Values(leaf, terms);
    var w := Values(leaf, ShuffleTerms(order, terms, path));
    forall k | 0 <= k < n
      ensures w[k] == v[listed[k]]
    {
      ShuffleSameValue(leaf, order, terms[listed[k]], path + [listed[k]]);
    }
    forall j: nat | j < n
      ensures v[j] in w
    {
      assert j in listed;
      var k :| 0 <= k < n && listed[k] == j;
      assert w[k] == v[j];
    }
    CombineSameElements(v, w, stop);
  }

  /** The answer does not depend on the order of terms at any depth. */
  lemma {:induction false} ShuffleSameValue(leaf: Leaf -> Option<bool>, order: Order, r: Requirement, path: seq<nat>)
    requires IsOrder(order)
    ensures Kleene(leaf, Shuffle(order, r, path)) == Kleene(leaf, r)
    decreases r, 1
  {
    match r {
      case AllOf(terms) => ShuffleTermsSameValues(leaf, order, terms, path, false);
      case AnyOf(terms) => ShuffleTermsSameValues(leaf, order, terms, path, true);
      case Inverted(term) => ShuffleSameValue(leaf, order, term, path + [0]);
      case Condition(_) =>
    }
  }

  // ---------------------------------------------------------------- refinement between the evaluators

  /** On the leaves of `r` the second evaluator repeats every decision of the first. */
  ghost predicate RefinedOn(coarse: Leaf -> Option<bool>, fine: DrawingLeaf, r: Requirement) {
    match r
    case AllOf(terms) => forall k :: 0 <= k < |terms| ==> RefinedOn(coarse, fine, terms[k])
    case AnyOf(terms) => forall k :: 0 <= k < |terms| ==> RefinedOn(coarse, fine, terms[k])
    case Inverted(term) => RefinedOn(coarse, fine, term)
    case Condition(l) => coarse(l).Some? ==> forall i :: fine(l, i).0 == coarse(l)
  }

  lemma {:induction false} EvaluateRefines(coarse: Leaf -> Option<bool>, fine: DrawingLeaf, r: Requirement, i: nat)
    requires RefinedOn(coarse, fine, r)
    ensures Kleene(coarse, r).Some? ==> Evaluate(fine, r, i).0 == Kleene(coarse, r)
    decreases r, 1
  {
    match r {
      case AllOf(terms) => TermsRefine(coarse, fine, terms, i, false, false);
      case AnyOf(terms) => TermsRefine(coarse, fine, terms, i, true, false);
      case Inverted(term) => EvaluateRefines(coarse, fine, term, i);
      case Condition(_) =>
    }
  }

  lemma {:induction false} TermsRefine(coarse: Leaf -> Option<bool>, fine: DrawingLeaf, terms: seq<Requirement>,
                                       i: nat, stop: bool, hasUnknown: bool)
    requires forall k :: 0 <= k < |terms| ==> RefinedOn(coarse, fine, terms[k])
    ensures var values := Values(coarse, terms);
            var v := EvaluateTerms(fine, terms, i, stop, hasUnknown).0;
            && (Combine(values, stop) == Some(stop) ==> v == Some(stop))
            && (Combine(values, stop) == Some(!stop) && !hasUnknown ==> v == Some(!stop))
    decreases terms, 0
  {
    if terms != [] {
      var values := Values(coarse, terms);
      assert values == [values[0]] + Values(coarse, terms[1..]);
      EvaluateRefines(coarse, fine, terms[0], i);
      var v := Evaluate(fine, terms[0], i);
      if v.0 == Some(stop) {
        assert values[0] in values;
      } else {
        TermsRefine(coarse, fine, terms[1..], v.1, stop, hasUnknown || v.0.None?);
      }
    }
  }

  /** No random draw overturns a decision of the deterministic evaluator. */
  lemma DrawsCannotOverturn(tags: Tags, c: Context, level: int, draws: nat -> real, r: Requirement, i: nat)
    ensures var coarse := (l: Leaf) => TypeLeaf(tags, c, l);
            var fine := (l: Leaf, j: nat) => RandomLeaf(tags, c, level, draws, l, j);
            Kleene(coarse, r).Some? ==> Evaluate(fine, r, i).0 == Kleene(coarse, r)
  {
    var coarse := (l: Leaf) => TypeLeaf(tags, c, l);
    var fine := (l: Leaf, j: nat) => RandomLeaf(tags, c, level, draws, l, j);
    RandomRefined(tags, c, level, draws, coarse, fine, r);
    EvaluateRefines(coarse, fine, r, i);
  }

  lemma {:induction false} RandomRefined(tags: Tags, c: Context, level: int, draws: nat -> real,
                                         coarse: Leaf -> Option<bool>, fine: DrawingLeaf, r: Requirement)
    requires forall l :: coarse(l) == TypeLeaf(tags, c, l)
    requires forall l, j :: fine(l, j) == RandomLeaf(tags, c, level, draws, l, j)
    ensures RefinedOn(coarse, fine, r)
  {
    match r {
      case Inverted(term) => RandomRefined(tags, c, level, draws, coarse, fine, term);
      case Condition(_) =>
      case _ =>
        forall k | 0 <= k < |r.terms|
          ensures RefinedOn(coarse, fine, r.terms[k])
        {
          RandomRefined(tags, c, level, draws, coarse, fine, r.terms[k]);
        }
    }
  }

  /** What the type alone decides about an entity holds of every live entity of that type. */
  lemma TypeDecidesEntity(tags: Tags, p: EntityPredicate, e: Entity)
    requires Consistent(e) && MatchesType(tags, p, e.entityType).Some?
    ensures MatchesEntity(tags, p, e) == MatchesType(tags, p, e.entityType)
  {
  }

  /** Exactly when the live evaluator repeats the type evaluator's decision at a leaf. */
  lemma LeafRefinedIff(tags: Tags, c: Context, e: Entity, level: int, draws: nat -> real, l: Leaf, i: nat)
    requires Consistent(e) && e.entityType == c.thisType && TypeLeaf(tags, c, l).Some?
    ensures EntityLeaf(tags, e, level, draws, l, i).0 == TypeLeaf(tags, c, l)
            <==> l.EntityProperties? && l.target.This?
  {
    if l.EntityProperties? && l.target.This? {
      TypeDecidesEntity(tags, l.criteria, e);
    }
  }

  /** Entity conditions are about `This`, and there is no damage-source condition. */
  predicate AboutThis(r: Requirement) {
    match r
    case AllOf(terms) => forall k :: 0 <= k < |terms| ==> AboutThis(terms[k])
    case AnyOf(terms) => forall k :: 0 <= k < |terms| ==> AboutThis(terms[k])
    case Inverted(term) => AboutThis(term)
    case Condition(l) => !l.DamageSourceProperties? && (l.EntityProperties? ==> l.target.This?)
  }

  /** What the type alone decides at the leaves where the live evaluator repeats it. */
  function Masked(tags: Tags, c: Context, l: Leaf): Option<bool> {
    if l.EntityProperties? && l.target.This? then TypeLeaf(tags, c, l) else None
  }

  lemma {:induction false} EntityRefined(tags: Tags, c: Context, e: Entity, level: int, draws: nat -> real,
                                         coarse: Leaf -> Option<bool>, fine: DrawingLeaf, r: Requirement)
    requires Consistent(e) && e.entityType == c.thisType
    requires forall l :: coarse(l) == Masked(tags, c, l)
    requires forall l, j :: fine(l, j) == EntityLeaf(tags, e, level, draws, l, j)
    ensures RefinedOn(coarse, fine, r)
  {
    match r {
      case Inverted(term) => EntityRefined(tags, c, e, level, draws, coarse, fine, term);
      case Condition(l) =>
        if coarse(l).Some? {
          forall j: nat
            ensures fine(l, j).0 == coarse(l)
          {
            LeafRefinedIff(tags, c, e, level, draws, l, j);
          }
        }
      case _ =>
        forall k | 0 <= k < |r.terms|
          ensures RefinedOn(coarse, fine, r.terms[k])
        {
          EntityRefined(tags, c, e, level, draws, coarse, fine, r.terms[k]);
        }
    }
  }

  /** On every tree, the live-entity evaluator repeats what the type alone decides without the
      leaves that it does not look into, for every entity of that type and every sequence of draws. */
  lemma MaskedEvaluationHoldsLive(tags: Tags, c: Context, e: Entity, level: int, draws: nat -> real, r: Requirement,
                                  i: nat)
    requires Consistent(e) && e.entityType == c.thisType
    ensures var coarse := (l: Leaf) => Masked(tags, c, l);
            var fine := (l: Leaf, j: nat) => EntityLeaf(tags, e, level, draws, l, j);
            Kleene(coarse, r).Some? ==> Evaluate(fine, r, i).0 == Kleene(coarse, r)
  {
    var coarse := (l: Leaf) => Masked(tags, c, l);
    var fine := (l: Leaf, j: nat) => EntityLeaf(tags, e, level, draws, l, j);
    EntityRefined(tags, c, e, level, draws, coarse, fine, r);
    EvaluateRefines(coarse, fine, r, i);
  }

  /** On trees about `This` nothing is masked. */
  lemma {:induction false} MaskedIsType(tags: Tags, c: Context, masked: Leaf -> Option<bool>,
                                        whole: Leaf -> Option<bool>, r: Requirement)
    requires AboutThis(r)
    requires forall l :: masked(l) == Masked(tags, c, l) && whole(l) == TypeLeaf(tags, c, l)
    ensures Kleene(masked, r) == Kleene(whole, r)
  {
    match r {
      case Inverted(term) => MaskedIsType(tags, c, masked, whole, term);
      case Condition(_) =>
      case _ =>
        forall k | 0 <= k < |r.terms|
          ensures Kleene(masked, r.terms[k]) == Kleene(whole, r.terms[k])
        {
          MaskedIsType(tags, c, masked, whole, r.terms[k]);
        }
        assert Values(masked, r.terms) == Values(whole, r.terms);
    }
  }

  /** So there it repeats every decision made from the type alone. */
  lemma TypeEvaluationHoldsLive(tags: Tags, c: Context, e: Entity, level: int, draws: nat -> real, r: Requirement,
                                i: nat)
    requires Consistent(e) && e.entityType == c.thisType && AboutThis(r)
    ensures var coarse := (l: Leaf) => TypeLeaf(tags, c, l);
            var fine := (l: Leaf, j: nat) => EntityLeaf(tags, e, level, draws, l, j);
            Kleene(coarse, r).Some? ==> Evaluate(fine, r, i).0 == Kleene(coarse, r)
  {
    MaskedEvaluationHoldsLive(tags, c, e, level, draws, r, i);
    MaskedIsType(tags, c, (l: Leaf) => Masked(tags, c, l), (l: Leaf) => TypeLeaf(tags, c, l), r);
  }
}
