/** Domain scoreboards: the mutators with their dirty tracking, and the save protocol that
    runs beside them. */
module Scoreboard {
  import opened Wrappers

  datatype Score = Score(value: int, locked: bool)

  datatype Persistent = Persistent(
    objectives: map<string, bool>,
    scores: map<string, map<string, Score>>,
    teams: set<string>,
    holderTeams: map<string, string>)

  const EMPTY := Persistent(map[], map[], {}, map[])

  datatype ScoreboardError =
    | EmptyObjectiveName
    | EmptyTeamName
    | EmptyScoreHolderName
    | DuplicateObjective(name: string)
    | DuplicateTeam(name: string)
    | MissingObjective(name: string)
    | MissingTeam(name: string)
    | ReadOnlyObjective(name: string)

  datatype Result<+T> = Ok(value: T) | Err(error: ScoreboardError)

  /** The calls that can change a scoreboard. */
  datatype Mutation =
    | AddObjective(objective: string, readOnly: bool)
    | AddTeam(team: string)
    | AddHolderToTeam(holder: string, team: string)
    | SetScore(holder: string, objective: string, value: int)
    | SetScoreLocked(holder: string, objective: string, locked: bool)

  function ScoresOf(p: Persistent, holder: string): map<string, Score> {
    if holder in p.scores then p.scores[holder] else map[]
  }

  function PutScore(p: Persistent, holder: string, objective: string, score: Score): Persistent {
    p.(scores := p.scores[holder := ScoresOf(p, holder)[objective := score]])
  }

  /** The state a mutation leads to, or why it is refused. */
  function Mutate(p: Persistent, m: Mutation): Result<Persistent> {
    match m
    case AddObjective(name, readOnly) =>
      if name == "" then Err(EmptyObjectiveName)
      else if name in p.objectives then Err(DuplicateObjective(name))
      else Ok(p.(objectives := p.objectives[name := readOnly]))
    case AddTeam(name) =>
      if name == "" then Err(EmptyTeamName)
      else if name in p.teams then Err(DuplicateTeam(name))
      else Ok(p.(teams := p.teams + {name}))
    case AddHolderToTeam(holder, team) =>
      if holder == "" then Err(EmptyScoreHolderName)
      else if team !in p.teams then Err(MissingTeam(team))
      else Ok(p.(holderTeams := p.holderTeams[holder := team]))
    case SetScore(holder, objective, value) =>
      if holder == "" then Err(EmptyScoreHolderName)
      else if objective !in p.objectives then Err(MissingObjective(objective))
      else if p.objectives[objective] then Err(ReadOnlyObjective(objective))
      else
        var locked := objective in ScoresOf(p, holder) ==> ScoresOf(p, holder)[objective].locked;
        Ok(PutScore(p, holder, objective, Score(value, locked)))
    case SetScoreLocked(holder, objective, locked) =>
      if holder == "" then Err(EmptyScoreHolderName)
      else if objective !in p.objectives then Err(MissingObjective(objective))
      else
        var value := if objective in ScoresOf(p, holder) then ScoresOf(p, holder)[objective].value else 0;
        Ok(PutScore(p, holder, objective, Score(value, locked)))
  }

  // ---------------------------------------------------------------- one scoreboard

  /** A scoreboard with its revision counters. */
  datatype Board = Board(state: Persistent, revision: nat, saved: nat)

  datatype Snapshot = Snapshot(revision: nat, state: Persistent)

  /** Refused mutations and mutations without effect leave the revision alone. */
  function Mutated(b: Board, m: Mutation): Board {
    match Mutate(b.state, m)
    case Err(_) => b
    case Ok(state) => if state == b.state then b else b.(state := state, revision := b.revision + 1)
  }

  function Pending(b: Board): Option<Snapshot> {
    if b.revision == b.saved then None else Some(Snapshot(b.revision, b.state))
  }

  function Marked(b: Board, revision: nat): Board {
    b.(saved := if b.saved < revision then revision else b.saved)
  }

  class Scoreboard {
    var state: Persistent
    var revision: nat
    var saved: nat

    function View(): Board
      reads this
    {
      Board(state, revision, saved)
    }

    constructor (state: Persistent)
      ensures View() == Board(state, 0, 0)
    {
      this.state := state;
      revision := 0;
      saved := 0;
    }

    method MarkDirty()
      modifies this`revision
      ensures revision == old(revision) + 1
    {
      revision := revision + 1;
    }

    method AddObjective(name: string, readOnly: bool) returns (r: Result<()>)
      modifies this
      ensures View() == Mutated(old(View()), Mutation.AddObjective(name, readOnly))
      ensures r.Ok? <==> Mutate(old(state), Mutation.AddObjective(name, readOnly)).Ok?
      ensures r.Err? ==> Mutate(old(state), Mutation.AddObjective(name, readOnly)) == Err(r.error)
    {
      if name == "" {
        return Err(EmptyObjectiveName);
      }
      if name in state.objectives {
        return Err(DuplicateObjective(name));
      }
      state := state.(objectives := state.objectives[name := readOnly]);
      assert name in state.objectives;
      MarkDirty();
      return Ok(());
    }

    method AddTeam(name: string) returns (r: Result<()>)
      modifies this
      ensures View() == Mutated(old(View()), Mutation.AddTeam(name))
      ensures r.Ok? <==> Mutate(old(state), Mutation.AddTeam(name)).Ok?
      ensures r.Err? ==> Mutate(old(state), Mutation.AddTeam(name)) == Err(r.error)
    {
      if name == "" {
        return Err(EmptyTeamName);
      }
      if name in state.teams {
        return Err(DuplicateTeam(name));
      }
      state := state.(teams := state.teams + {name});
      assert name in state.teams;
      MarkDirty();
      return Ok(());
    }

    method AddHolderToTeam(holder: string, team: string) returns (r: Result<()>)
      modifies this
      ensures View() == Mutated(old(View()), Mutation.AddHolderToTeam(holder, team))
      ensures r.Ok? <==> Mutate(old(state), Mutation.AddHolderToTeam(holder, team)).Ok?
      ensures r.Err? ==> Mutate(old(state), Mutation.AddHolderToTeam(holder, team)) == Err(r.error)
    {
      if holder == "" {
        return Err(EmptyScoreHolderName);
      }
      if team !in state.teams {
        return Err(MissingTeam(team));
      }
      var alreadyThere := holder in state.holderTeams && state.holderTeams[holder] == team;
      ghost var before := state.holderTeams;
      state := state.(holderTeams := state.holderTeams[holder := team]);
      if alreadyThere {
        assert state.holderTeams == before;
        return Ok(());
      }
      assert holder !in before || before[holder] != state.holderTeams[holder];
      MarkDirty();
      return Ok(());
    }

    method SetScore(holder: string, objective: string, value: int) returns (r: Result<()>)
      modifies this
      ensures View() == Mutated(old(View()), Mutation.SetScore(holder, objective, value))
      ensures r.Ok? <==> Mutate(old(state), Mutation.SetScore(holder, objective, value)).Ok?
      ensures r.Err? ==> Mutate(old(state), Mutation.SetScore(holder, objective, value)) == Err(r.error)
    {
      if holder == "" {
        return Err(EmptyScoreHolderName);
      }
      if objective !in state.objectives {
        return Err(MissingObjective(objective));
      }
      if state.objectives[objective] {
        return Err(ReadOnlyObjective(objective));
      }
      var scores := if holder in state.scores then state.scores[holder] else map[];
      var score;
      if objective in scores {
        score := scores[objective].(value := value);
        PutScoreChanges(state, holder, objective, score);
        if scores[objective].value == value {
          return Ok(());
        }
      } else {
        score := Score(value, true);
        PutScoreChanges(state, holder, objective, score);
      }
      state := state.(scores := state.scores[holder := scores[objective := score]]);
      MarkDirty();
      return Ok(());
    }

    method SetScoreLocked(holder: string, objective: string, locked: bool) returns (r: Result<()>)
      modifies this
      ensures View() == Mutated(old(View()), Mutation.SetScoreLocked(holder, objective, locked))
      ensures r.Ok? <==> Mutate(old(state), Mutation.SetScoreLocked(holder, objective, locked)).Ok?
      ensures r.Err? ==> Mutate(old(state), Mutation.SetScoreLocked(holder, objective, locked)) == Err(r.error)
    {
      if holder == "" {
        return Err(EmptyScoreHolderName);
      }
      if objective !in state.objectives {
        return Err(MissingObjective(objective));
      }
      var scores := if holder in state.scores then state.scores[holder] else map[];
      var score;
      if objective in scores {
        score := scores[objective].(locked := locked);
        PutScoreChanges(state, holder, objective, score);
        if scores[objective].locked == locked {
          return Ok(());
        }
      } else {
        score := Score(0, locked);
        PutScoreChanges(state, holder, objective, score);
      }
      state := state.(scores := state.scores[holder := scores[objective := score]]);
      MarkDirty();
      return Ok(());
    }

    method PendingSave() returns (r: Option<Snapshot>)
      ensures r == Pending(View())
    {
      if revision == saved {
        return None;
      }
      return Some(Snapshot(revision, state));
    }

    method MarkSaved(rev: nat)
      modifies this`saved
      ensures View() == Marked(old(View()), rev)
    {
      if saved < rev {
        saved := rev;
      }
    }
  }

  /** Storing a score changes the state exactly when it was not stored already. */
  lemma PutScoreChanges(p: Persistent, holder: string, objective: string, score: Score)
    ensures PutScore(p, holder, objective, score) == p
            <==> objective in ScoresOf(p, holder) && ScoresOf(p, holder)[objective] == score
  {
    var q := PutScore(p, holder, objective, score);
    if objective in ScoresOf(p, holder) && ScoresOf(p, holder)[objective] == score {
      assert ScoresOf(p, holder)[objective := score] == ScoresOf(p, holder);
      assert q.scores == p.scores;
    } else {
      assert holder in q.scores && objective in q.scores[holder] && q.scores[holder][objective] == score;
      assert holder in p.scores ==> ScoresOf(p, holder) == p.scores[holder];
    }
  }

  // ---------------------------------------------------------------- what mutations mean

  /** `score_entry`. */
  function Entry(p: Persistent, holder: string, objective: string): Option<Score> {
    if objective in ScoresOf(p, holder) then Some(ScoresOf(p, holder)[objective]) else None
  }

  /** `objective` and `holder_team_name`. */
  function ReadOnlyOf(p: Persistent, objective: string): Option<bool> {
    if objective in p.objectives then Some(p.objectives[objective]) else None
  }

  function TeamOf(p: Persistent, holder: string): Option<string> {
    if holder in p.holderTeams then Some(p.holderTeams[holder]) else None
  }

  /** Which mutations are refused, and the reason that is given: names must not be empty or already
      taken, objectives and teams must exist, and values are not set on read-only objectives. */
  lemma RefusedExactly(p: Persistent, m: Mutation)
    ensures m.AddObjective? ==>
              (Mutate(p, m).Err? <==> m.objective == "" || ReadOnlyOf(p, m.objective).Some?)
    ensures m.AddTeam? ==> (Mutate(p, m).Err? <==> m.team in p.teams + {""})
    ensures m.AddHolderToTeam? ==> (Mutate(p, m).Err? <==> m.holder == "" || m.team !in p.teams)
    ensures m.SetScore? ==> (Mutate(p, m).Err? <==> m.holder == "" || ReadOnlyOf(p, m.objective) != Some(false))
    ensures m.SetScoreLocked? ==> (Mutate(p, m).Err? <==> m.holder == "" || ReadOnlyOf(p, m.objective).None?)
    ensures m.AddObjective? && Mutate(p, m).Err? ==>
              Mutate(p, m).error == if m.objective == "" then EmptyObjectiveName else DuplicateObjective(m.objective)
    ensures m.AddTeam? && Mutate(p, m).Err? ==>
              Mutate(p, m).error == if m.team == "" then EmptyTeamName else DuplicateTeam(m.team)
    ensures m.AddHolderToTeam? && Mutate(p, m).Err? ==>
              Mutate(p, m).error == if m.holder == "" then EmptyScoreHolderName else MissingTeam(m.team)
    ensures (m.SetScore? || m.SetScoreLocked?) && Mutate(p, m).Err? ==>
              Mutate(p, m).error
              == if m.holder == "" then EmptyScoreHolderName
                 else if ReadOnlyOf(p, m.objective).None? then MissingObjective(m.objective)
                 else ReadOnlyObjective(m.objective)
  {
  }

  /** What a mutation changes, query by query: exactly the named objective, team, membership or score. */
  lemma MutationMeans(p: Persistent, m: Mutation, name: string, holder: string)
    requires Mutate(p, m).Ok?
    ensures var q := Mutate(p, m).value;
            && ReadOnlyOf(q, name) == (if m.AddObjective? && name == m.objective then Some(m.readOnly)
                                       else ReadOnlyOf(p, name))
            && (name in q.teams <==> name in p.teams || m == AddTeam(name))
            && TeamOf(q, holder) == (if m.AddHolderToTeam? && holder == m.holder then Some(m.team)
                                     else TeamOf(p, holder))
            && var before := Entry(p, holder, name);
               Entry(q, holder, name)
               == if m.SetScore? && (m.holder, m.objective) == (holder, name) then
                    Some(Score(m.value, if before.None? then true else before.value.locked))
                  else if m.SetScoreLocked? && (m.holder, m.objective) == (holder, name) then
                    Some(Score(if before.None? then 0 else before.value.value, m.locked))
                  else before
  {
  }

  /** A mutation of one score leaves every other score and everything else alone. */
  lemma OtherScoresStay(p: Persistent, m: Mutation, holder: string, objective: string)
    requires Mutate(p, m).Ok?
    requires m.SetScore? || m.SetScoreLocked? ==> (m.holder, m.objective) != (holder, objective)
    ensures Entry(Mutate(p, m).value, holder, objective) == Entry(p, holder, objective)
  {
  }

  /** Value and lock of a score are set independently: whichever is set first, the score ends
      with both, and nothing else depends on the order. */
  lemma ValueAndLockAreIndependent(p: Persistent, holder: string, objective: string, value: int, locked: bool)
    requires Mutate(p, SetScore(holder, objective, value)).Ok?
    ensures var valueFirst := Mutate(p, SetScore(holder, objective, value)).value;
            var lockFirst := Mutate(p, SetScoreLocked(holder, objective, locked));
            && lockFirst.Ok?
            && Mutate(valueFirst, SetScoreLocked(holder, objective, locked))
               == Mutate(lockFirst.value, SetScore(holder, objective, value))
            && var both := Mutate(valueFirst, SetScoreLocked(holder, objective, locked));
               both.Ok? && Entry(both.value, holder, objective) == Some(Score(value, locked))
  {
    var a := Mutate(p, SetScore(holder, objective, value)).value;
    var b := Mutate(p, SetScoreLocked(holder, objective, locked)).value;
    var score := Score(value, locked);
    assert ScoresOf(a, holder)[objective := score] == ScoresOf(p, holder)[objective := score];
    assert ScoresOf(b, holder)[objective := score] == ScoresOf(p, holder)[objective := score];
    assert a.scores[holder := ScoresOf(p, holder)[objective := score]]
        == b.scores[holder := ScoresOf(p, holder)[objective := score]];
  }

  /** A score that is set for the first time is locked; later values keep the lock. */
  lemma SettingKeepsTheLock(p: Persistent, holder: string, objective: string, value: int)
    requires Mutate(p, SetScore(holder, objective, value)).Ok?
    ensures var before := Entry(p, holder, objective);
            Entry(Mutate(p, SetScore(holder, objective, value)).value, holder, objective)
            == Some(Score(value, before.Some? ==> before.value.locked))
  {
  }

  /** A holder is in one team: the last one it was added to. */
  lemma LastTeamWins(p: Persistent, holder: string, one: string, two: string)
    requires Mutate(p, AddHolderToTeam(holder, one)).Ok? && Mutate(p, AddHolderToTeam(holder, two)).Ok?
    ensures var after := Mutate(Mutate(p, AddHolderToTeam(holder, one)).value, AddHolderToTeam(holder, two));
            after == Mutate(p, AddHolderToTeam(holder, two)) && after.value.holderTeams[holder] == two
  {
    var first := Mutate(p, AddHolderToTeam(holder, one)).value;
    assert first.holderTeams[holder := two] == p.holderTeams[holder := two];
  }

  // ---------------------------------------------------------------- validity of persisted data

  ghost predicate WellFormed(p: Persistent) {
    && "" !in p.objectives
    && "" !in p.teams
    && (forall h :: h in p.scores ==> ScoreValid(p, h))
    && (forall h :: h in p.holderTeams ==> MemberValid(p, h))
  }

  ghost predicate ScoreValid(p: Persistent, holder: string)
    requires holder in p.scores
  {
    holder != "" && p.scores[holder].Keys <= p.objectives.Keys
  }

  ghost predicate MemberValid(p: Persistent, holder: string)
    requires holder in p.holderTeams
  {
    holder != "" && p.holderTeams[holder] in p.teams
  }

  method ValidateScores(p: Persistent) returns (r: Result<()>)
    ensures r.Ok? <==> forall h :: h in p.scores ==> ScoreValid(p, h)
  {
    var holders := p.scores.Keys;
    while holders != {}
      invariant holders <= p.scores.Keys
      invariant forall h :: h in p.scores && h !in holders ==> ScoreValid(p, h)
      decreases |holders|
    {
      var h :| h in holders;
      if h == "" {
        assert !ScoreValid(p, h);
        return Err(EmptyScoreHolderName);
      }
      var unknown := p.scores[h].Keys - p.objectives.Keys;
      if unknown != {} {
        var objective :| objective in unknown;
        assert objective in p.scores[h].Keys && !ScoreValid(p, h);
        return Err(MissingObjective(objective));
      }
      assert p.scores[h].Keys <= p.objectives.Keys by {
        forall k | k in p.scores[h].Keys
          ensures k in p.objectives.Keys
        {
          assert k !in unknown;
        }
      }
      holders := holders - {h};
    }
    return Ok(());
  }

  method ValidateMembers(p: Persistent) returns (r: Result<()>)
    ensures r.Ok? <==> forall h :: h in p.holderTeams ==> MemberValid(p, h)
  {
    var members := p.holderTeams.Keys;
    while members != {}
      invariant members <= p.holderTeams.Keys
      invariant forall h :: h in p.holderTeams && h !in members ==> MemberValid(p, h)
      decreases |members|
    {
      var h :| h in members;
      if h == "" {
        assert !MemberValid(p, h);
        return Err(EmptyScoreHolderName);
      }
      if p.holderTeams[h] !in p.teams {
        assert !MemberValid(p, h);
        return Err(MissingTeam(p.holderTeams[h]));
      }
      members := members - {h};
    }
    return Ok(());
  }

  /** `validate_persistent_scoreboard`: accepts exactly the well-formed states. */
  method Validate(p: Persistent) returns (r: Result<()>)
    ensures r.Ok? <==> WellFormed(p)
  {
    if "" in p.objectives {
      return Err(EmptyObjectiveName);
    }
    if "" in p.teams {
      return Err(EmptyTeamName);
    }
    r := ValidateScores(p);
    if r.Ok? {
      r := ValidateMembers(p);
    }
  }

  /** What loading accepts: no empty name anywhere, scores only for objectives there are, and holders
      only in teams there are. */
  lemma WellFormedMeans(p: Persistent)
    ensures WellFormed(p) <==>
              && "" !in p.objectives.Keys + p.teams + p.scores.Keys + p.holderTeams.Keys
              && (forall holder :: holder in p.scores ==> p.scores[holder].Keys <= p.objectives.Keys)
              && p.holderTeams.Values <= p.teams
  {
    forall holder | holder in p.scores
      ensures ScoreValid(p, holder) <==> holder != "" && p.scores[holder].Keys <= p.objectives.Keys
    {
    }
    forall holder | holder in p.holderTeams
      ensures MemberValid(p, holder) <==> holder != "" && p.holderTeams[holder] in p.teams
    {
    }
  }

  /** No mutation leads out of the states that loading accepts. */
  lemma MutateWellFormed(p: Persistent, m: Mutation)
    requires WellFormed(p) && Mutate(p, m).Ok?
    ensures WellFormed(Mutate(p, m).value)
  {
  }

  // ---------------------------------------------------------------- saving beside the mutators

  /** Where `DomainScoreboards::save` is, under its lock. */
  datatype Saver =
    | Idle
    | Visiting(todo: seq<string>, count: nat)
    | Writing(domain: string, snapshot: Snapshot, rest: seq<string>, count: nat)
    | Written(domain: string, snapshot: Snapshot, rest: seq<string>, count: nat)

  /** A write to disk whose future was dropped; the write itself may still land. */
  datatype LateWrite = LateWrite(domain: string, state: Persistent)

  /** `history[d]` lists the states of domain `d` by revision; it guides no step. */
  datatype Server = Server(
    boards: map<string, Board>,
    disk: map<string, Persistent>,
    saver: Saver,
    late: seq<LateWrite>,
    history: map<string, seq<Persistent>>)

  datatype Step =
    | Change(domain: string, mutation: Mutation)
    | StartSave(order: seq<string>)
    | Visit
    | WriteDisk
    | FailWrite(garbage: Persistent)
    | MarkSaved
    | EndSave
    | DropSave
    | LandLate(i: nat, content: Persistent)

  /** A bumped revision adds its state to the history. */
  function Recorded(b: Board, history: seq<Persistent>, m: Mutation): seq<Persistent> {
    var after := Mutated(b, m);
    if after.revision == b.revision then history else history + [after.state]
  }

  function ApplyChange(s: Server, domain: string, m: Mutation): Server
    requires domain in s.boards && domain in s.history
  {
    var b := s.boards[domain];
    s.(boards := s.boards[domain := Mutated(b, m)],
       history := s.history[domain := Recorded(b, s.history[domain], m)])
  }

  function VisitNext(s: Server): Server
    requires s.saver.Visiting? && s.saver.todo != [] && s.saver.todo[0] in s.boards
  {
    var d := s.saver.todo[0];
    var rest := s.saver.todo[1..];
    match Pending(s.boards[d])
    case None => s.(saver := Visiting(rest, s.saver.count))
    case Some(snapshot) => s.(saver := Writing(d, snapshot, rest, s.saver.count))
  }

  function ApplyMark(s: Server): Server
    requires s.saver.Written? && s.saver.domain in s.boards
  {
    var d := s.saver.domain;
    s.(boards := s.boards[d := Marked(s.boards[d], s.saver.snapshot.revision)],
       saver := Visiting(s.saver.rest, s.saver.count + 1))
  }

  /** The future of a save is dropped and its lock released. A write that was handed to the
      blocking pool goes on without it. */
  function Dropped(s: Server): Server {
    s.(saver := Idle,
       late := if s.saver.Writing? then s.late + [LateWrite(s.saver.domain, s.saver.snapshot.state)] else s.late)
  }

  /** A late write ends: with its state on disk, or with anything when it fails. */
  function Landed(s: Server, i: nat, content: Persistent): Server
    requires i < |s.late|
  {
    s.(disk := s.disk[s.late[i].domain := content], late := s.late[..i] + s.late[i + 1..])
  }

  /** A failed write may leave anything on disk. */
  function Next(s: Server, step: Step): Option<Server> {
    match step
    case Change(domain, m) =>
      if domain in s.boards && domain in s.history then Some(ApplyChange(s, domain, m)) else None
    case StartSave(order) =>
      if s.saver.Idle? && (forall d :: d in order ==> d in s.boards)
      then Some(s.(saver := Visiting(order, 0))) else None
    case Visit =>
      if s.saver.Visiting? && s.saver.todo != [] && s.saver.todo[0] in s.boards
      then Some(VisitNext(s)) else None
    case WriteDisk =>
      if s.saver.Writing? then
        var Writing(d, snapshot, rest, count) := s.saver;
        Some(s.(disk := s.disk[d := snapshot.state], saver := Written(d, snapshot, rest, count)))
      else None
    case FailWrite(garbage) =>
      if s.saver.Writing?
      then Some(s.(disk := s.disk[s.saver.domain := garbage], saver := Idle)) else None
    case MarkSaved =>
      if s.saver.Written? && s.saver.domain in s.boards then Some(ApplyMark(s)) else None
    case EndSave =>
      if s.saver.Visiting? && s.saver.todo == [] then Some(s.(saver := Idle)) else None
    case DropSave => if s.saver.Idle? then None else Some(Dropped(s))
    case LandLate(i, content) => if i < |s.late| then Some(Landed(s, i, content)) else None
  }

  function Run(s: Server, steps: seq<Step>): Option<Server>
    decreases |steps|
  {
    if steps == [] then Some(s)
    else
      match Next(s, steps[0])
      case None => None
      case Some(next) => Run(next, steps[1..])
  }

  /** The server right after loading well-formed scoreboards from disk. */
  ghost predicate Loaded(s: Server) {
    && s.saver.Idle? && s.late == []
    && s.disk.Keys == s.boards.Keys == s.history.Keys
    && forall d :: d in s.boards ==>
         && WellFormed(s.disk[d])
         && s.boards[d] == Board(s.disk[d], 0, 0)
         && s.history[d] == [s.disk[d]]
  }

  /** The current state is the last of the history, which counts revisions. */
  ghost predicate BoardValid(b: Board, history: seq<Persistent>) {
    && b.saved <= b.revision
    && |history| == b.revision + 1
    && history[b.revision] == b.state
    && WellFormed(b.state)
  }

  /** A snapshot is the state at its revision, newer than what is marked as saved. */
  ghost predicate SnapshotValid(snapshot: Snapshot, b: Board, history: seq<Persistent>) {
    && b.saved < snapshot.revision <= b.revision
    && snapshot.revision < |history|
    && snapshot.state == history[snapshot.revision]
  }

  ghost predicate SaverCounted(s: Server) {
    s.saver.Writing? || s.saver.Written? ==>
      var d := s.saver.domain;
      d in s.boards && d in s.history && SnapshotValid(s.saver.snapshot, s.boards[d], s.history[d])
  }

  /** Counters, history and snapshots agree. */
  ghost predicate Counted(s: Server) {
    && s.boards.Keys == s.history.Keys
    && (forall d :: d in s.boards ==> BoardValid(s.boards[d], s.history[d]))
    && SaverCounted(s)
    && forall i :: 0 <= i < |s.late| ==> s.late[i].domain in s.boards
  }

  ghost predicate CleanAt(s: Server, d: string)
    requires d in s.boards
  {
    Pending(s.boards[d]).None? ==> d in s.disk && s.disk[d] == s.boards[d].state
  }

  /** Whatever has nothing to save is on disk as it is in memory. */
  ghost predicate CleanIsOnDisk(s: Server) {
    forall d :: d in s.boards ==> CleanAt(s, d)
  }

  /** What is clean is on disk, and so is a snapshot that is about to be marked. */
  ghost predicate OnDisk(s: Server) {
    && CleanIsOnDisk(s)
    && (s.saver.Written? ==> s.saver.domain in s.disk && s.disk[s.saver.domain] == s.saver.snapshot.state)
  }

  ghost predicate Valid(s: Server) {
    Counted(s) && OnDisk(s)
  }

  lemma MutatedValid(b: Board, history: seq<Persistent>, m: Mutation)
    requires BoardValid(b, history)
    ensures BoardValid(Mutated(b, m), Recorded(b, history, m))
    ensures Pending(Mutated(b, m)).None? ==> Mutated(b, m) == b
  {
    if Mutate(b.state, m).Ok? {
      MutateWellFormed(b.state, m);
    }
  }

  lemma SnapshotStaysValid(snapshot: Snapshot, b: Board, history: seq<Persistent>, m: Mutation)
    requires BoardValid(b, history) && SnapshotValid(snapshot, b, history)
    ensures SnapshotValid(snapshot, Mutated(b, m), Recorded(b, history, m))
  {
  }

  lemma ChangeCounted(s: Server, domain: string, m: Mutation)
    requires Counted(s) && domain in s.boards
    ensures Counted(ApplyChange(s, domain, m))
  {
    var b, t := s.boards[domain], ApplyChange(s, domain, m);
    MutatedValid(b, s.history[domain], m);
    forall d | d in t.boards
      ensures BoardValid(t.boards[d], t.history[d])
    {
      assert d != domain ==> t.boards[d] == s.boards[d] && t.history[d] == s.history[d];
    }
    if (s.saver.Writing? || s.saver.Written?) && s.saver.domain == domain {
      SnapshotStaysValid(s.saver.snapshot, b, s.history[domain], m);
    }
  }

  lemma MarkCounted(s: Server)
    requires Counted(s) && s.saver.Written?
    ensures Counted(ApplyMark(s))
  {
  }

  lemma QuietStep(s: Server, step: Step)
    requires Next(s, step).Some? && !step.Change? && !step.MarkSaved?
    ensures Next(s, step).value.boards == s.boards && Next(s, step).value.history == s.history
  {
  }

  lemma QuietCounted(s: Server, step: Step)
    requires Counted(s) && Next(s, step).Some? && !step.Change? && !step.MarkSaved?
    ensures Counted(Next(s, step).value)
  {
    QuietStep(s, step);
  }

  /** Every step, late writes included, keeps counters, history and snapshots in agreement. */
  lemma StepCounted(s: Server, step: Step)
    requires Counted(s) && Next(s, step).Some?
    ensures Counted(Next(s, step).value)
  {
    if step.Change? {
      ChangeCounted(s, step.domain, step.mutation);
    } else if step.MarkSaved? {
      MarkCounted(s);
    } else {
      QuietCounted(s, step);
    }
  }

  lemma ChangeOnDisk(s: Server, domain: string, m: Mutation)
    requires Valid(s) && domain in s.boards
    ensures OnDisk(ApplyChange(s, domain, m))
  {
    MutatedValid(s.boards[domain], s.history[domain], m);
  }

  lemma MarkOnDisk(s: Server)
    requires Valid(s) && s.saver.Written?
    ensures OnDisk(ApplyMark(s))
  {
  }

  lemma SaveStepOnDisk(s: Server, step: Step)
    requires Valid(s) && Next(s, step).Some? && !step.Change? && !step.LandLate?
    ensures OnDisk(Next(s, step).value)
  {
    if step.MarkSaved? {
      MarkOnDisk(s);
    }
  }

  /** The content is on disk already, or the scoreboard will be written again anyway: it has
      something to save and no snapshot of it is waiting to be marked. */
  ghost predicate Harmless(s: Server, i: nat, content: Persistent)
    requires i < |s.late| && s.late[i].domain in s.boards
  {
    var d := s.late[i].domain;
    || (d in s.disk && s.disk[d] == content)
    || (Pending(s.boards[d]).Some? && !(s.saver.Written? && s.saver.domain == d))
  }

  /** A late write keeps the invariant exactly when it is harmless. */
  lemma LateWriteValidIff(s: Server, i: nat, content: Persistent)
    requires Valid(s) && i < |s.late|
    ensures Valid(Landed(s, i, content)) <==> Harmless(s, i, content)
  {
    var d, t := s.late[i].domain, Landed(s, i, content);
    StepCounted(s, LandLate(i, content));
    assert t.disk[d] == content && t.boards == s.boards && t.saver == s.saver;
    assert forall e :: e != d && e in s.disk ==> e in t.disk && t.disk[e] == s.disk[e];
    if Valid(t) && Pending(s.boards[d]).None? {
      assert t.disk[d] == t.boards[d].state;
    }
  }

  /** Every late write that lands in the run is harmless. */
  ghost predicate Orderly(s: Server, steps: seq<Step>)
    requires Valid(s) && Run(s, steps).Some?
    decreases |steps|
  {
    steps == [] ||
    (&& (steps[0].LandLate? ==> Harmless(s, steps[0].i, steps[0].content))
     && (StepValid(s, steps[0]); Orderly(Next(s, steps[0]).value, steps[1..])))
  }

  lemma StepValid(s: Server, step: Step)
    requires Valid(s) && Next(s, step).Some?
    requires step.LandLate? ==> Harmless(s, step.i, step.content)
    ensures Valid(Next(s, step).value)
  {
    StepCounted(s, step);
    if step.Change? {
      ChangeOnDisk(s, step.domain, step.mutation);
    } else if step.LandLate? {
      LateWriteValidIff(s, step.i, step.content);
    } else {
      SaveStepOnDisk(s, step);
    }
  }

  /** The invariant holds at every point of the run. */
  ghost predicate ValidThroughout(s: Server, steps: seq<Step>)
    requires Run(s, steps).Some?
    decreases |steps|
  {
    Valid(s) && (steps == [] || ValidThroughout(Next(s, steps[0]).value, steps[1..]))
  }

  /** Whatever interleaves, the invariant holds throughout a run exactly when every late write that
      lands in it is harmless. */
  lemma {:induction false} ValidThroughoutIff(s: Server, steps: seq<Step>)
    requires Valid(s) && Run(s, steps).Some?
    ensures ValidThroughout(s, steps) <==> Orderly(s, steps)
    decreases |steps|
  {
    if steps != [] {
      var step := steps[0];
      if step.LandLate? && !Harmless(s, step.i, step.content) {
        LateWriteValidIff(s, step.i, step.content);
      } else {
        StepValid(s, step);
        ValidThroughoutIff(Next(s, step).value, steps[1..]);
      }
    }
  }

  /** A run in which no dropped write lands late is orderly. */
  lemma {:induction false} NothingLateIsOrderly(s: Server, steps: seq<Step>)
    requires Valid(s) && Run(s, steps).Some?
    requires forall i :: 0 <= i < |steps| ==> !steps[i].LandLate?
    ensures Orderly(s, steps)
    decreases |steps|
  {
    if steps != [] {
      StepValid(s, steps[0]);
      NothingLateIsOrderly(Next(s, steps[0]).value, steps[1..]);
    }
  }

  lemma {:induction false} RunCounted(s: Server, steps: seq<Step>)
    requires Counted(s) && Run(s, steps).Some?
    ensures Counted(Run(s, steps).value)
    decreases |steps|
  {
    if steps != [] {
      StepCounted(s, steps[0]);
      RunCounted(Next(s, steps[0]).value, steps[1..]);
    }
  }

  lemma {:induction false} RunValid(s: Server, steps: seq<Step>)
    requires Valid(s) && Run(s, steps).Some? && Orderly(s, steps)
    ensures Valid(Run(s, steps).value)
    decreases |steps|
  {
    if steps != [] {
      StepValid(s, steps[0]);
      RunValid(Next(s, steps[0]).value, steps[1..]);
    }
  }

  // ---------------------------------------------------------------- clean means saved

  /** What a step must not do to scoreboards with nothing to save. A late write must find something
      to save or bring the current state. A mark that leaves nothing to save must find its snapshot
      on disk. No other step needs anything. */
  ghost predicate StepKeepsClean(s: Server, step: Step)
    requires Counted(s) && Next(s, step).Some?
  {
    match step
    case LandLate(i, content) =>
      var b := s.boards[s.late[i].domain];
      Pending(b).Some? || b.state == content
    case MarkSaved =>
      var Written(d, snapshot, _, _) := s.saver;
      snapshot.revision == s.boards[d].revision ==> d in s.disk && s.disk[d] == snapshot.state
    case _ => true
  }

  /** Where only one domain changed, only that one matters. */
  lemma CleanExceptAt(s: Server, t: Server, d: string)
    requires CleanIsOnDisk(s) && d in s.boards && t.boards.Keys == s.boards.Keys
    requires forall e :: e in s.boards && e != d ==> t.boards[e] == s.boards[e]
    requires forall e :: e in s.disk && e != d ==> e in t.disk && t.disk[e] == s.disk[e]
    ensures CleanIsOnDisk(t) <==> CleanAt(t, d)
  {
    forall e | e in t.boards && e != d
      ensures CleanAt(t, e)
    {
      assert CleanAt(s, e);
    }
  }

  lemma LandingKeepsCleanIff(s: Server, i: nat, content: Persistent)
    requires Counted(s) && CleanIsOnDisk(s) && i < |s.late|
    ensures CleanIsOnDisk(Landed(s, i, content)) <==> StepKeepsClean(s, LandLate(i, content))
  {
    CleanExceptAt(s, Landed(s, i, content), s.late[i].domain);
  }

  /** A mark leaves nothing to save exactly when the snapshot is of the current revision. */
  lemma MarkLeavesClean(b: Board, history: seq<Persistent>, snapshot: Snapshot)
    requires BoardValid(b, history) && SnapshotValid(snapshot, b, history)
    ensures var marked := Marked(b, snapshot.revision);
            && marked.state == b.state
            && (Pending(marked).None? <==> snapshot.revision == b.revision)
            && (Pending(marked).None? ==> marked.state == snapshot.state)
  {
  }

  lemma MarkKeepsCleanIff(s: Server)
    requires Counted(s) && CleanIsOnDisk(s) && s.saver.Written?
    ensures CleanIsOnDisk(ApplyMark(s)) <==> StepKeepsClean(s, MarkSaved)
  {
    var d := s.saver.domain;
    CleanExceptAt(s, ApplyMark(s), d);
    MarkLeavesClean(s.boards[d], s.history[d], s.saver.snapshot);
  }

  lemma ChangeKeepsClean(s: Server, domain: string, m: Mutation)
    requires Counted(s) && CleanIsOnDisk(s) && domain in s.boards
    ensures CleanIsOnDisk(ApplyChange(s, domain, m))
  {
    MutatedValid(s.boards[domain], s.history[domain], m);
  }

  lemma OtherStepKeepsClean(s: Server, step: Step)
    requires Counted(s) && CleanIsOnDisk(s) && Next(s, step).Some?
    requires !step.Change? && !step.LandLate? && !step.MarkSaved?
    ensures CleanIsOnDisk(Next(s, step).value)
  {
    QuietStep(s, step);
  }

  /** The exact condition, for every step. */
  lemma CleanAfterStepIff(s: Server, step: Step)
    requires Counted(s) && CleanIsOnDisk(s) && Next(s, step).Some?
    ensures CleanIsOnDisk(Next(s, step).value) <==> StepKeepsClean(s, step)
  {
    match step {
      case Change(domain, m) => ChangeKeepsClean(s, domain, m);
      case LandLate(i, content) => LandingKeepsCleanIff(s, i, content);
      case MarkSaved => MarkKeepsCleanIff(s);
      case _ => OtherStepKeepsClean(s, step);
    }
  }

  /** Every step of the run meets the condition. */
  ghost predicate KeepsClean(s: Server, steps: seq<Step>)
    requires Counted(s) && Run(s, steps).Some?
    decreases |steps|
  {
    steps == [] ||
    (&& StepKeepsClean(s, steps[0])
     && (StepCounted(s, steps[0]); KeepsClean(Next(s, steps[0]).value, steps[1..])))
  }

  /** At every point of the run, what has nothing to save is on disk. */
  ghost predicate CleanThroughout(s: Server, steps: seq<Step>)
    requires Run(s, steps).Some?
    decreases |steps|
  {
    CleanIsOnDisk(s) && (steps == [] || CleanThroughout(Next(s, steps[0]).value, steps[1..]))
  }

  /** Clean means saved throughout a run exactly when every step of it meets the condition. */
  lemma {:induction false} CleanThroughoutIff(s: Server, steps: seq<Step>)
    requires Counted(s) && CleanIsOnDisk(s) && Run(s, steps).Some?
    ensures CleanThroughout(s, steps) <==> KeepsClean(s, steps)
    decreases |steps|
  {
    if steps != [] {
      StepCounted(s, steps[0]);
      CleanAfterStepIff(s, steps[0]);
      if StepKeepsClean(s, steps[0]) {
        CleanThroughoutIff(Next(s, steps[0]).value, steps[1..]);
      }
    }
  }

  lemma {:induction false} CleanAtEnd(s: Server, steps: seq<Step>)
    requires Run(s, steps).Some? && CleanThroughout(s, steps)
    ensures CleanIsOnDisk(Run(s, steps).value)
    decreases |steps|
  {
    if steps != [] {
      CleanAtEnd(Next(s, steps[0]).value, steps[1..]);
    }
  }

  /** However mutators, snapshots, successful, failed, dropped and late writes and marks interleave,
      as long as every step meets the condition: a scoreboard that reports nothing to save is on
      disk exactly as it is in memory, and loading it again is accepted. */
  lemma {:induction false} CleanMeansSaved(s: Server, steps: seq<Step>, d: string)
    requires Loaded(s) && Run(s, steps).Some? && KeepsClean(s, steps)
    requires var t := Run(s, steps).value; d in t.boards && Pending(t.boards[d]).None?
    ensures var t := Run(s, steps).value;
            d in t.disk && t.disk[d] == t.boards[d].state && WellFormed(t.disk[d])
  {
    CleanThroughoutIff(s, steps);
    CleanAtEnd(s, steps);
    RunCounted(s, steps);
  }

  lemma StepOfOrderly(s: Server, step: Step)
    requires Valid(s) && Next(s, step).Some?
    requires step.LandLate? ==> Harmless(s, step.i, step.content)
    ensures StepKeepsClean(s, step)
  {
    StepValid(s, step);
    CleanAfterStepIff(s, step);
  }

  /** Orderly runs meet the condition. */
  lemma {:induction false} OrderlyKeepsClean(s: Server, steps: seq<Step>)
    requires Valid(s) && Run(s, steps).Some? && Orderly(s, steps)
    ensures KeepsClean(s, steps)
    decreases |steps|
  {
    if steps != [] {
      StepOfOrderly(s, steps[0]);
      StepValid(s, steps[0]);
      OrderlyKeepsClean(Next(s, steps[0]).value, steps[1..]);
    }
  }

  /** Whatever else interleaves: as long as no dropped write lands late, a scoreboard with nothing to
      save is on disk exactly as it is in memory. */
  lemma {:induction false} CleanUnlessLate(s: Server, steps: seq<Step>, d: string)
    requires Loaded(s) && Run(s, steps).Some? && forall i :: 0 <= i < |steps| ==> !steps[i].LandLate?
    requires var t := Run(s, steps).value; d in t.boards && Pending(t.boards[d]).None?
    ensures var t := Run(s, steps).value;
            d in t.disk && t.disk[d] == t.boards[d].state && WellFormed(t.disk[d])
  {
    NothingLateIsOrderly(s, steps);
    OrderlyKeepsClean(s, steps);
    CleanMeansSaved(s, steps, d);
  }

  ghost predicate Grown(s: Server, t: Server, d: string) {
    && d in s.boards && d in s.history && d in t.boards && d in t.history
    && s.boards[d].revision <= t.boards[d].revision
    && s.boards[d].saved <= t.boards[d].saved <= t.boards[d].revision
    && s.history[d] <= t.history[d]
  }

  lemma ChangeGrows(s: Server, domain: string, m: Mutation, d: string)
    requires Counted(s) && domain in s.boards && d in s.boards
    ensures Grown(s, ApplyChange(s, domain, m), d)
  {
    assert d != domain ==> ApplyChange(s, domain, m).boards[d] == s.boards[d];
  }

  lemma MarkGrows(s: Server, d: string)
    requires Counted(s) && s.saver.Written? && d in s.boards
    ensures Grown(s, ApplyMark(s), d)
  {
  }

  lemma StepGrows(s: Server, step: Step, d: string)
    requires Counted(s) && Next(s, step).Some? && d in s.boards
    ensures Grown(s, Next(s, step).value, d)
  {
    if step.Change? {
      ChangeGrows(s, step.domain, step.mutation, d);
    } else if step.MarkSaved? {
      MarkGrows(s, d);
    } else {
      QuietStep(s, step);
    }
  }

  /** Counters only grow, and the saved revision never overtakes the current one. */
  lemma {:induction false} RevisionsGrow(s: Server, steps: seq<Step>, d: string)
    requires Counted(s) && Run(s, steps).Some? && d in s.boards
    ensures Grown(s, Run(s, steps).value, d)
    decreases |steps|
  {
    if steps != [] {
      StepCounted(s, steps[0]);
      StepGrows(s, steps[0], d);
      RevisionsGrow(Next(s, steps[0]).value, steps[1..], d);
    }
  }

  /** A mutation bumps the revision exactly when it changes the state. */
  lemma BumpIffChanged(b: Board, m: Mutation)
    ensures Mutated(b, m).revision == b.revision <==> Mutated(b, m).state == b.state
    ensures b.revision <= Mutated(b, m).revision <= b.revision + 1
  {
  }

  /** Why saves are serialised: of two overlapping saves the older snapshot can reach the disk
      last, and the scoreboard is then clean although the disk is stale. */
  lemma OverlappingSavesWouldLie(b: Board, m: Mutation)
    requires b.saved < b.revision && Mutate(b.state, m).Ok? && Mutate(b.state, m).value != b.state
    ensures var first := Pending(b).value;
            var newer := Mutated(b, m);
            var second := Pending(newer).value;
            var marked := Marked(Marked(newer, second.revision), first.revision);
            var diskWrittenLast := first.state;
            Pending(marked).None? && diskWrittenLast != marked.state
  {
  }

  // ---------------------------------------------------------------- what a save reports

  function Marks(steps: seq<Step>): nat {
    if steps == [] then 0 else (if steps[0].MarkSaved? then 1 else 0) + Marks(steps[1..])
  }

  /** A save counts the scoreboards it has written and marked. */
  lemma {:induction false} SaveCounts(s: Server, steps: seq<Step>)
    requires !s.saver.Idle? && Run(s, steps).Some?
    requires forall i :: 0 <= i < |steps| ==> !steps[i].StartSave?
    ensures var t := Run(s, steps).value;
            !t.saver.Idle? ==> t.saver.count == s.saver.count + Marks(steps)
    decreases |steps|
  {
    if steps != [] {
      var next := Next(s, steps[0]).value;
      if next.saver.Idle? {
        IdleStays(next, steps[1..]);
      } else {
        SaveCounts(next, steps[1..]);
      }
    }
  }

  lemma {:induction false} IdleStays(s: Server, steps: seq<Step>)
    requires s.saver.Idle? && Run(s, steps).Some?
    requires forall i :: 0 <= i < |steps| ==> !steps[i].StartSave?
    ensures Run(s, steps).value.saver.Idle?
    decreases |steps|
  {
    if steps != [] {
      IdleStays(Next(s, steps[0]).value, steps[1..]);
    }
  }

  // ---------------------------------------------------------------- a save gets through

  /** The domains that a save has still to visit. */
  function Todo(saver: Saver): seq<string> {
    match saver
    case Idle => []
    case Visiting(todo, _) => todo
    case Writing(_, _, rest, _) => rest
    case Written(_, _, rest, _) => rest
  }

  ghost predicate TodoKnown(s: Server) {
    forall d :: d in Todo(s.saver) ==> d in s.boards
  }

  /** How much a save has still to do. */
  function Work(saver: Saver): nat {
    match saver
    case Idle => 0
    case Visiting(todo, _) => 1 + 3 * |todo|
    case Writing(_, _, rest, _) => 3 + 3 * |rest|
    case Written(_, _, rest, _) => 2 + 3 * |rest|
  }

  lemma TodoStaysKnown(s: Server, step: Step)
    requires TodoKnown(s) && Next(s, step).Some?
    ensures TodoKnown(Next(s, step).value)
  {
  }

  /** Only mutators and late writes leave the work as it is; every step of the save itself is progress. */
  lemma SaveStepIsProgress(s: Server, step: Step)
    requires Next(s, step).Some? && !step.StartSave?
    ensures var after := Work(Next(s, step).value.saver);
            if step.Change? || step.LandLate? then after == Work(s.saver) else after < Work(s.saver)
  {
  }

  /** Which steps of a save are possible: a save is never stuck, may fail only while it writes, and may
      be dropped anywhere. */
  lemma SaveSteps(s: Server, order: seq<string>, garbage: Persistent)
    requires Counted(s) && TodoKnown(s)
    ensures Next(s, StartSave(order)).Some? <==> s.saver.Idle? && forall d :: d in order ==> d in s.boards
    ensures Next(s, Visit).Some? <==> s.saver.Visiting? && Todo(s.saver) != []
    ensures Next(s, EndSave).Some? <==> s.saver.Visiting? && Todo(s.saver) == []
    ensures Next(s, WriteDisk).Some? <==> s.saver.Writing?
    ensures Next(s, FailWrite(garbage)).Some? <==> s.saver.Writing?
    ensures Next(s, MarkSaved).Some? <==> s.saver.Written?
    ensures Next(s, DropSave).Some? <==> !s.saver.Idle?
  {
    assert s.saver.Visiting? && s.saver.todo != [] ==> s.saver.todo[0] in Todo(s.saver);
  }

  function Landings(steps: seq<Step>): nat {
    if steps == [] then 0 else (if steps[0].LandLate? then 1 else 0) + Landings(steps[1..])
  }

  function Drops(steps: seq<Step>): nat {
    if steps == [] then 0 else (if steps[0].DropSave? then 1 else 0) + Drops(steps[1..])
  }

  /** A dropped write lands at most once. */
  lemma {:induction false} LandsAtMostOnce(s: Server, steps: seq<Step>)
    requires Run(s, steps).Some?
    ensures Landings(steps) + |Run(s, steps).value.late| <= |s.late| + Drops(steps)
    decreases |steps|
  {
    if steps != [] {
      LandsAtMostOnce(Next(s, steps[0]).value, steps[1..]);
    }
  }

  /** A failed write ends the save and marks nothing, like a drop or the end of the list. */
  lemma SaveEnds(s: Server, step: Step)
    requires Next(s, step).Some? && (step.FailWrite? || step.DropSave? || step.EndSave?)
    ensures Next(s, step).value.saver.Idle? && Next(s, step).value.boards == s.boards
    ensures step.FailWrite? ==> s.saver.Writing? && Next(s, step).value.disk[s.saver.domain] == step.garbage
    ensures step.EndSave? ==> s.saver.Visiting? && s.saver.todo == [] && Next(s, step).value.disk == s.disk
  {
  }

  /** A save that has begun keeps every other one from beginning until it ends, fails or is dropped. */
  lemma {:induction false} OneSaveAtATime(s: Server, steps: seq<Step>)
    requires !s.saver.Idle? && Run(s, steps).Some?
    requires forall i :: 0 <= i < |steps| ==> !steps[i].EndSave? && !steps[i].FailWrite? && !steps[i].DropSave?
    ensures forall i :: 0 <= i < |steps| ==> !steps[i].StartSave?
    decreases |steps|
  {
    if steps != [] {
      OneSaveAtATime(Next(s, steps[0]).value, steps[1..]);
    }
  }

  /** Revision `rev` of a domain is saved, is being saved, or its turn is still to come. */
  ghost predicate Reached(s: Server, d: string, rev: nat) {
    d in s.boards && rev <= s.boards[d].revision &&
    match s.saver
    case Idle => true
    case Visiting(todo, _) => d in todo || rev <= s.boards[d].saved
    case Writing(e, snapshot, rest, _) => (d == e && rev <= snapshot.revision) || d in rest || rev <= s.boards[d].saved
    case Written(e, snapshot, rest, _) => (d == e && rev <= snapshot.revision) || d in rest || rev <= s.boards[d].saved
  }

  lemma ReachedStep(s: Server, step: Step, d: string, rev: nat)
    requires Counted(s) && Reached(s, d, rev) && Next(s, step).Some? && !step.StartSave?
    ensures Reached(Next(s, step).value, d, rev)
  {
    StepGrows(s, step, d);
    if step.Visit? && d == s.saver.todo[0] {
      assert Pending(s.boards[d]).None? ==> s.boards[d].saved == s.boards[d].revision;
    }
  }

  lemma {:induction false} ReachedRun(s: Server, steps: seq<Step>, d: string, rev: nat)
    requires Counted(s) && Reached(s, d, rev) && Run(s, steps).Some?
    requires forall i :: 0 <= i < |steps| ==> !steps[i].StartSave?
    ensures Reached(Run(s, steps).value, d, rev)
    decreases |steps|
  {
    if steps != [] {
      StepCounted(s, steps[0]);
      ReachedStep(s, steps[0], d, rev);
      ReachedRun(Next(s, steps[0]).value, steps[1..], d, rev);
    }
  }

  /** A save that gets through its list has saved every scoreboard on it, at least as it was when the
      save began, whatever changed meanwhile. */
  lemma {:induction false} SaveReachesAll(s: Server, steps: seq<Step>, d: string)
    requires Counted(s) && s.saver.Visiting? && d in s.saver.todo && d in s.boards && Run(s, steps).Some?
    requires forall i :: 0 <= i < |steps| ==> !steps[i].StartSave?
    requires var t := Run(s, steps).value; t.saver.Visiting? && t.saver.todo == []
    ensures d in Run(s, steps).value.boards && s.boards[d].revision <= Run(s, steps).value.boards[d].saved
  {
    ReachedRun(s, steps, d, s.boards[d].revision);
  }

  // ---------------------------------------------------------------- a dropped save

  /** A mutation, and a save of it that is dropped during the write. */
  function Dropping(d: string, m: Mutation): seq<Step> {
    [Change(d, m), StartSave([d]), Visit] + [DropSave]
  }

  /** A mutation, and a save of it that completes. */
  function Saving(d: string, m: Mutation): seq<Step> {
    [Change(d, m), StartSave([d]), Visit] + [WriteDisk, MarkSaved, EndSave]
  }

  lemma {:induction false} RunStep(s: Server, steps: seq<Step>)
    requires steps != [] && Next(s, steps[0]).Some?
    ensures Run(s, steps) == Run(Next(s, steps[0]).value, steps[1..])
  {
  }

  lemma {:induction false} RunAppend(s: Server, a: seq<Step>, b: seq<Step>)
    requires Run(s, a).Some?
    ensures Run(s, a + b) == Run(Run(s, a).value, b)
    decreases |a|
  {
    if a == [] {
      assert a + b == b;
    } else {
      assert (a + b)[1..] == a[1..] + b;
      RunAppend(Next(s, a[0]).value, a[1..], b);
    }
  }

  /** No save is running and the domain is known. */
  ghost predicate Ready(s: Server, d: string) {
    s.saver.Idle? && d in s.boards && d in s.history
  }

  lemma SaveBegins(s: Server, d: string, m: Mutation) returns (t: Server)
    requires Ready(s, d) && Pending(Mutated(s.boards[d], m)).Some?
    ensures Run(s, [Change(d, m), StartSave([d]), Visit]) == Some(t)
    ensures d in t.boards && d in t.history && t.boards[d] == Mutated(s.boards[d], m)
    ensures t.saver == Writing(d, Pending(t.boards[d]).value, [], 0) && t.late == s.late && t.disk == s.disk
  {
    var steps := [Change(d, m), StartSave([d]), Visit];
    var s1 := ApplyChange(s, d, m);
    var s2 := s1.(saver := Visiting([d], 0));
    t := VisitNext(s2);
    RunStep(s, steps);
    RunStep(s1, steps[1..]);
    RunStep(s2, steps[1..][1..]);
    assert [d][1..] == [];
  }

  lemma DropRuns(s: Server, d: string, m: Mutation) returns (t: Server)
    requires Ready(s, d) && Pending(Mutated(s.boards[d], m)).Some?
    ensures Run(s, Dropping(d, m)) == Some(t) && Ready(t, d)
    ensures t.boards[d] == Mutated(s.boards[d], m) && t.late == s.late + [LateWrite(d, t.boards[d].state)]
  {
    var s1 := SaveBegins(s, d, m);
    t := Dropped(s1);
    RunAppend(s, [Change(d, m), StartSave([d]), Visit], [DropSave]);
    RunStep(s1, [DropSave]);
  }

  lemma SaveRuns(s: Server, d: string, m: Mutation) returns (t: Server)
    requires Ready(s, d) && Pending(Mutated(s.boards[d], m)).Some?
    requires s.boards[d].saved <= s.boards[d].revision
    ensures Run(s, Saving(d, m)) == Some(t) && Ready(t, d) && t.late == s.late
    ensures Pending(t.boards[d]).None? && t.boards[d].state == Mutated(s.boards[d], m).state
  {
    var s1 := SaveBegins(s, d, m);
    var steps := [WriteDisk, MarkSaved, EndSave];
    var snapshot := s1.saver.snapshot;
    var s2 := s1.(disk := s1.disk[d := snapshot.state], saver := Written(d, snapshot, [], 0));
    var s3 := ApplyMark(s2);
    t := s3.(saver := Idle);
    RunAppend(s, [Change(d, m), StartSave([d]), Visit], steps);
    RunStep(s1, steps);
    RunStep(s2, steps[1..]);
    RunStep(s3, steps[1..][1..]);
  }

  lemma DropThenSave(s: Server, d: string, one: Mutation, two: Mutation) returns (t: Server)
    requires Ready(s, d) && s.late == [] && s.boards[d].saved <= s.boards[d].revision
    requires var changed := Mutated(s.boards[d], one);
             changed.state != s.boards[d].state && Mutated(changed, two).state != changed.state
    ensures Run(s, Dropping(d, one) + Saving(d, two)) == Some(t) && d in t.boards
    ensures t.late == [LateWrite(d, Mutated(s.boards[d], one).state)]
    ensures Pending(t.boards[d]).None? && t.boards[d].state != t.late[0].state
  {
    var s1 := DropRuns(s, d, one);
    t := SaveRuns(s1, d, two);
    RunAppend(s, Dropping(d, one), Saving(d, two));
  }

  /** Whenever a save is dropped during its write and the next change is saved in full, the dropped
      write can still land: the scoreboard has nothing to save and differs from the disk. */
  lemma {:induction false} DroppedWriteCanLie(s: Server, d: string, one: Mutation, two: Mutation)
    requires Loaded(s) && d in s.boards
    requires var changed := Mutated(s.boards[d], one);
             changed.state != s.boards[d].state && Mutated(changed, two).state != changed.state
    ensures var late := LandLate(0, Mutated(s.boards[d], one).state);
            var end := Run(s, Dropping(d, one) + Saving(d, two) + [late]);
            && end.Some? && d in end.value.boards && d in end.value.disk
            && Pending(end.value.boards[d]).None? && end.value.disk[d] != end.value.boards[d].state
  {
    var t := DropThenSave(s, d, one, two);
    var late := LandLate(0, t.late[0].state);
    RunAppend(s, Dropping(d, one) + Saving(d, two), [late]);
    RunStep(t, [late]);
  }
}
