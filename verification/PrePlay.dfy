/** Login and configuration sequencing: which calls a connection has to go through, in which
    order, before it may play, and with which profile. */
module PrePlay {

  datatype Protocol = HandshakeProtocol | PlayProtocol | StatusProtocol | LoginProtocol | ConfigProtocol

  datatype LoginState<P> =
    | Hello
    | Key(username: string)
    | Authenticating
    | ProtocolSwitching(profile: P)

  datatype ConfigurationPhase = SynchronizeRegistries | JoinWorld

  datatype State<P> =
    | Handshake
    | Status
    | Login(login: LoginState<P>)
    | Configuration(phase: ConfigurationPhase, profile: P)
    | Play

  datatype LoginPhase = HelloPhase | KeyPhase | AuthenticatingPhase | ProtocolSwitchingPhase

  datatype Phase =
    | HandshakePhase
    | StatusPhase
    | InLogin(login: LoginPhase)
    | InConfiguration(configuration: ConfigurationPhase)
    | PlayPhase

  datatype ClientPacket =
    | ClientIntention
    | HelloPacket
    | KeyPacket
    | LoginAcknowledged
    | KnownPacksPacket
    | FinishPacket

  datatype SequenceError = SequenceError(packet: ClientPacket, phase: Phase)

  datatype Result<T> = Ok(value: T) | Err(error: SequenceError)

  /** The calls on a `PrePlayState`. */
  datatype Call<P> =
    | SelectProtocol(protocol: Protocol)
    | WaitForKey(username: string)
    | BeginAuthentication
    | CompleteLogin(profile: P)
    | AcknowledgeLogin
    | SelectKnownPacks
    | FinishConfiguration

  function PhaseOf<P>(s: State<P>): Phase {
    match s
    case Handshake => HandshakePhase
    case Status => StatusPhase
    case Login(Hello) => InLogin(HelloPhase)
    case Login(Key(_)) => InLogin(KeyPhase)
    case Login(Authenticating) => InLogin(AuthenticatingPhase)
    case Login(ProtocolSwitching(_)) => InLogin(ProtocolSwitchingPhase)
    case Configuration(phase, _) => InConfiguration(phase)
    case Play => PlayPhase
  }

  predicate Expected<P>(s: State<P>, packet: ClientPacket) {
    match packet
    case HelloPacket => s.Login? && s.login.Hello?
    case KeyPacket => s.Login? && s.login.Key?
    case LoginAcknowledged => s.Login? && s.login.ProtocolSwitching?
    case KnownPacksPacket => s.Configuration? && s.phase.SynchronizeRegistries?
    case FinishPacket => s.Configuration? && s.phase.JoinWorld?
    case ClientIntention => false
  }

  /** When a call succeeds, and the state it then leaves. */
  predicate Succeeds<P>(s: State<P>, call: Call<P>) {
    match call
    case SelectProtocol(protocol) => s.Handshake? && (protocol.StatusProtocol? || protocol.LoginProtocol?)
    case WaitForKey(_) => s.Login? && s.login.Hello?
    case BeginAuthentication => s.Login? && s.login.Key?
    case CompleteLogin(_) => s.Login? && (s.login.Hello? || s.login.Authenticating?)
    case AcknowledgeLogin => s.Login? && s.login.ProtocolSwitching?
    case SelectKnownPacks => s.Configuration? && s.phase.SynchronizeRegistries?
    case FinishConfiguration => s.Configuration? && s.phase.JoinWorld?
  }

  function After<P>(s: State<P>, call: Call<P>): State<P>
    requires Succeeds(s, call)
  {
    match call
    case SelectProtocol(protocol) => if protocol.StatusProtocol? then Status else Login(Hello)
    case WaitForKey(username) => Login(Key(username))
    case BeginAuthentication => Login(Authenticating)
    case CompleteLogin(profile) => Login(ProtocolSwitching(profile))
    case AcknowledgeLogin => Configuration(SynchronizeRegistries, s.login.profile)
    case SelectKnownPacks => s.(phase := JoinWorld)
    case FinishConfiguration => Play
  }

  /** A failing call changes nothing. */
  function Next<P>(s: State<P>, call: Call<P>): State<P> {
    if Succeeds(s, call) then After(s, call) else s
  }

  class PrePlayState<P> {
    var state: State<P>

    constructor ()
      ensures state == Handshake
    {
      state := Handshake;
    }

    function Unexpected(packet: ClientPacket): SequenceError
      reads this
    {
      SequenceError(packet, PhaseOf(state))
    }

    method Expect(packet: ClientPacket) returns (r: Result<()>)
      ensures r == if Expected(state, packet) then Ok(()) else Err(Unexpected(packet))
    {
      var expected := match (state, packet)
        case (Login(Hello), HelloPacket) => true
        case (Login(Key(_)), KeyPacket) => true
        case (Login(ProtocolSwitching(_)), LoginAcknowledged) => true
        case (Configuration(SynchronizeRegistries, _), KnownPacksPacket) => true
        case (Configuration(JoinWorld, _), FinishPacket) => true
        case _ => false;
      r := if expected then Ok(()) else Err(Unexpected(packet));
    }

    method SelectProtocol(protocol: Protocol) returns (r: Result<()>)
      modifies this
      ensures state == Next(old(state), Call.SelectProtocol(protocol))
      ensures r == if Succeeds(old(state), Call.SelectProtocol(protocol)) then Ok(())
                   else Err(old(Unexpected(ClientIntention)))
    {
      if !state.Handshake? {
        return Err(Unexpected(ClientIntention));
      }
      match protocol {
        case StatusProtocol => state := Status;
        case LoginProtocol => state := Login(Hello);
        case _ => return Err(Unexpected(ClientIntention));
      }
      return Ok(());
    }

    method WaitForKey(username: string) returns (r: Result<()>)
      modifies this
      ensures state == Next(old(state), Call.WaitForKey(username))
      ensures r == if Succeeds(old(state), Call.WaitForKey(username)) then Ok(())
                   else Err(old(Unexpected(HelloPacket)))
    {
      r := Expect(HelloPacket);
      if r.Ok? {
        state := Login(Key(username));
      }
    }

    /** Hands out the name the client asked for. */
    method BeginAuthentication() returns (r: Result<string>)
      modifies this
      ensures state == Next(old(state), Call.BeginAuthentication)
      ensures r == if Succeeds(old(state), Call.BeginAuthentication) then Ok(old(state).login.username)
                   else Err(old(Unexpected(KeyPacket)))
    {
      var expected := Expect(KeyPacket);
      if expected.Err? {
        return Err(expected.error);
      }
      r := Ok(state.login.username);
      state := Login(Authenticating);
    }

    method CompleteLogin(profile: P) returns (r: Result<()>)
      modifies this
      ensures state == Next(old(state), Call.CompleteLogin(profile))
      ensures r == if Succeeds(old(state), Call.CompleteLogin(profile)) then Ok(())
                   else Err(old(Unexpected(LoginAcknowledged)))
    {
      if !(state.Login? && (state.login.Hello? || state.login.Authenticating?)) {
        return Err(Unexpected(LoginAcknowledged));
      }
      state := Login(ProtocolSwitching(profile));
      return Ok(());
    }

    /** Swaps the state for `Play` while it moves the profile out of it; the arm that would
        swap it back cannot be reached. */
    method AcknowledgeLogin() returns (r: Result<()>)
      modifies this
      ensures state == Next(old(state), Call.AcknowledgeLogin)
      ensures r == if Succeeds(old(state), Call.AcknowledgeLogin) then Ok(())
                   else Err(old(Unexpected(LoginAcknowledged)))
    {
      r := Expect(LoginAcknowledged);
      if r.Err? {
        return;
      }
      var previous := state;
      state := Play;
      match previous {
        case Login(ProtocolSwitching(profile)) =>
          state := Configuration(SynchronizeRegistries, profile);
        case _ =>
          assert false;
      }
    }

    method SelectKnownPacks() returns (r: Result<()>)
      modifies this
      ensures state == Next(old(state), Call.SelectKnownPacks)
      ensures r == if Succeeds(old(state), Call.SelectKnownPacks) then Ok(())
                   else Err(old(Unexpected(KnownPacksPacket)))
    {
      r := Expect(KnownPacksPacket);
      if r.Ok? {
        state := state.(phase := JoinWorld);
      }
    }

    /** Hands out the authenticated profile. */
    method FinishConfiguration() returns (r: Result<P>)
      modifies this
      ensures state == Next(old(state), Call.FinishConfiguration)
      ensures r == if Succeeds(old(state), Call.FinishConfiguration) then Ok(old(state).profile)
                   else Err(old(Unexpected(FinishPacket)))
    {
      var expected := Expect(FinishPacket);
      if expected.Err? {
        return Err(expected.error);
      }
      var previous := state;
      state := Play;
      match previous {
        case Configuration(_, profile) =>
          r := Ok(profile);
        case _ =>
          assert false;
      }
    }
  }

  // ---------------------------------------------------------------- whole runs

  /** The state after a sequence of calls, failing ones included. */
  function Run<P>(calls: seq<Call<P>>): State<P> {
    if calls == [] then Handshake
    else Next(Run(calls[..|calls| - 1]), calls[|calls| - 1])
  }

  /** The calls of the sequence that succeeded. */
  function Successes<P>(calls: seq<Call<P>>): seq<Call<P>> {
    if calls == [] then []
    else
      var last := calls[|calls| - 1];
      var before := calls[..|calls| - 1];
      Successes(before) + if Succeeds(Run(before), last) then [last] else []
  }

  /** The two ways through login: offline, or with key exchange and authentication. */
  function OfflineLogin<P>(profile: P): seq<Call<P>> {
    [SelectProtocol(LoginProtocol), CompleteLogin(profile)]
  }

  function OnlineLogin<P>(username: string, profile: P): seq<Call<P>> {
    [SelectProtocol(LoginProtocol), WaitForKey(username), BeginAuthentication, CompleteLogin(profile)]
  }

  ghost predicate LoggedIn<P(!new)>(successes: seq<Call<P>>, profile: P) {
    || successes == OfflineLogin(profile)
    || exists username :: successes == OnlineLogin(username, profile)
  }

  ghost predicate SomeoneLoggedIn<P(!new)>(successes: seq<Call<P>>) {
    exists profile :: LoggedIn(successes, profile)
  }

  /** Exactly which successful calls lead to a state. */
  ghost predicate Leads<P(!new)>(successes: seq<Call<P>>, s: State<P>) {
    match s
    case Handshake => successes == []
    case Status => successes == [SelectProtocol(StatusProtocol)]
    case Login(Hello) => successes == [SelectProtocol(LoginProtocol)]
    case Login(Key(u)) => successes == [SelectProtocol(LoginProtocol), WaitForKey(u)]
    case Login(Authenticating) =>
      exists u :: successes == [SelectProtocol(LoginProtocol), WaitForKey(u), BeginAuthentication]
    case Login(ProtocolSwitching(p)) => LoggedIn(successes, p)
    case Configuration(SynchronizeRegistries, p) =>
      && |successes| > 0 && successes[|successes| - 1] == AcknowledgeLogin
      && LoggedIn(successes[..|successes| - 1], p)
    case Configuration(JoinWorld, p) =>
      && |successes| > 1 && successes[|successes| - 2..] == [AcknowledgeLogin, SelectKnownPacks]
      && LoggedIn(successes[..|successes| - 2], p)
    case Play =>
      && |successes| > 2
      && successes[|successes| - 3..] == [AcknowledgeLogin, SelectKnownPacks, FinishConfiguration]
      && SomeoneLoggedIn(successes[..|successes| - 3])
  }

  lemma LeadsStep<P(!new)>(successes: seq<Call<P>>, s: State<P>, call: Call<P>)
    requires Leads(successes, s) && Succeeds(s, call)
    ensures Leads(successes + [call], After(s, call))
  {
    match call {
      case CompleteLogin(profile) =>
        CompletionLeads(successes, s, profile);
      case BeginAuthentication =>
        assert successes + [call]
            == [SelectProtocol(LoginProtocol), WaitForKey(s.login.username), BeginAuthentication];
      case AcknowledgeLogin =>
        assert (successes + [call])[..|successes|] == successes;
      case SelectKnownPacks =>
        KnownPacksLead(successes, s);
      case FinishConfiguration =>
        FinishLeads(successes, s);
      case _ =>
    }
  }

  lemma CompletionLeads<P(!new)>(successes: seq<Call<P>>, s: State<P>, profile: P)
    requires Leads(successes, s) && Succeeds(s, CompleteLogin(profile))
    ensures LoggedIn(successes + [CompleteLogin(profile)], profile)
  {
    if s.login.Authenticating? {
      var u :| successes == [SelectProtocol(LoginProtocol), WaitForKey(u), BeginAuthentication];
      assert successes + [CompleteLogin(profile)] == OnlineLogin(u, profile);
    }
  }

  lemma KnownPacksLead<P(!new)>(successes: seq<Call<P>>, s: State<P>)
    requires Leads(successes, s) && Succeeds(s, SelectKnownPacks)
    ensures Leads(successes + [SelectKnownPacks], After(s, SelectKnownPacks))
  {
    var longer, n := successes + [SelectKnownPacks], |successes|;
    assert longer[..n - 1] == successes[..n - 1];
    assert longer[n - 1..] == [AcknowledgeLogin, SelectKnownPacks];
  }

  lemma FinishLeads<P(!new)>(successes: seq<Call<P>>, s: State<P>)
    requires Leads(successes, s) && Succeeds(s, FinishConfiguration)
    ensures Leads(successes + [FinishConfiguration], Play)
  {
    var longer, n := successes + [FinishConfiguration], |successes|;
    assert longer[n - 2..] == successes[n - 2..] + [FinishConfiguration];
    assert longer[..n - 2] == successes[..n - 2];
    assert LoggedIn(longer[..n - 2], s.profile);
  }

  lemma {:induction false} RunLeads<P(!new)>(calls: seq<Call<P>>)
    ensures Leads(Successes(calls), Run(calls))
  {
    if calls != [] {
      var before := calls[..|calls| - 1];
      RunLeads(before);
      if Succeeds(Run(before), calls[|calls| - 1]) {
        LeadsStep(Successes(before), Run(before), calls[|calls| - 1]);
      } else {
        assert Successes(calls) == Successes(before);
      }
    }
  }

  /** Whatever is called in whatever order, a connection plays only after login, then
      acknowledgement, known packs and finish, each successful once and in that order. */
  lemma {:induction false} PlayNeedsTheWholeSequence<P(!new)>(calls: seq<Call<P>>)
    requires Run(calls).Play?
    ensures exists login: seq<Call<P>>, profile: P {:trigger LoggedIn(login, profile)} ::
              && LoggedIn(login, profile)
              && Successes(calls) == login + [AcknowledgeLogin, SelectKnownPacks, FinishConfiguration]
  {
    RunLeads(calls);
    var done := Successes(calls);
    var n := |done| - 3;
    var profile :| LoggedIn(done[..n], profile);
    assert done == done[..n] + done[n..];
  }

  lemma {:induction false} RunSnoc<P>(calls: seq<Call<P>>, call: Call<P>)
    ensures Run(calls + [call]) == Next(Run(calls), call)
    ensures Successes(calls + [call])
         == Successes(calls) + if Succeeds(Run(calls), call) then [call] else []
  {
    assert (calls + [call])[..|calls|] == calls;
  }

  /** One more call that succeeds. */
  lemma {:induction false} SuccessSnoc<P>(calls: seq<Call<P>>, s: State<P>, call: Call<P>)
    requires Run(calls) == s && Successes(calls) == calls && Succeeds(s, call)
    ensures Run(calls + [call]) == After(s, call) && Successes(calls + [call]) == calls + [call]
  {
    RunSnoc(calls, call);
  }

  lemma {:induction false} LoginBegins<P>() returns (first: seq<Call<P>>)
    ensures first == [SelectProtocol(LoginProtocol)] && Run(first) == Login(Hello) && Successes(first) == first
  {
    first := [SelectProtocol(LoginProtocol)];
    assert first == [] + [first[0]];
    SuccessSnoc([], Handshake, first[0]);
  }

  lemma {:induction false} OfflineLoginRuns<P>(profile: P)
    ensures var login := OfflineLogin(profile);
            Run(login) == Login(ProtocolSwitching(profile)) && Successes(login) == login
  {
    var first := LoginBegins<P>();
    SuccessSnoc(first, Login(Hello), CompleteLogin(profile));
    assert first + [CompleteLogin(profile)] == OfflineLogin(profile);
  }

  lemma {:induction false} OnlineLoginRuns<P>(username: string, profile: P)
    ensures var login := OnlineLogin(username, profile);
            Run(login) == Login(ProtocolSwitching(profile)) && Successes(login) == login
  {
    var first := LoginBegins<P>();
    SuccessSnoc(first, Login(Hello), WaitForKey(username));
    var second := first + [WaitForKey(username)];
    SuccessSnoc(second, Login(Key(username)), BeginAuthentication);
    var third := second + [BeginAuthentication];
    SuccessSnoc(third, Login(Authenticating), CompleteLogin(profile));
    assert third + [CompleteLogin(profile)] == OnlineLogin(username, profile);
  }

  lemma {:induction false} LoginSequenceRuns<P(!new)>(login: seq<Call<P>>, profile: P)
    requires LoggedIn(login, profile)
    ensures Run(login) == Login(ProtocolSwitching(profile)) && Successes(login) == login
  {
    if login == OfflineLogin(profile) {
      OfflineLoginRuns(profile);
    } else {
      var username :| login == OnlineLogin(username, profile);
      OnlineLoginRuns(username, profile);
    }
  }

  /** Conversely both sequences do lead to play, with the profile they logged in. */
  lemma WholeSequencePlays<P(!new)>(login: seq<Call<P>>, profile: P)
    requires LoggedIn(login, profile)
    ensures var configured := login + [AcknowledgeLogin, SelectKnownPacks];
            && Run(configured) == Configuration(JoinWorld, profile)
            && Run(configured + [FinishConfiguration]) == Play
  {
    LoginSequenceRuns(login, profile);
    AfterLogin(login, profile);
  }

  lemma {:induction false} AfterLogin<P>(login: seq<Call<P>>, profile: P)
    requires Run(login) == Login(ProtocolSwitching(profile)) && Successes(login) == login
    ensures var configured := login + [AcknowledgeLogin, SelectKnownPacks];
            && Run(configured) == Configuration(JoinWorld, profile)
            && Run(configured + [FinishConfiguration]) == Play
  {
    SuccessSnoc(login, Login(ProtocolSwitching(profile)), AcknowledgeLogin);
    SuccessSnoc(login + [AcknowledgeLogin], Configuration(SynchronizeRegistries, profile), SelectKnownPacks);
    var configured := login + [AcknowledgeLogin, SelectKnownPacks];
    assert configured == login + [AcknowledgeLogin] + [SelectKnownPacks];
    SuccessSnoc(configured, Configuration(JoinWorld, profile), FinishConfiguration);
  }

  lemma OneCompletion<P(!new)>(login: seq<Call<P>>, profile: P)
    requires LoggedIn(login, profile)
    ensures CompleteLogin(profile) in login
    ensures forall call :: call in login && call.CompleteLogin? ==> call.profile == profile
  {
    if login == OfflineLogin(profile) {
      assert login[1] == CompleteLogin(profile);
    } else {
      var username :| login == OnlineLogin(username, profile);
      assert login[3] == CompleteLogin(profile);
    }
  }

  /** The profile handed out at the end is the one given to the only successful
      `complete_login`. */
  lemma {:induction false} FinishReturnsTheLoginProfile<P(!new)>(calls: seq<Call<P>>)
    requires Succeeds(Run(calls), FinishConfiguration)
    ensures var done := Successes(calls);
            && CompleteLogin(Run(calls).profile) in done
            && forall call :: call in done && call.CompleteLogin? ==> call.profile == Run(calls).profile
  {
    RunLeads(calls);
    var done := Successes(calls);
    var login := done[..|done| - 2];
    assert done == login + [AcknowledgeLogin, SelectKnownPacks];
    OneCompletion(login, Run(calls).profile);
  }

  function Rank<P>(s: State<P>): nat {
    match s
    case Handshake => 0
    case Status => 1
    case Login(Hello) => 1
    case Login(Key(_)) => 2
    case Login(Authenticating) => 3
    case Login(ProtocolSwitching(_)) => 4
    case Configuration(SynchronizeRegistries, _) => 5
    case Configuration(JoinWorld, _) => 6
    case Play => 7
  }

  /** Every success raises the rank. */
  lemma SuccessRaisesRank<P>(s: State<P>, call: Call<P>)
    requires Succeeds(s, call)
    ensures Rank(s) < Rank(After(s, call))
  {
  }

  /** So a run has at most seven of them. */
  lemma {:induction false} AtMostSevenSuccesses<P>(calls: seq<Call<P>>)
    ensures |Successes(calls)| <= Rank(Run(calls)) <= 7
  {
    if calls != [] {
      AtMostSevenSuccesses(calls[..|calls| - 1]);
    }
  }

  /** `expect` accepts a packet exactly when the call that handles it would succeed, at most one
      packet in each state, and never the client intention. */
  lemma ExpectMatchesCalls<P>(s: State<P>, username: string)
    ensures Expected(s, HelloPacket) <==> Succeeds(s, WaitForKey(username))
    ensures Expected(s, KeyPacket) <==> Succeeds(s, BeginAuthentication)
    ensures Expected(s, LoginAcknowledged) <==> Succeeds(s, AcknowledgeLogin)
    ensures Expected(s, KnownPacksPacket) <==> Succeeds(s, SelectKnownPacks)
    ensures Expected(s, FinishPacket) <==> Succeeds(s, FinishConfiguration)
    ensures !Expected(s, ClientIntention)
    ensures forall p, q :: Expected(s, p) && Expected(s, q) ==> p == q
  {
  }

  // ---------------------------------------------------------------- every state and every refusal

  /** Every state can be reached, so no call refuses more than it must. */
  lemma EveryStateIsReached<P(!new)>(s: State<P>, username: string, profile: P) returns (calls: seq<Call<P>>)
    ensures Run(calls) == s
  {
    match s {
      case Handshake => calls := [];
      case Status =>
        calls := [SelectProtocol(StatusProtocol)];
        RunSnoc([], calls[0]);
        assert calls == [] + [calls[0]];
      case Login(state) => calls := LoginStateIsReached(state, username);
      case Configuration(phase, p) =>
        var login := OfflineLogin(p);
        LoginSequenceRuns(login, p);
        RunSnoc(login, AcknowledgeLogin);
        calls := login + [AcknowledgeLogin];
        if phase.JoinWorld? {
          RunSnoc(calls, SelectKnownPacks);
          calls := calls + [SelectKnownPacks];
        }
      case Play =>
        var login := OfflineLogin(profile);
        WholeSequencePlays(login, profile);
        calls := login + [AcknowledgeLogin, SelectKnownPacks] + [FinishConfiguration];
    }
  }

  lemma LoginStateIsReached<P(!new)>(state: LoginState<P>, username: string) returns (calls: seq<Call<P>>)
    ensures Run(calls) == Login(state)
  {
    var first: seq<Call<P>> := [SelectProtocol(LoginProtocol)];
    assert first == [] + [first[0]];
    RunSnoc([], first[0]);
    match state {
      case Hello => calls := first;
      case Key(u) =>
        RunSnoc(first, WaitForKey(u));
        calls := first + [WaitForKey(u)];
      case Authenticating =>
        var second := first + [WaitForKey(username)];
        RunSnoc(first, WaitForKey(username));
        RunSnoc(second, BeginAuthentication);
        calls := second + [BeginAuthentication];
      case ProtocolSwitching(p) =>
        calls := OfflineLogin(p);
        LoginSequenceRuns(calls, p);
    }
  }

  /** The phase that a packet belongs to. */
  function PhaseFor(packet: ClientPacket): Phase {
    match packet
    case ClientIntention => HandshakePhase
    case HelloPacket => InLogin(HelloPhase)
    case KeyPacket => InLogin(KeyPhase)
    case LoginAcknowledged => InLogin(ProtocolSwitchingPhase)
    case KnownPacksPacket => InConfiguration(SynchronizeRegistries)
    case FinishPacket => InConfiguration(JoinWorld)
  }

  /** A refusal names the phase, and from it a caller can tell what would have been expected; the
      phases of states that expect no packet are told apart as well. */
  lemma PhasesTell<P>(s: State<P>, packet: ClientPacket)
    ensures packet != ClientIntention ==> (Expected(s, packet) <==> PhaseOf(s) == PhaseFor(packet))
    ensures PhaseOf(s) == HandshakePhase <==> s == Handshake
    ensures PhaseOf(s) == StatusPhase <==> s == Status
    ensures PhaseOf(s) == InLogin(AuthenticatingPhase) <==> s == Login(Authenticating)
    ensures PhaseOf(s) == PlayPhase <==> s == Play
  {
  }

  /** Status and play are final, and a handshake leads nowhere but to status or login. */
  lemma FinalStates<P>(s: State<P>, call: Call<P>)
    ensures s.Status? || s.Play? ==> !Succeeds(s, call)
    ensures s.Handshake? ==>
              (Succeeds(s, call) <==> call in [SelectProtocol(StatusProtocol), SelectProtocol(LoginProtocol)])
  {
  }
}
