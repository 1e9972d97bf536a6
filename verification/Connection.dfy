/** A connection before play: the outgoing task, the senders that bypass its queue, and the
    shared writer, as one state machine whose steps interleave arbitrarily.

    Owner 0 of the writer is the outgoing task; every other owner is a `send_packet_now` call.
    The select loop of that task looks at the cancellation token first, so receiving from the
    queue needs an uncancelled token. */
module Connection {
  import opened Bytes
  import opened Wrappers
  import opened StreamCipher
  import opened WriterSlot

  const TASK := 0

  datatype Outbound = Ordinary(bytes: seq<byte>) | Disconnect(bytes: seq<byte>)

  /** Where the outgoing task is. */
  datatype Phase =
    | Selecting
    | Sending(packet: seq<byte>)
    | SendingDisconnect(packet: seq<byte>)
    | Draining(last: Option<seq<byte>>)
    | SendingLast(packet: seq<byte>)
    | Releasing
    | Finished
    | Upgraded
    | Crashed

  /** `queued`, `taken`, `drained`, `ordinary` and `final` record history: every item ever
      queued, the items received in the select loop, the items received while draining, how
      many ordinary packets were written, and the disconnect packet that was written. */
  datatype State = State(
    wire: Wire,
    queue: seq<Outbound>,
    cancelled: bool,
    phase: Phase,
    queued: seq<Outbound>,
    taken: seq<Outbound>,
    drained: seq<Outbound>,
    ordinary: nat,
    final: Option<seq<byte>>)

  const INITIAL := State(FRESH, [], false, Selecting, [], [], [], 0, None)

  datatype Step =
    // the rest of the server
    | Enqueue(item: Outbound)
    | Cancel
    | SenderTakes(owner: nat, packet: seq<byte>)
    | SenderDrops
    | SenderPutsBack
    // the taken writer, whoever took it
    | OfferByte(accept: bool)
    // the outgoing task
    | TaskTakes
    | TaskRefused
    | TaskFails
    | TaskPutsBack
    | ObserveCancel
    | Receive
    | QueueClosed
    | DrainOne
    | DrainEnd
    | EnableEncryption(key: Key)
    | UpdatesClosed
    | Upgrade
    | ReleaseWriter

  function Writing(phase: Phase): Option<seq<byte>> {
    match phase
    case Sending(p) => Some(p)
    case SendingDisconnect(p) => Some(p)
    case SendingLast(p) => Some(p)
    case _ => None
  }

  predicate TaskHolds(s: State) {
    s.wire.slot.Taken? && s.wire.slot.owner == TASK
  }

  predicate SenderHolds(s: State) {
    s.wire.slot.Taken? && s.wire.slot.owner != TASK
  }

  predicate Full(w: Wire) {
    w.slot.Taken? && w.slot.sent == |w.slot.packet|
  }

  predicate Underfull(w: Wire) {
    w.slot.Taken? && w.slot.sent <= |w.slot.packet|
  }

  /** What the outgoing task does with the outcome of a packet write. */
  function AfterWrite(s: State, ok: bool): State
    requires Writing(s.phase).Some?
  {
    match s.phase
    case Sending(_) =>
      if ok then s.(phase := Selecting, ordinary := s.ordinary + 1)
      else s.(phase := Selecting, cancelled := true)
    case SendingDisconnect(p) =>
      s.(phase := Releasing, cancelled := true, final := if ok then Some(p) else s.final)
    case SendingLast(p) =>
      s.(phase := Releasing, final := if ok then Some(p) else s.final)
  }

  function ReceiveItem(s: State): State
    requires s.queue != []
  {
    var item := s.queue[0];
    s.(queue := s.queue[1..],
       taken := s.taken + [item],
       phase := match item
                case Ordinary(p) => Sending(p)
                case Disconnect(p) => SendingDisconnect(p))
  }

  function DrainItem(s: State): State
    requires s.queue != [] && s.phase.Draining?
  {
    var item := s.queue[0];
    s.(queue := s.queue[1..],
       drained := s.drained + [item],
       phase := if item.Disconnect? then Draining(Some(item.bytes)) else s.phase)
  }

  function Enable(s: State, key: Key): State
    requires !s.wire.slot.Taken?
  {
    match s.wire.slot
    case Gone => s.(cancelled := true)
    case Present(Plain) => s.(wire := SwitchOn(s.wire, key))
    case _ => s.(phase := Crashed)
  }

  /** The state after a step, or nothing when the step is not possible. */
  function Next(s: State, step: Step): Option<State> {
    match step
    case Enqueue(item) => Some(s.(queue := s.queue + [item], queued := s.queued + [item]))
    case Cancel => Some(s.(cancelled := true))
    case SenderTakes(owner, packet) =>
      if owner != TASK && s.wire.slot.Present? then Some(s.(wire := Take(s.wire, owner, packet)))
      else None
    case SenderDrops =>
      if SenderHolds(s) && Underfull(s.wire) then Some(s.(wire := Abandon(s.wire))) else None
    case SenderPutsBack =>
      if SenderHolds(s) && Full(s.wire) then Some(s.(wire := PutBack(s.wire))) else None
    case OfferByte(accept) =>
      if s.wire.slot.Taken? && s.wire.slot.sent < |s.wire.slot.packet|
      then Some(s.(wire := Offer(s.wire, if accept then Accept else NotReady)))
      else None
    case TaskTakes =>
      if Writing(s.phase).Some? && s.wire.slot.Present?
      then Some(s.(wire := Take(s.wire, TASK, Writing(s.phase).value)))
      else None
    case TaskRefused =>
      if Writing(s.phase).Some? && s.wire.slot.Gone? then Some(AfterWrite(s, false)) else None
    case TaskFails =>
      if Writing(s.phase).Some? && TaskHolds(s) && Underfull(s.wire)
      then Some(AfterWrite(s.(wire := Abandon(s.wire)), false))
      else None
    case TaskPutsBack =>
      if Writing(s.phase).Some? && TaskHolds(s) && Full(s.wire)
      then Some(AfterWrite(s.(wire := PutBack(s.wire)), true))
      else None
    case ObserveCancel =>
      if !s.cancelled then None
      else if s.phase.Selecting? then Some(s.(phase := Draining(None)))
      else if s.phase.Sending? then
        if TaskHolds(s) && Underfull(s.wire)
        then Some(s.(wire := Abandon(s.wire), phase := Draining(None)))
        else Some(s.(phase := Draining(None)))
      else None
    case Receive =>
      if s.phase.Selecting? && !s.cancelled && s.queue != [] then Some(ReceiveItem(s)) else None
    case QueueClosed =>
      if s.phase.Selecting? && !s.cancelled && s.queue == [] then Some(s.(cancelled := true)) else None
    case DrainOne =>
      if s.phase.Draining? && s.queue != [] then Some(DrainItem(s)) else None
    case DrainEnd =>
      if s.phase.Draining? && s.queue == [] then
        Some(s.(phase := match s.phase.last
                         case None => Releasing
                         case Some(p) => SendingLast(p)))
      else None
    case EnableEncryption(key) =>
      if s.phase.Selecting? && !s.wire.slot.Taken? then Some(Enable(s, key)) else None
    case UpdatesClosed =>
      if s.phase.Selecting? then Some(s.(cancelled := true)) else None
    case Upgrade =>
      if s.phase.Selecting? then Some(s.(phase := Upgraded)) else None
    case ReleaseWriter =>
      if s.phase.Releasing? && !s.wire.slot.Taken?
      then Some(s.(wire := Release(s.wire), phase := Finished))
      else None
  }

  /** `s` after all the steps, when every one of them is possible. */
  function Run(s: State, steps: seq<Step>): Option<State>
    decreases |steps|
  {
    if steps == [] then Some(s)
    else
      match Next(s, steps[0])
      case None => None
      case Some(next) => Run(next, steps[1..])
  }

  // ---------------------------------------------------------------- what the outgoing task wrote

  /** The packets of the outgoing task among those written in full. */
  function TaskLog(done: seq<Sent>): seq<seq<byte>> {
    if done == [] then []
    else
      var last := done[|done| - 1];
      TaskLog(done[..|done| - 1]) + if last.owner == TASK then [last.packet] else []
  }

  function Payloads(items: seq<Outbound>): (p: seq<seq<byte>>)
    ensures |p| == |items|
  {
    if items == [] then [] else Payloads(items[..|items| - 1]) + [items[|items| - 1].bytes]
  }

  function LastDisconnect(items: seq<Outbound>): Option<seq<byte>> {
    if items == [] then None
    else if items[|items| - 1].Disconnect? then Some(items[|items| - 1].bytes)
    else LastDisconnect(items[..|items| - 1])
  }

  predicate AllOrdinary(items: seq<Outbound>) {
    forall i :: 0 <= i < |items| ==> items[i].Ordinary?
  }

  function FinalPart(s: State): seq<seq<byte>> {
    if s.final.Some? then [s.final.value] else []
  }

  /** The disconnect packet was either the item received in the loop that ended it, or the
      last disconnect item found by draining. */
  predicate FinalFromQueue(s: State) {
    || (&& s.ordinary < |s.taken|
        && s.final.Some? && s.taken[s.ordinary] == Disconnect(s.final.value))
    || LastDisconnect(s.drained) == s.final
  }

  ghost predicate PhaseValid(s: State) {
    match s.phase
    case Selecting =>
      && s.final.None? && AllOrdinary(s.taken)
      && (!s.cancelled ==> s.ordinary == |s.taken|)
    case Sending(p) =>
      && s.final.None? && AllOrdinary(s.taken)
      && s.ordinary + 1 == |s.taken| && s.taken[s.ordinary] == Ordinary(p)
    case SendingDisconnect(p) =>
      && s.final.None?
      && s.ordinary + 1 == |s.taken| && s.taken[s.ordinary] == Disconnect(p)
    case Draining(last) =>
      s.final.None? && AllOrdinary(s.taken) && last == LastDisconnect(s.drained)
    case SendingLast(p) =>
      s.final.None? && AllOrdinary(s.taken) && LastDisconnect(s.drained) == Some(p)
    case Releasing => s.final.Some? ==> FinalFromQueue(s)
    case Finished => s.final.Some? ==> FinalFromQueue(s)
    case _ => s.final.None?
  }

  ghost predicate TaskValid(s: State) {
    && s.queued == s.taken + s.drained + s.queue
    && s.ordinary <= |s.taken| && AllOrdinary(s.taken[..s.ordinary])
    && TaskLog(s.wire.done) == Payloads(s.taken[..s.ordinary]) + FinalPart(s)
    && (TaskHolds(s) ==> Writing(s.phase) == Some(s.wire.slot.packet))
    && (s.phase.Draining? || s.phase.SendingLast? || s.phase.Releasing? || s.phase.Finished?
        || s.drained == [])
    && PhaseValid(s)
  }

  ghost predicate Inv(s: State) {
    Valid(s.wire) && TaskValid(s)
  }

  // ---------------------------------------------------------------- every step keeps the invariant

  lemma {:induction false} TaskLogAppend(done: seq<Sent>, more: Sent)
    ensures TaskLog(done + [more])
         == TaskLog(done) + if more.owner == TASK then [more.packet] else []
  {
    assert (done + [more])[..|done|] == done;
  }

  lemma PayloadsStep(items: seq<Outbound>, n: nat)
    requires n < |items|
    ensures Payloads(items[..n + 1]) == Payloads(items[..n]) + [items[n].bytes]
  {
    assert items[..n + 1][..n] == items[..n];
  }

  lemma {:induction false} LastDisconnectAppend(items: seq<Outbound>, item: Outbound)
    ensures LastDisconnect(items + [item])
         == if item.Disconnect? then Some(item.bytes) else LastDisconnect(items)
  {
    assert (items + [item])[..|items|] == items;
  }

  /** Taking the writer, offering bytes, putting it back, dropping and releasing it. */
  predicate UsesWriter(step: Step) {
    || step.SenderTakes? || step.SenderDrops? || step.SenderPutsBack? || step.OfferByte?
    || step.TaskTakes? || step.TaskFails? || step.TaskPutsBack?
  }

  lemma WriterStep(s: State, step: Step)
    requires Valid(s.wire) && Next(s, step).Some? && UsesWriter(step)
    ensures Valid(Next(s, step).value.wire)
  {
    match step {
      case SenderTakes(owner, packet) => TakeValid(s.wire, owner, packet);
      case SenderDrops => AbandonValid(s.wire);
      case SenderPutsBack => PutBackValid(s.wire);
      case OfferByte(accept) => OfferValid(s.wire, if accept then Accept else NotReady);
      case TaskTakes => TakeValid(s.wire, TASK, Writing(s.phase).value);
      case TaskFails => AbandonValid(s.wire);
      case TaskPutsBack => PutBackValid(s.wire);
    }
  }

  lemma WireStep(s: State, step: Step)
    requires Valid(s.wire) && Next(s, step).Some?
    ensures Valid(Next(s, step).value.wire)
  {
    if UsesWriter(step) {
      WriterStep(s, step);
    } else if step.ObserveCancel? {
      if s.phase.Sending? && TaskHolds(s) {
        AbandonValid(s.wire);
      }
    } else if step.EnableEncryption? {
      if s.wire.slot.Present? && s.wire.slot.mode.Plain? {
        SwitchOnValid(s.wire, step.key);
      }
    } else if step.ReleaseWriter? {
      ReleaseValid(s.wire);
    }
  }

  lemma SenderStep(s: State, step: Step)
    requires TaskValid(s) && Next(s, step).Some?
    requires step.SenderTakes? || step.SenderDrops? || step.SenderPutsBack? || step.OfferByte?
             || step.TaskTakes?
    ensures TaskValid(Next(s, step).value)
  {
    if step.SenderPutsBack? {
      TaskLogAppend(s.wire.done, Sent(s.wire.slot.owner, s.wire.slot.packet));
    }
  }

  lemma TaskPutsBackOrdinary(s: State)
    requires TaskValid(s) && s.phase.Sending? && TaskHolds(s) && Full(s.wire)
    ensures TaskValid(Next(s, TaskPutsBack).value)
  {
    TaskLogAppend(s.wire.done, Sent(s.wire.slot.owner, s.wire.slot.packet));
    PayloadsStep(s.taken, s.ordinary);
    assert s.taken[..s.ordinary + 1] == s.taken;
  }

  lemma TaskPutsBackFinal(s: State)
    requires TaskValid(s) && !s.phase.Sending? && TaskHolds(s) && Full(s.wire)
    ensures TaskValid(Next(s, TaskPutsBack).value)
  {
    TaskLogAppend(s.wire.done, Sent(s.wire.slot.owner, s.wire.slot.packet));
  }

  lemma TaskWriteFails(s: State, step: Step)
    requires TaskValid(s) && Next(s, step).Some?
    requires step.TaskRefused? || step.TaskFails?
    ensures TaskValid(Next(s, step).value)
  {
  }

  lemma TaskObservesCancel(s: State)
    requires TaskValid(s) && Next(s, ObserveCancel).Some? && (TaskHolds(s) ==> Underfull(s.wire))
    ensures TaskValid(Next(s, ObserveCancel).value)
  {
  }

  lemma ReceiveStep(s: State)
    requires TaskValid(s) && Next(s, Receive).Some?
    ensures TaskValid(ReceiveItem(s))
  {
    var item := s.queue[0];
    assert s.queued == (s.taken + [item]) + s.drained + s.queue[1..];
    assert (s.taken + [item])[..s.ordinary] == s.taken[..s.ordinary];
  }

  lemma DrainStep(s: State)
    requires TaskValid(s) && Next(s, DrainOne).Some?
    ensures TaskValid(DrainItem(s))
  {
    var item := s.queue[0];
    LastDisconnectAppend(s.drained, item);
    assert s.queued == s.taken + (s.drained + [item]) + s.queue[1..];
  }

  lemma EnqueueStep(s: State, item: Outbound)
    requires TaskValid(s)
    ensures TaskValid(s.(queue := s.queue + [item], queued := s.queued + [item]))
  {
    assert s.queued + [item] == s.taken + s.drained + (s.queue + [item]);
  }

  lemma DrainEndStep(s: State)
    requires TaskValid(s) && Next(s, DrainEnd).Some?
    ensures TaskValid(Next(s, DrainEnd).value)
  {
  }

  lemma QueueStep(s: State, step: Step)
    requires TaskValid(s) && Next(s, step).Some?
    requires step.Enqueue? || step.Receive? || step.DrainOne? || step.DrainEnd?
    ensures TaskValid(Next(s, step).value)
  {
    match step {
      case Enqueue(item) => EnqueueStep(s, item);
      case Receive => ReceiveStep(s);
      case DrainOne => DrainStep(s);
      case DrainEnd => DrainEndStep(s);
    }
  }

  lemma CancelStep(s: State, step: Step)
    requires TaskValid(s) && Next(s, step).Some?
    requires step.Cancel? || step.QueueClosed? || step.UpdatesClosed?
    ensures TaskValid(Next(s, step).value)
  {
  }

  lemma EnableStep(s: State, key: Key)
    requires TaskValid(s) && s.phase.Selecting? && !s.wire.slot.Taken?
    ensures TaskValid(Enable(s, key))
  {
  }

  lemma ControlStep(s: State, step: Step)
    requires TaskValid(s) && Next(s, step).Some?
    requires step.EnableEncryption? || step.Upgrade? || step.ReleaseWriter?
    ensures TaskValid(Next(s, step).value)
  {
    if step.EnableEncryption? {
      EnableStep(s, step.key);
    }
  }

  lemma WriteEndsStep(s: State, step: Step)
    requires TaskValid(s) && Next(s, step).Some? && (TaskHolds(s) ==> Underfull(s.wire))
    requires step.TaskPutsBack? || step.TaskRefused? || step.TaskFails?
    ensures TaskValid(Next(s, step).value)
  {
    if !step.TaskPutsBack? {
      TaskWriteFails(s, step);
    } else if s.phase.Sending? {
      TaskPutsBackOrdinary(s);
    } else {
      TaskPutsBackFinal(s);
    }
  }

  lemma TaskStep(s: State, step: Step)
    requires TaskValid(s) && Next(s, step).Some? && (TaskHolds(s) ==> Underfull(s.wire))
    ensures TaskValid(Next(s, step).value)
  {
    if step.TaskPutsBack? || step.TaskRefused? || step.TaskFails? {
      WriteEndsStep(s, step);
    } else if step.ObserveCancel? {
      TaskObservesCancel(s);
    } else if step.Enqueue? || step.Receive? || step.DrainOne? || step.DrainEnd? {
      QueueStep(s, step);
    } else if step.SenderTakes? || step.SenderDrops? || step.SenderPutsBack? || step.OfferByte?
              || step.TaskTakes? {
      SenderStep(s, step);
    } else if step.Cancel? || step.QueueClosed? || step.UpdatesClosed? {
      CancelStep(s, step);
    } else {
      ControlStep(s, step);
    }
  }

  lemma StepInv(s: State, step: Step)
    requires Inv(s) && Next(s, step).Some?
    ensures Inv(Next(s, step).value)
  {
    WireStep(s, step);
    TaskStep(s, step);
  }

  /** Every run, whatever it interleaves, stays within the invariant. */
  lemma {:induction false} RunInv(s: State, steps: seq<Step>)
    requires Inv(s) && Run(s, steps).Some?
    ensures Inv(Run(s, steps).value)
    decreases |steps|
  {
    if steps != [] {
      StepInv(s, steps[0]);
      RunInv(Next(s, steps[0]).value, steps[1..]);
    }
  }

  // ---------------------------------------------------------------- who asked for which packet

  /** The packet a step hands to the writer, if any. */
  function HandedBy(s: State, step: Step): seq<Sent> {
    match step
    case SenderTakes(owner, packet) => [Sent(owner, packet)]
    case TaskTakes => if Writing(s.phase).Some? then [Sent(TASK, Writing(s.phase).value)] else []
    case _ => []
  }

  /** The packets that the steps of a run hand to the writer, in order. */
  function Handed(s: State, steps: seq<Step>): seq<Sent>
    requires Run(s, steps).Some?
    decreases |steps|
  {
    if steps == [] then []
    else HandedBy(s, steps[0]) + Handed(Next(s, steps[0]).value, steps[1..])
  }

  lemma StepHands(s: State, step: Step)
    requires Next(s, step).Some?
    ensures Next(s, step).value.wire.takes == s.wire.takes + HandedBy(s, step)
  {
  }

  /** The writer was taken for exactly the packets that the steps handed over. */
  lemma {:induction false} TakesAreHanded(s: State, steps: seq<Step>)
    requires Run(s, steps).Some?
    ensures Run(s, steps).value.wire.takes == s.wire.takes + Handed(s, steps)
    decreases |steps|
  {
    if steps != [] {
      StepHands(s, steps[0]);
      TakesAreHanded(Next(s, steps[0]).value, steps[1..]);
    }
  }

  /** The entries of the senders other than the outgoing task. */
  function SenderPart(sent: seq<Sent>): seq<Sent> {
    if sent == [] then []
    else (if sent[0].owner != TASK then [sent[0]] else []) + SenderPart(sent[1..])
  }

  /** What `send_packet_now` was called with, in the order in which the calls got the writer. */
  function SenderRequests(steps: seq<Step>): seq<Sent> {
    if steps == [] then []
    else
      (if steps[0].SenderTakes? then [Sent(steps[0].owner, steps[0].packet)] else []) + SenderRequests(steps[1..])
  }

  lemma {:induction false} SenderPartCons(sent: seq<Sent>, first: Sent)
    ensures SenderPart([first] + sent) == (if first.owner != TASK then [first] else []) + SenderPart(sent)
  {
    assert ([first] + sent)[1..] == sent;
  }

  /** Every entry of another sender stems from its own step, one for one and in order. */
  lemma {:induction false} SendersHandTheirPackets(s: State, steps: seq<Step>)
    requires Run(s, steps).Some?
    ensures SenderPart(Handed(s, steps)) == SenderRequests(steps)
    decreases |steps|
  {
    if steps != [] {
      var rest := Handed(Next(s, steps[0]).value, steps[1..]);
      SendersHandTheirPackets(Next(s, steps[0]).value, steps[1..]);
      if HandedBy(s, steps[0]) == [] {
        assert [] + rest == rest;
      } else {
        SenderPartCons(rest, HandedBy(s, steps[0])[0]);
      }
    }
  }

  // ---------------------------------------------------------------- where the packets come from

  /** Every packet given to a sender or put into the queue by the steps satisfies `p`. */
  ghost predicate AllRequests(steps: seq<Step>, p: seq<byte> -> bool) {
    forall i :: 0 <= i < |steps| ==> Requests(steps[i], p)
  }

  predicate Requests(step: Step, p: seq<byte> -> bool) {
    (step.SenderTakes? ==> p(step.packet)) && (step.Enqueue? ==> p(step.item.bytes))
  }

  ghost predicate AllQueued(items: seq<Outbound>, p: seq<byte> -> bool) {
    forall i :: 0 <= i < |items| ==> p(items[i].bytes)
  }

  ghost predicate AllSent(sent: seq<Sent>, p: seq<byte> -> bool) {
    forall i :: 0 <= i < |sent| ==> p(sent[i].packet)
  }

  lemma WritingIsQueued(s: State, p: seq<byte> -> bool)
    requires TaskValid(s) && Writing(s.phase).Some? && AllQueued(s.queued, p)
    ensures p(Writing(s.phase).value)
  {
    if s.phase.SendingLast? {
      LastDisconnectListed(s.drained);
      var i :| 0 <= i < |s.drained| && s.drained[i] == Disconnect(s.phase.packet);
      assert s.queued[|s.taken| + i] == s.drained[i];
    } else {
      assert s.queued[s.ordinary] == s.taken[s.ordinary];
    }
  }

  lemma QueueGrows(s: State, step: Step, p: seq<byte> -> bool)
    requires Next(s, step).Some? && AllQueued(s.queued, p) && Requests(step, p)
    ensures AllQueued(Next(s, step).value.queued, p)
  {
  }

  lemma HandsRequested(s: State, step: Step, p: seq<byte> -> bool)
    requires Inv(s) && Next(s, step).Some? && AllQueued(s.queued, p) && Requests(step, p)
    ensures AllSent(HandedBy(s, step), p)
  {
    if step.TaskTakes? {
      WritingIsQueued(s, p);
    }
  }

  /** Whatever holds of all packets that were asked for holds of all packets handed to the writer. */
  lemma {:induction false} HandedWereRequested(s: State, steps: seq<Step>, p: seq<byte> -> bool)
    requires Inv(s) && Run(s, steps).Some? && AllQueued(s.queued, p) && AllRequests(steps, p)
    ensures AllSent(Handed(s, steps), p)
    decreases |steps|
  {
    if steps != [] {
      assert Requests(steps[0], p);
      HandsRequested(s, steps[0], p);
      StepInv(s, steps[0]);
      QueueGrows(s, steps[0], p);
      HandedWereRequested(Next(s, steps[0]).value, steps[1..], p);
    }
  }

  /** The packet of a write that was not completed: that of the queued item after the ordinary
      packets written so far, or the last disconnect packet found by draining. */
  predicate Attempted(s: State, packet: seq<byte>) {
    || (s.ordinary < |s.taken| && s.taken[s.ordinary].bytes == packet)
    || (&& LastDisconnect(s.drained) == Some(packet)
        && (s.phase.SendingLast? || s.phase.Releasing? || s.phase.Finished?))
  }

  ghost predicate AttemptValid(s: State) {
    var w := s.wire;
    |w.done| < |w.takes| && w.takes[|w.done|].owner == TASK ==>
      s.final.None? && Attempted(s, w.takes[|w.done|].packet)
  }

  lemma WritingAttempts(s: State)
    requires PhaseValid(s) && Writing(s.phase).Some?
    ensures s.final.None? && Attempted(s, Writing(s.phase).value)
  {
  }

  lemma TakeAttempts(s: State)
    requires TakesValid(s.wire) && PhaseValid(s) && Next(s, TaskTakes).Some?
    ensures AttemptValid(Next(s, TaskTakes).value)
  {
    WritingAttempts(s);
    assert s.wire.takes == s.wire.done;
  }

  /** After these steps every packet taken is done, or the one in progress is another sender's. */
  lemma WireAttempts(s: State, step: Step)
    requires TakesValid(s.wire) && Next(s, step).Some?
    requires step.SenderTakes? || step.SenderPutsBack? || step.TaskPutsBack?
    ensures AttemptValid(Next(s, step).value)
  {
  }

  predicate LeavesLists(step: Step) {
    !(step.SenderTakes? || step.SenderPutsBack? || step.TaskPutsBack? || step.TaskTakes?)
  }

  lemma ListsStay(s: State, step: Step)
    requires Next(s, step).Some? && LeavesLists(step)
    ensures var t := Next(s, step).value;
            t.wire.takes == s.wire.takes && t.wire.done == s.wire.done && t.final == s.final
  {
  }

  lemma AttemptStays(s: State, step: Step, packet: seq<byte>)
    requires Next(s, step).Some? && LeavesLists(step) && Attempted(s, packet)
    ensures Attempted(Next(s, step).value, packet)
  {
  }

  lemma OtherAttempts(s: State, step: Step)
    requires TakesValid(s.wire) && AttemptValid(s) && Next(s, step).Some? && !step.TaskTakes?
    ensures AttemptValid(Next(s, step).value)
  {
    if LeavesLists(step) {
      ListsStay(s, step);
      var w := s.wire;
      if |w.done| < |w.takes| && w.takes[|w.done|].owner == TASK {
        AttemptStays(s, step, w.takes[|w.done|].packet);
      }
    } else {
      WireAttempts(s, step);
    }
  }

  lemma {:induction false} RunAttempts(s: State, steps: seq<Step>)
    requires Inv(s) && AttemptValid(s) && Run(s, steps).Some?
    ensures AttemptValid(Run(s, steps).value)
    decreases |steps|
  {
    if steps != [] {
      StepInv(s, steps[0]);
      if steps[0].TaskTakes? {
        TakeAttempts(s);
      } else {
        OtherAttempts(s, steps[0]);
      }
      RunAttempts(Next(s, steps[0]).value, steps[1..]);
    }
  }

  // ---------------------------------------------------------------- results about whole runs

  /** The writer was taken for the packets written in full and at most one more, of which the
      trailing bytes are a prefix. */
  ghost predicate WholePackets(w: Wire) {
    || (w.takes == w.done && Partial(w) == [])
    || (exists last :: w.takes == w.done + [last] && Partial(w) <= last.packet)
  }

  lemma ValidWholePackets(w: Wire)
    requires Valid(w)
    ensures WholePackets(w)
  {
    if w.slot.Taken? {
      var last := Sent(w.slot.owner, w.slot.packet);
      assert w.takes == w.done + [last] && Partial(w) <= last.packet;
    }
  }

  /** After any run, with any failures and cancellations, the plaintext is a sequence of whole
      packets followed by at most one prefix of a packet; these packets are, in order, the ones
      that the steps of the run handed to the writer. Encryption was switched on between two whole
      packets, and the inner writer got the clear part followed by the encryption of the rest. */
  lemma {:induction false} WireIsWholePackets(steps: seq<Step>)
    requires Run(INITIAL, steps).Some?
    ensures var w := Run(INITIAL, steps).value.wire;
            && w.clear + w.secret == Concat(w.done) + Partial(w)
            && WholePackets(w)
            && w.takes == Handed(INITIAL, steps)
            && match w.switched
               case None => w.accepted == Concat(w.done) + Partial(w)
               case Some((key, at)) =>
                 && at <= |w.done|
                 && w.clear == Concat(w.done[..at])
                 && w.accepted == w.clear + Cfb8.Encrypt(key.block, key.iv, w.secret)
  {
    FreshValid();
    RunInv(INITIAL, steps);
    TakesAreHanded(INITIAL, steps);
    var w := Run(INITIAL, steps).value.wire;
    ValidWholePackets(w);
    assert w.clear + [] == w.clear;
  }

  /** The packet is the next queued item, or the last disconnect packet found by draining. */
  ghost predicate FromQueue(s: State, packet: seq<byte>) {
    || (s.ordinary < |s.queued| && s.queued[s.ordinary].bytes == packet)
    || (LastDisconnect(s.drained) == Some(packet) && Disconnect(packet) in s.queued)
  }

  /** A write of the outgoing task that was begun and not completed was for the next queued item
      after the ordinary packets it wrote, or for the last disconnect packet found by draining, and
      then it has written no disconnect packet. */
  lemma {:induction false} TaskHandsQueuedPackets(steps: seq<Step>)
    requires Run(INITIAL, steps).Some?
    ensures var s := Run(INITIAL, steps).value;
            var w := s.wire;
            |w.done| < |w.takes| && w.takes[|w.done|].owner == TASK ==>
              s.final.None? && FromQueue(s, w.takes[|w.done|].packet)
  {
    FreshValid();
    RunInv(INITIAL, steps);
    RunAttempts(INITIAL, steps);
    var s := Run(INITIAL, steps).value;
    var w := s.wire;
    if |w.done| < |w.takes| && w.takes[|w.done|].owner == TASK {
      AttemptIsQueued(s, w.takes[|w.done|].packet);
    }
  }

  lemma {:induction false} LastDisconnectListed(items: seq<Outbound>)
    requires LastDisconnect(items).Some?
    ensures Disconnect(LastDisconnect(items).value) in items
  {
    if !items[|items| - 1].Disconnect? {
      LastDisconnectListed(items[..|items| - 1]);
    }
  }

  lemma AttemptIsQueued(s: State, packet: seq<byte>)
    requires TaskValid(s) && Attempted(s, packet)
    ensures FromQueue(s, packet)
  {
    if s.ordinary < |s.taken| && s.taken[s.ordinary].bytes == packet {
      assert s.queued[s.ordinary] == s.taken[s.ordinary];
    } else {
      LastDisconnectListed(s.drained);
      assert Disconnect(packet) in s.taken + s.drained + s.queue;
    }
  }

  /** Once a writer is dropped nobody writes another byte. */
  lemma {:induction false} GoneIsForever(s: State, steps: seq<Step>)
    requires s.wire.slot.Gone? && Run(s, steps).Some?
    ensures Run(s, steps).value.wire == s.wire
    decreases |steps|
  {
    if steps != [] {
      GoneIsForever(Next(s, steps[0]).value, steps[1..]);
    }
  }

  ghost predicate Extends(before: Wire, after: Wire) {
    && before.accepted <= after.accepted && before.done <= after.done
    && (before.switched.Some? ==> after.switched == before.switched)
  }

  lemma OfferExtends(w: Wire, answer: Answer)
    requires w.slot.Taken? && w.slot.sent < |w.slot.packet| && (answer.Accept? || answer.NotReady?)
    ensures Extends(w, Offer(w, answer))
  {
  }

  lemma SlotExtends(s: State, step: Step)
    requires Next(s, step).Some? && !step.OfferByte? && !step.EnableEncryption?
    ensures Extends(s.wire, Next(s, step).value.wire)
  {
  }

  lemma StepExtends(s: State, step: Step)
    requires Next(s, step).Some? && SlotInStep(s.wire)
    ensures Extends(s.wire, Next(s, step).value.wire)
  {
    if step.OfferByte? {
      OfferExtends(s.wire, if step.accept then Accept else NotReady);
    } else if !step.EnableEncryption? {
      SlotExtends(s, step);
    }
  }

  /** Nothing that was written is ever taken back, and the key is set at most once. */
  lemma {:induction false} HistoryGrows(s: State, steps: seq<Step>)
    requires Run(s, steps).Some? && Inv(s)
    ensures Extends(s.wire, Run(s, steps).value.wire)
    decreases |steps|
  {
    if steps != [] {
      StepInv(s, steps[0]);
      StepExtends(s, steps[0]);
      HistoryGrows(Next(s, steps[0]).value, steps[1..]);
    }
  }

  lemma TakenPrefixOfQueued(s: State)
    requires TaskValid(s)
    ensures s.ordinary <= |s.queued| && s.taken[..s.ordinary] == s.queued[..s.ordinary]
  {
    assert s.queued == s.taken + (s.drained + s.queue);
  }

  /** The outgoing task writes the queued items in order, all of them ordinary packets, and
      then at most one disconnect packet. */
  lemma {:induction false} TaskWritesQueueInOrder(steps: seq<Step>)
    requires Run(INITIAL, steps).Some?
    ensures var s := Run(INITIAL, steps).value;
            && s.ordinary <= |s.queued|
            && AllOrdinary(s.queued[..s.ordinary])
            && TaskLog(s.wire.done) == Payloads(s.queued[..s.ordinary]) + FinalPart(s)
            && (s.final.Some? ==> s.phase.Releasing? || s.phase.Finished?)
            && (s.final.Some? ==> FinalFromQueue(s))
  {
    FreshValid();
    RunInv(INITIAL, steps);
    TakenPrefixOfQueued(Run(INITIAL, steps).value);
  }

  lemma DisconnectStep(s: State, step: Step)
    requires TaskValid(s) && s.final.Some? && Next(s, step).Some?
    ensures var t := Next(s, step).value;
            t.final == s.final && TaskLog(t.wire.done) == TaskLog(s.wire.done)
  {
    assert Writing(s.phase).None?;
    if LeavesLists(step) {
      ListsStay(s, step);
    } else if step.SenderPutsBack? {
      TaskLogAppend(s.wire.done, Sent(s.wire.slot.owner, s.wire.slot.packet));
    }
  }

  /** A written disconnect packet is the last packet of the outgoing task. */
  lemma {:induction false} NothingAfterDisconnect(s: State, steps: seq<Step>)
    requires Inv(s) && s.final.Some? && Run(s, steps).Some?
    ensures var t := Run(s, steps).value;
            t.final == s.final && TaskLog(t.wire.done) == TaskLog(s.wire.done)
    decreases |steps|
  {
    if steps != [] {
      StepInv(s, steps[0]);
      DisconnectStep(s, steps[0]);
      NothingAfterDisconnect(Next(s, steps[0]).value, steps[1..]);
    }
  }

  // ---------------------------------------------------------------- which disconnect packet is written

  lemma {:induction false} LastDisconnectJoin(a: seq<Outbound>, b: seq<Outbound>)
    ensures LastDisconnect(a + b) == if LastDisconnect(b).Some? then LastDisconnect(b) else LastDisconnect(a)
    decreases |b|
  {
    if b == [] {
      assert a + b == a;
    } else {
      var n := |b| - 1;
      assert (a + b)[..|a| + n] == a + b[..n];
      LastDisconnectJoin(a, b[..n]);
    }
  }

  lemma {:induction false} NoDisconnect(items: seq<Outbound>)
    requires AllOrdinary(items)
    ensures LastDisconnect(items).None?
    decreases |items|
  {
    if items != [] {
      NoDisconnect(items[..|items| - 1]);
    }
  }

  /** Draining ends with the last disconnect packet of everything queued by then. */
  lemma {:induction false} DrainFindsLastQueued(steps: seq<Step>)
    requires Run(INITIAL, steps).Some?
    requires Next(Run(INITIAL, steps).value, DrainEnd).Some?
    ensures var s := Run(INITIAL, steps).value;
            s.phase.last == LastDisconnect(s.queued)
  {
    FreshValid();
    RunInv(INITIAL, steps);
    var s := Run(INITIAL, steps).value;
    assert s.queued == s.taken + s.drained;
    LastDisconnectJoin(s.taken, s.drained);
    NoDisconnect(s.taken);
  }

  /** The disconnect packet that the outgoing task is about to write or has written. */
  function Chosen(s: State): Option<seq<byte>> {
    match s.phase
    case SendingDisconnect(p) => Some(p)
    case SendingLast(p) => Some(p)
    case _ => s.final
  }

  /** The choice is the last disconnect packet among the items that the outgoing task received. */
  ghost predicate ChoiceValid(s: State) {
    Chosen(s).Some? ==> LastDisconnect(s.taken + s.drained) == Chosen(s)
  }

  lemma ChoiceWhileSending(s: State)
    requires TaskValid(s) && (s.phase.SendingDisconnect? || s.phase.SendingLast?)
    ensures ChoiceValid(s)
  {
    LastDisconnectJoin(s.taken, s.drained);
  }

  /** Once the packet is written nothing more is received. */
  lemma FinalWasChosen(s: State, step: Step)
    requires Next(s, step).Some? && Next(s, step).value.final.Some?
    requires s.final.Some? ==> s.phase.Releasing? || s.phase.Finished?
    ensures var t := Next(s, step).value;
            t.taken == s.taken && t.drained == s.drained && t.final == Chosen(s)
  {
  }

  lemma ChoiceStep(s: State, step: Step)
    requires Inv(s) && ChoiceValid(s) && Next(s, step).Some?
    ensures ChoiceValid(Next(s, step).value)
  {
    var t := Next(s, step).value;
    if t.phase.SendingDisconnect? || t.phase.SendingLast? {
      StepInv(s, step);
      ChoiceWhileSending(t);
    } else if t.final.Some? {
      FinalWasChosen(s, step);
    }
  }

  lemma {:induction false} RunChoice(s: State, steps: seq<Step>)
    requires Inv(s) && ChoiceValid(s) && Run(s, steps).Some?
    ensures ChoiceValid(Run(s, steps).value)
    decreases |steps|
  {
    if steps != [] {
      StepInv(s, steps[0]);
      ChoiceStep(s, steps[0]);
      RunChoice(Next(s, steps[0]).value, steps[1..]);
    }
  }

  /** In every run, cancelled or not: the disconnect packet that the outgoing task is about to write
      or has written is the last one queued exactly when no other one waits in the queue behind the
      items it received. */
  lemma {:induction false} WritesLastQueuedIff(steps: seq<Step>)
    requires Run(INITIAL, steps).Some? && Chosen(Run(INITIAL, steps).value).Some?
    ensures var s := Run(INITIAL, steps).value;
            LastDisconnect(s.queued) == Chosen(s) <==>
              LastDisconnect(s.queue).None? || LastDisconnect(s.queue) == Chosen(s)
  {
    FreshValid();
    RunInv(INITIAL, steps);
    RunChoice(INITIAL, steps);
    var s := Run(INITIAL, steps).value;
    LastDisconnectJoin(s.taken + s.drained, s.queue);
  }

  lemma {:induction false} RunStep(s: State, steps: seq<Step>)
    requires steps != [] && Next(s, steps[0]).Some?
    ensures Run(s, steps) == Run(Next(s, steps[0]).value, steps[1..])
  {
  }

  lemma {:induction false} RunAppend(s: State, a: seq<Step>, b: seq<Step>)
    requires Run(s, a).Some?
    ensures Run(s, a + b) == Run(Run(s, a).value, b)
    decreases |a|
  {
    if a == [] {
      assert a + b == b;
    } else {
      assert (a + b)[1..] == a[1..] + b;
      RunAppend(Next(s, a[0]).value, a[1..], b);
    }
  }

  /** The inner writer accepts `n` bytes. */
  function Accepting(n: nat): seq<Step> {
    if n == 0 then [] else [OfferByte(true)] + Accepting(n - 1)
  }

  /** The sender holds the writer for the packet, of which `sent` bytes are written. */
  predicate Holds(w: Wire, owner: nat, packet: seq<byte>, sent: nat) {
    w.slot.Taken? && w.slot.owner == owner && w.slot.packet == packet && w.slot.sent == sent
  }

  lemma AcceptStep(s: State, owner: nat, packet: seq<byte>, sent: nat)
    requires Holds(s.wire, owner, packet, sent) && sent < |packet|
    ensures Next(s, OfferByte(true)) == Some(s.(wire := Offer(s.wire, Accept)))
    ensures Holds(Offer(s.wire, Accept), owner, packet, sent + 1) && Offer(s.wire, Accept).done == s.wire.done
  {
  }

  lemma {:induction false} AcceptingRuns(s: State, owner: nat, packet: seq<byte>, sent: nat) returns (w: Wire)
    requires Holds(s.wire, owner, packet, sent) && sent <= |packet|
    ensures Run(s, Accepting(|packet| - sent)) == Some(s.(wire := w)) && Holds(w, owner, packet, |packet|)
    ensures w.done == s.wire.done
    decreases |packet| - sent
  {
    var steps := Accepting(|packet| - sent);
    if sent == |packet| {
      w := s.wire;
    } else {
      AcceptStep(s, owner, packet, sent);
      w := AcceptingRuns(s.(wire := Offer(s.wire, Accept)), owner, packet, sent + 1);
      assert steps[1..] == Accepting(|packet| - (sent + 1));
      RunStep(s, steps);
    }
  }

  /** The outgoing task writes its packet undisturbed. */
  function WritingSteps(p: seq<byte>): seq<Step> {
    [TaskTakes] + (Accepting(|p|) + [TaskPutsBack])
  }

  lemma {:induction false} PutsBackRuns(s: State, p: seq<byte>)
    requires (s.phase == SendingDisconnect(p) || s.phase == SendingLast(p)) && Holds(s.wire, TASK, p, |p|)
    ensures var end := Run(s, [TaskPutsBack]);
            end.Some? && end.value.final == Some(p) && end.value.queued == s.queued
  {
    RunStep(s, [TaskPutsBack]);
  }

  lemma {:induction false} AcceptedRuns(s: State, p: seq<byte>)
    requires (s.phase == SendingDisconnect(p) || s.phase == SendingLast(p)) && Holds(s.wire, TASK, p, 0)
    ensures var end := Run(s, Accepting(|p|) + [TaskPutsBack]);
            end.Some? && end.value.final == Some(p) && end.value.queued == s.queued
  {
    var w := AcceptingRuns(s, TASK, p, 0);
    RunAppend(s, Accepting(|p|), [TaskPutsBack]);
    PutsBackRuns(s.(wire := w), p);
  }

  lemma {:induction false} WriteRuns(s: State, p: seq<byte>)
    requires s.phase == SendingDisconnect(p) || s.phase == SendingLast(p)
    requires s.wire.slot.Present?
    ensures var end := Run(s, WritingSteps(p));
            end.Some? && end.value.final == Some(p) && end.value.queued == s.queued
  {
    AcceptedRuns(s.(wire := Take(s.wire, TASK, p)), p);
    assert WritingSteps(p)[1..] == Accepting(|p|) + [TaskPutsBack];
    RunStep(s, WritingSteps(p));
  }

  /** One disconnect packet is received, another one queued, and the connection cancelled. */
  function ReceiveThenCancel(p: seq<byte>, q: seq<byte>): seq<Step> {
    [Enqueue(Disconnect(p)), Receive, Enqueue(Disconnect(q)), Cancel]
  }

  lemma ReceiveThenCancelRuns(p: seq<byte>, q: seq<byte>) returns (s: State)
    ensures Run(INITIAL, ReceiveThenCancel(p, q)) == Some(s) && s.cancelled && s.phase == SendingDisconnect(p)
    ensures s.wire == FRESH && s.queued == [Disconnect(p), Disconnect(q)]
  {
    var steps := ReceiveThenCancel(p, q);
    var s1 := Next(INITIAL, steps[0]).value;
    assert s1.queue == [Disconnect(p)];
    var s2 := ReceiveItem(s1);
    var s3 := Next(s2, steps[2]).value;
    s := s3.(cancelled := true);
    RunStep(INITIAL, steps);
    RunStep(s1, steps[1..]);
    RunStep(s2, steps[1..][1..]);
    RunStep(s3, steps[1..][1..][1..]);
  }

  /** A disconnect packet that was received before the cancellation is written after it, although
      another one is queued by then: nothing was accepted before, and the older packet is written in
      full afterwards. */
  lemma ReceivedIsWrittenAfterCancel(p: seq<byte>, q: seq<byte>)
    requires p != q
    ensures var cancelled := Run(INITIAL, ReceiveThenCancel(p, q));
            var end := Run(INITIAL, ReceiveThenCancel(p, q) + WritingSteps(p));
            && cancelled.Some? && cancelled.value.cancelled && cancelled.value.wire.accepted == []
            && end.Some? && end.value.final == Some(p) && LastDisconnect(end.value.queued) == Some(q)
  {
    var s := ReceiveThenCancelRuns(p, q);
    WriteRuns(s, p);
    RunAppend(INITIAL, ReceiveThenCancel(p, q), WritingSteps(p));
  }

  /** One disconnect packet is found by draining, and another one queued before it is written. */
  function DrainThenQueue(p: seq<byte>, q: seq<byte>): seq<Step> {
    [Enqueue(Disconnect(p)), Cancel, ObserveCancel, DrainOne, DrainEnd, Enqueue(Disconnect(q))]
  }

  lemma DrainThenQueueRuns(p: seq<byte>, q: seq<byte>) returns (s: State)
    ensures Run(INITIAL, DrainThenQueue(p, q)) == Some(s) && s.phase == SendingLast(p)
    ensures s.wire == FRESH && s.queued == [Disconnect(p), Disconnect(q)]
  {
    var steps := DrainThenQueue(p, q);
    var s1 := Next(INITIAL, steps[0]).value;
    assert s1.queue == [Disconnect(p)];
    var s2 := s1.(cancelled := true);
    var s3 := s2.(phase := Draining(None));
    var s4 := DrainItem(s3);
    var s5 := s4.(phase := SendingLast(p));
    s := Next(s5, steps[5]).value;
    RunStep(INITIAL, steps);
    RunStep(s1, steps[1..]);
    RunStep(s2, steps[1..][1..]);
    RunStep(s3, steps[1..][1..][1..]);
    RunStep(s4, steps[1..][1..][1..][1..]);
    RunStep(s5, steps[1..][1..][1..][1..][1..]);
  }

  /** So is one found by draining, when another one is queued between the drain and the write. */
  lemma DrainedIsWrittenBeforeNewer(p: seq<byte>, q: seq<byte>)
    requires p != q
    ensures var end := Run(INITIAL, DrainThenQueue(p, q) + WritingSteps(p));
            end.Some? && end.value.final == Some(p) && LastDisconnect(end.value.queued) == Some(q)
  {
    var s := DrainThenQueueRuns(p, q);
    WriteRuns(s, p);
    RunAppend(INITIAL, DrainThenQueue(p, q), WritingSteps(p));
  }
}
