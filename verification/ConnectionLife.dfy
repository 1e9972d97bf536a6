/** How a connection before play ends: what sets the cancellation, when the writer is gone, and that
    the outgoing task can always get there. */
module ConnectionLife {
  import opened Bytes
  import opened Wrappers
  import opened StreamCipher
  import opened WriterSlot
  import opened Connection

  // ---------------------------------------------------------------- what every run keeps

  /** The outgoing task has left its loop, other than by an upgrade. */
  predicate Ending(phase: Phase) {
    phase.Draining? || phase.SendingLast? || phase.Releasing? || phase.Finished?
  }

  /** The writer is gone once the outgoing task has finished, and the task ends only when the
      connection is cancelled. */
  ghost predicate EndValid(s: State) {
    && (s.phase.Finished? ==> s.wire.slot.Gone?)
    && (Ending(s.phase) ==> s.cancelled)
  }

  lemma WriterKeepsEnd(s: State, step: Step)
    requires EndValid(s) && Next(s, step).Some? && UsesWriter(step)
    ensures EndValid(Next(s, step).value)
  {
  }

  lemma EndStep(s: State, step: Step)
    requires EndValid(s) && Next(s, step).Some?
    ensures EndValid(Next(s, step).value)
  {
    if UsesWriter(step) {
      WriterKeepsEnd(s, step);
    }
  }

  lemma {:induction false} RunEnd(s: State, steps: seq<Step>)
    requires EndValid(s) && Run(s, steps).Some?
    ensures EndValid(Run(s, steps).value)
    decreases |steps|
  {
    if steps != [] {
      EndStep(s, steps[0]);
      RunEnd(Next(s, steps[0]).value, steps[1..]);
    }
  }

  /** Once the outgoing task has finished, the connection is cancelled and nobody writes another
      byte, whatever happens then. */
  lemma {:induction false} FinishedIsSilent(steps: seq<Step>, more: seq<Step>)
    requires Run(INITIAL, steps).Some? && Run(INITIAL, steps).value.phase.Finished?
    requires Run(Run(INITIAL, steps).value, more).Some?
    ensures var s := Run(INITIAL, steps).value;
            && s.cancelled && s.wire.slot.Gone?
            && Run(s, more).value.wire.accepted == s.wire.accepted
            && Run(s, more).value.wire.takes == s.wire.takes
  {
    RunEnd(INITIAL, steps);
    GoneIsForever(Run(INITIAL, steps).value, more);
  }

  // ---------------------------------------------------------------- what cancels

  /** A failed or refused write of the outgoing task, a closed queue, closed updates, and a key that
      comes when the writer is gone all cancel the connection. */
  lemma {:induction false} FailureCancels(steps: seq<Step>, step: Step)
    requires Run(INITIAL, steps).Some? && Next(Run(INITIAL, steps).value, step).Some?
    requires || step.TaskFails? || step.TaskRefused? || step.QueueClosed? || step.UpdatesClosed? || step.Cancel?
             || (step.EnableEncryption? && Run(INITIAL, steps).value.wire.slot.Gone?)
    ensures Next(Run(INITIAL, steps).value, step).value.cancelled
  {
    RunEnd(INITIAL, steps);
  }

  lemma CancelledStep(s: State, step: Step)
    requires s.cancelled && Next(s, step).Some?
    ensures Next(s, step).value.cancelled && !step.Receive? && !step.QueueClosed?
  {
  }

  /** A cancellation is never taken back, and a cancelled connection receives nothing more in the
      loop: what still waits in the queue is only searched for a disconnect packet. */
  lemma {:induction false} CancelledForever(s: State, steps: seq<Step>)
    requires s.cancelled && Run(s, steps).Some?
    ensures Run(s, steps).value.cancelled
    ensures forall i :: 0 <= i < |steps| ==> !steps[i].Receive? && !steps[i].QueueClosed?
    decreases |steps|
  {
    if steps != [] {
      CancelledStep(s, steps[0]);
      CancelledForever(Next(s, steps[0]).value, steps[1..]);
    }
  }

  /** The loop finds the queue closed only after it received everything that was ever queued. */
  lemma {:induction false} ClosedQueueIsEmpty(steps: seq<Step>)
    requires Run(INITIAL, steps).Some? && Next(Run(INITIAL, steps).value, QueueClosed).Some?
    ensures var s := Run(INITIAL, steps).value;
            s.queued == s.taken && s.ordinary == |s.queued| && !s.cancelled
  {
    FreshValid();
    RunInv(INITIAL, steps);
    var s := Run(INITIAL, steps).value;
    assert s.taken + s.drained + s.queue == s.taken;
  }

  // ---------------------------------------------------------------- what can happen where

  /** What the loop reacts to. A cancellation comes first; without one it receives when something is
      queued and otherwise may find the queue closed. Keys wait for the lock; updates end and
      upgrades come at any time. Outside the loop nothing of this happens. */
  lemma LoopChoices(s: State, key: Key)
    ensures Next(s, Receive).Some? <==> s.phase.Selecting? && !s.cancelled && s.queue != []
    ensures Next(s, QueueClosed).Some? <==> s.phase.Selecting? && !s.cancelled && s.queue == []
    ensures Next(s, ObserveCancel).Some? <==> (s.phase.Selecting? || s.phase.Sending?) && s.cancelled
    ensures Next(s, EnableEncryption(key)).Some? <==> s.phase.Selecting? && !s.wire.slot.Taken?
    ensures Next(s, UpdatesClosed).Some? <==> s.phase.Selecting?
    ensures Next(s, Upgrade).Some? <==> s.phase.Selecting?
  {
  }

  /** A writer is given up or put back only by the one that holds it, and taken or found missing only
      when nobody does. */
  lemma OnlyTheHolder(s: State, step: Step)
    requires Next(s, step).Some?
    ensures step.TaskFails? || step.TaskPutsBack? ==> s.wire.slot.Taken? && s.wire.slot.owner == TASK
    ensures step.SenderDrops? || step.SenderPutsBack? ==> s.wire.slot.Taken? && s.wire.slot.owner != TASK
    ensures step.TaskTakes? || step.SenderTakes? || step.TaskRefused? ==> !s.wire.slot.Taken?
    ensures step.EnableEncryption? || step.ReleaseWriter? ==> !s.wire.slot.Taken?
    ensures step.SenderTakes? ==> step.owner != TASK
  {
  }

  /** What follows a write of the outgoing task: after an ordinary packet it is back in the loop, after
      a disconnect packet it releases the writer. A failure of the first and both outcomes of a
      received disconnect packet cancel the connection. */
  lemma WriteOutcome(s: State, step: Step)
    requires Next(s, step).Some? && (step.TaskFails? || step.TaskRefused? || step.TaskPutsBack?)
    ensures var t := Next(s, step).value;
            && t.phase == (if s.phase.Sending? then Selecting else Releasing)
            && (t.cancelled <==> s.cancelled || s.phase.SendingDisconnect? || (s.phase.Sending? && !step.TaskPutsBack?))
            && (t.final.Some? <==> s.final.Some? || (step.TaskPutsBack? && !s.phase.Sending?))
            && t.ordinary == s.ordinary + (if step.TaskPutsBack? && s.phase.Sending? then 1 else 0)
            && (step.TaskFails? ==> t.wire.slot.Gone?)
  {
  }

  // ---------------------------------------------------------------- encryption

  lemma KeyMeets(s: State, key: Key)
    requires Valid(s.wire) && Next(s, EnableEncryption(key)).Some?
    ensures var t := Next(s, EnableEncryption(key)).value;
            if s.wire.slot.Gone? then t.wire == s.wire && t.phase == s.phase && t.cancelled
            else if s.wire.switched.Some? then t.wire == s.wire && t.phase.Crashed?
            else
              && t.wire.switched == Some((key, |s.wire.done|)) && t.wire.slot == Present(Cipher(key, key.iv, None))
              && t.wire.accepted == s.wire.accepted && t.phase == s.phase
  {
  }

  /** The first key switches encryption on, right after the packets written so far; a second one
      crashes the outgoing task; one that finds the writer gone changes nothing but cancels. */
  lemma {:induction false} KeySwitchesOnce(steps: seq<Step>, key: Key)
    requires Run(INITIAL, steps).Some? && Next(Run(INITIAL, steps).value, EnableEncryption(key)).Some?
    ensures var s := Run(INITIAL, steps).value;
            var t := Next(s, EnableEncryption(key)).value;
            if s.wire.slot.Gone? then t.wire == s.wire && t.phase == s.phase && t.cancelled
            else if s.wire.switched.Some? then t.wire == s.wire && t.phase.Crashed?
            else
              && t.wire.switched == Some((key, |s.wire.done|)) && t.wire.slot == Present(Cipher(key, key.iv, None))
              && t.wire.accepted == s.wire.accepted && t.phase == s.phase
  {
    FreshValid();
    RunInv(INITIAL, steps);
    KeyMeets(Run(INITIAL, steps).value, key);
  }

  // ---------------------------------------------------------------- upgrading

  lemma UpgradedStep(s: State, step: Step)
    requires s.phase.Upgraded? && Next(s, step).Some? && !TaskHolds(s)
    ensures var t := Next(s, step).value;
            && t.phase.Upgraded? && !TaskHolds(t) && t.taken == s.taken && t.drained == s.drained
            && s.queue <= t.queue && TaskLog(t.wire.done) == TaskLog(s.wire.done)
  {
    if step.SenderPutsBack? {
      TaskLogAppend(s.wire.done, Sent(s.wire.slot.owner, s.wire.slot.packet));
    }
  }

  lemma {:induction false} UpgradedRun(s: State, steps: seq<Step>)
    requires s.phase.Upgraded? && !TaskHolds(s) && Run(s, steps).Some?
    ensures var t := Run(s, steps).value;
            && t.phase.Upgraded? && t.taken == s.taken && t.drained == s.drained
            && s.queue <= t.queue && TaskLog(t.wire.done) == TaskLog(s.wire.done)
    decreases |steps|
  {
    if steps != [] {
      UpgradedStep(s, steps[0]);
      UpgradedRun(Next(s, steps[0]).value, steps[1..]);
    }
  }

  /** After an upgrade this task takes no packet and writes none: everything that waits in the queue,
      and everything queued later, is left for the sender that takes over, and so is the writer. */
  lemma {:induction false} UpgradeHandsOver(steps: seq<Step>, more: seq<Step>)
    requires Run(INITIAL, steps).Some? && Next(Run(INITIAL, steps).value, Upgrade).Some?
    requires Run(Next(Run(INITIAL, steps).value, Upgrade).value, more).Some?
    ensures var s := Run(INITIAL, steps).value;
            var t := Run(Next(s, Upgrade).value, more).value;
            && t.phase.Upgraded? && Next(s, Upgrade).value.wire == s.wire
            && t.taken == s.taken && t.drained == s.drained && s.queue <= t.queue
            && TaskLog(t.wire.done) == TaskLog(s.wire.done)
  {
    FreshValid();
    RunInv(INITIAL, steps);
    UpgradedRun(Next(Run(INITIAL, steps).value, Upgrade).value, more);
  }

  // ---------------------------------------------------------------- packets can be written

  /** A packet queued on an idle connection can be received and written in full, and the outgoing
      task is then where it was. */
  lemma {:induction false} QueuedCanBeWritten(steps: seq<Step>, p: seq<byte>)
    requires Run(INITIAL, steps).Some?
    requires var s := Run(INITIAL, steps).value;
             s.phase.Selecting? && !s.cancelled && s.queue == [] && s.wire.slot.Present?
    ensures var s := Run(INITIAL, steps).value;
            var end := Run(s, [Enqueue(Ordinary(p)), Receive] + WritingSteps(p));
            && end.Some? && end.value.phase.Selecting? && !end.value.cancelled && end.value.queue == []
            && end.value.wire.slot.Present? && end.value.wire.done == s.wire.done + [Sent(TASK, p)]
  {
    var s := Run(INITIAL, steps).value;
    var first := [Enqueue(Ordinary(p)), Receive];
    var s1 := Next(s, first[0]).value;
    assert s1.queue == [Ordinary(p)];
    var s2 := ReceiveItem(s1);
    RunStep(s, first);
    RunStep(s1, first[1..]);
    assert first[1..][1..] == [];
    RunAppend(s, first, WritingSteps(p));
    OrdinaryWriteRuns(s2, p);
  }

  lemma {:induction false} OrdinaryPutsBack(s: State, p: seq<byte>)
    requires s.phase == Sending(p) && Holds(s.wire, TASK, p, |p|)
    ensures var end := Run(s, [TaskPutsBack]);
            && end.Some? && end.value.phase.Selecting? && end.value.cancelled == s.cancelled
            && end.value.queue == s.queue && end.value.wire.slot.Present?
            && end.value.wire.done == s.wire.done + [Sent(TASK, p)]
  {
    RunStep(s, [TaskPutsBack]);
  }

  lemma {:induction false} OrdinaryWriteRuns(s: State, p: seq<byte>)
    requires s.phase == Sending(p) && s.wire.slot.Present?
    ensures var end := Run(s, WritingSteps(p));
            && end.Some? && end.value.phase.Selecting? && end.value.cancelled == s.cancelled
            && end.value.queue == s.queue && end.value.wire.slot.Present?
            && end.value.wire.done == s.wire.done + [Sent(TASK, p)]
  {
    var s1 := s.(wire := Take(s.wire, TASK, p));
    var w := AcceptingRuns(s1, TASK, p, 0);
    assert WritingSteps(p)[1..] == Accepting(|p|) + [TaskPutsBack];
    RunStep(s, WritingSteps(p));
    RunAppend(s1, Accepting(|p|), [TaskPutsBack]);
    OrdinaryPutsBack(s1.(wire := w), p);
  }

  /** Another sender writes its packet undisturbed. */
  function SendingNow(owner: nat, p: seq<byte>): seq<Step> {
    [SenderTakes(owner, p)] + (Accepting(|p|) + [SenderPutsBack])
  }

  lemma {:induction false} SenderFinishes(s: State)
    requires SenderHolds(s) && Full(s.wire)
    ensures var t := s.(wire := PutBack(s.wire));
            Run(s, [SenderPutsBack]) == Some(t) && t.wire.slot.Present?
  {
    RunStep(s, [SenderPutsBack]);
  }

  /** Whenever the writer is free, whatever the outgoing task is doing, another sender can write a
      packet in full; nothing else changes. */
  lemma {:induction false} SenderCanWrite(s: State, owner: nat, p: seq<byte>)
    requires s.wire.slot.Present? && owner != TASK
    ensures var end := Run(s, SendingNow(owner, p));
            && end.Some? && end.value == s.(wire := end.value.wire)
            && end.value.wire.slot.Present? && end.value.wire.done == s.wire.done + [Sent(owner, p)]
  {
    var s1 := s.(wire := Take(s.wire, owner, p));
    var w := AcceptingRuns(s1, owner, p, 0);
    assert SendingNow(owner, p)[1..] == Accepting(|p|) + [SenderPutsBack];
    RunStep(s, SendingNow(owner, p));
    RunAppend(s1, Accepting(|p|), [SenderPutsBack]);
    SenderFinishes(s1.(wire := w));
  }

  // ---------------------------------------------------------------- closing is always possible

  /** Some steps lead from here to the end. */
  ghost predicate CanFinish(s: State) {
    exists steps :: FinishesBy(s, steps)
  }

  ghost predicate FinishesBy(s: State, steps: seq<Step>) {
    Run(s, steps).Some? && Run(s, steps).value.phase.Finished?
  }

  lemma StepThenFinish(s: State, step: Step)
    requires Next(s, step).Some? && CanFinish(Next(s, step).value)
    ensures CanFinish(s)
  {
    var rest :| FinishesBy(Next(s, step).value, rest);
    var steps := [step] + rest;
    assert steps[1..] == rest;
    RunStep(s, steps);
    assert FinishesBy(s, steps);
  }

  lemma ReleasingFinishes(s: State)
    requires s.phase.Releasing? && !s.wire.slot.Taken?
    ensures CanFinish(s)
  {
    var steps := [ReleaseWriter];
    RunStep(s, steps);
    assert FinishesBy(s, steps);
  }

  /** A packet that is being written can be given up. */
  lemma WritingFinishes(s: State)
    requires (s.phase.SendingDisconnect? || s.phase.SendingLast?) && !SenderHolds(s)
    requires s.wire.slot.Taken? ==> Underfull(s.wire)
    ensures CanFinish(s)
  {
    if s.wire.slot.Present? {
      var t := Next(s, TaskTakes).value;
      ReleasingFinishes(Next(t, TaskFails).value);
      StepThenFinish(t, TaskFails);
      StepThenFinish(s, TaskTakes);
    } else {
      var step := if s.wire.slot.Gone? then TaskRefused else TaskFails;
      ReleasingFinishes(Next(s, step).value);
      StepThenFinish(s, step);
    }
  }

  lemma {:induction false} DrainingFinishes(s: State)
    requires s.phase.Draining? && !s.wire.slot.Taken?
    ensures CanFinish(s)
    decreases |s.queue|
  {
    if s.queue != [] {
      DrainingFinishes(DrainItem(s));
      StepThenFinish(s, DrainOne);
    } else {
      var t := Next(s, DrainEnd).value;
      if s.phase.last.Some? {
        WritingFinishes(t);
      } else {
        ReleasingFinishes(t);
      }
      StepThenFinish(s, DrainEnd);
    }
  }

  /** The loop can be left by cancelling. */
  lemma LoopFinishes(s: State)
    requires (s.phase.Selecting? || s.phase.Sending?) && !SenderHolds(s)
    requires s.wire.slot.Taken? ==> s.phase.Sending? && Underfull(s.wire)
    ensures CanFinish(s)
  {
    var t := s.(cancelled := true);
    DrainingFinishes(Next(t, ObserveCancel).value);
    StepThenFinish(t, ObserveCancel);
    StepThenFinish(s, Cancel);
  }

  lemma FreeWriterFinishes(s: State)
    requires Inv(s) && !SenderHolds(s) && !s.phase.Upgraded? && !s.phase.Crashed?
    ensures CanFinish(s)
  {
    match s.phase {
      case Selecting => LoopFinishes(s);
      case Sending(_) => LoopFinishes(s);
      case Draining(_) => DrainingFinishes(s);
      case Releasing => ReleasingFinishes(s);
      case Finished => assert FinishesBy(s, []);
      case _ => WritingFinishes(s);
    }
  }

  /** Whatever has happened, short of an upgrade or a crash, the outgoing task can still finish: it
      is never stuck, neither in a write nor while another sender holds the writer. */
  lemma {:induction false} CanAlwaysFinish(steps: seq<Step>)
    requires Run(INITIAL, steps).Some?
    requires var phase := Run(INITIAL, steps).value.phase; !phase.Upgraded? && !phase.Crashed?
    ensures CanFinish(Run(INITIAL, steps).value)
  {
    FreshValid();
    RunInv(INITIAL, steps);
    var s := Run(INITIAL, steps).value;
    if SenderHolds(s) {
      StepInv(s, SenderDrops);
      FreeWriterFinishes(Next(s, SenderDrops).value);
      StepThenFinish(s, SenderDrops);
    } else {
      FreeWriterFinishes(s);
    }
  }
}
