/** The checkpoint ticket over whole runs: when one is running, for which generation, and
    which begins are refused. */
module Tickets {
  import opened Values
  import opened Rows
  import opened Engine
  import opened EngineInvariant
  import opened Durability

  predicate Closing(c: Command) { c.CheckpointComplete? || c.CheckpointFail? }

  /** No ticket is closed from this point of the run on. */
  predicate NoneClosed(commands: seq<Command>, from: nat) {
    forall k :: from <= k < |commands| ==> !Closing(commands[k])
  }

  /** The i-th command of the run is a begin that was accepted, at this generation. */
  predicate Accepted(st: State, commands: seq<Command>, i: nat, g: nat)
    requires i < |commands|
  {
    var before := Run(st, commands[..i]);
    commands[i].CheckpointBegin? && Step(before, commands[i]).1 == Done && before.sequence == g
  }

  /** A begin of the run took a ticket for this generation that nobody has closed since. */
  ghost predicate TakenAndOpen(st: State, commands: seq<Command>, g: nat) {
    exists i :: 0 <= i < |commands| && Accepted(st, commands, i, g) && NoneClosed(commands, i + 1)
  }

  // What one command does to the ticket.
  lemma TicketStep(st: State, c: Command)
    ensures var (st1, outcome) := Step(st, c);
            && (c.CheckpointBegin? ==>
                  if st.worker.running.None?
                  then outcome == Done && st1.worker.running == Some(st.sequence)
                  else outcome == Refused(CheckpointAlreadyRunning) && st1 == st)
            && (Closing(c) ==> outcome == Done && st1.worker.running.None?)
            && (!c.CheckpointBegin? && !Closing(c) ==> st1.worker == st.worker)
            && (c.CheckpointComplete? && st.worker.running.Some? ==>
                  st1.worker.lastCompleted == st.worker.running.value)
            && (!(c.CheckpointComplete? && st.worker.running.Some?) ==>
                  st1.worker.lastCompleted == st.worker.lastCompleted)
  {
    hide BeginStep, StageStep, CommitStep, RollbackStep, CloseStep, ReadTable, DrainReady;
    if !c.CheckpointBegin? && !Closing(c) { OthersKeepWorker(st, c); }
  }

  // Dropping the last command of a run.
  lemma OpenBefore(st: State, commands: seq<Command>, g: nat)
    requires commands != []
    ensures var n := |commands| - 1;
            TakenAndOpen(st, commands, g) <==>
            Accepted(st, commands, n, g) || (TakenAndOpen(st, commands[..n], g) && !Closing(commands[n]))
  {
    hide Run, Step;
    var n := |commands| - 1;
    var front := commands[..n];
    forall i | 0 <= i < n ensures Accepted(st, front, i, g) == Accepted(st, commands, i, g) {
      assert front[..i] == commands[..i];
    }
    if TakenAndOpen(st, commands, g) {
      var i :| 0 <= i < |commands| && Accepted(st, commands, i, g) && NoneClosed(commands, i + 1);
      if i < n { assert Accepted(st, front, i, g) && NoneClosed(front, i + 1); }
    }
    if TakenAndOpen(st, front, g) && !Closing(commands[n]) {
      var i :| 0 <= i < |front| && Accepted(st, front, i, g) && NoneClosed(front, i + 1);
      assert Accepted(st, commands, i, g) && NoneClosed(commands, i + 1);
    }
    if Accepted(st, commands, n, g) { assert NoneClosed(commands, n + 1); }
  }

  /** After every run a ticket is running for a generation if and only if a begin of the run
      took it and nobody has completed or failed it since, or it was running before and
      nobody has closed it. */
  lemma {:induction false} RunningExactly(st: State, commands: seq<Command>, g: nat)
    ensures Run(st, commands).worker.running == Some(g) <==>
            TakenAndOpen(st, commands, g) || (st.worker.running == Some(g) && NoneClosed(commands, 0))
    decreases |commands|
  {
    hide Step, Accepted;
    if commands != [] {
      var n := |commands| - 1;
      var front := commands[..n];
      var before := Run(st, front);
      RunLast(st, commands);
      hide Run;
      RunningExactly(st, front, g);
      OpenBefore(st, commands, g);
      TicketStep(before, commands[n]);
      AcceptedLast(st, commands, g);
      assert NoneClosed(commands, 0) <==> NoneClosed(front, 0) && !Closing(commands[n]) by {
        assert forall k :: 0 <= k < n ==> front[k] == commands[k];
      }
    }
  }

  lemma AcceptedLast(st: State, commands: seq<Command>, g: nat)
    requires commands != []
    ensures var n := |commands| - 1;
            Accepted(st, commands, n, g) <==>
            commands[n].CheckpointBegin? && Step(Run(st, commands[..n]), commands[n]).1 == Done
            && Run(st, commands[..n]).sequence == g
  {}

  /** From opening a database, after every run: a begin is refused if and only if some begin
      of the run was accepted and has been neither completed nor failed since; otherwise it
      takes a ticket for the current generation. */
  lemma BeginRefusedExactly(stores: seq<Store>, q: nat, r: nat, commands: seq<Command>)
    ensures var st0 := Open(stores, q, r);
            var st := Run(st0, commands);
            var (st1, outcome) := Step(st, CheckpointBegin);
            if exists g :: TakenAndOpen(st0, commands, g)
            then outcome == Refused(CheckpointAlreadyRunning) && st1 == st
            else outcome == Done && st1.worker.running == Some(st.sequence)
  {
    hide Run, Step, TakenAndOpen;
    var st0 := Open(stores, q, r);
    var st := Run(st0, commands);
    TicketStep(st, CheckpointBegin);
    forall g: nat ensures st.worker.running == Some(g) <==> TakenAndOpen(st0, commands, g) {
      RunningExactly(st0, commands, g);
    }
    if st.worker.running.Some? { assert TakenAndOpen(st0, commands, st.worker.running.value); }
  }

  /** Closing the running ticket as failed, or completing it, always lets the next begin
      through. */
  lemma ClosedTicketLetsBegin(st: State, c: Command)
    requires Closing(c)
    ensures Step(Step(st, c).0, CheckpointBegin).1 == Done
  {
    hide Step;
    TicketStep(st, c);
    TicketStep(Step(st, c).0, CheckpointBegin);
  }
}
