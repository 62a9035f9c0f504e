/** The thread programs of the lock test, for every number of rounds, and what the
    discipline of their lock use gives for every number of threads. */
module LockPrograms {
  import opened Locks

  function Repeat(n: nat, p: Program): Program {
    if n == 0 then [] else p + Repeat(n - 1, p)
  }

  // Enter and leave the critical section under an exclusive lock.
  const EXCLUSIVE: Program := [XLock, AssertNotCritical, SetCritical, ClearCritical, XUnlock]
  const SHARED: Program := [SLock, AssertNotCritical, SUnlock]

  function MutexProgram(rounds: nat): Program {
    Repeat(rounds, EXCLUSIVE + [EndRound])
  }

  function SrwProgram(rounds: nat, inner: nat): Program {
    Repeat(rounds, EXCLUSIVE + Repeat(inner, SHARED) + [EndRound])
  }

  const UPDATE: Program := [
    ULock, AssertNotCritical, Upgrade, AssertNotCritical, SetCritical, ClearCritical, Downgrade, UUnlock]

  const TAKEN: Program := [
    AssertNotCritical, SUnlock, Upgrade, AssertNotCritical, SetCritical, ClearCritical, Downgrade, UToS]

  function Attempt(): Program {
    [SLock, AssertNotCritical] + ([TryUpgrade(TAKEN, [])] + [AssertNotCritical, SUnlock])
  }

  function SsuxProgram(rounds: nat, inner: nat): Program {
    Repeat(rounds, EXCLUSIVE + Repeat(inner, SHARED) + Repeat(inner, UPDATE) + Repeat(inner, Attempt()) + [EndRound])
  }

  // The recursive lock. `s_x_upgrade` tries to turn S into U and then waits for X, or
  // gives S up and waits for X from scratch.
  const FROM_SHARED: Op := TryUpgrade([SUnlock, Upgrade], [SUnlock, XLock])

  const BEFORE: Program := [
    ULock, AssertNotCritical, ULock, Upgrade, AssertNotCritical, SetCritical, XUnlock, ClearCritical,
    Downgrade, UUnlock, SLock]

  const AFTER: Program := [AssertNotCritical, XLock, SetCritical, XUnlock, ClearCritical, XUnlock]

  function Recursive(): Program { BEFORE + ([FROM_SHARED] + AFTER) }

  function SuxProgram(rounds: nat, inner: nat): Program {
    Repeat(rounds,
           [XLock, AssertNotCritical, SetCritical] + Repeat(inner, [XLock]) + [ClearCritical]
           + Repeat(inner + 1, [XUnlock])
           + Repeat(inner, SHARED) + Repeat(inner / 2, Recursive()) + [EndRound])
  }

  // ---- The programs are disciplined -----------------------------------------

  predicate Closed(p: Program) { Flow(IDLE, p) == Reaches(IDLE) }

  lemma FlowStep(m: Mode, p: Program, m1: Mode)
    requires p != [] && !p[0].TryUpgrade? && Proper(m, p[0]) && Apply(m, p[0]) == m1
    ensures Flow(m, p) == Flow(m1, p[1..])
  {}

  lemma ClosedConcat(p: Program, q: Program)
    requires Closed(p) && Closed(q)
    ensures Closed(p + q)
  {
    FlowConcat(IDLE, p, q);
  }

  lemma {:induction false} ClosedRepeat(n: nat, p: Program)
    requires Closed(p)
    ensures Closed(Repeat(n, p))
  {
    if n > 0 {
      ClosedRepeat(n - 1, p);
      ClosedConcat(p, Repeat(n - 1, p));
    }
  }

  function Under(s: nat, u: nat, x: nat): Mode { Mode(Holds(s, u, x), false) }

  function Inside(x: nat): Mode { Mode(Holds(0, 0, x), true) }

  lemma {:induction false} FlowAlong(p: Program, modes: seq<Mode>, k: nat)
    requires |modes| == |p| + 1 && k <= |p|
    requires forall i :: k <= i < |p| ==>
               !p[i].TryUpgrade? && Proper(modes[i], p[i]) && Apply(modes[i], p[i]) == modes[i + 1]
    ensures Flow(modes[k], p[k..]) == Reaches(modes[|p|])
    decreases |p| - k
  {
    if k < |p| {
      assert p[k..][1..] == p[k + 1..];
      FlowStep(modes[k], p[k..], modes[k + 1]);
      FlowAlong(p, modes, k + 1);
    }
  }

  lemma Along(p: Program, modes: seq<Mode>)
    requires |modes| == |p| + 1
    requires forall i :: 0 <= i < |p| ==>
               !p[i].TryUpgrade? && Proper(modes[i], p[i]) && Apply(modes[i], p[i]) == modes[i + 1]
    ensures Flow(modes[0], p) == Reaches(modes[|p|])
  {
    FlowAlong(p, modes, 0);
    assert p[0..] == p;
  }

  lemma BasicsClosed()
    ensures Closed(EXCLUSIVE) && Closed(SHARED) && Closed([EndRound])
  {
    hide Flow;
    Along(EXCLUSIVE, [IDLE, Under(0, 0, 1), Under(0, 0, 1), Inside(1), Under(0, 0, 1), IDLE]);
    Along(SHARED, [IDLE, Under(1, 0, 0), Under(1, 0, 0), IDLE]);
    Along([EndRound], [IDLE, IDLE]);
  }

  lemma UpdateClosed()
    ensures Closed(UPDATE)
  {
    hide Flow;
    Along(UPDATE, [IDLE, Under(0, 1, 0), Under(0, 1, 0), Under(0, 0, 1), Under(0, 0, 1), Inside(1),
                   Under(0, 0, 1), Under(0, 1, 0), IDLE]);
  }

  // Both ends of an upgrade attempt meet in m1.
  lemma FlowTry(m: Mode, p: Program, m1: Mode)
    requires p != [] && p[0].TryUpgrade? && Proper(m, p[0])
    requires Flow(m.(holds := m.holds.(u := m.holds.u + 1)), p[0].taken) == Reaches(m1)
    requires Flow(m, p[0].refused) == Reaches(m1)
    ensures Flow(m, p) == Flow(m1, p[1..])
  {}

  lemma TakenFlows()
    ensures Flow(Under(1, 1, 0), TAKEN) == Reaches(Under(1, 0, 0))
  {
    hide Flow;
    Along(TAKEN, [Under(1, 1, 0), Under(1, 1, 0), Under(0, 1, 0), Under(0, 0, 1), Under(0, 0, 1), Inside(1),
                  Under(0, 0, 1), Under(0, 1, 0), Under(1, 0, 0)]);
  }

  // An attempt between what leads to it and what follows it.
  lemma FlowAround(before: Program, attempt: Op, after: Program, m: Mode, m1: Mode)
    requires attempt.TryUpgrade? && Proper(m, attempt)
    requires Flow(IDLE, before) == Reaches(m) && Flow(m1, after) == Reaches(IDLE)
    requires Flow(m.(holds := m.holds.(u := m.holds.u + 1)), attempt.taken) == Reaches(m1)
    requires Flow(m, attempt.refused) == Reaches(m1)
    ensures Closed(before + ([attempt] + after))
  {
    var rest := [attempt] + after;
    FlowTry(m, rest, m1);
    assert rest[1..] == after;
    FlowConcat(IDLE, before, rest);
  }

  lemma AttemptClosed()
    ensures Closed(Attempt())
  {
    var shared := Under(1, 0, 0);
    assert Flow(shared, []) == Reaches(shared);
    hide Flow, Closed;
    Along([SLock, AssertNotCritical], [IDLE, shared, shared]);
    Along([AssertNotCritical, SUnlock], [shared, shared, IDLE]);
    TakenFlows();
    FlowAround([SLock, AssertNotCritical], TryUpgrade(TAKEN, []), [AssertNotCritical, SUnlock], shared, shared);
  }

  lemma BeforeFlows()
    ensures Flow(IDLE, BEFORE) == Reaches(Under(1, 0, 0))
  {
    hide Flow;
    Along(BEFORE, [IDLE, Under(0, 1, 0), Under(0, 1, 0), Under(0, 2, 0), Under(0, 0, 2), Under(0, 0, 2), Inside(2),
                   Inside(1), Under(0, 0, 1), Under(0, 1, 0), IDLE, Under(1, 0, 0)]);
  }

  lemma AfterFlows()
    ensures Flow(Under(0, 0, 1), AFTER) == Reaches(IDLE)
  {
    hide Flow;
    var exclusive := Under(0, 0, 1);
    Along(AFTER, [exclusive, exclusive, Under(0, 0, 2), Inside(2), Inside(1), exclusive, IDLE]);
  }

  lemma FromSharedFlows()
    ensures Flow(Under(1, 1, 0), FROM_SHARED.taken) == Reaches(Under(0, 0, 1))
    ensures Flow(Under(1, 0, 0), FROM_SHARED.refused) == Reaches(Under(0, 0, 1))
  {
    Along([SUnlock, Upgrade], [Under(1, 1, 0), Under(0, 1, 0), Under(0, 0, 1)]);
    Along([SUnlock, XLock], [Under(1, 0, 0), IDLE, Under(0, 0, 1)]);
  }

  lemma RecursiveClosed()
    ensures Closed(Recursive())
  {
    hide Flow, Closed;
    BeforeFlows();
    AfterFlows();
    FromSharedFlows();
    FlowAround(BEFORE, FROM_SHARED, AFTER, Under(1, 0, 0), Under(0, 0, 1));
  }

  // Re-entering an exclusive lock inside the critical section, and leaving it as
  // often, one more time for the first entry.
  lemma {:induction false} Reenter(n: nat, x: nat)
    requires x > 0
    ensures Flow(Inside(x), Repeat(n, [XLock])) == Reaches(Inside(x + n))
  {
    if n > 0 {
      Along([XLock], [Inside(x), Inside(x + 1)]);
      FlowConcat(Inside(x), [XLock], Repeat(n - 1, [XLock]));
      Reenter(n - 1, x + 1);
    }
  }

  lemma {:induction false} Leave(n: nat, x: nat)
    requires n <= x
    ensures Flow(Under(0, 0, x), Repeat(n, [XUnlock])) == Reaches(Under(0, 0, x - n))
  {
    if n > 0 {
      Along([XUnlock], [Under(0, 0, x), Under(0, 0, x - 1)]);
      FlowConcat(Under(0, 0, x), [XUnlock], Repeat(n - 1, [XUnlock]));
      Leave(n - 1, x - 1);
    }
  }

  lemma ReentryClosed(n: nat)
    ensures Closed([XLock, AssertNotCritical, SetCritical] + Repeat(n, [XLock])
            + [ClearCritical] + Repeat(n + 1, [XUnlock]))
  {
    var first := [XLock, AssertNotCritical, SetCritical];
    Along(first, [IDLE, Under(0, 0, 1), Under(0, 0, 1), Inside(1)]);
    Along([ClearCritical], [Inside(n + 1), Under(0, 0, n + 1)]);
    Reenter(n, 1);
    Leave(n + 1, n + 1);
    hide Flow, Repeat;
    FlowConcat(IDLE, first, Repeat(n, [XLock]));
    FlowConcat(IDLE, first + Repeat(n, [XLock]), [ClearCritical]);
    FlowConcat(IDLE, first + Repeat(n, [XLock]) + [ClearCritical], Repeat(n + 1, [XUnlock]));
  }

  lemma MutexClosed(rounds: nat)
    ensures Closed(MutexProgram(rounds))
  {
    hide Closed;
    BasicsClosed();
    ClosedConcat(EXCLUSIVE, [EndRound]);
    ClosedRepeat(rounds, EXCLUSIVE + [EndRound]);
  }

  lemma SrwClosed(rounds: nat, inner: nat)
    ensures Closed(SrwProgram(rounds, inner))
  {
    hide Closed;
    BasicsClosed();
    ClosedRepeat(inner, SHARED);
    ClosedConcat(EXCLUSIVE, Repeat(inner, SHARED));
    ClosedConcat(EXCLUSIVE + Repeat(inner, SHARED), [EndRound]);
    ClosedRepeat(rounds, EXCLUSIVE + Repeat(inner, SHARED) + [EndRound]);
  }

  lemma SsuxClosed(rounds: nat, inner: nat)
    ensures Closed(SsuxProgram(rounds, inner))
  {
    hide Closed;
    BasicsClosed();
    UpdateClosed();
    AttemptClosed();
    ClosedRepeat(inner, SHARED);
    ClosedRepeat(inner, UPDATE);
    ClosedRepeat(inner, Attempt());
    var a := EXCLUSIVE + Repeat(inner, SHARED);
    ClosedConcat(EXCLUSIVE, Repeat(inner, SHARED));
    ClosedConcat(a, Repeat(inner, UPDATE));
    ClosedConcat(a + Repeat(inner, UPDATE), Repeat(inner, Attempt()));
    ClosedConcat(a + Repeat(inner, UPDATE) + Repeat(inner, Attempt()), [EndRound]);
    ClosedRepeat(rounds, a + Repeat(inner, UPDATE) + Repeat(inner, Attempt()) + [EndRound]);
  }

  lemma SuxClosed(rounds: nat, inner: nat)
    ensures Closed(SuxProgram(rounds, inner))
  {
    hide Closed;
    BasicsClosed();
    RecursiveClosed();
    ReentryClosed(inner);
    ClosedRepeat(inner, SHARED);
    ClosedRepeat(inner / 2, Recursive());
    var a := [XLock, AssertNotCritical, SetCritical] + Repeat(inner, [XLock])
      + [ClearCritical] + Repeat(inner + 1, [XUnlock]);
    ClosedConcat(a, Repeat(inner, SHARED));
    ClosedConcat(a + Repeat(inner, SHARED), Repeat(inner / 2, Recursive()));
    ClosedConcat(a + Repeat(inner, SHARED) + Repeat(inner / 2, Recursive()), [EndRound]);
    ClosedRepeat(rounds, a + Repeat(inner, SHARED) + Repeat(inner / 2, Recursive()) + [EndRound]);
  }

  // ---- All of them together -------------------------------------------------

  function Started(programs: seq<Program>): System {
    System(seq(|programs|, i requires 0 <= i < |programs| => Thread(IDLE, programs[i])), false)
  }

  /** One of the four test programs, with any numbers of rounds. */
  predicate TestProgram(p: Program, rounds: nat, inner: nat) {
    p in {MutexProgram(rounds), SrwProgram(rounds, inner), SsuxProgram(rounds, inner), SuxProgram(rounds, inner)}
  }

  lemma TestProgramClosed(p: Program, rounds: nat, inner: nat)
    requires TestProgram(p, rounds, inner)
    ensures Closed(p)
  {
    hide Closed;
    MutexClosed(rounds);
    SrwClosed(rounds, inner);
    SsuxClosed(rounds, inner);
    SuxClosed(rounds, inner);
  }

  lemma StartedOk(programs: seq<Program>)
    requires forall i :: 0 <= i < |programs| ==> Closed(programs[i])
    ensures SystemOk(Started(programs))
  {
    hide Flow;
  }

  /** Any number of threads running the test programs on one lock, in any
      interleaving: every critical-section check passes, a thread that ends a round
      holds nothing, some thread can always go on until all have finished, and they
      do finish. */
  lemma TestsPass(programs: seq<Program>, rounds: nat, inner: nat, choices: seq<Choice>)
    requires forall i :: 0 <= i < |programs| ==> TestProgram(programs[i], rounds, inner)
    requires Possible(Started(programs), choices)
    ensures var sys := Run(Started(programs), choices);
            && (forall i: nat :: Unfinished(sys, i) ==>
                  (sys.threads[i].rest[0].AssertNotCritical? ==> !sys.critical)
                  && (sys.threads[i].rest[0].EndRound? ==> sys.threads[i].mode == IDLE))
            && ((exists i: nat :: Unfinished(sys, i)) ==> exists k: nat :: Unfinished(sys, k) && Enabled(sys, k, false))
            && ((forall i: nat :: !Unfinished(sys, i)) ==>
                  !sys.critical && forall i :: 0 <= i < |sys.threads| ==> sys.threads[i].mode == IDLE)
    ensures |choices| <= TotalSize(Started(programs).threads)
  {
    forall i | 0 <= i < |programs| ensures Closed(programs[i]) {
      TestProgramClosed(programs[i], rounds, inner);
    }
    hide Closed, TestProgram, Started, SystemOk, Enabled, Possible;
    StartedOk(programs);
    var sys := Run(Started(programs), choices);
    RunKeeps(Started(programs), choices);
    EveryRunEnds(Started(programs), choices);
    forall i: nat | Unfinished(sys, i)
      ensures sys.threads[i].rest[0].AssertNotCritical? ==> !sys.critical
      ensures sys.threads[i].rest[0].EndRound? ==> sys.threads[i].mode == IDLE
    {
      ChecksPass(sys, i);
    }
    if i :| Unfinished(sys, i) { NoDeadlock(sys, i); }
  }
}
