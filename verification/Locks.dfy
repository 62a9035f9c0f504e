/** Client programs of the shared/update/exclusive locks: any number of threads, any
    interleaving. Each lock call is one guarded atomic step. S is compatible with S
    and U, U excludes U and X, X excludes everything; a thread may re-enter U and X. */
module Locks {

  datatype Holds = Holds(s: nat, u: nat, x: nat)
  const FREE := Holds(0, 0, 0)

  datatype Op =
    | SLock | SUnlock
    | ULock | UUnlock
    | XLock | XUnlock
    | Upgrade          // U to X, waiting for the readers to leave
    | Downgrade        // X to U
    | UToS             // U to S
    | TryUpgrade(taken: seq<Op>, refused: seq<Op>)  // S to S and U, without waiting
    | AssertNotCritical
    | SetCritical | ClearCritical
    | EndRound

  type Program = seq<Op>

  // `inside` says that this thread has set the critical flag and not cleared it yet.
  datatype Mode = Mode(holds: Holds, inside: bool)
  const IDLE := Mode(FREE, false)

  datatype Thread = Thread(mode: Mode, rest: Program)
  datatype System = System(threads: seq<Thread>, critical: bool)

  // ---- Steps ----------------------------------------------------------------

  predicate OthersHoldNo(sys: System, i: nat, s: bool, u: bool, x: bool) {
    forall j :: 0 <= j < |sys.threads| && j != i ==>
      var h := sys.threads[j].mode.holds;
      (s ==> h.s == 0) && (u ==> h.u == 0) && (x ==> h.x == 0)
  }

  predicate Unfinished(sys: System, i: nat) {
    i < |sys.threads| && sys.threads[i].rest != []
  }

  // Thread i can take its next step. An upgrade attempt may fail at any time, but
  // succeeds only when nobody else holds U or X.
  predicate Enabled(sys: System, i: nat, succeeds: bool)
    requires Unfinished(sys, i)
  {
    match sys.threads[i].rest[0]
    case SLock => OthersHoldNo(sys, i, false, false, true)
    case ULock => OthersHoldNo(sys, i, false, true, true)
    case XLock => OthersHoldNo(sys, i, true, true, true)
    case Upgrade => OthersHoldNo(sys, i, true, false, false)
    case TryUpgrade(_, _) => succeeds ==> OthersHoldNo(sys, i, false, true, true)
    case _ => true
  }

  function Less(n: nat): nat { if n == 0 then 0 else n - 1 }

  function Apply(m: Mode, op: Op): Mode {
    var h := m.holds;
    match op
    case SLock => m.(holds := h.(s := h.s + 1))
    case SUnlock => m.(holds := h.(s := Less(h.s)))
    case ULock => m.(holds := h.(u := h.u + 1))
    case UUnlock => m.(holds := h.(u := Less(h.u)))
    case XLock => m.(holds := h.(x := h.x + 1))
    case XUnlock => m.(holds := h.(x := Less(h.x)))
    case Upgrade => m.(holds := h.(x := h.x + h.u, u := 0))
    case Downgrade => m.(holds := h.(u := h.u + h.x, x := 0))
    case UToS => m.(holds := h.(u := Less(h.u), s := h.s + 1))
    case SetCritical => m.(inside := true)
    case ClearCritical => m.(inside := false)
    case _ => m
  }

  function NextThread(t: Thread, succeeds: bool): Thread
    requires t.rest != []
  {
    var rest := t.rest[1..];
    match t.rest[0]
    case TryUpgrade(taken, refused) =>
      if succeeds then Thread(t.mode.(holds := t.mode.holds.(u := t.mode.holds.u + 1)), taken + rest)
      else Thread(t.mode, refused + rest)
    case op => Thread(Apply(t.mode, op), rest)
  }

  function Step(sys: System, i: nat, succeeds: bool): System
    requires Unfinished(sys, i)
  {
    var t := sys.threads[i];
    System(sys.threads[i := NextThread(t, succeeds)],
           if t.rest[0].SetCritical? then true else if t.rest[0].ClearCritical? then false else sys.critical)
  }

  function Total(h: Holds): nat { h.s + h.u + h.x }

  // How many holds an operation adds.
  function Change(op: Op, succeeds: bool): int {
    match op
    case SLock => 1 case ULock => 1 case XLock => 1
    case SUnlock => -1 case UUnlock => -1 case XUnlock => -1
    case TryUpgrade(_, _) => if succeeds then 1 else 0
    case _ => 0
  }

  lemma ApplyConserves(m: Mode, op: Op)
    requires Proper(m, op) && !op.TryUpgrade?
    ensures Total(Apply(m, op).holds) == Total(m.holds) + Change(op, false)
  {}

  /** Holds are conserved: a lock call adds one, an unlock takes one away, an upgrade attempt
      that succeeds adds one, and conversions neither add nor lose any. */
  lemma HoldsConserved(t: Thread, succeeds: bool)
    requires t.rest != [] && Proper(t.mode, t.rest[0])
    ensures Total(NextThread(t, succeeds).mode.holds) == Total(t.mode.holds) + Change(t.rest[0], succeeds)
  {
    hide Proper, Apply;
    if !t.rest[0].TryUpgrade? { ApplyConserves(t.mode, t.rest[0]); }
  }

  // ---- Discipline: what one thread's program does to its own holds ----------

  // The operation is used as its lock demands.
  predicate Proper(m: Mode, op: Op) {
    var h := m.holds;
    match op
    case SLock => h == FREE && !m.inside
    case SUnlock => h.s > 0
    case ULock => h.s == 0 && h.x == 0
    case UUnlock => h.u > 0
    case XLock => h == FREE || (h.x > 0 && h.s == 0 && h.u == 0)
    case XUnlock => h.x > (if m.inside then 1 else 0)
    case Upgrade => h.u > 0 && h.s == 0 && h.x == 0
    case Downgrade => h.x > 0 && !m.inside
    case UToS => h.u > 0 && h.x == 0
    case TryUpgrade(_, _) => h.s > 0 && h.u == 0 && h.x == 0
    case AssertNotCritical => h != FREE && !m.inside
    case SetCritical => h.x > 0
    case ClearCritical => m.inside
    case EndRound => m == IDLE
  }

  datatype Outcome = Improper | Reaches(mode: Mode)

  /** Runs a program on one thread's own holds, ignoring everybody else; both ends of
      an upgrade attempt must meet again. */
  function Flow(m: Mode, p: Program): Outcome
    decreases p
  {
    if p == [] then Reaches(m)
    else if !Proper(m, p[0]) then Improper
    else
      match p[0]
      case TryUpgrade(taken, refused) =>
        var a := Flow(m.(holds := m.holds.(u := m.holds.u + 1)), taken);
        if a != Flow(m, refused) then Improper
        else if a.Improper? then Improper
        else Flow(a.mode, p[1..])
      case op => Flow(Apply(m, op), p[1..])
  }

  lemma {:induction false} FlowConcat(m: Mode, p: Program, q: Program)
    ensures Flow(m, p + q) == (var r := Flow(m, p); if r.Improper? then Improper else Flow(r.mode, q))
    decreases |p|
  {
    if p == [] {
      assert p + q == q;
    } else {
      assert (p + q)[0] == p[0] && (p + q)[1..] == p[1..] + q;
      if Proper(m, p[0]) {
        match p[0]
        case TryUpgrade(taken, refused) =>
          var a := Flow(m.(holds := m.holds.(u := m.holds.u + 1)), taken);
          if a == Flow(m, refused) && a.Reaches? { FlowConcat(a.mode, p[1..], q); }
        case op => FlowConcat(Apply(m, op), p[1..], q);
      }
    }
  }

  // ---- The invariant --------------------------------------------------------

  // The thread's program is properly used to its end, and ends with nothing held.
  ghost predicate Disciplined(t: Thread) {
    && Flow(t.mode, t.rest) == Reaches(IDLE)
    && (t.mode.inside ==> t.mode.holds.x > 0)
  }

  predicate Compatible(a: Holds, b: Holds) {
    && (a.x > 0 ==> b == FREE) && (b.x > 0 ==> a == FREE)
    && (a.u > 0 ==> b.u == 0)
  }

  ghost predicate AllCompatible(threads: seq<Thread>) {
    forall i, j :: 0 <= i < |threads| && 0 <= j < |threads| && i != j ==>
      Compatible(threads[i].mode.holds, threads[j].mode.holds)
  }

  ghost predicate SomeInside(threads: seq<Thread>) {
    exists i :: 0 <= i < |threads| && threads[i].mode.inside
  }

  ghost predicate SystemOk(sys: System) {
    && (forall i :: 0 <= i < |sys.threads| ==> Disciplined(sys.threads[i]))
    && AllCompatible(sys.threads)
    && (sys.critical <==> SomeInside(sys.threads))
  }

  lemma ThreadKeeps(t: Thread, succeeds: bool)
    requires Disciplined(t) && t.rest != []
    ensures Disciplined(NextThread(t, succeeds)) && Proper(t.mode, t.rest[0])
  {
    if t.rest[0].TryUpgrade? {
      var taken, refused := t.rest[0].taken, t.rest[0].refused;
      var up := t.mode.(holds := t.mode.holds.(u := t.mode.holds.u + 1));
      FlowConcat(up, taken, t.rest[1..]);
      FlowConcat(t.mode, refused, t.rest[1..]);
    }
  }

  // What the guard of a step buys: the new holds are compatible with everybody's.
  lemma StepCompatible(sys: System, i: nat, succeeds: bool, j: nat)
    requires SystemOk(sys) && Unfinished(sys, i) && Enabled(sys, i, succeeds)
    requires j < |sys.threads| && j != i
    ensures Compatible(NextThread(sys.threads[i], succeeds).mode.holds, sys.threads[j].mode.holds)
  {
    var t := sys.threads[i];
    ThreadKeeps(t, succeeds);
    assert Compatible(t.mode.holds, sys.threads[j].mode.holds);
    hide Flow, AllCompatible, Disciplined;
  }

  /** A call is granted as soon as it can be and no sooner: thread i can take its next step
      if and only if what it would then hold is compatible with what everybody else holds.
      S goes with S and U, U with S, X with nothing. */
  lemma GrantedExactly(sys: System, i: nat, succeeds: bool)
    requires SystemOk(sys) && Unfinished(sys, i)
    ensures Enabled(sys, i, succeeds) <==>
            forall j :: 0 <= j < |sys.threads| && j != i ==>
              Compatible(NextThread(sys.threads[i], succeeds).mode.holds, sys.threads[j].mode.holds)
  {
    var t := sys.threads[i];
    var next := NextThread(t, succeeds).mode.holds;
    ThreadKeeps(t, succeeds);
    hide Flow;
    if Enabled(sys, i, succeeds) {
      forall j | 0 <= j < |sys.threads| && j != i ensures Compatible(next, sys.threads[j].mode.holds) {
        StepCompatible(sys, i, succeeds, j);
      }
    } else {
      var j :| 0 <= j < |sys.threads| && j != i && Blocks(t.rest[0], sys.threads[j].mode.holds);
      BlockedClashes(t, succeeds, sys.threads[j].mode.holds);
    }
  }

  lemma BlockedClashes(t: Thread, succeeds: bool, h: Holds)
    requires t.rest != [] && Proper(t.mode, t.rest[0]) && Blocks(t.rest[0], h)
    requires t.rest[0].TryUpgrade? ==> succeeds
    ensures !Compatible(NextThread(t, succeeds).mode.holds, h)
  {}

  // What keeps a waiting call waiting.
  predicate Blocks(op: Op, h: Holds) {
    match op
    case SLock => h.x > 0
    case ULock => h.u > 0 || h.x > 0
    case XLock => h != FREE
    case Upgrade => h.s > 0
    case TryUpgrade(_, _) => h.u > 0 || h.x > 0
    case _ => false
  }

  /** Every step of every thread keeps the locks' compatibility, every program's
      discipline, and the critical flag telling whether some thread is inside. */
  lemma StepKeeps(sys: System, i: nat, succeeds: bool)
    requires SystemOk(sys) && Unfinished(sys, i) && Enabled(sys, i, succeeds)
    ensures SystemOk(Step(sys, i, succeeds))
  {
    var t := sys.threads[i];
    var next := Step(sys, i, succeeds);
    ThreadKeeps(t, succeeds);
    forall j | 0 <= j < |sys.threads| && j != i
      ensures Compatible(next.threads[i].mode.holds, next.threads[j].mode.holds)
    {
      StepCompatible(sys, i, succeeds, j);
    }
    CriticalFollows(sys, i, succeeds);
  }

  lemma CriticalFollows(sys: System, i: nat, succeeds: bool)
    requires SystemOk(sys) && Unfinished(sys, i) && Enabled(sys, i, succeeds)
    ensures Step(sys, i, succeeds).critical <==> SomeInside(Step(sys, i, succeeds).threads)
  {
    var t := sys.threads[i];
    var next := Step(sys, i, succeeds);
    ThreadKeeps(t, succeeds);
    hide Flow;
    if t.rest[0].SetCritical? {
      assert next.threads[i].mode.inside;
    } else if t.rest[0].ClearCritical? {
      forall j | 0 <= j < |next.threads| ensures !next.threads[j].mode.inside {
        if j != i { assert Compatible(t.mode.holds, sys.threads[j].mode.holds); }
      }
    } else {
      assert next.threads[i].mode.inside == t.mode.inside;
      if SomeInside(sys.threads) {
        var j :| 0 <= j < |sys.threads| && sys.threads[j].mode.inside;
        assert next.threads[j].mode.inside;
      }
    }
  }

  // ---- Runs -----------------------------------------------------------------

  datatype Choice = Choice(thread: nat, succeeds: bool)

  predicate Possible(sys: System, choices: seq<Choice>)
    decreases |choices|
  {
    choices == [] ||
    (var c := choices[0];
     Unfinished(sys, c.thread) && Enabled(sys, c.thread, c.succeeds)
     && Possible(Step(sys, c.thread, c.succeeds), choices[1..]))
  }

  function Run(sys: System, choices: seq<Choice>): System
    requires Possible(sys, choices)
    decreases |choices|
  {
    if choices == [] then sys
    else Run(Step(sys, choices[0].thread, choices[0].succeeds), choices[1..])
  }

  lemma {:induction false} RunKeeps(sys: System, choices: seq<Choice>)
    requires SystemOk(sys) && Possible(sys, choices)
    ensures SystemOk(Run(sys, choices)) && |Run(sys, choices).threads| == |sys.threads|
    decreases |choices|
  {
    hide SystemOk, Enabled;
    if choices != [] {
      StepKeeps(sys, choices[0].thread, choices[0].succeeds);
      RunKeeps(Step(sys, choices[0].thread, choices[0].succeeds), choices[1..]);
    }
  }

  /** In every reachable state, a thread about to check that nobody is inside the
      critical section finds the flag clear, and a thread at the end of a round
      holds nothing, whatever it re-entered, upgraded or downgraded on the way. */
  lemma ChecksPass(sys: System, i: nat)
    requires SystemOk(sys) && Unfinished(sys, i)
    ensures sys.threads[i].rest[0].AssertNotCritical? ==> !sys.critical
    ensures sys.threads[i].rest[0].EndRound? ==> sys.threads[i].mode == IDLE
  {
    var t := sys.threads[i];
    assert Disciplined(t);
    if t.rest[0].AssertNotCritical? {
      forall j | 0 <= j < |sys.threads| ensures !sys.threads[j].mode.inside {
        if j != i {
          assert Disciplined(sys.threads[j]);
          assert Compatible(t.mode.holds, sys.threads[j].mode.holds);
        }
      }
    }
  }

  // ---- No deadlock ----------------------------------------------------------

  ghost predicate Waits(t: Thread) {
    t.rest != [] && (t.rest[0].SLock? || t.rest[0].ULock? || t.rest[0].XLock? || t.rest[0].Upgrade?)
  }

  // A thread that waits, or has finished, holds nothing, unless it re-enters a lock
  // it has or is about to upgrade.
  lemma WaitingHolds(t: Thread)
    requires Disciplined(t) && (t.rest == [] || Waits(t))
    ensures var h := t.mode.holds;
            || h == FREE
            || (t.rest != [] && t.rest[0].XLock? && h.x > 0)
            || (t.rest != [] && t.rest[0].ULock? && h.u > 0 && h.s == 0)
            || (t.rest != [] && t.rest[0].Upgrade? && h.u > 0 && h.s == 0)
  {}

  lemma HolderIsEnabled(sys: System, i: nat)
    requires SystemOk(sys) && Unfinished(sys, i) && sys.threads[i].mode.holds != FREE
    requires forall j :: 0 <= j < |sys.threads| ==> sys.threads[j].rest == [] || Waits(sys.threads[j])
    ensures Enabled(sys, i, false)
  {
    var t := sys.threads[i];
    WaitingHolds(t);
    forall j | 0 <= j < |sys.threads| && j != i
      ensures var h := sys.threads[j].mode.holds; h.s == 0 && h.x == 0 && h.u == 0
    {
      WaitingHolds(sys.threads[j]);
      assert Compatible(t.mode.holds, sys.threads[j].mode.holds);
      assert Compatible(sys.threads[j].mode.holds, t.mode.holds);
    }
  }

  /** In every reachable state with an unfinished thread, some thread can step. */
  lemma NoDeadlock(sys: System, i: nat)
    requires SystemOk(sys) && Unfinished(sys, i)
    ensures exists k :: Unfinished(sys, k) && Enabled(sys, k, false)
  {
    if k :| 0 <= k < |sys.threads| && sys.threads[k].rest != [] && !Waits(sys.threads[k]) {
      assert Unfinished(sys, k) && Enabled(sys, k, false);
    } else if k :| 0 <= k < |sys.threads| && sys.threads[k].rest != [] && sys.threads[k].mode.holds != FREE {
      HolderIsEnabled(sys, k);
    } else {
      forall j | 0 <= j < |sys.threads| ensures sys.threads[j].mode.holds == FREE {
        assert Disciplined(sys.threads[j]);
      }
      assert Enabled(sys, i, false);
    }
  }

  // ---- Every run ends -------------------------------------------------------

  function Size(p: Program): nat
    decreases p
  {
    if p == [] then 0
    else
      (match p[0]
       case TryUpgrade(taken, refused) => 1 + Size(taken) + Size(refused)
       case _ => 1) + Size(p[1..])
  }

  function TotalSize(threads: seq<Thread>): nat {
    if threads == [] then 0 else Size(threads[0].rest) + TotalSize(threads[1..])
  }

  lemma {:induction false} SizeConcat(p: Program, q: Program)
    ensures Size(p + q) == Size(p) + Size(q)
    decreases |p|
  {
    if p == [] {
      assert p + q == q;
    } else {
      assert (p + q)[1..] == p[1..] + q;
      SizeConcat(p[1..], q);
    }
  }

  lemma NextIsSmaller(t: Thread, succeeds: bool)
    requires t.rest != []
    ensures Size(NextThread(t, succeeds).rest) < Size(t.rest)
  {
    if t.rest[0].TryUpgrade? {
      SizeConcat(t.rest[0].taken, t.rest[1..]);
      SizeConcat(t.rest[0].refused, t.rest[1..]);
    }
  }

  lemma {:induction false} TotalAfter(threads: seq<Thread>, i: nat, t: Thread)
    requires i < |threads|
    ensures TotalSize(threads[i := t]) == TotalSize(threads) - Size(threads[i].rest) + Size(t.rest)
  {
    if i == 0 {
      assert threads[i := t][1..] == threads[1..];
    } else {
      assert threads[i := t][1..] == threads[1..][i - 1 := t];
      TotalAfter(threads[1..], i - 1, t);
    }
  }

  /** No interleaving goes on for ever, and one that cannot go on has finished every
      thread, with nothing held and the critical flag clear. */
  lemma {:induction false} EveryRunEnds(sys: System, choices: seq<Choice>)
    requires SystemOk(sys) && Possible(sys, choices)
    ensures |choices| <= TotalSize(sys.threads)
    ensures var end := Run(sys, choices);
            (forall k :: Unfinished(end, k) ==> !Enabled(end, k, false)) ==>
              !end.critical && forall i :: 0 <= i < |end.threads| ==> end.threads[i] == Thread(IDLE, [])
    decreases |choices|
  {
    if choices == [] {
      if forall k :: Unfinished(sys, k) ==> !Enabled(sys, k, false) {
        forall i | 0 <= i < |sys.threads| ensures sys.threads[i] == Thread(IDLE, []) {
          if sys.threads[i].rest != [] {
            NoDeadlock(sys, i);
            assert false;
          }
          assert Disciplined(sys.threads[i]);
        }
      }
    } else {
      var c := choices[0];
      StepKeeps(sys, c.thread, c.succeeds);
      NextIsSmaller(sys.threads[c.thread], c.succeeds);
      TotalAfter(sys.threads, c.thread, NextThread(sys.threads[c.thread], c.succeeds));
      hide SystemOk, Enabled;
      EveryRunEnds(Step(sys, c.thread, c.succeeds), choices[1..]);
    }
  }
}
