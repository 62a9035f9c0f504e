/** The asynchronous procedure call test: requestor threads that each ask a service
    thread to write a value for them, over every interleaving of requests, service,
    time-outs, start and shutdown. The call target is an explicit abstraction: a
    queue of waiting requests, served or withdrawn under one mutex. */
module Apc {

  datatype Phase =
    | Looping                                // about to test its exit flag
    | Waiting                                // queued
    | Returned(refused: bool, timedOut: bool)  // the call is over, not yet accounted
    | Exited

  datatype Requestor = Requestor(phase: Phase, src: int, dst: int)

  datatype State = State(
    enabled: bool, queue: seq<nat>, requestors: seq<Requestor>,
    calls: nat, served: nat, missed: nat, timedOut: nat,
    haveErrors: bool, requestorsShouldExit: bool, serviceShouldExit: bool)

  datatype Step =
    | Request(i: nat, value: int)
    | Serve
    | TimeOut(i: nat)
    | Account(i: nat)
    | ExitLoop(i: nat)
    | StopRequestors
    | StopService
    | Disable

  // `main` starts the requestors only once the service has enabled its target.
  function Started(n: nat): State {
    State(true, [], seq(n, _ => Requestor(Looping, 0, 0)), 0, 0, 0, 0, false, false, false)
  }

  predicate In(st: State, i: nat, phase: Phase) {
    i < |st.requestors| && st.requestors[i].phase == phase
  }

  predicate AllExited(st: State) {
    forall i :: 0 <= i < |st.requestors| ==> st.requestors[i].phase == Exited
  }

  predicate Possible(st: State, s: Step) {
    match s
    case Request(i, _) => In(st, i, Looping) && !st.requestorsShouldExit
    case Serve => st.enabled && st.queue != [] && st.queue[0] < |st.requestors|
    case TimeOut(i) => In(st, i, Waiting)
    case Account(i) => i < |st.requestors| && st.requestors[i].phase.Returned?
    case ExitLoop(i) => In(st, i, Looping) && st.requestorsShouldExit
    case StopRequestors => true
    case StopService => st.requestorsShouldExit && AllExited(st)  // after joining them
    case Disable => st.serviceShouldExit
  }

  function Without(queue: seq<nat>, i: nat): seq<nat> {
    if queue == [] then []
    else if queue[0] == i then queue[1..]
    else [queue[0]] + Without(queue[1..], i)
  }

  function With(st: State, i: nat, r: Requestor): State
    requires i < |st.requestors|
  {
    st.(requestors := st.requestors[i := r])
  }

  function Next(st: State, s: Step): State
    requires Possible(st, s)
  {
    match s
    case Request(i, value) =>
      if st.enabled
      then With(st, i, Requestor(Waiting, value, 0)).(queue := st.queue + [i], calls := st.calls + 1)
      else With(st, i, Requestor(Returned(true, false), value, 0)).(calls := st.calls + 1)
    case Serve =>
      var i := st.queue[0];
      var src := st.requestors[i].src;
      With(st, i, Requestor(Returned(false, false), src, src)).(queue := st.queue[1..], served := st.served + 1)
    case TimeOut(i) =>
      With(st, i, st.requestors[i].(phase := Returned(true, true))).(queue := Without(st.queue, i))
    case Account(i) =>
      var r := st.requestors[i];
      var wrong := if r.phase.refused then r.dst != 0 else r.dst != r.src;
      With(st, i, r.(phase := Looping)).(
        missed := st.missed + (if r.phase.refused && !r.phase.timedOut then 1 else 0),
        timedOut := st.timedOut + (if r.phase.refused && r.phase.timedOut then 1 else 0),
        haveErrors := st.haveErrors || wrong)
    case ExitLoop(i) => With(st, i, st.requestors[i].(phase := Exited))
    case StopRequestors => st.(requestorsShouldExit := true)
    case StopService => st.(serviceShouldExit := true)
    case Disable => st.(enabled := false)
  }

  // ---- The invariant --------------------------------------------------------

  ghost predicate Distinct(queue: seq<nat>) {
    forall i, j :: 0 <= i < j < |queue| ==> queue[i] != queue[j]
  }

  // The destination is written exactly when the call was served.
  ghost predicate RequestorOk(r: Requestor) {
    match r.phase
    case Waiting => r.dst == 0
    case Returned(refused, timedOut) => if refused then r.dst == 0 else r.dst == r.src && !timedOut
    case _ => true
  }

  // A call that was made but neither served nor counted yet.
  predicate Open(r: Requestor) { r.phase.Waiting? || (r.phase.Returned? && r.phase.refused) }

  function OpenCalls(rs: seq<Requestor>): nat {
    if rs == [] then 0 else (if Open(rs[0]) then 1 else 0) + OpenCalls(rs[1..])
  }

  // The queue holds exactly the waiting requestors, each once.
  ghost predicate QueueOk(queue: seq<nat>, rs: seq<Requestor>) {
    && Distinct(queue)
    && (forall i :: i in queue ==> i < |rs| && rs[i].phase.Waiting?)
    && (forall i :: 0 <= i < |rs| && rs[i].phase.Waiting? ==> i in queue)
  }

  // No call was ever refused by a disabled target.
  ghost predicate RequestorsOk(rs: seq<Requestor>) {
    forall i :: 0 <= i < |rs| ==> RequestorOk(rs[i]) && rs[i].phase != Returned(true, false)
  }

  ghost predicate Ok(st: State) {
    && QueueOk(st.queue, st.requestors)
    && RequestorsOk(st.requestors)
    && !st.haveErrors
    && st.calls == st.served + st.missed + st.timedOut + OpenCalls(st.requestors)
    && (st.serviceShouldExit ==> AllExited(st))
    && (!st.enabled ==> st.serviceShouldExit)
    && st.missed == 0
  }

  lemma {:induction false} OpenAfter(rs: seq<Requestor>, i: nat, r: Requestor)
    requires i < |rs|
    ensures OpenCalls(rs[i := r]) == OpenCalls(rs) - (if Open(rs[i]) then 1 else 0) + (if Open(r) then 1 else 0)
  {
    if i == 0 {
      assert rs[i := r][1..] == rs[1..];
    } else {
      assert rs[i := r][1..] == rs[1..][i - 1 := r];
      OpenAfter(rs[1..], i - 1, r);
    }
  }

  lemma HeadApart(queue: seq<nat>)
    requires Distinct(queue) && queue != []
    ensures Distinct(queue[1..]) && queue[0] !in queue[1..]
    ensures forall k :: k in queue <==> k == queue[0] || k in queue[1..]
  {
    assert queue == [queue[0]] + queue[1..];
    assert forall j :: 0 <= j < |queue[1..]| ==> queue[1..][j] == queue[j + 1];
  }

  lemma {:induction false} WithoutDrops(queue: seq<nat>, i: nat)
    requires Distinct(queue)
    ensures Distinct(Without(queue, i)) && forall k :: k in Without(queue, i) <==> k in queue && k != i
  {
    if queue != [] {
      HeadApart(queue);
      WithoutDrops(queue[1..], i);
      var rest := Without(queue[1..], i);
      assert queue[0] !in rest;
    }
  }

  lemma HeadWaits(queue: seq<nat>, rs: seq<Requestor>)
    requires QueueOk(queue, rs) && queue != []
    ensures queue[0] < |rs| && rs[queue[0]].phase.Waiting?
  {
    assert queue[0] in queue;
  }

  lemma Enqueue(queue: seq<nat>, rs: seq<Requestor>, i: nat, r: Requestor)
    requires QueueOk(queue, rs) && i < |rs| && !rs[i].phase.Waiting? && r.phase.Waiting?
    ensures QueueOk(queue + [i], rs[i := r])
  {
    assert i !in queue;
    assert (queue + [i])[|queue|] == i;
  }

  lemma Dequeue(queue: seq<nat>, rs: seq<Requestor>, i: nat, r: Requestor)
    requires QueueOk(queue, rs) && i < |rs| && rs[i].phase.Waiting? && !r.phase.Waiting?
    ensures QueueOk(Without(queue, i), rs[i := r])
  {
    WithoutDrops(queue, i);
  }

  lemma QueueUntouched(queue: seq<nat>, rs: seq<Requestor>, i: nat, r: Requestor)
    requires QueueOk(queue, rs) && i < |rs| && !rs[i].phase.Waiting? && !r.phase.Waiting?
    ensures QueueOk(queue, rs[i := r])
  {
    assert i !in queue;
  }

  lemma RequestorsAfter(rs: seq<Requestor>, i: nat, r: Requestor)
    requires RequestorsOk(rs) && i < |rs| && RequestorOk(r) && r.phase != Returned(true, false)
    ensures RequestorsOk(rs[i := r])
  {}

  lemma NextKeeps(st: State, s: Step)
    requires Ok(st) && Possible(st, s)
    ensures Ok(Next(st, s))
  {
    match s {
      case Request(i, value) => RequestKeeps(st, i, value);
      case Serve => ServeKeeps(st);
      case TimeOut(i) => TimeOutKeeps(st, i);
      case Account(i) => AccountKeeps(st, i);
      case ExitLoop(i) => ExitKeeps(st, i);
      case _ => hide QueueOk, RequestorsOk, OpenCalls;
    }
  }

  lemma RequestKeeps(st: State, i: nat, value: int)
    requires Ok(st) && Possible(st, Request(i, value))
    ensures Ok(Next(st, Request(i, value)))
  {
    hide QueueOk, RequestorsOk;
    assert st.enabled;
    var r := Requestor(Waiting, value, 0);
    OpenAfter(st.requestors, i, r);
    Enqueue(st.queue, st.requestors, i, r);
    RequestorsAfter(st.requestors, i, r);
  }

  lemma ServeKeeps(st: State)
    requires Ok(st) && Possible(st, Serve)
    ensures Ok(Next(st, Serve))
  {
    var i := st.queue[0];
    HeadWaits(st.queue, st.requestors);
    hide QueueOk, RequestorsOk;
    var src := st.requestors[i].src;
    var r := Requestor(Returned(false, false), src, src);
    OpenAfter(st.requestors, i, r);
    Dequeue(st.queue, st.requestors, i, r);
    assert Without(st.queue, i) == st.queue[1..];
    RequestorsAfter(st.requestors, i, r);
  }

  lemma TimeOutKeeps(st: State, i: nat)
    requires Ok(st) && Possible(st, TimeOut(i))
    ensures Ok(Next(st, TimeOut(i)))
  {
    assert RequestorOk(st.requestors[i]);
    hide QueueOk, RequestorsOk;
    var r := st.requestors[i].(phase := Returned(true, true));
    OpenAfter(st.requestors, i, r);
    Dequeue(st.queue, st.requestors, i, r);
    RequestorsAfter(st.requestors, i, r);
  }

  lemma AccountKeeps(st: State, i: nat)
    requires Ok(st) && Possible(st, Account(i))
    ensures Ok(Next(st, Account(i)))
  {
    assert RequestorOk(st.requestors[i]) && st.requestors[i].phase != Returned(true, false);
    hide QueueOk, RequestorsOk;
    var r := st.requestors[i].(phase := Looping);
    OpenAfter(st.requestors, i, r);
    QueueUntouched(st.queue, st.requestors, i, r);
    RequestorsAfter(st.requestors, i, r);
  }

  lemma ExitKeeps(st: State, i: nat)
    requires Ok(st) && Possible(st, ExitLoop(i))
    ensures Ok(Next(st, ExitLoop(i)))
  {
    hide QueueOk, RequestorsOk;
    var r := st.requestors[i].(phase := Exited);
    OpenAfter(st.requestors, i, r);
    QueueUntouched(st.queue, st.requestors, i, r);
    RequestorsAfter(st.requestors, i, r);
  }

  // ---- Runs -----------------------------------------------------------------

  predicate RunPossible(st: State, steps: seq<Step>)
    decreases |steps|
  {
    steps == [] || (Possible(st, steps[0]) && RunPossible(Next(st, steps[0]), steps[1..]))
  }

  function Run(st: State, steps: seq<Step>): State
    requires RunPossible(st, steps)
    decreases |steps|
  {
    if steps == [] then st else Run(Next(st, steps[0]), steps[1..])
  }

  lemma {:induction false} RunKeeps(st: State, steps: seq<Step>)
    requires Ok(st) && RunPossible(st, steps)
    ensures Ok(Run(st, steps))
    decreases |steps|
  {
    hide Ok, Possible;
    if steps != [] {
      NextKeeps(st, steps[0]);
      RunKeeps(Next(st, steps[0]), steps[1..]);
    }
  }

  lemma {:induction false} NoneOpen(rs: seq<Requestor>)
    requires forall i :: 0 <= i < |rs| ==> rs[i].phase == Exited
    ensures OpenCalls(rs) == 0
  {
    if rs != [] { NoneOpen(rs[1..]); }
  }

  lemma {:induction false} StartedOk(n: nat)
    ensures Ok(Started(n))
  {
    NoneOpenYet(seq(n, _ => Requestor(Looping, 0, 0)));
  }

  lemma {:induction false} NoneOpenYet(rs: seq<Requestor>)
    requires forall i :: 0 <= i < |rs| ==> rs[i].phase == Looping
    ensures OpenCalls(rs) == 0
  {
    if rs != [] { NoneOpenYet(rs[1..]); }
  }

  lemma QueueEmptied(queue: seq<nat>, rs: seq<Requestor>)
    requires QueueOk(queue, rs) && forall i :: 0 <= i < |rs| ==> rs[i].phase == Exited
    ensures queue == []
  {
    if queue != [] {
      HeadWaits(queue, rs);
      assert false;
    }
  }

  lemma Accounts(st: State)
    requires Ok(st)
    ensures !st.haveErrors && st.missed == 0 && st.served + st.missed + st.timedOut <= st.calls
    ensures AllExited(st) ==> st.served + st.missed + st.timedOut == st.calls && st.queue == []
  {
    if AllExited(st) {
      hide QueueOk, RequestorsOk;
      NoneOpen(st.requestors);
      QueueEmptied(st.queue, st.requestors);
    }
  }

  /** For any number of requestors and any run: no error is ever reported; no call is
      missed, because the target is only disabled after every requestor has been
      joined; and once they have, every call made was served or timed out. */
  lemma EveryCallIsAccounted(n: nat, steps: seq<Step>)
    requires RunPossible(Started(n), steps)
    ensures var st := Run(Started(n), steps);
            && !st.haveErrors && st.missed == 0
            && st.served + st.missed + st.timedOut <= st.calls
            && (AllExited(st) ==> st.served + st.missed + st.timedOut == st.calls && st.queue == [])
  {
    hide Run, RunPossible, Started, Ok, AllExited;
    StartedOk(n);
    RunKeeps(Started(n), steps);
    Accounts(Run(Started(n), steps));
  }

  // The destination is not what the outcome asks for.
  predicate Wrong(r: Requestor) {
    r.phase.Returned? && r.dst != if r.phase.refused then 0 else r.src
  }

  /** The test would notice: accounting for a finished call records an error exactly when its
      destination is wrong, and counts it once, as timed out, as missed or, when it was
      served, not again. */
  lemma OutcomeIsCounted(st: State, i: nat)
    requires Possible(st, Account(i))
    ensures var st1, r := Next(st, Account(i)), st.requestors[i];
            && (st1.haveErrors <==> st.haveErrors || Wrong(r))
            && st1.served == st.served && st1.calls == st.calls
            && st1.timedOut == st.timedOut + (if r.phase == Returned(true, true) then 1 else 0)
            && st1.missed == st.missed + (if r.phase == Returned(true, false) then 1 else 0)
  {}

  /** One step accounts for at most one call, in exactly one way: a call is served,
      timed out or missed once, and its destination changes only when it is served. */
  lemma OneOutcomeEach(st: State, s: Step, i: nat)
    requires Ok(st) && Possible(st, s) && In(st, i, Waiting)
    ensures var st1 := Next(st, s); var r := st1.requestors[i];
            || (r == st.requestors[i])
            || (s.Serve? && r.phase == Returned(false, false) && r.dst == r.src == st.requestors[i].src
              && i !in st1.queue)
            || (s == TimeOut(i) && r.phase == Returned(true, true) && r.dst == st.requestors[i].dst == 0
              && i !in st1.queue)
  {
    NextKeeps(st, s);
    assert RequestorOk(st.requestors[i]);
    assert st.requestors[i].phase.Waiting?;
  }
}
