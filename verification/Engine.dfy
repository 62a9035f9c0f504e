/** The embedded engine as one state machine: sessions that read a captured
    generation and stage writes, a registry that keeps the rows of an old
    generation only once a writer moves past it, one commit sequencer, a checkpoint
    ticket and the vector overlay. Every command is one atomic step. */
module Engine {
  import opened Values
  import opened Rows
  import Tx = Transactions

  datatype TableTx = TableTx(table: nat, tx: Tx.Tx)
  datatype Session = Session(active: bool, generation: nat, txs: seq<TableTx>, lastCommit: Option<nat>)

  datatype ActiveGeneration = ActiveGeneration(generation: nat, refs: nat)
  datatype Retained = Retained(generation: nat, stores: seq<Store>)
  datatype Registry = Registry(limit: nat, active: seq<ActiveGeneration>, retained: seq<Retained>)

  datatype Queue = Queue(limit: nat, pending: nat, lastAssigned: nat)
  datatype Worker = Worker(running: Option<nat>, lastCompleted: nat)

  // A vector cell is named by its table, its column and its row.
  datatype Key = Key(table: nat, column: nat, row: nat)
  datatype Delta = Delta(generation: nat, key: Key, vector: seq<U32>)

  datatype State = State(
    stores: seq<Store>, sequence: nat, queue: Queue, registry: Registry,
    worker: Worker, overlay: seq<Delta>, sessions: map<nat, Session>)

  datatype Command =
    | Begin(sid: nat)
    | Touch(sid: nat, table: nat)  // a write statement that matches no row
    | StageInsert(sid: nat, table: nat, values: seq<Value>)
    | StageUpdate(sid: nat, table: nat, id: nat, values: seq<Value>)
    | StageDelete(sid: nat, table: nat, id: nat)
    | Commit(sid: nat)
    | Rollback(sid: nat)
    | CloseSession(sid: nat)
    | Read(sid: nat, table: nat)
    | CheckpointBegin
    | CheckpointComplete
    | CheckpointFail
    | Drain(through: nat, max: nat)

  datatype Outcome = Done | Refused(error: Error) | Seen(rows: seq<Row>) | Drained(deltas: seq<Delta>)

  function Open(stores: seq<Store>, queueLimit: nat, retentionLimit: nat): State {
    State(stores, 0, Queue(queueLimit, 0, 0), Registry(retentionLimit, [], []), Worker(None, 0), [], map[])
  }

  // ---- Snapshot registry ----------------------------------------------------

  function RefCount(active: seq<ActiveGeneration>, g: nat): nat {
    if active == [] then 0
    else if active[0].generation == g then active[0].refs
    else RefCount(active[1..], g)
  }

  function AddRef(active: seq<ActiveGeneration>, g: nat): seq<ActiveGeneration> {
    if active == [] then [ActiveGeneration(g, 1)]
    else if active[0].generation == g then [ActiveGeneration(g, active[0].refs + 1)] + active[1..]
    else [active[0]] + AddRef(active[1..], g)
  }

  function DropRef(active: seq<ActiveGeneration>, g: nat): seq<ActiveGeneration> {
    if active == [] then []
    else if active[0].generation == g then
      (if active[0].refs > 1 then [ActiveGeneration(g, active[0].refs - 1)] + active[1..] else active[1..])
    else [active[0]] + DropRef(active[1..], g)
  }

  function FindRetained(retained: seq<Retained>, g: nat): Option<seq<Store>> {
    if retained == [] then None
    else if retained[0].generation == g then Some(retained[0].stores)
    else FindRetained(retained[1..], g)
  }

  // Drops the rows of every generation nobody holds any more.
  function Sweep(retained: seq<Retained>, active: seq<ActiveGeneration>): seq<Retained> {
    if retained == [] then []
    else if RefCount(active, retained[0].generation) != 0 then [retained[0]] + Sweep(retained[1..], active)
    else Sweep(retained[1..], active)
  }

  function Release(reg: Registry, g: nat): Registry {
    if RefCount(reg.active, g) == 0 then reg
    else
      var active := DropRef(reg.active, g);
      reg.(active := active, retained := Sweep(reg.retained, active))
  }

  function Capture(stores: seq<Store>): Result<seq<Store>> {
    if stores == [] then Ok([])
    else
      var first :- Clone(stores[0]);
      var rest :- Capture(stores[1..]);
      Ok([first] + rest)
  }

  // Somebody other than the committer holds the current generation, and its rows
  // are not kept yet.
  predicate NeedsRetention(st: State, committer: Session) {
    var refs := RefCount(st.registry.active, st.sequence);
    var others := if committer.generation == st.sequence && refs > 0 then refs - 1 else refs;
    others > 0 && FindRetained(st.registry.retained, st.sequence).None?
  }

  // The registry after the retention step of a commit, and why it failed, if it did.
  function RetainCurrent(st: State, committer: Session): (Registry, Option<Error>) {
    if !NeedsRetention(st, committer) then (st.registry, None)
    else
      var swept := st.registry.(retained := Sweep(st.registry.retained, st.registry.active));
      if |swept.retained| >= swept.limit then (swept, Some(SnapshotRetentionExceeded))
      else
        match Capture(st.stores)
        case Err(e) => (swept, Some(e))
        case Ok(copy) => (swept.(retained := swept.retained + [Retained(st.sequence, copy)]), None)
  }

  // ---- Sessions -------------------------------------------------------------

  const NoSession := Session(false, 0, [], None)

  function SessionOf(st: State, sid: nat): Session {
    if sid in st.sessions then st.sessions[sid] else NoSession
  }

  function EntryFor(txs: seq<TableTx>, table: nat): (r: Option<nat>)
    ensures r.Some? ==> r.value < |txs| && txs[r.value].table == table
    ensures r.None? ==> forall i :: 0 <= i < |txs| ==> txs[i].table != table
  {
    if txs == [] then None
    else if txs[0].table == table then Some(0)
    else
      var r := EntryFor(txs[1..], table);
      if r.None? then None else Some(r.value + 1)
  }

  // The session's entry list with an entry for the table, opened on the live store.
  function WithEntry(stores: seq<Store>, txs: seq<TableTx>, table: nat): seq<TableTx>
    requires table < |stores|
  {
    if EntryFor(txs, table).Some? then txs
    else txs + [TableTx(table, Tx.Begin(stores[table]))]
  }

  /** The rows a session's reads start from, before its own writes. */
  function BaseFor(st: State, s: Session, table: nat): Result<Store>
    requires table < |st.stores|
  {
    if !s.active then Ok(st.stores[table])
    else
      match FindRetained(st.registry.retained, s.generation)
      case Some(stores) => if table < |stores| then Ok(stores[table]) else Err(SnapshotRetentionExceeded)
      case None => if s.generation == st.sequence then Ok(st.stores[table]) else Err(SnapshotRetentionExceeded)
  }

  function ReadTable(st: State, sid: nat, table: nat): Result<seq<Row>> {
    if table >= |st.stores| then Err(UnknownObject)
    else
      var s := SessionOf(st, sid);
      var base :- BaseFor(st, s, table);
      var entry := EntryFor(s.txs, table);
      if entry.Some? then Tx.Scan(s.txs[entry.value].tx, base) else Ok(base.rows)
  }

  function WithSession(st: State, sid: nat, s: Session): State {
    st.(sessions := st.sessions[sid := s])
  }

  // The end of a transaction: entries dropped, handle released, session inactive.
  function EndSession(st: State, sid: nat, last: Option<nat>): State {
    WithSession(st.(registry := Release(st.registry, SessionOf(st, sid).generation)),
                sid, Session(false, 0, [], last))
  }

  function BeginStep(st: State, sid: nat): (State, Outcome) {
    var s := SessionOf(st, sid);
    if s.active then (st, Refused(TransactionActive))
    else
      (WithSession(st.(registry := st.registry.(active := AddRef(st.registry.active, st.sequence))),
                   sid, s.(active := true, generation := st.sequence)), Done)
  }

  // One staged row operation. The entry is opened before the row is checked, so
  // even a refused operation leaves it behind.
  function StageStep(st: State, sid: nat, table: nat, op: (Tx.Tx, Store) -> Result<Tx.Tx>): (State, Outcome) {
    var s := SessionOf(st, sid);
    if !s.active then (st, Refused(TransactionRequired))
    else if table >= |st.stores| then (st, Refused(UnknownObject))
    else
      var txs := WithEntry(st.stores, s.txs, table);
      var at := EntryFor(txs, table);
      if at.None? then (st, Refused(UnknownObject))
      else
        match op(txs[at.value].tx, st.stores[table])
        case Err(e) => (WithSession(st, sid, s.(txs := txs)), Refused(e))
        case Ok(tx) => (WithSession(st, sid, s.(txs := txs[at.value := TableTx(table, tx)])), Done)
  }

  // An UPDATE or DELETE scans the session's view of the table first: what it does to an
  // entry, given what that scan returned. Rows the scan does not show are out of reach.
  function TouchOp(seen: Result<seq<Row>>): (Tx.Tx, Store) -> Result<Tx.Tx> {
    (tx, live) => if seen.Err? then Err(seen.error) else Ok(tx)
  }

  function UpdateOp(seen: Result<seq<Row>>, id: nat, values: seq<Value>): (Tx.Tx, Store) -> Result<Tx.Tx> {
    (tx, live) =>
      if seen.Err? then Err(seen.error)
      else if HasId(seen.value, id) then Tx.Update(tx, live, id, values) else Ok(tx)
  }

  function DeleteOp(seen: Result<seq<Row>>, id: nat): (Tx.Tx, Store) -> Result<Tx.Tx> {
    (tx, live) =>
      if seen.Err? then Err(seen.error)
      else if HasId(seen.value, id) then Tx.Delete(tx, live, id) else Ok(tx)
  }

  function InsertOp(values: seq<Value>): (Tx.Tx, Store) -> Result<Tx.Tx> {
    (tx, live: Store) => Tx.Insert(tx, live.table, values)
  }

  // ---- Commit and rollback --------------------------------------------------

  datatype Published = Published(stores: seq<Store>, txs: seq<TableTx>, error: Option<Error>)

  /** Publishes the entries in order, each into its own store, stopping at the first
      one that fails. The entries before it have been published by then. */
  function PublishAll(stores: seq<Store>, txs: seq<TableTx>): (p: Published)
    ensures |p.stores| == |stores| && |p.txs| == |txs|
    decreases |txs|
  {
    if txs == [] then Published(stores, [], None)
    else
      var t := txs[0].table;
      if t >= |stores| then Published(stores, txs, Some(UnknownObject))
      else
        match Tx.Publish(txs[0].tx, stores[t])
        case Err(e) => Published(stores, txs, Some(e))
        case Ok(s) =>
          var rest := PublishAll(stores[t := s], txs[1..]);
          Published(rest.stores, [TableTx(t, Tx.Close(txs[0].tx, Tx.Committed))] + rest.txs, rest.error)
  }

  function CommitStep(st: State, sid: nat): (State, Outcome) {
    var s := SessionOf(st, sid);
    if !s.active then (st, Refused(NoActiveTransaction))
    else if s.txs == [] then (EndSession(st, sid, Some(st.sequence)), Done)
    else if st.queue.limit == 0 then (st, Refused(InvalidCommitQueueLimit))
    else if st.queue.pending >= st.queue.limit then (st, Refused(CommitQueueFull))
    else
      var (registry, failed) := RetainCurrent(st, s);
      if failed.Some? then (st.(registry := registry), Refused(failed.value))
      else
        var p := PublishAll(st.stores, s.txs);
        if p.error.Some? then
          (WithSession(st.(registry := registry, stores := p.stores), sid, s.(txs := p.txs)),
           Refused(p.error.value))
        else
          var next := st.queue.lastAssigned + 1;
          (EndSession(st.(stores := p.stores, sequence := next,
                          queue := st.queue.(lastAssigned := next),
                          registry := registry,
                          overlay := RecordAll(st.overlay, next, Cells(p.stores))),
                      sid, Some(next)), Done)
  }

  function RollbackAll(txs: seq<TableTx>): (seq<TableTx>, Option<Error>) {
    if txs == [] then ([], None)
    else
      match Tx.EnsureActive(txs[0].tx)
      case Err(e) => (txs, Some(e))
      case Ok(_) =>
        var (rest, failed) := RollbackAll(txs[1..]);
        ([TableTx(txs[0].table, Tx.Close(txs[0].tx, Tx.RolledBack))] + rest, failed)
  }

  function RollbackStep(st: State, sid: nat): (State, Outcome) {
    var s := SessionOf(st, sid);
    if !s.active then (st, Refused(NoActiveTransaction))
    else
      var (txs, failed) := RollbackAll(s.txs);
      if failed.Some? then (WithSession(st, sid, s.(txs := txs)), Refused(failed.value))
      else (EndSession(st, sid, s.lastCommit), Done)
  }

  function CloseStep(st: State, sid: nat): (State, Outcome) {
    if SessionOf(st, sid).active then (EndSession(st, sid, None), Done)
    else (WithSession(st, sid, NoSession), Done)
  }

  // ---- Vector overlay -------------------------------------------------------

  datatype Cell = Cell(key: Key, vector: seq<U32>)

  // The vector cells of one row, from column c on.
  function RowCells(table: nat, row: Row, c: nat): seq<Cell>
    requires c <= |row.values|
    decreases |row.values| - c
  {
    if c == |row.values| then []
    else
      var rest := RowCells(table, row, c + 1);
      if row.values[c].Vector? then [Cell(Key(table, c, row.id), row.values[c].elements)] + rest else rest
  }

  function RowsCells(table: nat, rows: seq<Row>): seq<Cell> {
    if rows == [] then [] else RowCells(table, rows[0], 0) + RowsCells(table, rows[1..])
  }

  function CellsFrom(stores: seq<Store>, t: nat): seq<Cell>
    requires t <= |stores|
    decreases |stores| - t
  {
    if t == |stores| then [] else RowsCells(t, stores[t].rows) + CellsFrom(stores, t + 1)
  }

  /** Every committed vector cell, table by table, row by row. */
  function Cells(stores: seq<Store>): seq<Cell> {
    CellsFrom(stores, 0)
  }

  // Replaces the delta of the cell in place, or appends one.
  function RecordVector(overlay: seq<Delta>, generation: nat, cell: Cell): seq<Delta> {
    if overlay == [] then [Delta(generation, cell.key, cell.vector)]
    else if overlay[0].key == cell.key then [Delta(generation, cell.key, cell.vector)] + overlay[1..]
    else [overlay[0]] + RecordVector(overlay[1..], generation, cell)
  }

  function RecordAll(overlay: seq<Delta>, generation: nat, cells: seq<Cell>): seq<Delta>
    decreases |cells|
  {
    if cells == [] then overlay
    else RecordAll(RecordVector(overlay, generation, cells[0]), generation, cells[1..])
  }

  // The first `max` deltas no newer than `through`, and what stays behind.
  function DrainReady(overlay: seq<Delta>, through: nat, max: nat): (seq<Delta>, seq<Delta>)
    decreases |overlay|
  {
    if overlay == [] || max == 0 then ([], overlay)
    else if overlay[0].generation > through then
      var (taken, kept) := DrainReady(overlay[1..], through, max);
      (taken, [overlay[0]] + kept)
    else
      var (taken, kept) := DrainReady(overlay[1..], through, max - 1);
      ([overlay[0]] + taken, kept)
  }

  // ---- The machine ----------------------------------------------------------

  function Step(st: State, c: Command): (State, Outcome) {
    match c
    case Begin(sid) => BeginStep(st, sid)
    case Touch(sid, t) => StageStep(st, sid, t, TouchOp(ReadTable(st, sid, t)))
    case StageInsert(sid, t, vs) => StageStep(st, sid, t, InsertOp(vs))
    case StageUpdate(sid, t, id, vs) => StageStep(st, sid, t, UpdateOp(ReadTable(st, sid, t), id, vs))
    case StageDelete(sid, t, id) => StageStep(st, sid, t, DeleteOp(ReadTable(st, sid, t), id))
    case Commit(sid) => CommitStep(st, sid)
    case Rollback(sid) => RollbackStep(st, sid)
    case CloseSession(sid) => CloseStep(st, sid)
    case Read(sid, t) =>
      (match ReadTable(st, sid, t)
       case Ok(rows) => (st, Seen(rows))
       case Err(e) => (st, Refused(e)))
    case CheckpointBegin =>
      if st.worker.running.Some? then (st, Refused(CheckpointAlreadyRunning))
      else (st.(worker := st.worker.(running := Some(st.sequence))), Done)
    case CheckpointComplete =>  // closing a closed ticket does nothing
      if st.worker.running.None? then (st, Done)
      else (st.(worker := Worker(None, st.worker.running.value)), Done)
    case CheckpointFail =>
      if st.worker.running.None? then (st, Done)
      else (st.(worker := st.worker.(running := None)), Done)
    case Drain(through, max) =>
      var (taken, kept) := DrainReady(st.overlay, through, max);
      (st.(overlay := kept), Drained(taken))
  }

  function Run(st: State, commands: seq<Command>): State
    decreases |commands|
  {
    if commands == [] then st else Run(Step(st, commands[0]).0, commands[1..])
  }
}
