/** The overlay as a log over whole runs, torn commits included: everything drained so far
    followed by the backlog is what every commit stamped, or what every commit wrote, each
    once and in commit order, in exactly the runs in which no commit replaces a delta that
    is still waiting. */
module VectorLog {
  import opened Values
  import opened Rows
  import opened Engine
  import opened EngineInvariant
  import opened Snapshots
  import opened Replay
  import opened Generations
  import opened VectorOverlay
  import opened VectorWrites

  // ---- Recording appends, or replaces ---------------------------------------

  ghost predicate Waiting(overlay: seq<Delta>, key: Key) {
    exists i :: 0 <= i < |overlay| && overlay[i].key == key
  }

  ghost predicate Distinct(cells: seq<Cell>) {
    forall i, j :: 0 <= i < j < |cells| ==> cells[i].key != cells[j].key
  }

  /** The deltas of one commit, cell by cell. */
  function Stamps(g: nat, cells: seq<Cell>): (r: seq<Delta>)
    ensures |r| == |cells|
  {
    seq(|cells|, i requires 0 <= i < |cells| => Delta(g, cells[i].key, cells[i].vector))
  }

  lemma {:induction false} RecordOne(overlay: seq<Delta>, g: nat, cell: Cell)
    ensures !Waiting(overlay, cell.key) ==>
              RecordVector(overlay, g, cell) == overlay + [Delta(g, cell.key, cell.vector)]
    ensures Waiting(overlay, cell.key) ==> |RecordVector(overlay, g, cell)| == |overlay|
  {
    if overlay != [] {
      RecordOne(overlay[1..], g, cell);
      if overlay[0].key != cell.key {
        WaitingRest(overlay, cell.key);
        assert [overlay[0]] + (overlay[1..] + [Delta(g, cell.key, cell.vector)]) ==
               overlay + [Delta(g, cell.key, cell.vector)];
      }
    }
  }

  lemma WaitingRest(overlay: seq<Delta>, key: Key)
    requires overlay != [] && overlay[0].key != key
    ensures Waiting(overlay, key) <==> Waiting(overlay[1..], key)
  {
    if i :| 0 <= i < |overlay| && overlay[i].key == key { assert overlay[1..][i - 1].key == key; }
    if i :| 0 <= i < |overlay[1..]| && overlay[1..][i].key == key { assert overlay[i + 1].key == key; }
  }

  lemma {:induction false} RecordAllLength(overlay: seq<Delta>, g: nat, cells: seq<Cell>)
    ensures |RecordAll(overlay, g, cells)| <= |overlay| + |cells|
    decreases |cells|
  {
    if cells != [] {
      RecordOne(overlay, g, cells[0]);
      RecordAllLength(RecordVector(overlay, g, cells[0]), g, cells[1..]);
    }
  }

  ghost predicate NoneWaits(overlay: seq<Delta>, cells: seq<Cell>) {
    forall i :: 0 <= i < |cells| ==> !Waiting(overlay, cells[i].key)
  }

  /** Recording appends the deltas of the cells, and nothing else happens, if and only if
      none of the cells is still waiting. */
  lemma {:induction false} RecordAppendsExactly(overlay: seq<Delta>, g: nat, cells: seq<Cell>)
    requires Distinct(cells)
    ensures RecordAll(overlay, g, cells) == overlay + Stamps(g, cells) <==> NoneWaits(overlay, cells)
    decreases |cells|
  {
    if cells == [] {
      assert overlay + [] == overlay;
    } else {
      var d := Delta(g, cells[0].key, cells[0].vector);
      var next := RecordVector(overlay, g, cells[0]);
      RecordOne(overlay, g, cells[0]);
      if Waiting(overlay, cells[0].key) {
        RecordAllLength(next, g, cells[1..]);
      } else {
        RecordAppendsExactly(next, g, cells[1..]);
        NoneWaitsCons(overlay, d, cells);
        assert Stamps(g, cells) == [d] + Stamps(g, cells[1..]);
        assert overlay + ([d] + Stamps(g, cells[1..])) == overlay + [d] + Stamps(g, cells[1..]);
      }
    }
  }

  lemma NoneWaitsCons(overlay: seq<Delta>, d: Delta, cells: seq<Cell>)
    requires Distinct(cells) && cells != [] && d.key == cells[0].key && !Waiting(overlay, d.key)
    ensures NoneWaits(overlay, cells) <==> NoneWaits(overlay + [d], cells[1..])
  {
    forall i | 0 < i < |cells|
      ensures cells[1..][i - 1] == cells[i]
      ensures Waiting(overlay + [d], cells[i].key) <==> Waiting(overlay, cells[i].key)
    {
      if k :| 0 <= k < |overlay| && overlay[k].key == cells[i].key { assert (overlay + [d])[k].key == cells[i].key; }
    }
    if NoneWaits(overlay + [d], cells[1..]) {
      forall i | 0 <= i < |cells| ensures !Waiting(overlay, cells[i].key) {
        if i > 0 { assert !Waiting(overlay + [d], cells[1..][i - 1].key); }
      }
    }
  }

  // ---- Committed cells are distinct -----------------------------------------

  lemma DistinctJoin(a: seq<Cell>, b: seq<Cell>)
    requires Distinct(a) && Distinct(b)
    requires forall x, y :: x in a && y in b ==> x.key != y.key
    ensures Distinct(a + b)
  {
    forall i, j | 0 <= i < j < |a + b| ensures (a + b)[i].key != (a + b)[j].key {
      if i < |a| && |a| <= j { assert a[i] in a && b[j - |a|] in b; }
    }
  }

  lemma {:induction false} RowCellsDistinct(table: nat, row: Row, c: nat)
    requires c <= |row.values|
    ensures Distinct(RowCells(table, row, c))
    decreases |row.values| - c
  {
    if c < |row.values| {
      RowCellsDistinct(table, row, c + 1);
      if row.values[c].Vector? {
        var cell := Cell(Key(table, c, row.id), row.values[c].elements);
        forall y | y in RowCells(table, row, c + 1) ensures y.key != cell.key {
          RowCellsExactly(table, row, c + 1, y);
        }
        DistinctJoin([cell], RowCells(table, row, c + 1));
      }
    }
  }

  lemma {:induction false} RowsCellsDistinct(table: nat, rows: seq<Row>)
    requires UniqueIds(rows)
    ensures Distinct(RowsCells(table, rows))
  {
    if rows != [] {
      var rest := rows[1..];
      forall i, j | 0 <= i < j < |rest| ensures rest[i].id != rest[j].id { assert rest[i] == rows[i + 1]; }
      RowsCellsDistinct(table, rest);
      RowCellsDistinct(table, rows[0], 0);
      forall x, y | x in RowCells(table, rows[0], 0) && y in RowsCells(table, rest) ensures x.key != y.key {
        RowCellsExactly(table, rows[0], 0, x);
        RowsCellsExactly(table, rest, y);
        var i :| 0 <= i < |rest| && rest[i].id == y.key.row && RowHolds(rest[i], y.key.column, y.vector);
        assert rest[i] == rows[i + 1];
      }
      DistinctJoin(RowCells(table, rows[0], 0), RowsCells(table, rest));
    }
  }

  lemma UniqueRows(stores: seq<Store>, t: nat)
    requires StoresOk(stores) && t < |stores|
    ensures UniqueIds(stores[t].rows)
  {
    assert StoreOk(stores[t]);
  }

  lemma {:induction false} CellsDistinct(stores: seq<Store>, t: nat)
    requires StoresOk(stores) && t <= |stores|
    ensures Distinct(CellsFrom(stores, t))
    decreases |stores| - t
  {
    if t < |stores| {
      hide StoresOk, StoreOk;
      UniqueRows(stores, t);
      RowsCellsDistinct(t, stores[t].rows);
      CellsDistinct(stores, t + 1);
      forall x, y | x in RowsCells(t, stores[t].rows) && y in CellsFrom(stores, t + 1) ensures x.key != y.key {
        RowsCellsExactly(t, stores[t].rows, x);
        CellsFromExactly(stores, t + 1, y);
      }
      DistinctJoin(RowsCells(t, stores[t].rows), CellsFrom(stores, t + 1));
    }
  }

  // ---- Draining a log -------------------------------------------------------

  ghost predicate Ordered(deltas: seq<Delta>) {
    forall i, j :: 0 <= i < j < |deltas| ==> deltas[i].generation <= deltas[j].generation
  }

  lemma {:induction false} DrainNewer(overlay: seq<Delta>, through: nat, max: nat)
    requires AllNewer(overlay, through)
    ensures DrainReady(overlay, through, max) == ([], overlay)
    decreases |overlay|
  {
    if overlay != [] {
      DrainNewer(overlay[1..], through, max);
      assert [overlay[0]] + overlay[1..] == overlay;
    }
  }

  /** A drain of an overlay in generation order takes from the front. */
  lemma {:induction false} DrainTakesFront(overlay: seq<Delta>, through: nat, max: nat)
    requires Ordered(overlay)
    ensures var (taken, kept) := DrainReady(overlay, through, max); taken + kept == overlay
    decreases |overlay|
  {
    if overlay != [] && max != 0 {
      if overlay[0].generation > through {
        DrainNewer(overlay, through, max);
      } else {
        DrainTakesFront(overlay[1..], through, max - 1);
      }
    }
  }

  /** Everything drained so far, then the backlog. */
  function Stream(h: History): seq<Delta> { h.drained + h.st.overlay }

  lemma DrainKeepsStream(h: History, through: nat, max: nat)
    requires Ordered(Stream(h))
    ensures Stream(Follow(h, Drain(through, max))) == Stream(h)
  {
    var (taken, kept) := DrainReady(h.st.overlay, through, max);
    forall i, j | 0 <= i < j < |h.st.overlay| ensures h.st.overlay[i].generation <= h.st.overlay[j].generation {
      assert Stream(h)[|h.drained| + i] == h.st.overlay[i] && Stream(h)[|h.drained| + j] == h.st.overlay[j];
    }
    DrainTakesFront(h.st.overlay, through, max);
    assert h.drained + taken + kept == h.drained + (taken + kept);
  }

  // Only publishing commits can change the stream of an ordered log.
  lemma StreamKept(h: History, c: Command)
    requires Ordered(Stream(h)) && !PublishesBatch(h.st, c)
    ensures Stream(Follow(h, c)) == Stream(h) && Follow(h, c).states == h.states
  {
    hide Step, Ordered;
    if c.Drain? { DrainKeepsStream(h, c.through, c.max); } else { QuietOverlay(h.st, c); }
  }

  // ---- One publishing commit ------------------------------------------------

  /** No delta that is still waiting belongs to a cell that is committed after the batch:
      one the batch writes, or one it leaves alone. */
  ghost predicate NothingReplaced(st: State, txs: seq<TableTx>) {
    forall i, vector :: 0 <= i < |st.overlay| ==> !Lands(st.stores, txs, st.overlay[i].key, vector)
  }

  lemma NotAmong(overlay: seq<Delta>, cells: seq<Cell>, i: nat, vector: seq<U32>)
    requires NoneWaits(overlay, cells) && i < |overlay|
    ensures Cell(overlay[i].key, vector) !in cells
  {
    forall k | 0 <= k < |cells| ensures cells[k].key != overlay[i].key {
      assert cells[k].key == overlay[i].key ==> Waiting(overlay, cells[k].key);
    }
  }

  lemma NothingReplacedExactly(st: State, txs: seq<TableTx>)
    requires CleanBatch(st.stores, txs)
    ensures NoneWaits(st.overlay, Cells(PublishAll(st.stores, txs).stores)) <==> NothingReplaced(st, txs)
  {
    hide CleanBatch, PublishAll, Lands, Live, CellsFrom;
    var stores1 := PublishAll(st.stores, txs).stores;
    var cells := Cells(stores1);
    forall key, vector
      ensures Cell(key, vector) in cells <==> Lands(st.stores, txs, key, vector)
    {
      CellsFromExactly(stores1, 0, Cell(key, vector));
      PublishedCells(st.stores, txs, key, vector);
    }
    if NoneWaits(st.overlay, cells) {
      forall i, vector | 0 <= i < |st.overlay| ensures !Lands(st.stores, txs, st.overlay[i].key, vector) {
        NotAmong(st.overlay, cells, i, vector);
      }
    }
    if NothingReplaced(st, txs) {
      forall k | 0 <= k < |cells| ensures !Waiting(st.overlay, cells[k].key) {
        assert cells[k] == Cell(cells[k].key, cells[k].vector) && cells[k] in cells;
        assert Lands(st.stores, txs, cells[k].key, cells[k].vector);
      }
    }
  }

  // What a publishing commit does to the history, once it goes through.
  lemma PublishedHistory(h: History, c: Command)
    requires HistoryOk(h) && CommitsCleanly(h.st, c)
    ensures var txs := SessionOf(h.st, c.sid).txs;
            var h1 := Follow(h, c);
            && CleanBatch(h.st.stores, txs)
            && h1.st.stores == PublishAll(h.st.stores, txs).stores && StoresOk(h1.st.stores)
            && h1.st.sequence == h.st.sequence + 1 && h1.drained == h.drained
            && h1.states == h.states + [h1.st.stores]
            && h1.st.overlay == RecordAll(h.st.overlay, h.st.sequence + 1, Cells(h1.st.stores))
  {
    hide Inv, Step, CommitStep, CommitsCleanly, PublishesBatch, CleanBatch, PublishAll, RecordAll, Cells, StoresOk;
    CleanIsCommit(h.st, c);
    CommitsCleanlyExactly(h.st, c);
    CleanCommit(h.st, c.sid);
    StepIsCommit(h.st, c.sid);
    CommitOverlay(h.st, c.sid);
    BatchAdvances(h.st, c);
    CommitStoresOk(h.st, c.sid);
    CommitDrainsNothing(h.st, c.sid);
  }

  lemma CleanIsCommit(st: State, c: Command)
    requires CommitsCleanly(st, c)
    ensures c.Commit?
  {}

  lemma CommitAppendsExactly(h: History, c: Command)
    requires HistoryOk(h) && CommitsCleanly(h.st, c)
    ensures var h1 := Follow(h, c);
            Stream(h1) == Stream(h) + Stamps(h.st.sequence + 1, Cells(h1.st.stores)) <==>
            NothingReplaced(h.st, SessionOf(h.st, c.sid).txs)
  {
    hide HistoryOk, CommitsCleanly, Follow, CleanBatch, PublishAll, RecordAll, StoresOk, NothingReplaced, NoneWaits,
      Distinct, CellsFrom, Stamps;
    CleanIsCommit(h.st, c);
    PublishedHistory(h, c);
    var h1 := Follow(h, c);
    var cells := Cells(h1.st.stores);
    CellsDistinct(h1.st.stores, 0);
    NothingReplacedExactly(h.st, SessionOf(h.st, c.sid).txs);
    RecordAppendsExactly(h.st.overlay, h.st.sequence + 1, cells);
    Prefixed(h.drained, h.st.overlay, Stamps(h.st.sequence + 1, cells), h1.st.overlay);
  }

  lemma Prefixed(drained: seq<Delta>, overlay: seq<Delta>, more: seq<Delta>, next: seq<Delta>)
    ensures drained + next == drained + overlay + more <==> next == overlay + more
  {
    if drained + next == drained + overlay + more {
      assert next == (drained + next)[|drained|..];
      assert overlay + more == (drained + overlay + more)[|drained|..];
    }
    if next == overlay + more { assert drained + next == drained + overlay + more; }
  }

  // ---- The log of stamps ----------------------------------------------------

  /** The committed cells of every publishing commit, in commit order. */
  function StampLog(states: seq<seq<Store>>): seq<Delta>
    decreases |states|
  {
    if |states| <= 1 then []
    else StampLog(states[..|states| - 1]) + Stamps(|states| - 1, Cells(states[|states| - 1]))
  }

  lemma {:induction false} StampLogOrdered(states: seq<seq<Store>>)
    ensures Ordered(StampLog(states)) && NoneNewer(StampLog(states), if states == [] then 0 else |states| - 1)
    decreases |states|
  {
    if |states| > 1 { StampLogOrdered(states[..|states| - 1]); }
  }

  lemma StampLogNext(states: seq<seq<Store>>, stores: seq<Store>)
    requires states != []
    ensures StampLog(states + [stores]) == StampLog(states) + Stamps(|states|, Cells(stores))
  {
    assert (states + [stores])[..|states|] == states;
  }

  ghost predicate IsStampLog(h: History) { Stream(h) == StampLog(h.states) }

  /** The command is no commit that goes through, or one that replaces no waiting delta. */
  ghost predicate Appends(st: State, c: Command) {
    CommitsCleanly(st, c) ==> NothingReplaced(st, SessionOf(st, c.sid).txs)
  }

  ghost predicate AllAppend(st: State, commands: seq<Command>)
    decreases |commands|
  {
    commands == [] || (Appends(st, commands[0]) && AllAppend(Step(st, commands[0]).0, commands[1..]))
  }

  /** One step keeps the log of stamps if and only if it replaces no waiting delta. */
  lemma StampStepExactly(h: History, c: Command)
    requires HistoryOk(h) && IsStampLog(h)
    ensures IsStampLog(Follow(h, c)) <==> Appends(h.st, c)
  {
    hide HistoryOk, CommitsCleanly, PublishesBatch, Follow, Stream, NothingReplaced, Ordered, Cells, Stamps;
    if CommitsCleanly(h.st, c) {
      var h1 := Follow(h, c);
      CommitAppendsExactly(h, c);
      GrownStates(h, c);
      StampLogNext(h.states, h1.st.stores);
    } else {
      CleanIsPublishing(h, c);
      StampLogOrdered(h.states);
      StreamKept(h, c);
    }
  }

  lemma GrownStates(h: History, c: Command)
    requires HistoryOk(h) && CommitsCleanly(h.st, c)
    ensures h.states != [] && |h.states| == h.st.sequence + 1
            && Follow(h, c).states == h.states + [Follow(h, c).st.stores]
  {
    PublishedHistory(h, c);
  }

  lemma CleanIsPublishing(h: History, c: Command)
    requires HistoryOk(h)
    ensures CommitsCleanly(h.st, c) <==> PublishesBatch(h.st, c)
  {
    CommitsCleanlyExactly(h.st, c);
  }

  /** The log of stamps holds at every point of the run. */
  ghost predicate StampLogThroughout(h: History, commands: seq<Command>)
    decreases |commands|
  {
    IsStampLog(h) && (commands != [] ==> StampLogThroughout(Follow(h, commands[0]), commands[1..]))
  }

  /** At every point of a run, torn commits included, everything drained followed by the
      backlog is what every publishing commit stamped, each once and in commit order, if
      and only if no commit finds one of its committed cells still waiting. */
  lemma {:induction false} StampLogExactly(h: History, commands: seq<Command>)
    requires HistoryOk(h) && IsStampLog(h)
    ensures StampLogThroughout(h, commands) <==> AllAppend(h.st, commands)
    decreases |commands|
  {
    hide HistoryOk, IsStampLog, Appends, Step;
    if commands != [] {
      StampStepExactly(h, commands[0]);
      FollowKeeps(h, commands[0]);
      if Appends(h.st, commands[0]) {
        StampLogExactly(Follow(h, commands[0]), commands[1..]);
      } else {
        assert !StampLogThroughout(Follow(h, commands[0]), commands[1..]);
      }
    }
  }

  // ---- The log of writes ----------------------------------------------------

  // A published batch and the stores it was published to.
  datatype Publication = Publication(stores: seq<Store>, txs: seq<TableTx>)

  datatype Trail = Trail(h: History, published: seq<Publication>)

  function Extend(t: Trail, c: Command): Trail {
    Trail(Follow(t.h, c),
          if PublishesBatch(t.h.st, c)
          then t.published + [Publication(t.h.st.stores, SessionOf(t.h.st, c.sid).txs)] else t.published)
  }

  // The commit of this generation writes this vector into this cell.
  ghost predicate WrittenBy(published: seq<Publication>, d: Delta) {
    && 1 <= d.generation <= |published|
    && Writes(published[d.generation - 1].stores, published[d.generation - 1].txs, d.key, d.vector)
  }

  ghost predicate Once(deltas: seq<Delta>) {
    forall i, j :: 0 <= i < j < |deltas| ==>
      deltas[i].generation != deltas[j].generation || deltas[i].key != deltas[j].key
  }

  /** Exactly the vector writes of the published commits, each once, in commit order. */
  ghost predicate IsWriteLog(deltas: seq<Delta>, published: seq<Publication>) {
    && Ordered(deltas) && Once(deltas)
    && forall d :: d in deltas <==> WrittenBy(published, d)
  }

  ghost predicate TrailOk(t: Trail) {
    HistoryOk(t.h) && OverlayOk(t.h) && |t.published| == t.h.st.sequence
  }

  lemma ExtendKeeps(t: Trail, c: Command)
    requires TrailOk(t)
    ensures TrailOk(Extend(t, c))
  {
    hide Inv, OverlayOk, Step, PublishesBatch, StoresOk;
    FollowKeeps(t.h, c);
    FollowOverlay(t.h, c);
    BatchAdvances(t.h.st, c);
  }

  /** A commit that goes through touches every committed row that holds a vector and writes
      no cell whose delta is still waiting. */
  ghost predicate Logs(st: State, c: Command) {
    CommitsCleanly(st, c) ==>
      var txs := SessionOf(st, c.sid).txs;
      && BatchTouches(st.stores, txs)
      && forall i, vector :: 0 <= i < |st.overlay| ==> !Writes(st.stores, txs, st.overlay[i].key, vector)
  }

  ghost predicate AllLog(st: State, commands: seq<Command>)
    decreases |commands|
  {
    commands == [] || (Logs(st, commands[0]) && AllLog(Step(st, commands[0]).0, commands[1..]))
  }

  lemma TouchedReplacesNothing(st: State, txs: seq<TableTx>)
    requires BatchTouches(st.stores, txs)
    ensures NothingReplaced(st, txs) <==>
            forall i, vector :: 0 <= i < |st.overlay| ==> !Writes(st.stores, txs, st.overlay[i].key, vector)
  {
    hide Writes, Live, TouchedIn;
    forall key, vector ensures Lands(st.stores, txs, key, vector) <==> Writes(st.stores, txs, key, vector) {}
  }

  // Appending the stamps of a commit to a log of writes.
  lemma AppendedWrites(deltas: seq<Delta>, published: seq<Publication>, p: Publication)
    requires IsWriteLog(deltas, published) && CleanBatch(p.stores, p.txs)
    requires StoresOk(PublishAll(p.stores, p.txs).stores)
    ensures var cells := Cells(PublishAll(p.stores, p.txs).stores);
            IsWriteLog(deltas + Stamps(|published| + 1, cells), published + [p]) <==> BatchTouches(p.stores, p.txs)
  {
    hide CleanBatch, PublishAll, Live, CellsFrom, StoresOk, BatchTouches;
    BatchWritesExactly(p.stores, p.txs);
    var stores1 := PublishAll(p.stores, p.txs).stores;
    var cells := Cells(stores1);
    CellsDistinct(stores1, 0);
    forall key, vector ensures Cell(key, vector) in cells <==> Live(stores1, key, vector) {
      CellsFromExactly(stores1, 0, Cell(key, vector));
    }
    hide Writes;
    var g := |published| + 1;
    var stamps := Stamps(g, cells);
    StampsHold(g, cells);
    Joined(deltas, published, stamps, g);
    forall d: Delta
      ensures d.generation < g ==> (WrittenBy(published + [p], d) <==> WrittenBy(published, d))
      ensures d.generation == g ==> (WrittenBy(published + [p], d) <==> Writes(p.stores, p.txs, d.key, d.vector))
      ensures d.generation > g ==> !WrittenBy(published + [p], d)
    {}
    forall d: Delta
      ensures d in stamps <==> d.generation == g && Live(stores1, d.key, d.vector)
    {}
    AppendedMembers(deltas, published, p, stamps);
  }

  lemma AppendedMembers(deltas: seq<Delta>, published: seq<Publication>, p: Publication, stamps: seq<Delta>)
    requires forall d :: d in deltas <==> WrittenBy(published, d)
    requires forall d :: d in stamps <==>
               d.generation == |published| + 1 && Live(PublishAll(p.stores, p.txs).stores, d.key, d.vector)
    ensures (forall d :: d in deltas + stamps <==> WrittenBy(published + [p], d)) <==> CellsAreWrites(p.stores, p.txs)
  {
    hide PublishAll, Live, Writes;
    var g := |published| + 1;
    forall d: Delta
      ensures d.generation < g ==> (WrittenBy(published + [p], d) <==> WrittenBy(published, d))
      ensures d.generation == g ==> (WrittenBy(published + [p], d) <==> Writes(p.stores, p.txs, d.key, d.vector))
      ensures d.generation > g ==> !WrittenBy(published + [p], d)
      ensures d.generation >= g ==> d !in deltas
    {
      assert d in deltas <==> WrittenBy(published, d);
    }
    if forall d :: d in deltas + stamps <==> WrittenBy(published + [p], d) {
      forall key, vector
        ensures Live(PublishAll(p.stores, p.txs).stores, key, vector) <==> Writes(p.stores, p.txs, key, vector)
      {
        assert Delta(g, key, vector) in deltas + stamps <==> WrittenBy(published + [p], Delta(g, key, vector));
      }
    }
  }

  lemma StampsHold(g: nat, cells: seq<Cell>)
    ensures forall d :: d in Stamps(g, cells) <==> d.generation == g && Cell(d.key, d.vector) in cells
  {
    var stamps := Stamps(g, cells);
    forall d: Delta ensures d in stamps <==> d.generation == g && Cell(d.key, d.vector) in cells {
      if d.generation == g && Cell(d.key, d.vector) in cells {
        var i :| 0 <= i < |cells| && cells[i] == Cell(d.key, d.vector);
        assert stamps[i] == d;
      }
      if d in stamps {
        var i :| 0 <= i < |stamps| && stamps[i] == d;
        assert cells[i] == Cell(d.key, d.vector);
      }
    }
  }

  // A later commit's stamps keep the order and repeat nothing.
  lemma Joined(deltas: seq<Delta>, published: seq<Publication>, stamps: seq<Delta>, g: nat)
    requires IsWriteLog(deltas, published) && g == |published| + 1
    requires forall d :: d in stamps ==> d.generation == g
    requires forall i, j :: 0 <= i < j < |stamps| ==> stamps[i].key != stamps[j].key
    ensures Ordered(deltas + stamps) && Once(deltas + stamps)
  {
    hide Writes;
    var all := deltas + stamps;
    forall i | 0 <= i < |all| ensures if i < |deltas| then all[i].generation < g else all[i].generation == g {
      if i < |deltas| {
        assert deltas[i] in deltas && WrittenBy(published, deltas[i]);
      } else {
        assert stamps[i - |deltas|] in stamps;
      }
    }
  }

  // A delta that is replaced is lost: it was in the log once, and is not any more.
  lemma ReplacedIsLost(h: History, c: Command, published: seq<Publication>)
    requires HistoryOk(h) && OverlayOk(h) && CommitsCleanly(h.st, c)
    requires IsWriteLog(Stream(h), published) && |published| == h.st.sequence
    requires !NothingReplaced(h.st, SessionOf(h.st, c.sid).txs)
    ensures exists d :: WrittenBy(published, d) && d !in Stream(Follow(h, c))
  {
    hide HistoryOk, CommitsCleanly, Follow, CleanBatch, PublishAll, StoresOk, Lands, Writes, Live, RecordedIndexed,
      StampedRecorded, RecordAll, Cells;
    CleanIsCommit(h.st, c);
    var txs := SessionOf(h.st, c.sid).txs;
    PublishedHistory(h, c);
    var h1 := Follow(h, c);
    var i, vector :| 0 <= i < |h.st.overlay| && Lands(h.st.stores, txs, h.st.overlay[i].key, vector);
    var d := h.st.overlay[i];
    PublishedCells(h.st.stores, txs, d.key, vector);
    LiveRecorded(h.st.overlay, h.st.sequence + 1, h1.st.stores, d.key, vector);
    RecordAllKeeps(h.st.overlay, h.st.sequence + 1, Cells(h1.st.stores));
    LookupIn(h1.st.overlay, d.key);
    if d in h1.st.overlay { UniqueMember(h1.st.overlay, d, Delta(h.st.sequence + 1, d.key, vector)); }
    assert d !in h.drained by { DrainedOnce(h, i); }
    assert Stream(h)[|h.drained| + i] == d;
    assert d in Stream(h);
  }

  lemma DrainedOnce(h: History, i: nat)
    requires Once(Stream(h)) && i < |h.st.overlay|
    ensures h.st.overlay[i] !in h.drained
  {
    forall k | 0 <= k < |h.drained| ensures h.drained[k] != h.st.overlay[i] {
      assert Stream(h)[k] == h.drained[k] && Stream(h)[|h.drained| + i] == h.st.overlay[i];
    }
  }

  lemma LostIsNoLog(deltas: seq<Delta>, published: seq<Publication>, p: Publication, d: Delta)
    requires WrittenBy(published, d) && d !in deltas
    ensures !IsWriteLog(deltas, published + [p])
  {
    hide Writes;
    assert WrittenBy(published + [p], d);
  }

  /** One step keeps the log of writes if and only if it is no publishing commit, or one
      that touches every committed row with a vector and replaces no waiting delta. */
  lemma WriteStepExactly(t: Trail, c: Command)
    requires TrailOk(t) && IsWriteLog(Stream(t.h), t.published)
    ensures var t1 := Extend(t, c); IsWriteLog(Stream(t1.h), t1.published) <==> Logs(t.h.st, c)
  {
    CleanIsPublishing(t.h, c);
    if CommitsCleanly(t.h.st, c) {
      WriteCommitExactly(t, c);
    } else {
      hide HistoryOk, OverlayOk, CommitsCleanly, PublishesBatch, Follow, Stream, WrittenBy;
      StreamKept(t.h, c);
    }
  }

  lemma WriteCommitExactly(t: Trail, c: Command)
    requires TrailOk(t) && IsWriteLog(Stream(t.h), t.published) && CommitsCleanly(t.h.st, c)
    ensures var t1 := Extend(t, c); IsWriteLog(Stream(t1.h), t1.published) <==> Logs(t.h.st, c)
  {
    hide HistoryOk, OverlayOk, CommitsCleanly, PublishesBatch, Follow, Stream, CleanBatch, PublishAll, BatchTouches,
      StoresOk, NothingReplaced, Writes, Cells, RecordAll, IsWriteLog, WrittenBy, Stamps;
    CleanIsCommit(t.h.st, c);
    var txs := SessionOf(t.h.st, c.sid).txs;
    var p := Publication(t.h.st.stores, txs);
    CleanIsPublishing(t.h, c);
    PublishedHistory(t.h, c);
    CommitAppendsExactly(t.h, c);
    if BatchTouches(t.h.st.stores, txs) { TouchedReplacesNothing(t.h.st, txs); }
    if NothingReplaced(t.h.st, txs) {
      AppendedWrites(Stream(t.h), t.published, p);
    } else {
      ReplacedIsLost(t.h, c, t.published);
      var d :| WrittenBy(t.published, d) && d !in Stream(Follow(t.h, c));
      LostIsNoLog(Stream(Follow(t.h, c)), t.published, p, d);
    }
  }

  /** The log of writes holds at every point of the run. */
  ghost predicate WriteLogThroughout(t: Trail, commands: seq<Command>)
    decreases |commands|
  {
    && IsWriteLog(Stream(t.h), t.published)
    && (commands != [] ==> WriteLogThroughout(Extend(t, commands[0]), commands[1..]))
  }

  /** At every point of a run, torn commits included, everything drained followed by the
      backlog is exactly the vector writes of all published commits, each once and in
      commit order, if and only if every commit that goes through touches every committed
      row that holds a vector and writes no cell whose delta is still waiting. */
  lemma {:induction false} WriteLogExactly(t: Trail, commands: seq<Command>)
    requires TrailOk(t) && IsWriteLog(Stream(t.h), t.published)
    ensures WriteLogThroughout(t, commands) <==> AllLog(t.h.st, commands)
    decreases |commands|
  {
    hide TrailOk, IsWriteLog, Logs, Step, PublishesBatch;
    if commands != [] {
      WriteStepExactly(t, commands[0]);
      ExtendKeeps(t, commands[0]);
      if Logs(t.h.st, commands[0]) {
        WriteLogExactly(Extend(t, commands[0]), commands[1..]);
      } else {
        assert !WriteLogThroughout(Extend(t, commands[0]), commands[1..]);
      }
    }
  }

  /** An opened database starts with both logs, and empty ones. */
  lemma OpenedLogs(stores: seq<Store>, q: nat, r: nat)
    requires StoresOk(stores)
    ensures IsStampLog(Opened(stores, q, r))
    ensures var t := Trail(Opened(stores, q, r), []); TrailOk(t) && IsWriteLog(Stream(t.h), t.published)
  {
    OpenedOk(stores, q, r);
    OpenedOverlay(stores, q, r);
  }

  /** From opening a database, over every run. */
  lemma OverlayLogsExactly(stores: seq<Store>, q: nat, r: nat, commands: seq<Command>)
    requires StoresOk(stores)
    ensures StampLogThroughout(Opened(stores, q, r), commands) <==> AllAppend(Open(stores, q, r), commands)
    ensures WriteLogThroughout(Trail(Opened(stores, q, r), []), commands) <==> AllLog(Open(stores, q, r), commands)
  {
    OpenedOk(stores, q, r);
    OpenedLogs(stores, q, r);
    hide StoresOk, HistoryOk, TrailOk, IsWriteLog, IsStampLog, StampLogThroughout, WriteLogThroughout, AllAppend,
      AllLog;
    StampLogExactly(Opened(stores, q, r), commands);
    WriteLogExactly(Trail(Opened(stores, q, r), []), commands);
  }
}
