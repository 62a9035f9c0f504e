/** The vector overlay over whole runs, torn commits included: what a background index
    worker that drains it can rely on. Every publishing commit records every committed
    vector cell again under the new generation, and nothing ever removes the delta of a
    deleted row. */
module VectorOverlay {
  import opened Values
  import opened Rows
  import Tx = Transactions
  import opened Engine
  import opened EngineInvariant
  import opened Snapshots
  import opened Replay
  import opened Generations

  // ---- Which cells are committed --------------------------------------------

  ghost predicate RowHolds(row: Row, column: nat, vector: seq<U32>) {
    column < |row.values| && row.values[column] == Vector(vector)
  }

  /** The committed stores hold this vector in this cell. */
  ghost predicate Live(stores: seq<Store>, key: Key, vector: seq<U32>) {
    && key.table < |stores|
    && exists i :: 0 <= i < |stores[key.table].rows| && stores[key.table].rows[i].id == key.row
         && RowHolds(stores[key.table].rows[i], key.column, vector)
  }

  ghost predicate LiveKey(stores: seq<Store>, key: Key) {
    exists vector :: Live(stores, key, vector)
  }

  lemma {:induction false} RowCellsExactly(table: nat, row: Row, c: nat, cell: Cell)
    requires c <= |row.values|
    ensures cell in RowCells(table, row, c) <==>
            cell.key.table == table && cell.key.row == row.id && c <= cell.key.column
            && RowHolds(row, cell.key.column, cell.vector)
    decreases |row.values| - c
  {
    if c < |row.values| {
      RowCellsExactly(table, row, c + 1, cell);
      assert cell == Cell(Key(cell.key.table, cell.key.column, cell.key.row), cell.vector);
    }
  }

  lemma {:induction false} RowsCellsExactly(table: nat, rows: seq<Row>, cell: Cell)
    ensures cell in RowsCells(table, rows) <==>
            cell.key.table == table
            && exists i ::
                 0 <= i < |rows| && rows[i].id == cell.key.row && RowHolds(rows[i], cell.key.column, cell.vector)
  {
    if rows != [] {
      RowCellsExactly(table, rows[0], 0, cell);
      RowsCellsExactly(table, rows[1..], cell);
      if i :| 0 <= i < |rows| && rows[i].id == cell.key.row && RowHolds(rows[i], cell.key.column, cell.vector) {
        if i > 0 { assert rows[1..][i - 1] == rows[i]; }
      }
      var rest := rows[1..];
      if i :| 0 <= i < |rest| && rest[i].id == cell.key.row && RowHolds(rest[i], cell.key.column, cell.vector) {
        assert rows[i + 1] == rest[i];
      }
    }
  }

  lemma {:induction false} CellsFromExactly(stores: seq<Store>, t: nat, cell: Cell)
    requires t <= |stores|
    ensures cell in CellsFrom(stores, t) <==> t <= cell.key.table && Live(stores, cell.key, cell.vector)
    decreases |stores| - t
  {
    if t < |stores| {
      RowsCellsExactly(t, stores[t].rows, cell);
      CellsFromExactly(stores, t + 1, cell);
    }
  }

  // A committed cell holds one vector.
  lemma LiveIsFunctional(stores: seq<Store>, key: Key, a: seq<U32>, b: seq<U32>)
    requires StoresOk(stores) && Live(stores, key, a) && Live(stores, key, b)
    ensures a == b
  {
    assert UniqueIds(stores[key.table].rows) by { assert StoreOk(stores[key.table]); }
    hide StoresOk;
    CellIsFunctional(stores[key.table].rows, key, a, b);
  }

  lemma CellIsFunctional(rows: seq<Row>, key: Key, a: seq<U32>, b: seq<U32>)
    requires UniqueIds(rows)
    requires exists i :: 0 <= i < |rows| && rows[i].id == key.row && RowHolds(rows[i], key.column, a)
    requires exists i :: 0 <= i < |rows| && rows[i].id == key.row && RowHolds(rows[i], key.column, b)
    ensures a == b
  {
    var i :| 0 <= i < |rows| && rows[i].id == key.row && RowHolds(rows[i], key.column, a);
    var j :| 0 <= j < |rows| && rows[j].id == key.row && RowHolds(rows[j], key.column, b);
    assert i == j;
  }

  // ---- Recording ------------------------------------------------------------

  function Lookup(deltas: seq<Delta>, key: Key): Option<Delta> {
    if deltas == [] then None
    else if deltas[0].key == key then Some(deltas[0])
    else Lookup(deltas[1..], key)
  }

  // The last delta for the cell.
  function Latest(deltas: seq<Delta>, key: Key): Option<Delta> {
    if deltas == [] then None
    else
      var last := deltas[|deltas| - 1];
      if last.key == key then Some(last) else Latest(deltas[..|deltas| - 1], key)
  }

  ghost predicate UniqueKeys(deltas: seq<Delta>) {
    forall i, j :: 0 <= i < j < |deltas| ==> deltas[i].key != deltas[j].key
  }

  lemma {:induction false} RecordLookup(overlay: seq<Delta>, g: nat, cell: Cell, key: Key)
    ensures Lookup(RecordVector(overlay, g, cell), key) ==
            if key == cell.key then Some(Delta(g, key, cell.vector)) else Lookup(overlay, key)
  {
    if overlay != [] && overlay[0].key != cell.key { RecordLookup(overlay[1..], g, cell, key); }
  }

  lemma {:induction false} LookupIn(deltas: seq<Delta>, key: Key)
    ensures Lookup(deltas, key).Some? ==> Lookup(deltas, key).value in deltas && Lookup(deltas, key).value.key == key
    ensures Lookup(deltas, key).None? <==> forall i :: 0 <= i < |deltas| ==> deltas[i].key != key
  {
    if deltas != [] {
      LookupIn(deltas[1..], key);
      if Lookup(deltas, key).None? {
        forall i | 0 <= i < |deltas| ensures deltas[i].key != key {
          if i > 0 { assert deltas[i] == deltas[1..][i - 1]; }
        }
      }
    }
  }

  lemma {:induction false} RecordKeepsUnique(overlay: seq<Delta>, g: nat, cell: Cell)
    requires UniqueKeys(overlay)
    ensures UniqueKeys(RecordVector(overlay, g, cell))
  {
    if overlay != [] {
      var next := RecordVector(overlay, g, cell);
      if overlay[0].key == cell.key {
        assert next[1..] == overlay[1..];
      } else {
        RecordKeepsUnique(overlay[1..], g, cell);
        RecordLookup(overlay[1..], g, cell, overlay[0].key);
        LookupIn(overlay[1..], overlay[0].key);
        LookupIn(RecordVector(overlay[1..], g, cell), overlay[0].key);
        assert next[1..] == RecordVector(overlay[1..], g, cell);
      }
    }
  }

  ghost predicate Records(cells: seq<Cell>, key: Key) {
    exists i :: 0 <= i < |cells| && cells[i].key == key
  }

  // Recording a batch of cells replaces exactly their deltas.
  lemma {:induction false} RecordAllLookup(overlay: seq<Delta>, g: nat, cells: seq<Cell>, key: Key)
    requires UniqueKeys(overlay)
    ensures UniqueKeys(RecordAll(overlay, g, cells))
    ensures !Records(cells, key) ==> Lookup(RecordAll(overlay, g, cells), key) == Lookup(overlay, key)
    ensures Records(cells, key) ==>
              var d := Lookup(RecordAll(overlay, g, cells), key);
              d.Some? && d.value.generation == g && Cell(key, d.value.vector) in cells
    decreases |cells|
  {
    if cells != [] {
      var next := RecordVector(overlay, g, cells[0]);
      RecordKeepsUnique(overlay, g, cells[0]);
      RecordLookup(overlay, g, cells[0], key);
      RecordAllLookup(next, g, cells[1..], key);
      if Records(cells[1..], key) {
        var i :| 0 <= i < |cells[1..]| && cells[1..][i].key == key;
        assert cells[i + 1].key == key;
      } else if Records(cells, key) {
        var i :| 0 <= i < |cells| && cells[i].key == key;
        assert i > 0 ==> cells[1..][i - 1].key == key;
        assert cells[0] == Cell(key, cells[0].vector);
      }
    }
  }

  // ---- Draining -------------------------------------------------------------

  // A drain loses, doubles and changes nothing.
  lemma {:induction false} DrainConserves(overlay: seq<Delta>, through: nat, max: nat)
    ensures var (taken, kept) := DrainReady(overlay, through, max);
            multiset(taken) + multiset(kept) == multiset(overlay)
    decreases |overlay|
  {
    if overlay != [] && max != 0 {
      assert overlay == [overlay[0]] + overlay[1..];
      DrainConserves(overlay[1..], through, if overlay[0].generation > through then max else max - 1);
    }
  }

  ghost predicate NoneNewer(deltas: seq<Delta>, g: nat) {
    forall i :: 0 <= i < |deltas| ==> deltas[i].generation <= g
  }

  ghost predicate AllNewer(deltas: seq<Delta>, g: nat) {
    forall i :: 0 <= i < |deltas| ==> deltas[i].generation > g
  }

  /** A drain takes at most `max` deltas, none newer than `through`; when it takes
      fewer, everything that stays behind is newer. */
  lemma {:induction false} DrainTakesReady(overlay: seq<Delta>, through: nat, max: nat)
    ensures var (taken, kept) := DrainReady(overlay, through, max);
            |taken| <= max && NoneNewer(taken, through) && (|taken| < max ==> AllNewer(kept, through))
    decreases |overlay|
  {
    if overlay != [] && max != 0 {
      DrainTakesReady(overlay[1..], through, if overlay[0].generation > through then max else max - 1);
    }
  }

  // What is taken and what is kept were both in the overlay.
  lemma {:induction false} DrainSelects(overlay: seq<Delta>, through: nat, max: nat, d: Delta)
    ensures var (taken, kept) := DrainReady(overlay, through, max);
            d in overlay <==> d in taken || d in kept
    decreases |overlay|
  {
    if overlay != [] && max != 0 {
      assert overlay == [overlay[0]] + overlay[1..];
      DrainSelects(overlay[1..], through, if overlay[0].generation > through then max else max - 1, d);
    }
  }

  // Every cell's delta is either taken or kept, never both.
  lemma {:induction false} DrainLookup(overlay: seq<Delta>, through: nat, max: nat, key: Key)
    requires UniqueKeys(overlay)
    ensures var (taken, kept) := DrainReady(overlay, through, max);
            && UniqueKeys(taken) && UniqueKeys(kept)
            && (if Lookup(taken, key).Some?
                then Lookup(taken, key) == Lookup(overlay, key) && Lookup(kept, key).None?
                else Lookup(kept, key) == Lookup(overlay, key))
    decreases |overlay|
  {
    if overlay != [] && max != 0 {
      var m := if overlay[0].generation > through then max else max - 1;
      var rest := overlay[1..];
      assert UniqueKeys(rest);
      DrainLookup(rest, through, m, key);
      DrainLookup(rest, through, m, overlay[0].key);
      LookupIn(rest, overlay[0].key);
      assert forall i :: 0 <= i < |rest| ==> rest[i] == overlay[i + 1];
      assert Lookup(rest, overlay[0].key).None?;
      var (taken, kept) := DrainReady(rest, through, m);
      LookupIn(taken, overlay[0].key);
      LookupIn(kept, overlay[0].key);
    }
  }

  lemma {:induction false} LatestAfter(a: seq<Delta>, b: seq<Delta>, key: Key)
    requires UniqueKeys(b)
    ensures Latest(a + b, key) == if Lookup(b, key).Some? then Lookup(b, key) else Latest(a, key)
    decreases |b|
  {
    if b == [] {
      assert a + b == a;
    } else {
      var n := |b| - 1;
      assert (a + b)[..|a + b| - 1] == a + b[..n];
      LatestAfter(a, b[..n], key);
      LookupSnoc(b, key);
    }
  }

  lemma {:induction false} LookupSnoc(b: seq<Delta>, key: Key)
    requires b != [] && UniqueKeys(b)
    ensures Lookup(b, key) == if b[|b| - 1].key == key then Some(b[|b| - 1]) else Lookup(b[..|b| - 1], key)
  {
    if |b| > 1 {
      assert b[1..][..|b| - 2] == b[..|b| - 1][1..];
      LookupSnoc(b[1..], key);
    }
  }

  // ---- One commit -----------------------------------------------------------

  lemma {:induction false} RecordKeepsBound(overlay: seq<Delta>, g: nat, cell: Cell)
    requires NoneNewer(overlay, g)
    ensures NoneNewer(RecordVector(overlay, g, cell), g)
  {
    if overlay != [] && overlay[0].key != cell.key { RecordKeepsBound(overlay[1..], g, cell); }
  }

  lemma {:induction false} RecordAllKeeps(overlay: seq<Delta>, g: nat, cells: seq<Cell>)
    requires UniqueKeys(overlay) && NoneNewer(overlay, g)
    ensures UniqueKeys(RecordAll(overlay, g, cells)) && NoneNewer(RecordAll(overlay, g, cells), g)
    decreases |cells|
  {
    if cells != [] {
      RecordKeepsBound(overlay, g, cells[0]);
      RecordKeepsUnique(overlay, g, cells[0]);
      RecordAllKeeps(RecordVector(overlay, g, cells[0]), g, cells[1..]);
    }
  }

  // After recording the committed cells, the delta of each holds its vector.
  lemma LiveRecorded(overlay: seq<Delta>, g: nat, stores: seq<Store>, key: Key, vector: seq<U32>)
    requires UniqueKeys(overlay) && StoresOk(stores) && Live(stores, key, vector)
    ensures Lookup(RecordAll(overlay, g, Cells(stores)), key) == Some(Delta(g, key, vector))
  {
    hide StoresOk, Live;
    var cells := Cells(stores);
    hide Cells;
    RecordedIsLive(stores, key, vector);
    RecordAllLookup(overlay, g, cells, key);
    var d := Lookup(RecordAll(overlay, g, cells), key).value;
    LookupIn(RecordAll(overlay, g, cells), key);
    RecordedIsThis(stores, key, vector, d.vector);
  }

  lemma RecordedIsLive(stores: seq<Store>, key: Key, vector: seq<U32>)
    requires Live(stores, key, vector)
    ensures Records(Cells(stores), key)
  {
    CellsFromExactly(stores, 0, Cell(key, vector));
    var i :| 0 <= i < |Cells(stores)| && Cells(stores)[i] == Cell(key, vector);
    assert Cells(stores)[i].key == key;
  }

  lemma RecordedIsThis(stores: seq<Store>, key: Key, vector: seq<U32>, recorded: seq<U32>)
    requires StoresOk(stores) && Live(stores, key, vector) && Cell(key, recorded) in Cells(stores)
    ensures recorded == vector
  {
    CellsFromExactly(stores, 0, Cell(key, recorded));
    LiveIsFunctional(stores, key, vector, recorded);
  }

  lemma CommitOverlay(st: State, sid: nat)
    requires Inv(st) && PublishesBatch(st, Commit(sid))
    ensures var st1 := CommitStep(st, sid).0;
            st1.overlay == RecordAll(st.overlay, st1.sequence, Cells(st1.stores)) && st1.sequence > 0
  {
    hide Inv, RetainCurrent, PublishAll, RecordAll, Cells, Release;
  }

  lemma UniqueMember(deltas: seq<Delta>, a: Delta, b: Delta)
    requires UniqueKeys(deltas) && a in deltas && b in deltas && a.key == b.key
    ensures a == b
  {
    var i :| 0 <= i < |deltas| && deltas[i] == a;
    var j :| 0 <= j < |deltas| && deltas[j] == b;
    assert i == j;
  }

  lemma StampedByRecording(overlay: seq<Delta>, g: nat, stores: seq<Store>, d: Delta)
    requires UniqueKeys(overlay) && NoneNewer(overlay, g) && StoresOk(stores)
    requires d.generation == g + 1
    ensures d in RecordAll(overlay, g + 1, Cells(stores)) <==> Live(stores, d.key, d.vector)
  {
    var next := RecordAll(overlay, g + 1, Cells(stores));
    RecordAllKeeps(overlay, g + 1, Cells(stores));
    LookupIn(next, d.key);
    if d in next { UniqueMember(next, d, Lookup(next, d.key).value); }
    hide RecordAll, StoresOk, Live;
    if Records(Cells(stores), d.key) {
      var i :| 0 <= i < |Cells(stores)| && Cells(stores)[i].key == d.key;
      CellsFromExactly(stores, 0, Cells(stores)[i]);
      LiveRecorded(overlay, g + 1, stores, d.key, Cells(stores)[i].vector);
      if Live(stores, d.key, d.vector) { LiveRecorded(overlay, g + 1, stores, d.key, d.vector); }
    } else {
      RecordAllLookup(overlay, g + 1, Cells(stores), d.key);
      LookupIn(overlay, d.key);
      if Live(stores, d.key, d.vector) { RecordedIsLive(stores, d.key, d.vector); }
    }
  }

  lemma CommitStoresOk(st: State, sid: nat)
    requires Inv(st)
    ensures StoresOk(CommitStep(st, sid).0.stores)
  {
    hide CommitStep;
    StepKeeps(st, Commit(sid));
  }

  /** The deltas a commit stamps with its generation are all committed vector cells,
      not the cells it wrote. */
  lemma StampedCellsExactly(st: State, sid: nat, d: Delta)
    requires Inv(st) && UniqueKeys(st.overlay) && NoneNewer(st.overlay, st.sequence) && PublishesBatch(st, Commit(sid))
    ensures var st1 := CommitStep(st, sid).0;
            d.generation == st1.sequence ==> (d in st1.overlay <==> Live(st1.stores, d.key, d.vector))
  {
    hide Inv, Step, CommitStep, Cells, RecordAll, StoresOk, Live, PublishesBatch;
    CommitOverlay(st, sid);
    BatchAdvances(st, Commit(sid));
    StepIsCommit(st, sid);
    CommitStoresOk(st, sid);
    if d.generation == CommitStep(st, sid).0.sequence {
      StampedByRecording(st.overlay, st.sequence, CommitStep(st, sid).0.stores, d);
    }
  }

  /** Deletes are not recorded: a publishing commit leaves the deltas of cells that are
      not committed any more exactly as they were, and adds a delta for every committed
      cell. The overlay holds a cell afterwards exactly when it held it before or the
      cell is committed. */
  lemma PublishedOverlayKeys(st: State, sid: nat, key: Key)
    requires Inv(st) && UniqueKeys(st.overlay) && PublishesBatch(st, Commit(sid))
    ensures var st1 := CommitStep(st, sid).0;
            && (!LiveKey(st1.stores, key) ==> Lookup(st1.overlay, key) == Lookup(st.overlay, key))
            && (Lookup(st1.overlay, key).Some? <==> LiveKey(st1.stores, key) || Lookup(st.overlay, key).Some?)
  {
    CommitOverlay(st, sid);
    var st1 := CommitStep(st, sid).0;
    hide Inv, CommitStep, RecordAll, PublishesBatch;
    RecordAllLookup(st.overlay, st1.sequence, Cells(st1.stores), key);
    if Records(Cells(st1.stores), key) {
      var i :| 0 <= i < |Cells(st1.stores)| && Cells(st1.stores)[i].key == key;
      CellsFromExactly(st1.stores, 0, Cells(st1.stores)[i]);
    } else if vector :| Live(st1.stores, key, vector) {
      RecordedIsLive(st1.stores, key, vector);
    }
  }

  // ---- Over whole runs ------------------------------------------------------

  /** The delta an index holds for a cell after applying everything drained so far
      and then the backlog. */
  function Indexed(h: History, key: Key): Option<Delta> {
    var waiting := Lookup(h.st.overlay, key);
    if waiting.Some? then waiting else Latest(h.drained, key)
  }

  // Whatever carries the current generation was committed when that generation was
  // published.
  ghost predicate StampedRecorded(deltas: seq<Delta>, g: nat, stores: seq<Store>) {
    forall i :: 0 <= i < |deltas| && deltas[i].generation == g ==> Live(stores, deltas[i].key, deltas[i].vector)
  }

  ghost predicate RecordedIndexed(h: History)
    requires h.states != []
  {
    forall key, vector :: Live(Recorded(h), key, vector) ==>
      Indexed(h, key) == Some(Delta(h.st.sequence, key, vector))
  }

  ghost predicate OverlayOk(h: History) {
    && h.states != []
    && UniqueKeys(h.st.overlay)
    && NoneNewer(h.st.overlay, h.st.sequence) && NoneNewer(h.drained, h.st.sequence)
    && (h.st.sequence == 0 ==> h.st.overlay == [] && h.drained == [])
    && (h.st.sequence > 0 ==>
          && StampedRecorded(h.st.overlay, h.st.sequence, Recorded(h))
          && StampedRecorded(h.drained, h.st.sequence, Recorded(h))
          && RecordedIndexed(h))
  }

  lemma PublishOverlay(h: History, sid: nat)
    requires HistoryOk(h) && OverlayOk(h) && PublishesBatch(h.st, Commit(sid))
    ensures OverlayOk(Follow(h, Commit(sid)))
  {
    hide Inv, Step, CommitStep, Cells, RecordAll, StoresOk, Live, Lookup, Latest, PublishesBatch;
    var h1 := Follow(h, Commit(sid));
    var cells := Cells(h1.st.stores);
    CommitOverlay(h.st, sid);
    CommitStoresOk(h.st, sid);
    BatchAdvances(h.st, Commit(sid));
    StepIsCommit(h.st, sid);
    CommitDrainsNothing(h.st, sid);
    RecordAllKeeps(h.st.overlay, h1.st.sequence, cells);
    forall key, vector | Live(h1.st.stores, key, vector)
      ensures Indexed(h1, key) == Some(Delta(h1.st.sequence, key, vector))
    {
      LiveRecorded(h.st.overlay, h1.st.sequence, h1.st.stores, key, vector);
    }
    forall i | 0 <= i < |h1.st.overlay| && h1.st.overlay[i].generation == h1.st.sequence
      ensures Live(h1.st.stores, h1.st.overlay[i].key, h1.st.overlay[i].vector)
    {
      assert h1.st.overlay[i] in h1.st.overlay;
      StampedByRecording(h.st.overlay, h.st.sequence, h1.st.stores, h1.st.overlay[i]);
    }
  }

  lemma CommitDrainsNothing(st: State, sid: nat)
    ensures !CommitStep(st, sid).1.Drained?
  {
    hide RetainCurrent, PublishAll, RecordAll, Cells, Release;
  }

  lemma DrainOverlay(h: History, through: nat, max: nat)
    requires OverlayOk(h)
    ensures OverlayOk(Follow(h, Drain(through, max)))
  {
    hide Live;
    var h1 := Follow(h, Drain(through, max));
    var (taken, kept) := DrainReady(h.st.overlay, through, max);
    assert h1.st == h.st.(overlay := kept) && h1.drained == h.drained + taken && h1.states == h.states;
    assert h1.st.sequence == 0 ==> kept == [] && taken == [];
    hide Step, DrainReady;
    forall key ensures UniqueKeys(kept) && Indexed(h1, key) == Indexed(h, key) {
      DrainLookup(h.st.overlay, through, max, key);
      LatestAfter(h.drained, taken, key);
    }
    assert UniqueKeys(kept) by { DrainLookup(h.st.overlay, through, max, Key(0, 0, 0)); }
    forall d | d in taken || d in kept ensures d in h.st.overlay {
      DrainSelects(h.st.overlay, through, max, d);
    }
    PartKeeps(h.st.overlay, taken, h.st.sequence, Recorded(h));
    PartKeeps(h.st.overlay, kept, h.st.sequence, Recorded(h));
  }

  // A part of the overlay keeps its bound and its stamps.
  lemma PartKeeps(whole: seq<Delta>, part: seq<Delta>, g: nat, stores: seq<Store>)
    requires NoneNewer(whole, g) && forall d :: d in part ==> d in whole
    ensures NoneNewer(part, g)
    ensures StampedRecorded(whole, g, stores) ==> StampedRecorded(part, g, stores)
  {
    hide Live;
    forall i | 0 <= i < |part| ensures part[i] in whole { assert part[i] in part; }
  }

  lemma OverlayKept(h: History, h1: History)
    requires OverlayOk(h) && h1.states == h.states && h1.drained == h.drained
    requires h1.st.overlay == h.st.overlay && h1.st.sequence == h.st.sequence
    ensures OverlayOk(h1)
  {
    hide Live;
    forall key ensures Indexed(h1, key) == Indexed(h, key) {}
  }

  lemma QuietOverlay(st: State, c: Command)
    requires !c.Drain? && !PublishesBatch(st, c)
    ensures Step(st, c).0.overlay == st.overlay && !Step(st, c).1.Drained?
  {
    hide RetainCurrent, PublishAll, RollbackAll, EntryFor, Release, ReadTable, RecordAll, Cells;
  }

  lemma FollowOverlay(h: History, c: Command)
    requires HistoryOk(h) && OverlayOk(h)
    ensures OverlayOk(Follow(h, c))
  {
    hide OverlayOk, Step, Inv;
    if PublishesBatch(h.st, c) {
      PublishOverlay(h, c.sid);
    } else if c.Drain? {
      DrainOverlay(h, c.through, c.max);
    } else {
      QuietOverlay(h.st, c);
      BatchAdvances(h.st, c);
      OverlayKept(h, Follow(h, c));
    }
  }

  lemma {:induction false} RunsKeepOverlay(h: History, commands: seq<Command>)
    requires HistoryOk(h) && OverlayOk(h)
    ensures HistoryOk(FollowAll(h, commands)) && OverlayOk(FollowAll(h, commands))
    decreases |commands|
  {
    hide OverlayOk, HistoryOk, Follow;
    if commands != [] {
      FollowOverlay(h, commands[0]);
      FollowKeeps(h, commands[0]);
      RunsKeepOverlay(Follow(h, commands[0]), commands[1..]);
    }
  }

  lemma {:induction false} LatestIn(deltas: seq<Delta>, key: Key)
    ensures Latest(deltas, key).Some? ==> Latest(deltas, key).value in deltas && Latest(deltas, key).value.key == key
    decreases |deltas|
  {
    if deltas != [] && deltas[|deltas| - 1].key != key { LatestIn(deltas[..|deltas| - 1], key); }
  }

  /** The index holds a cell under the current generation exactly with the vector it had
      at the last publishing commit; before the first one it holds nothing. */
  lemma IndexHoldsLastPublished(h: History, key: Key, vector: seq<U32>)
    requires OverlayOk(h)
    ensures h.st.sequence > 0 ==>
              (Indexed(h, key) == Some(Delta(h.st.sequence, key, vector)) <==> Live(Recorded(h), key, vector))
    ensures h.st.sequence == 0 ==> Indexed(h, key).None?
  {
    hide Live;
    LookupIn(h.st.overlay, key);
    LatestIn(h.drained, key);
  }

  /** Every committed vector cell is indexed with its current vector, under the current
      generation. */
  ghost predicate IndexCurrent(h: History) {
    forall key, vector :: Live(h.st.stores, key, vector) ==>
      Indexed(h, key) == Some(Delta(h.st.sequence, key, vector))
  }

  // No vector cell has been added or changed since the last publishing commit.
  ghost predicate NoNewVectors(h: History)
    requires h.states != []
  {
    forall key, vector :: Live(h.st.stores, key, vector) ==> h.st.sequence > 0 && Live(Recorded(h), key, vector)
  }

  lemma IndexCurrentExactly(h: History)
    requires OverlayOk(h)
    ensures IndexCurrent(h) <==> NoNewVectors(h)
  {
    forall key, vector
      ensures Indexed(h, key) == Some(Delta(h.st.sequence, key, vector)) <==>
              h.st.sequence > 0 && Live(Recorded(h), key, vector)
    {
      IndexHoldsLastPublished(h, key, vector);
    }
    hide Live, OverlayOk, Indexed;
  }

  lemma OpenedOverlay(stores: seq<Store>, q: nat, r: nat)
    ensures OverlayOk(Opened(stores, q, r))
  {}

  /** From opening a database, over every run of commits, torn ones included, and drains:
      an index that applies the drained deltas in the order they were drained, and then
      the backlog, holds the current vector of every committed cell if and only if no
      vector cell was added or changed outside a publishing commit, by what the database
      was opened with or by a torn commit since the last one. Intact stores and one
      publishing commit are enough. */
  lemma DrainedIndexExactly(stores: seq<Store>, q: nat, r: nat, commands: seq<Command>)
    requires StoresOk(stores)
    ensures var h := FollowAll(Opened(stores, q, r), commands);
            && h.states != []
            && (IndexCurrent(h) <==> NoNewVectors(h))
            && (Intact(h) && h.st.sequence > 0 ==> IndexCurrent(h))
  {
    hide OverlayOk, HistoryOk, FollowAll, IndexCurrent, Live, StoresOk, Opened;
    OpenedOk(stores, q, r);
    OpenedOverlay(stores, q, r);
    RunsKeepOverlay(Opened(stores, q, r), commands);
    var h := FollowAll(Opened(stores, q, r), commands);
    OverlayStates(h);
    IndexCurrentExactly(h);
  }

  lemma OverlayStates(h: History)
    requires OverlayOk(h)
    ensures h.states != []
  {}

  /** A drain bounded by an earlier generation hands out only cells that no longer
      existed at the last publishing commit. */
  lemma EarlierDrainsAreStale(h: History, through: nat, max: nat)
    requires OverlayOk(h) && through < h.st.sequence
    ensures var taken := DrainReady(h.st.overlay, through, max).0;
            forall i :: 0 <= i < |taken| ==> !LiveKey(Recorded(h), taken[i].key)
  {
    hide Live;
    DrainTakesReady(h.st.overlay, through, max);
    var taken := DrainReady(h.st.overlay, through, max).0;
    hide DrainReady;
    forall i | 0 <= i < |taken| ensures !LiveKey(Recorded(h), taken[i].key) {
      DrainSelects(h.st.overlay, through, max, taken[i]);
      LookupIn(h.st.overlay, taken[i].key);
      UniqueMember(h.st.overlay, taken[i], Lookup(h.st.overlay, taken[i].key).value);
      assert Indexed(h, taken[i].key) == Some(taken[i]);
    }
  }

  // ---- A cell written once is drained again and again -----------------------

  ghost predicate AtRest(st: State) {
    && |st.stores| > 0 && st.registry.active == [] && st.registry.retained == []
    && SessionOf(st, 1) == Session(false, 0, [], SessionOf(st, 1).lastCommit)
    && st.queue == Queue(st.queue.limit, 0, st.sequence) && st.queue.limit > 0
  }

  const ROUND := [Begin(1), Touch(1, 0), Commit(1)]

  // A transaction that writes nothing, from a state at rest.
  lemma EmptyRound(st: State)
    requires AtRest(st)
    ensures var st1 := Run(st, ROUND);
            && AtRest(st1) && st1.stores == st.stores && st1.sequence == st.sequence + 1
            && st1.overlay == RecordAll(st.overlay, st1.sequence, Cells(st.stores))
  {
    var st1 := Step(st, ROUND[0]).0;
    assert st1.sessions[1].txs == [] && st1.registry.active == [ActiveGeneration(st.sequence, 1)];
    var st2 := Step(st1, ROUND[1]).0;
    var entry := TableTx(0, Tx.Begin(st.stores[0]));
    assert [] + [entry] == [entry] && [entry][0 := entry] == [entry];
    assert EntryFor([entry], 0) == Some(0);
    assert st2 == WithSession(st1, 1, st1.sessions[1].(txs := [entry]));
    PublishNothing(st.stores);
    hide RecordAll, Cells, PublishAll;
    var st3 := Step(st2, ROUND[2]).0;
    assert DropRef([ActiveGeneration(st.sequence, 1)], st.sequence) == [];
    assert RetainCurrent(st2, st2.sessions[1]) == (st2.registry, None);
    assert Run(st, ROUND) == st3 by {
      hide Step;
      assert ROUND[1..] == [Touch(1, 0), Commit(1)] && ROUND[1..][1..] == [Commit(1)] && [Commit(1)][1..] == [];
    }
  }

  lemma PublishNothing(stores: seq<Store>)
    requires |stores| > 0
    ensures var p := PublishAll(stores, [TableTx(0, Tx.Begin(stores[0]))]);
            p.error.None? && p.stores == stores
  {
    var entry := TableTx(0, Tx.Begin(stores[0]));
    assert Tx.Publish(entry.tx, stores[0]) == Ok(stores[0]);
    assert [entry][1..] == [] && stores[0 := stores[0]] == stores;
  }

  lemma DrainOne(d: Delta, through: nat)
    requires d.generation <= through
    ensures DrainReady([d], through, 1) == ([d], [])
  {
    assert [d][1..] == [] && [d] + [] == [d];
    assert DrainReady([], through, 0) == ([], []);
  }

  /** The overlay is not a log of vector writes: with one committed vector cell, two
      transactions that write nothing make two drains hand that cell out twice. */
  lemma DrainedWithoutAWrite(stores: seq<Store>, cell: Cell, q: nat, r: nat)
    requires |stores| > 0 && q > 0 && Cells(stores) == [cell]
    ensures var st1 := Run(Open(stores, q, r), ROUND);
            var (st2, first) := Step(st1, Drain(1, 1));
            var (st4, second) := Step(Run(st2, ROUND), Drain(2, 1));
            && first == Drained([Delta(1, cell.key, cell.vector)])
            && second == Drained([Delta(2, cell.key, cell.vector)])
            && st4.stores == stores
  {
    hide Run, Cells;
    var st1 := Run(Open(stores, q, r), ROUND);
    EmptyRound(Open(stores, q, r));
    assert [cell][1..] == [];
    assert st1.overlay == [Delta(1, cell.key, cell.vector)];
    DrainOne(st1.overlay[0], 1);
    var st2 := Step(st1, Drain(1, 1)).0;
    assert AtRest(st2);
    EmptyRound(st2);
    var st3 := Run(st2, ROUND);
    assert st3.overlay == [Delta(2, cell.key, cell.vector)];
    DrainOne(st3.overlay[0], 2);
  }
}
