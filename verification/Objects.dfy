/** The parts of the engine as the objects they are: a snapshot registry, a commit
    queue, a vector overlay and the publishing of one table's transaction, each
    updated in place and proved against the state machine's functions. */
module Objects {
  import opened Values
  import opened Rows
  import Tx = Transactions
  import opened Engine

  // ---- Snapshot registry ----------------------------------------------------

  ghost predicate FirstActive(active: seq<ActiveGeneration>, g: nat, index: Option<nat>) {
    match index
    case Some(i) => i < |active| && active[i].generation == g && forall k :: 0 <= k < i ==> active[k].generation != g
    case None => forall k :: 0 <= k < |active| ==> active[k].generation != g
  }

  // What the searches by generation find, in terms of the first matching index.
  lemma {:induction false} FirstActiveMeans(active: seq<ActiveGeneration>, g: nat, index: Option<nat>)
    requires FirstActive(active, g, index)
    ensures RefCount(active, g) == if index.Some? then active[index.value].refs else 0
    ensures AddRef(active, g) ==
            if index.Some? then active[index.value := ActiveGeneration(g, active[index.value].refs + 1)]
            else active + [ActiveGeneration(g, 1)]
    ensures index.Some? ==>
              DropRef(active, g) ==
              if active[index.value].refs > 1
              then active[index.value := ActiveGeneration(g, active[index.value].refs - 1)]
              else active[..index.value] + active[index.value + 1..]
    decreases |active|
  {
    if active != [] && active[0].generation != g {
      var rest := active[1..];
      var next := if index.Some? then Some(index.value - 1) else None;
      FirstActiveMeans(rest, g, next);
      if index.Some? {
        var i := index.value;
        assert [active[0]] + rest[..i - 1] == active[..i] && rest[i..] == active[i + 1..];
        assert forall n: nat ::
                 [active[0]] + rest[i - 1 := ActiveGeneration(g, n)] == active[i := ActiveGeneration(g, n)];
      } else {
        assert [active[0]] + (rest + [ActiveGeneration(g, 1)]) == active + [ActiveGeneration(g, 1)];
      }
    }
  }

  // A listed generation has a holder, so it is listed exactly when its count is not zero.
  lemma {:induction false} ListedExactly(active: seq<ActiveGeneration>, g: nat)
    requires forall k :: 0 <= k < |active| ==> active[k].refs > 0
    ensures RefCount(active, g) != 0 <==> exists k :: 0 <= k < |active| && active[k].generation == g
  {
    if active != [] && active[0].generation != g {
      ListedExactly(active[1..], g);
      if k :| 0 <= k < |active| && active[k].generation == g { assert active[1..][k - 1].generation == g; }
      if k :| 0 <= k < |active[1..]| && active[1..][k].generation == g { assert active[k + 1].generation == g; }
    }
  }

  lemma {:induction false} FindRetainedMeans(retained: seq<Retained>, g: nat, i: nat)
    requires i <= |retained| && forall k :: 0 <= k < i ==> retained[k].generation != g
    ensures i == |retained| ==> FindRetained(retained, g).None?
    ensures i < |retained| && retained[i].generation == g ==> FindRetained(retained, g) == Some(retained[i].stores)
    decreases |retained|
  {
    if i > 0 { FindRetainedMeans(retained[1..], g, i - 1); }
  }

  // One turn of the sweep, at position i of the list.
  lemma SweepTurn(retained: seq<Retained>, i: nat, active: seq<ActiveGeneration>)
    requires i < |retained|
    ensures retained[..i] + Sweep(retained[i..], active) ==
            if RefCount(active, retained[i].generation) != 0
            then retained[..i + 1] + Sweep(retained[i + 1..], active)
            else retained[..i] + Sweep(retained[i + 1..], active)
  {
    var rest := Sweep(retained[i + 1..], active);
    assert retained[i..][0] == retained[i] && retained[i..][1..] == retained[i + 1..];
    assert retained[..i] + ([retained[i]] + rest) == retained[..i + 1] + rest;
  }

  lemma WithoutAt<T>(s: seq<T>, i: nat)
    requires i < |s|
    ensures var t := s[..i] + s[i + 1..]; t[..i] == s[..i] && t[i..] == s[i + 1..]
  {}

  class SnapshotRegistry {
    const limit: nat
    var active: seq<ActiveGeneration>
    var retained: seq<Retained>

    function Abs(): Registry reads this { Registry(limit, active, retained) }

    constructor (limit: nat)
      ensures Abs() == Registry(limit, [], [])
    {
      this.limit, this.active, this.retained := limit, [], [];
    }

    method FindActive(g: nat) returns (index: Option<nat>)
      ensures FirstActive(active, g, index)
    {
      var i := 0;
      while i < |active|
        invariant 0 <= i <= |active| && forall k :: 0 <= k < i ==> active[k].generation != g
      {
        if active[i].generation == g { return Some(i); }
        i := i + 1;
      }
      return None;
    }

    method CountRefs(g: nat) returns (refs: nat)
      ensures refs == RefCount(active, g)
    {
      var index := FindActive(g);
      FirstActiveMeans(active, g, index);
      refs := if index.Some? then active[index.value].refs else 0;
    }

    method IsRetained(g: nat) returns (found: bool)
      ensures found <==> FindRetained(retained, g).Some?
    {
      var i := 0;
      while i < |retained|
        invariant 0 <= i <= |retained| && forall k :: 0 <= k < i ==> retained[k].generation != g
      {
        FindRetainedMeans(retained, g, i);
        if retained[i].generation == g { return true; }
        i := i + 1;
      }
      FindRetainedMeans(retained, g, i);
      return false;
    }

    method Acquire(g: nat)
      modifies `active
      ensures active == AddRef(old(active), g)
    {
      var index := FindActive(g);
      FirstActiveMeans(active, g, index);
      if index.Some? {
        active := active[index.value := ActiveGeneration(g, active[index.value].refs + 1)];
      } else {
        active := active + [ActiveGeneration(g, 1)];
      }
    }

    // Removes, in place, the rows of every generation nobody holds.
    method SweepReleased()
      modifies `retained
      ensures retained == Sweep(old(retained), active)
    {
      var index := 0;
      assert retained[..0] + Sweep(retained[0..], active) == Sweep(retained, active) by {
        assert retained[0..] == retained;
      }
      while index < |retained|
        invariant 0 <= index <= |retained|
        invariant Sweep(old(retained), active) == retained[..index] + Sweep(retained[index..], active)
        decreases |retained| - index
      {
        hide Sweep, RefCount;
        SweepTurn(retained, index, active);
        var refs := CountRefs(retained[index].generation);
        if refs != 0 {
          index := index + 1;
        } else {
          WithoutAt(retained, index);
          retained := retained[..index] + retained[index + 1..];
        }
      }
      assert retained[index..] == [] && retained[..index] == retained;
    }

    // Drops one holder of the generation, if it is listed, and sweeps.
    method ReleaseGeneration(g: nat)
      modifies `active, `retained
      ensures if exists k :: 0 <= k < |old(active)| && old(active)[k].generation == g
              then active == DropRef(old(active), g) && retained == Sweep(old(retained), active)
              else active == old(active) && retained == old(retained)
    {
      var index := FindActive(g);
      FirstActiveMeans(active, g, index);
      if index.None? { return; }
      var i := index.value;
      if active[i].refs > 1 {
        active := active[i := ActiveGeneration(g, active[i].refs - 1)];
      } else {
        active := active[..i] + active[i + 1..];
      }
      SweepReleased();
    }

    // Keeps a copy of the stores for a generation, if there is room.
    method RetainGeneration(g: nat, stores: seq<Store>) returns (failed: Option<Error>)
      modifies `retained
      ensures var swept := Sweep(old(retained), active);
              if FindRetained(old(retained), g).Some? then retained == old(retained) && failed.None?
              else if |swept| >= limit then retained == swept && failed == Some(SnapshotRetentionExceeded)
              else if Capture(stores).Err? then retained == swept && failed == Some(Capture(stores).error)
              else retained == swept + [Retained(g, Capture(stores).value)] && failed.None?
    {
      var kept := IsRetained(g);
      if kept { return None; }
      SweepReleased();
      if |retained| >= limit { return Some(SnapshotRetentionExceeded); }
      var copy := CaptureStores(stores);
      if copy.Err? { return Some(copy.error); }
      retained := retained + [Retained(g, copy.value)];
      return None;
    }
  }

  lemma {:induction false} CaptureSnoc(stores: seq<Store>, k: nat)
    requires k < |stores| && Capture(stores[..k]).Ok?
    ensures match Clone(stores[k])
            case Ok(s) => Capture(stores[..k + 1]) == Ok(Capture(stores[..k]).value + [s])
            case Err(e) => Capture(stores) == Err(e)
    decreases k
  {
    hide Clone;
    if k == 0 {
      assert stores[..1][1..] == [] && stores[..1][0] == stores[0];
      assert Clone(stores[0]).Ok? ==> [Clone(stores[0]).value] + [] == [] + [Clone(stores[0]).value];
    } else {
      assert stores[..k + 1][1..] == stores[1..][..k] && stores[..k][1..] == stores[1..][..k - 1];
      CaptureSnoc(stores[1..], k - 1);
      var first := Clone(stores[0]).value;
      var middle := Capture(stores[1..][..k - 1]).value;
      assert forall s :: [first] + (middle + [s]) == ([first] + middle) + [s];
    }
  }

  // Copies table after table, stopping at the first that cannot be copied.
  method CaptureStores(stores: seq<Store>) returns (r: Result<seq<Store>>)
    ensures r == Capture(stores)
  {
    var copies: seq<Store> := [];
    var k := 0;
    while k < |stores|
      invariant 0 <= k <= |stores| && Capture(stores[..k]) == Ok(copies)
    {
      CaptureSnoc(stores, k);
      var copy := Clone(stores[k]);
      if copy.Err? { return Err(copy.error); }
      copies := copies + [copy.value];
      k := k + 1;
    }
    assert stores[..k] == stores;
    return Ok(copies);
  }

  // ---- Commit queue ---------------------------------------------------------

  class CommitQueue {
    const limit: nat
    var pending: nat
    var lastAssigned: nat

    function Abs(): Queue reads this { Queue(limit, pending, lastAssigned) }

    constructor (limit: nat)
      ensures Abs() == Queue(limit, 0, 0)
    {
      this.limit, this.pending, this.lastAssigned := limit, 0, 0;
    }

    method Enqueue() returns (failed: Option<Error>)
      modifies `pending
      ensures failed == (if limit == 0 then Some(InvalidCommitQueueLimit)
                         else if old(pending) >= limit then Some(CommitQueueFull) else None)
      ensures pending == if failed.None? then old(pending) + 1 else old(pending)
      ensures old(pending) <= limit ==> pending <= limit
    {
      if limit == 0 { return Some(InvalidCommitQueueLimit); }
      if pending >= limit { return Some(CommitQueueFull); }
      pending := pending + 1;
      return None;
    }

    method Abort()
      requires pending > 0
      modifies `pending
      ensures pending == old(pending) - 1
    {
      pending := pending - 1;
    }

    method Complete() returns (sequence: nat)
      requires pending > 0
      modifies `pending, `lastAssigned
      ensures pending == old(pending) - 1 && sequence == lastAssigned == old(lastAssigned) + 1
    {
      pending := pending - 1;
      lastAssigned := lastAssigned + 1;
      sequence := lastAssigned;
    }
  }

  // ---- Vector overlay -------------------------------------------------------

  lemma {:induction false} RecordMeans(deltas: seq<Delta>, g: nat, cell: Cell, i: nat)
    requires i <= |deltas| && forall k :: 0 <= k < i ==> deltas[k].key != cell.key
    ensures i == |deltas| ==>
              Engine.RecordVector(deltas, g, cell) == deltas + [Delta(g, cell.key, cell.vector)]
    ensures i < |deltas| && deltas[i].key == cell.key ==>
              Engine.RecordVector(deltas, g, cell) == deltas[i := Delta(g, cell.key, cell.vector)]
    decreases |deltas|
  {
    if i > 0 {
      RecordMeans(deltas[1..], g, cell, i - 1);
      var d := Delta(g, cell.key, cell.vector);
      assert [deltas[0]] + (deltas[1..] + [d]) == deltas + [d];
      if i < |deltas| { assert [deltas[0]] + deltas[1..][i - 1 := d] == deltas[i := d]; }
    }
  }

  lemma {:induction false} RecordConcat(deltas: seq<Delta>, g: nat, a: seq<Cell>, b: seq<Cell>)
    ensures RecordAll(deltas, g, a + b) == RecordAll(RecordAll(deltas, g, a), g, b)
    decreases |a|
  {
    if a == [] {
      assert a + b == b;
    } else {
      assert (a + b)[1..] == a[1..] + b;
      RecordConcat(Engine.RecordVector(deltas, g, a[0]), g, a[1..], b);
    }
  }

  // The drain from position i on, with `taken` already taken.
  ghost predicate DrainsFrom(deltas: seq<Delta>, i: nat, taken: seq<Delta>, through: nat, max: nat,
                             whole: (seq<Delta>, seq<Delta>))
  {
    i <= |deltas| && |taken| <= max
    && var (more, kept) := DrainReady(deltas[i..], through, max - |taken|);
       whole == (taken + more, deltas[..i] + kept)
  }

  lemma DrainSkips(
      deltas: seq<Delta>, i: nat, taken: seq<Delta>, through: nat, max: nat, whole: (seq<Delta>, seq<Delta>))
    requires DrainsFrom(deltas, i, taken, through, max, whole) && i < |deltas| && |taken| < max
    requires deltas[i].generation > through
    ensures DrainsFrom(deltas, i + 1, taken, through, max, whole)
  {
    assert deltas[i..][0] == deltas[i] && deltas[i..][1..] == deltas[i + 1..];
    var kept := DrainReady(deltas[i + 1..], through, max - |taken|).1;
    assert deltas[..i] + ([deltas[i]] + kept) == deltas[..i + 1] + kept;
  }

  lemma DrainTakes(
      deltas: seq<Delta>, i: nat, taken: seq<Delta>, through: nat, max: nat, whole: (seq<Delta>, seq<Delta>))
    requires DrainsFrom(deltas, i, taken, through, max, whole) && i < |deltas| && |taken| < max
    requires deltas[i].generation <= through
    ensures DrainsFrom(deltas[..i] + deltas[i + 1..], i, taken + [deltas[i]], through, max, whole)
  {
    WithoutAt(deltas, i);
    assert deltas[i..][0] == deltas[i] && deltas[i..][1..] == deltas[i + 1..];
    var more := DrainReady(deltas[i + 1..], through, max - |taken| - 1).0;
    assert taken + ([deltas[i]] + more) == taken + [deltas[i]] + more;
  }

  lemma DrainStops(
      deltas: seq<Delta>, i: nat, taken: seq<Delta>, through: nat, max: nat, whole: (seq<Delta>, seq<Delta>))
    requires DrainsFrom(deltas, i, taken, through, max, whole) && (i == |deltas| || |taken| == max)
    ensures whole == (taken, deltas)
  {
    assert DrainReady(deltas[i..], through, max - |taken|) == ([], deltas[i..]);
    assert taken + [] == taken && deltas[..i] + deltas[i..] == deltas;
  }

  class Overlay {
    var deltas: seq<Delta>

    constructor ()
      ensures deltas == []
    {
      deltas := [];
    }

    method RecordVector(g: nat, cell: Cell)
      modifies this
      ensures deltas == Engine.RecordVector(old(deltas), g, cell)
    {
      var i := 0;
      while i < |deltas|
        invariant 0 <= i <= |deltas| && deltas == old(deltas)
        invariant forall k :: 0 <= k < i ==> deltas[k].key != cell.key
      {
        RecordMeans(deltas, g, cell, i);
        if deltas[i].key == cell.key {
          deltas := deltas[i := Delta(g, cell.key, cell.vector)];
          return;
        }
        i := i + 1;
      }
      RecordMeans(deltas, g, cell, i);
      deltas := deltas + [Delta(g, cell.key, cell.vector)];
    }

    method RecordRow(g: nat, table: nat, row: Row)
      modifies this
      ensures deltas == RecordAll(old(deltas), g, RowCells(table, row, 0))
    {
      var c := 0;
      while c < |row.values|
        invariant 0 <= c <= |row.values|
        invariant RecordAll(deltas, g, RowCells(table, row, c)) == RecordAll(old(deltas), g, RowCells(table, row, 0))
      {
        if row.values[c].Vector? {
          var cell := Cell(Key(table, c, row.id), row.values[c].elements);
          assert RowCells(table, row, c)[1..] == RowCells(table, row, c + 1);
          RecordVector(g, cell);
        }
        c := c + 1;
      }
    }

    // Every vector cell of the committed store, row by row.
    method RecordCommittedStore(g: nat, table: nat, store: Store)
      modifies this
      ensures deltas == RecordAll(old(deltas), g, RowsCells(table, store.rows))
    {
      var k := 0;
      assert store.rows[0..] == store.rows;
      while k < |store.rows|
        invariant 0 <= k <= |store.rows|
        invariant RecordAll(deltas, g, RowsCells(table, store.rows[k..])) ==
                  RecordAll(old(deltas), g, RowsCells(table, store.rows))
      {
        var row := store.rows[k];
        assert store.rows[k..][0] == row && store.rows[k..][1..] == store.rows[k + 1..];
        RecordConcat(deltas, g, RowCells(table, row, 0), RowsCells(table, store.rows[k + 1..]));
        RecordRow(g, table, row);
        k := k + 1;
      }
    }

    method Drain(through: nat, max: nat) returns (taken: seq<Delta>)
      modifies this
      ensures (taken, deltas) == DrainReady(old(deltas), through, max)
    {
      taken := [];
      var index := 0;
      ghost var whole := DrainReady(deltas, through, max);
      assert DrainsFrom(deltas, 0, [], through, max, whole) by {
        assert deltas[0..] == deltas;
        assert [] + whole.0 == whole.0 && [] + whole.1 == whole.1;
      }
      while index < |deltas| && |taken| < max
        invariant 0 <= index <= |deltas| && |taken| <= max
        invariant DrainsFrom(deltas, index, taken, through, max, whole)
        decreases |deltas| - index
      {
        hide DrainsFrom, DrainReady;
        if deltas[index].generation > through {
          DrainSkips(deltas, index, taken, through, max, whole);
          index := index + 1;
        } else {
          DrainTakes(deltas, index, taken, through, max, whole);
          taken := taken + [deltas[index]];
          deltas := deltas[..index] + deltas[index + 1..];
        }
      }
      DrainStops(deltas, index, taken, through, max, whole);
    }
  }

  // ---- Publishing one transaction -------------------------------------------

  /** Builds the next store on a copy: deletes, then updates, then inserts, a taken id
      giving way to the next free one. On an error the caller's store is untouched. */
  method PublishTransaction(tx: Tx.Tx, store: Store) returns (r: Result<Store>)
    ensures r == Tx.Publish(tx, store)
  {
    var active := Tx.EnsureActive(tx);
    if active.Err? { return Err(active.error); }
    r := DeleteAll(store, tx.deletes);
    if r.Err? { return; }
    r := UpdateAll(r.value, tx.updates);
    if r.Err? { return; }
    r := InsertAll(r.value, tx.inserts);
  }

  method DeleteAll(store: Store, deletes: seq<nat>) returns (r: Result<Store>)
    ensures r == Tx.ApplyDeletes(store, deletes)
  {
    var next, k := store, 0;
    assert deletes[0..] == deletes;
    while k < |deletes|
      invariant 0 <= k <= |deletes| && Tx.ApplyDeletes(next, deletes[k..]) == Tx.ApplyDeletes(store, deletes)
    {
      assert deletes[k..][0] == deletes[k] && deletes[k..][1..] == deletes[k + 1..];
      r := DeleteRow(next, deletes[k]);
      if r.Err? { return; }
      next, k := r.value, k + 1;
    }
    return Ok(next);
  }

  method UpdateAll(store: Store, updates: seq<Row>) returns (r: Result<Store>)
    ensures r == Tx.ApplyUpdates(store, updates)
  {
    var next, k := store, 0;
    assert updates[0..] == updates;
    while k < |updates|
      invariant 0 <= k <= |updates| && Tx.ApplyUpdates(next, updates[k..]) == Tx.ApplyUpdates(store, updates)
    {
      assert updates[k..][0] == updates[k] && updates[k..][1..] == updates[k + 1..];
      r := UpdateRow(next, updates[k].id, updates[k].values);
      if r.Err? { return; }
      next, k := r.value, k + 1;
    }
    return Ok(next);
  }

  method InsertAll(store: Store, inserts: seq<Row>) returns (r: Result<Store>)
    ensures r == Tx.ApplyInserts(store, inserts)
  {
    var next, k := store, 0;
    assert inserts[0..] == inserts;
    while k < |inserts|
      invariant 0 <= k <= |inserts| && Tx.ApplyInserts(next, inserts[k..]) == Tx.ApplyInserts(store, inserts)
    {
      assert inserts[k..][0] == inserts[k] && inserts[k..][1..] == inserts[k + 1..];
      r := InsertWithId(next, Tx.CommitId(next, inserts[k].id), inserts[k].values);
      if r.Err? { return; }
      next, k := r.value, k + 1;
    }
    return Ok(next);
  }
}
