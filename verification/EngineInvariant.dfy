/** What every step of the engine keeps, in every run, whatever the commits do:
    well-formed stores and transactions, exact reference counts, and rows retained
    for every generation that some session still needs. */
module EngineInvariant {
  import opened Values
  import opened Catalog
  import opened Rows
  import Tx = Transactions
  import opened Engine

  // ---- The invariant --------------------------------------------------------

  ghost predicate StoresOk(stores: seq<Store>) {
    forall t :: 0 <= t < |stores| ==> StoreOk(stores[t]) && Built(stores[t].table)
  }

  // Two stages of the same tables: same definitions, ids only ever allocated upwards.
  ghost predicate Older(a: seq<Store>, b: seq<Store>) {
    && |a| == |b|
    && forall t :: 0 <= t < |a| ==> a[t].table == b[t].table && a[t].nextId <= b[t].nextId
  }

  ghost predicate EntriesOk(stores: seq<Store>, txs: seq<TableTx>) {
    && (forall i :: 0 <= i < |txs| ==> txs[i].table < |stores| && Tx.TxOk(txs[i].tx, stores[txs[i].table].table))
    && (forall i, j :: 0 <= i < j < |txs| ==> txs[i].table != txs[j].table)
  }

  // Everything a session numbered itself lies above its base's ids.
  ghost predicate NumberedAbove(base: seq<Store>, txs: seq<TableTx>) {
    forall i :: 0 <= i < |txs| && txs[i].table < |base| && txs[i].tx.state.Active? ==>
      && base[txs[i].table].nextId <= txs[i].tx.nextId
      && forall k :: 0 <= k < |txs[i].tx.inserts| ==> base[txs[i].table].nextId <= txs[i].tx.inserts[k].id
  }

  ghost function Holders(sessions: map<nat, Session>, g: nat): set<nat> {
    set sid | sid in sessions && sessions[sid].active && sessions[sid].generation == g
  }

  ghost predicate RegistryOk(reg: Registry, sessions: map<nat, Session>) {
    && ActiveOk(reg.active)
    && (forall g :: RefCount(reg.active, g) == |Holders(sessions, g)|)
    && |reg.retained| <= reg.limit
    && (forall i, j :: 0 <= i < j < |reg.retained| ==> reg.retained[i].generation != reg.retained[j].generation)
    && (forall i :: 0 <= i < |reg.retained| ==> Holders(sessions, reg.retained[i].generation) != {})
  }

  /** The stores a generation's readers start from. */
  function Base(st: State, g: nat): seq<Store> {
    match FindRetained(st.registry.retained, g)
    case Some(stores) => stores
    case None => st.stores
  }

  ghost predicate SessionOk(st: State, s: Session) {
    && (!s.active ==> s.txs == [])
    && (s.active ==>
          && s.generation <= st.sequence
          && (s.generation == st.sequence || FindRetained(st.registry.retained, s.generation).Some?)
          && EntriesOk(st.stores, s.txs)
          && NumberedAbove(Base(st, s.generation), s.txs))
  }

  ghost predicate RetainedOk(st: State) {
    forall i :: 0 <= i < |st.registry.retained| ==>
      var r := st.registry.retained[i];
      r.generation <= st.sequence && StoresOk(r.stores) && Older(r.stores, st.stores)
  }

  ghost predicate Inv(st: State) {
    && StoresOk(st.stores)
    && RegistryOk(st.registry, st.sessions)
    && RetainedOk(st)
    && (forall sid :: sid in st.sessions ==> SessionOk(st, st.sessions[sid]))
    && st.queue.pending == 0 && st.queue.lastAssigned == st.sequence
    && st.worker.lastCompleted <= st.sequence
    && (st.worker.running.Some? ==> st.worker.lastCompleted <= st.worker.running.value <= st.sequence)
  }

  // ---- Registry arithmetic --------------------------------------------------

  ghost predicate Listed(active: seq<ActiveGeneration>, g: nat) {
    exists i :: 0 <= i < |active| && active[i].generation == g
  }

  lemma ListedCons(active: seq<ActiveGeneration>, g: nat)
    requires active != []
    ensures Listed(active, g) <==> active[0].generation == g || Listed(active[1..], g)
  {
    if i :| 0 <= i < |active| && active[i].generation == g {
      if i > 0 { assert active[1..][i - 1] == active[i]; }
    }
    if i :| 0 <= i < |active[1..]| && active[1..][i].generation == g {
      assert active[i + 1].generation == g;
    }
  }

  ghost predicate ActiveOk(active: seq<ActiveGeneration>) {
    && (forall i :: 0 <= i < |active| ==> active[i].refs > 0)
    && (forall i, j :: 0 <= i < j < |active| ==> active[i].generation != active[j].generation)
  }

  lemma ActiveOkCons(active: seq<ActiveGeneration>)
    requires active != []
    ensures ActiveOk(active) <==>
            active[0].refs > 0 && !Listed(active[1..], active[0].generation) && ActiveOk(active[1..])
  {
    var rest := active[1..];
    if active[0].refs > 0 && !Listed(rest, active[0].generation) && ActiveOk(rest) {
      forall i, j | 0 <= i < j < |active| ensures active[i].generation != active[j].generation {
        assert active[j] == rest[j - 1];
        if i > 0 { assert active[i] == rest[i - 1]; }
      }
      forall i | 0 <= i < |active| ensures active[i].refs > 0 {
        if i > 0 { assert active[i] == rest[i - 1]; }
      }
    }
    if ActiveOk(active) {
      forall i | 0 <= i < |rest| ensures rest[i].generation != active[0].generation {
        assert rest[i] == active[i + 1];
      }
    }
  }

  lemma {:induction false} AddRefCounts(active: seq<ActiveGeneration>, g: nat, h: nat)
    ensures RefCount(AddRef(active, g), h) == RefCount(active, h) + if g == h then 1 else 0
    ensures Listed(AddRef(active, g), h) <==> Listed(active, h) || g == h
  {
    var added := AddRef(active, g);
    ListedCons(added, h);
    if active != [] {
      ListedCons(active, h);
      if active[0].generation != g {
        AddRefCounts(active[1..], g, h);
        assert added[1..] == AddRef(active[1..], g);
      } else {
        assert added[1..] == active[1..];
      }
    }
  }

  // A listed generation has references, and only a listed one does.
  lemma {:induction false} RefCountListed(active: seq<ActiveGeneration>, g: nat)
    requires ActiveOk(active)
    ensures RefCount(active, g) != 0 <==> Listed(active, g)
  {
    if active != [] {
      ActiveOkCons(active);
      ListedCons(active, g);
      RefCountListed(active[1..], g);
    }
  }

  lemma {:induction false} AddRefOk(active: seq<ActiveGeneration>, g: nat)
    requires ActiveOk(active)
    ensures ActiveOk(AddRef(active, g))
  {
    if active != [] {
      var added := AddRef(active, g);
      ActiveOkCons(active);
      ActiveOkCons(added);
      if active[0].generation != g {
        AddRefOk(active[1..], g);
        AddRefCounts(active[1..], g, active[0].generation);
        assert added[1..] == AddRef(active[1..], g);
      } else {
        assert added[1..] == active[1..];
      }
    }
  }

  lemma {:induction false} DropRefOk(active: seq<ActiveGeneration>, g: nat, h: nat)
    requires ActiveOk(active) && RefCount(active, g) > 0
    ensures ActiveOk(DropRef(active, g))
    ensures RefCount(DropRef(active, g), h) == RefCount(active, h) - if g == h then 1 else 0
    ensures Listed(DropRef(active, g), h) ==> Listed(active, h)
  {
    ActiveOkCons(active);
    ListedCons(active, h);
    var dropped := DropRef(active, g);
    if active[0].generation == g {
      RefCountListed(active[1..], g);
      if active[0].refs > 1 {
        assert dropped[1..] == active[1..];
        ActiveOkCons(dropped);
        ListedCons(dropped, h);
      }
    } else {
      DropRefOk(active[1..], g, h);
      DropRefOk(active[1..], g, active[0].generation);
      assert dropped[1..] == DropRef(active[1..], g);
      ActiveOkCons(dropped);
      ListedCons(dropped, h);
    }
  }

  // Sweeping keeps exactly the generations that are still held.
  lemma {:induction false} SweepFinds(retained: seq<Retained>, active: seq<ActiveGeneration>, g: nat)
    ensures FindRetained(Sweep(retained, active), g) ==
            if RefCount(active, g) != 0 then FindRetained(retained, g) else None
  {
    if retained != [] { SweepFinds(retained[1..], active, g); }
  }

  lemma {:induction false} SweepKeeps(retained: seq<Retained>, active: seq<ActiveGeneration>)
    ensures var s := Sweep(retained, active);
            && |s| <= |retained|
            && (forall k :: 0 <= k < |s| ==> s[k] in retained && RefCount(active, s[k].generation) != 0)
            && ((forall i, j :: 0 <= i < j < |retained| ==> retained[i].generation != retained[j].generation)
                ==> forall i, j :: 0 <= i < j < |s| ==> s[i].generation != s[j].generation)
  {
    if retained != [] {
      SweepKeeps(retained[1..], active);
      var rest := Sweep(retained[1..], active);
      if forall i, j :: 0 <= i < j < |retained| ==> retained[i].generation != retained[j].generation {
        forall k | 0 <= k < |rest| ensures rest[k].generation != retained[0].generation {
          var i :| 0 <= i < |retained[1..]| && retained[1..][i] == rest[k];
          assert retained[i + 1] == rest[k];
        }
      }
    }
  }

  lemma {:induction false} SweepNothing(retained: seq<Retained>, active: seq<ActiveGeneration>)
    requires forall i :: 0 <= i < |retained| ==> RefCount(active, retained[i].generation) != 0
    ensures Sweep(retained, active) == retained
  {
    if retained != [] { SweepNothing(retained[1..], active); }
  }

  lemma {:induction false} FindRetainedIn(retained: seq<Retained>, g: nat)
    ensures FindRetained(retained, g).Some? ==>
              Retained(g, FindRetained(retained, g).value) in retained
    ensures FindRetained(retained, g).None? ==> forall i :: 0 <= i < |retained| ==> retained[i].generation != g
  {
    if retained != [] && retained[0].generation != g { FindRetainedIn(retained[1..], g); }
  }

  lemma {:induction false} FindRetainedAppend(retained: seq<Retained>, r: Retained, g: nat)
    ensures FindRetained(retained + [r], g) ==
            if FindRetained(retained, g).Some? then FindRetained(retained, g)
            else if r.generation == g then Some(r.stores) else None
  {
    if retained != [] {
      assert (retained + [r])[1..] == retained[1..] + [r];
      FindRetainedAppend(retained[1..], r, g);
    }
  }

  // Capturing copies the stores exactly, or is refused because of a table that
  // cannot be rebuilt.
  lemma {:induction false} CaptureExact(stores: seq<Store>)
    requires StoresOk(stores)
    ensures Capture(stores).Ok? ==> Capture(stores).value == stores
    ensures Capture(stores).Ok? <==> AllRebuildable(stores)
  {
    hide StoreOk, Built, Clone, Rebuildable, AllRebuildable;
    if stores == [] {
      assert AllRebuildable(stores) by { NoTables(); }
    } else {
      CloneExactly(stores[0]);
      AllRebuildableCons(stores);
      CaptureExact(stores[1..]);
    }
  }

  // ---- Sessions and their handles -------------------------------------------

  lemma HoldersAfter(sessions: map<nat, Session>, sid: nat, s: Session, g: nat)
    ensures Holders(sessions[sid := s], g) ==
            if s.active && s.generation == g then Holders(sessions, g) + {sid} else Holders(sessions, g) - {sid}
  {}

  lemma HoldersSame(sessions: map<nat, Session>, sid: nat, s: Session)
    requires sid in sessions && sessions[sid].active == s.active && sessions[sid].generation == s.generation
    ensures forall g :: Holders(sessions[sid := s], g) == Holders(sessions, g)
  {
    forall g ensures Holders(sessions[sid := s], g) == Holders(sessions, g) {
      HoldersAfter(sessions, sid, s, g);
    }
  }

  // A step that leaves stores, sequence and registry alone, and puts back an active
  // session with the same generation, keeps the invariant.
  lemma KeepWithSession(st: State, sid: nat, s: Session)
    requires Inv(st) && sid in st.sessions
    requires st.sessions[sid].active && s.active && s.generation == st.sessions[sid].generation
    requires SessionOk(st, s)
    ensures Inv(WithSession(st, sid, s))
  {
    hide StoreOk, Built, EntriesOk, NumberedAbove, Holders, RefCount;
    var st1 := WithSession(st, sid, s);
    HoldersSame(st.sessions, sid, s);
    forall o | o in st1.sessions ensures SessionOk(st1, st1.sessions[o]) {
      if o != sid { assert SessionOk(st, st.sessions[o]); }
    }
  }

  lemma BeginKeeps(st: State, sid: nat)
    requires Inv(st)
    ensures Inv(BeginStep(st, sid).0)
  {
    var s := SessionOf(st, sid);
    if !s.active {
      assert s.txs == [] by { if sid in st.sessions { assert SessionOk(st, s); } }
      var st1 := BeginStep(st, sid).0;
      AddRefOk(st.registry.active, st.sequence);
      forall g
        ensures RefCount(st1.registry.active, g) == |Holders(st1.sessions, g)|
        ensures Holders(st1.sessions, g) >= Holders(st.sessions, g)
      {
        AddRefCounts(st.registry.active, st.sequence, g);
        HoldersAfter(st.sessions, sid, st1.sessions[sid], g);
        assert sid !in Holders(st.sessions, g);
      }
      forall o | o in st1.sessions ensures SessionOk(st1, st1.sessions[o]) {
        if o != sid { assert SessionOk(st, st.sessions[o]); }
      }
    }
  }

  // Releasing one holder's handle: the others keep what they read from.
  lemma ReleaseKeepsOthers(st: State, sid: nat, g: nat)
    requires Inv(st) && sid in st.sessions && st.sessions[sid].active
    requires Holders(st.sessions, g) - {sid} != {}
    ensures FindRetained(Release(st.registry, st.sessions[sid].generation).retained, g)
            == FindRetained(st.registry.retained, g)
  {
    var own := st.sessions[sid].generation;
    assert sid in Holders(st.sessions, own);
    DropRefOk(st.registry.active, own, g);
    SweepFinds(st.registry.retained, DropRef(st.registry.active, own), g);
    assert Holders(st.sessions, g) - {sid} <= Holders(st.sessions, g);
    if own == g {
      assert |Holders(st.sessions, g)| == |Holders(st.sessions, g) - {sid}| + 1;
    } else {
      assert sid !in Holders(st.sessions, g);
      assert Holders(st.sessions, g) - {sid} == Holders(st.sessions, g);
    }
  }

  lemma ReleaseKeepsOther(st: State, sid: nat, o: nat)
    requires Inv(st) && sid in st.sessions && st.sessions[sid].active
    requires o in st.sessions && st.sessions[o].active && o != sid
    ensures FindRetained(Release(st.registry, st.sessions[sid].generation).retained, st.sessions[o].generation)
            == FindRetained(st.registry.retained, st.sessions[o].generation)
  {
    assert o in Holders(st.sessions, st.sessions[o].generation) - {sid};
    hide Inv;
    ReleaseKeepsOthers(st, sid, st.sessions[o].generation);
  }

  lemma ReleaseKeepsRegistry(st: State, sid: nat, last: Option<nat>)
    requires Inv(st) && sid in st.sessions && st.sessions[sid].active
    ensures var st1 := EndSession(st, sid, last);
            && RegistryOk(st1.registry, st1.sessions)
            && forall i :: 0 <= i < |st1.registry.retained| ==> st1.registry.retained[i] in st.registry.retained
  {
    var own := st.sessions[sid].generation;
    var st1 := EndSession(st, sid, last);
    assert sid in Holders(st.sessions, own);
    var active := DropRef(st.registry.active, own);
    DropRefOk(st.registry.active, own, own);
    forall g
      ensures RefCount(active, g) == |Holders(st1.sessions, g)|
    {
      DropRefOk(st.registry.active, own, g);
      HoldersAfter(st.sessions, sid, st1.sessions[sid], g);
      if g == own {
        assert |Holders(st.sessions, g)| == |Holders(st.sessions, g) - {sid}| + 1;
      } else {
        assert Holders(st.sessions, g) - {sid} == Holders(st.sessions, g);
      }
    }
    SweepKeeps(st.registry.retained, active);
    forall i | 0 <= i < |st1.registry.retained|
      ensures Holders(st1.sessions, st1.registry.retained[i].generation) != {}
    {
      assert RefCount(active, st1.registry.retained[i].generation) != 0;
    }
  }

  lemma EndKeeps(st: State, sid: nat, last: Option<nat>)
    requires Inv(st) && sid in st.sessions && st.sessions[sid].active
    ensures Inv(EndSession(st, sid, last))
  {
    var st1 := EndSession(st, sid, last);
    ReleaseKeepsRegistry(st, sid, last);
    forall o | o in st1.sessions ensures SessionOk(st1, st1.sessions[o]) {
      if o != sid {
        var s := st.sessions[o];
        assert SessionOk(st, s);
        if s.active {
          assert o in Holders(st.sessions, s.generation) - {sid};
          ReleaseKeepsOthers(st, sid, s.generation);
        }
      }
    }
  }

  // ---- Staging --------------------------------------------------------------

  lemma FreshEntryOk(store: Store)
    ensures Tx.TxOk(Tx.Begin(store), store.table)
  {}

  lemma AppendEntryOk(stores: seq<Store>, base: seq<Store>, txs: seq<TableTx>, table: nat)
    requires EntriesOk(stores, txs) && NumberedAbove(base, txs) && Older(base, stores)
    requires table < |stores| && forall i :: 0 <= i < |txs| ==> txs[i].table != table
    ensures var more := txs + [TableTx(table, Tx.Begin(stores[table]))];
            EntriesOk(stores, more) && NumberedAbove(base, more)
  {
    FreshEntryOk(stores[table]);
    hide Tx.TxOk;
  }

  lemma WithEntryOk(st: State, s: Session, table: nat)
    requires Inv(st) && s.active && SessionOk(st, s) && table < |st.stores|
    ensures SessionOk(st, s.(txs := WithEntry(st.stores, s.txs, table)))
    ensures EntryFor(WithEntry(st.stores, s.txs, table), table).Some?
  {
    BaseOlder(st, s.generation);
    var base := Base(st, s.generation);
    if EntryFor(s.txs, table).None? {
      AppendEntryOk(st.stores, base, s.txs, table);
      hide Inv, EntriesOk, NumberedAbove, FindRetained, EntryFor;
      var txs := WithEntry(st.stores, s.txs, table);
      assert txs[|s.txs|].table == table;
    }
  }

  // A reader's base is an earlier stage of the live stores, or the live stores.
  lemma BaseOlder(st: State, g: nat)
    requires Inv(st)
    ensures Older(Base(st, g), st.stores) && StoresOk(Base(st, g))
  {
    FindRetainedIn(st.registry.retained, g);
    if FindRetained(st.registry.retained, g).Some? {
      var i :| 0 <= i < |st.registry.retained| && st.registry.retained[i] == Retained(g, Base(st, g));
    }
  }

  // A later stage of a transaction: ids only ever handed out upwards.
  ghost predicate Continues(tx: Tx.Tx, tx1: Tx.Tx) {
    && tx1.state == tx.state && tx.nextId <= tx1.nextId
    && forall k :: 0 <= k < |tx1.inserts| ==>
         tx1.inserts[k].id == tx.nextId || HasId(tx.inserts, tx1.inserts[k].id)
  }

  // What an operation on one entry must keep for the session to stay well formed.
  ghost predicate OpKeeps(op: (Tx.Tx, Store) -> Result<Tx.Tx>) {
    forall tx: Tx.Tx, live: Store :: Tx.TxOk(tx, live.table) && op(tx, live).Ok? ==>
      Tx.TxOk(op(tx, live).value, live.table) && Continues(tx, op(tx, live).value)
  }

  lemma ReplaceEntryOk(st: State, s: Session, at: nat, tx: Tx.Tx)
    requires Inv(st) && s.active && SessionOk(st, s) && at < |s.txs|
    requires Tx.TxOk(tx, st.stores[s.txs[at].table].table) && Continues(s.txs[at].tx, tx)
    ensures SessionOk(st, s.(txs := s.txs[at := TableTx(s.txs[at].table, tx)]))
  {
    hide StoreOk, Tx.TxOk, Built, RegistryOk, RetainedOk, FindRetained, CheckRow;
    var base := Base(st, s.generation);
    var txs := s.txs[at := TableTx(s.txs[at].table, tx)];
    assert NumberedAbove(base, txs) by {
      forall i | 0 <= i < |txs| && txs[i].table < |base| && txs[i].tx.state.Active?
        ensures base[txs[i].table].nextId <= txs[i].tx.nextId
        ensures forall k :: 0 <= k < |txs[i].tx.inserts| ==> base[txs[i].table].nextId <= txs[i].tx.inserts[k].id
      {
        assert base[s.txs[i].table].nextId <= s.txs[i].tx.nextId;
      }
    }
  }

  lemma StageKeeps(st: State, sid: nat, table: nat, op: (Tx.Tx, Store) -> Result<Tx.Tx>)
    requires Inv(st) && OpKeeps(op)
    ensures Inv(StageStep(st, sid, table, op).0)
  {
    hide StoreOk, Tx.TxOk, Built, RegistryOk, RetainedOk, NumberedAbove, Continues;
    var s := SessionOf(st, sid);
    if s.active && table < |st.stores| {
      WithEntryOk(st, s, table);
      var s1 := s.(txs := WithEntry(st.stores, s.txs, table));
      var at := EntryFor(s1.txs, table).value;
      var r := op(s1.txs[at].tx, st.stores[table]);
      if r.Err? {
        KeepWithSession(st, sid, s1);
      } else {
        ReplaceEntryOk(st, s1, at, r.value);
        KeepWithSession(st, sid, s1.(txs := s1.txs[at := TableTx(table, r.value)]));
      }
    }
  }

  lemma OpsKeep(seen: Result<seq<Row>>, values: seq<Value>, id: nat)
    ensures OpKeeps(TouchOp(seen)) && OpKeeps(InsertOp(values))
    ensures OpKeeps(UpdateOp(seen, id, values)) && OpKeeps(DeleteOp(seen, id))
  {
    forall tx: Tx.Tx, live: Store | Tx.TxOk(tx, live.table) && Tx.Insert(tx, live.table, values).Ok?
      ensures Tx.TxOk(Tx.Insert(tx, live.table, values).value, live.table)
      ensures Continues(tx, Tx.Insert(tx, live.table, values).value)
    {
      Tx.InsertKeeps(tx, live.table, values);
    }
    forall tx: Tx.Tx, live: Store | Tx.TxOk(tx, live.table) && Tx.Update(tx, live, id, values).Ok?
      ensures Tx.TxOk(Tx.Update(tx, live, id, values).value, live.table)
      ensures Continues(tx, Tx.Update(tx, live, id, values).value)
    {
      Tx.UpdateKeeps(tx, live, id, values);
    }
    forall tx: Tx.Tx, live: Store | Tx.TxOk(tx, live.table) && Tx.Delete(tx, live, id).Ok?
      ensures Tx.TxOk(Tx.Delete(tx, live, id).value, live.table)
      ensures Continues(tx, Tx.Delete(tx, live, id).value)
    {
      Tx.DeleteKeeps(tx, live, id);
    }
  }

  // ---- Commit ---------------------------------------------------------------

  // Everybody but the committer can do without the live stores.
  ghost predicate OthersRetained(st: State, reg: Registry, sid: nat) {
    forall o :: o in st.sessions && o != sid && st.sessions[o].active ==>
      FindRetained(reg.retained, st.sessions[o].generation).Some?
  }

  function WithCurrentRetained(st: State): State {
    st.(registry := st.registry.(retained := st.registry.retained + [Retained(st.sequence, st.stores)]))
  }

  // The retention step leaves the registry alone, or adds an exact copy of the
  // current stores.
  lemma RetainCases(st: State, committer: Session)
    requires Inv(st)
    ensures var (reg, failed) := RetainCurrent(st, committer);
            && (failed.Some? || !NeedsRetention(st, committer) ==> reg == st.registry)
            && (failed.None? && NeedsRetention(st, committer) ==>
                  reg == WithCurrentRetained(st).registry && |st.registry.retained| < st.registry.limit)
  {
    hide StoreOk, Built, RetainedOk, SessionOk, Capture;
    forall i | 0 <= i < |st.registry.retained|
      ensures RefCount(st.registry.active, st.registry.retained[i].generation) != 0
    {}
    SweepNothing(st.registry.retained, st.registry.active);
    CaptureExact(st.stores);
  }

  lemma RetainedFinds(st: State, g: nat)
    requires FindRetained(st.registry.retained, st.sequence).None?
    ensures FindRetained(WithCurrentRetained(st).registry.retained, g) ==
            if g == st.sequence then Some(st.stores) else FindRetained(st.registry.retained, g)
  {
    FindRetainedAppend(st.registry.retained, Retained(st.sequence, st.stores), g);
  }

  lemma RetainedInv(st: State)
    requires Inv(st) && FindRetained(st.registry.retained, st.sequence).None?
    requires Holders(st.sessions, st.sequence) != {} && |st.registry.retained| < st.registry.limit
    ensures Inv(WithCurrentRetained(st))
    ensures forall g: nat :: g <= st.sequence && (g == st.sequence || FindRetained(st.registry.retained, g).Some?)
              ==> Base(WithCurrentRetained(st), g) == Base(st, g)
  {
    hide StoreOk, Built, EntriesOk, NumberedAbove, Holders, RefCount;
    var st1 := WithCurrentRetained(st);
    FindRetainedIn(st.registry.retained, st.sequence);
    forall g ensures FindRetained(st1.registry.retained, g) ==
                     if g == st.sequence then Some(st.stores) else FindRetained(st.registry.retained, g) {
      RetainedFinds(st, g);
    }
    forall o | o in st1.sessions ensures SessionOk(st1, st1.sessions[o]) {
      assert SessionOk(st, st.sessions[o]);
    }
  }

  // Nobody but the committer depends on the live stores unless retention was needed.
  lemma OthersOnCurrent(st: State, sid: nat, o: nat)
    requires Inv(st) && sid in st.sessions && st.sessions[sid].active
    requires o in st.sessions && o != sid && st.sessions[o].active
    requires FindRetained(st.registry.retained, st.sessions[o].generation).None?
    ensures st.sessions[o].generation == st.sequence && NeedsRetention(st, st.sessions[sid])
  {
    hide StoreOk, Built, EntriesOk, NumberedAbove, RetainedOk;
    assert SessionOk(st, st.sessions[o]);
    var holders := Holders(st.sessions, st.sequence);
    assert o in holders;
    assert |holders - {o}| + 1 == |holders|;
    if st.sessions[sid].generation == st.sequence {
      assert sid in holders - {o};
    }
  }

  // After the retention step the others are on retained rows, and nobody's base
  // has changed.
  lemma RetainKeeps(st: State, sid: nat)
    requires Inv(st) && sid in st.sessions && st.sessions[sid].active
    ensures var (reg, failed) := RetainCurrent(st, st.sessions[sid]);
            && Inv(st.(registry := reg))
            && (failed.Some? ==> reg == st.registry)
            && (forall o :: o in st.sessions && st.sessions[o].active ==>
                  Base(st.(registry := reg), st.sessions[o].generation) == Base(st, st.sessions[o].generation))
            && (failed.None? ==> OthersRetained(st, reg, sid))
  {
    RetainCases(st, st.sessions[sid]);
    var (reg, failed) := RetainCurrent(st, st.sessions[sid]);
    if failed.None? && NeedsRetention(st, st.sessions[sid]) {
      assert Holders(st.sessions, st.sequence) != {};
      RetainedInv(st);
      assert st.(registry := reg) == WithCurrentRetained(st);
    }
    hide StoreOk, Built, EntriesOk, NumberedAbove, RetainedOk, RegistryOk, RetainCurrent;
    assert forall o :: o in st.sessions ==> SessionOk(st, st.sessions[o]);
    if failed.None? {
      forall o | o in st.sessions && o != sid && st.sessions[o].active
        ensures FindRetained(reg.retained, st.sessions[o].generation).Some?
      {
        if FindRetained(st.registry.retained, st.sessions[o].generation).None? {
          OthersOnCurrent(st, sid, o);
          RetainedFinds(st, st.sequence);
        } else if NeedsRetention(st, st.sessions[sid]) {
          RetainedFinds(st, st.sessions[o].generation);
        }
      }
    }
  }

  // An entry after a commit attempt: still staged, or published and emptied.
  ghost predicate SameEntry(a: TableTx, b: TableTx) {
    a.table == b.table && (b == a || b.tx == Tx.Close(a.tx, Tx.Committed))
  }

  ghost predicate SameEntries(a: seq<TableTx>, b: seq<TableTx>) {
    |a| == |b| && forall i :: 0 <= i < |a| ==> SameEntry(a[i], b[i])
  }

  lemma PublishOne(stores: seq<Store>, txs: seq<TableTx>)
    requires StoresOk(stores) && EntriesOk(stores, txs) && txs != []
    requires Tx.Publish(txs[0].tx, stores[txs[0].table]).Ok?
    ensures var stores1 := stores[txs[0].table := Tx.Publish(txs[0].tx, stores[txs[0].table]).value];
            StoresOk(stores1) && Older(stores, stores1) && EntriesOk(stores1, txs[1..])
  {
    hide StoreOk, Tx.TxOk, Built;
    var t := txs[0].table;
    assert Tx.TxOk(txs[0].tx, stores[t].table) && StoreOk(stores[t]);
    PublishOneStore(txs[0].tx, stores[t]);
    var stores1 := stores[t := Tx.Publish(txs[0].tx, stores[t]).value];
    forall i | 0 <= i < |txs[1..]|
      ensures txs[1..][i].table < |stores1| && Tx.TxOk(txs[1..][i].tx, stores1[txs[1..][i].table].table)
    {
      assert txs[1..][i] == txs[i + 1];
    }
  }

  lemma PublishOneStore(tx: Tx.Tx, s: Store)
    requires Tx.TxOk(tx, s.table) && StoreOk(s) && Tx.Publish(tx, s).Ok?
    ensures var s1 := Tx.Publish(tx, s).value;
            StoreOk(s1) && s1.table == s.table && s.nextId <= s1.nextId
  {
    Tx.CommitMeaning(tx, s);
  }

  lemma CloseOk(tx: Tx.Tx, table: TableDef)
    ensures Tx.TxOk(Tx.Close(tx, Tx.Committed), table) && Tx.TxOk(Tx.Close(tx, Tx.RolledBack), table)
  {}

  // An entry that was not reached is untouched, and so is its store.
  ghost predicate Unreached(stores: seq<Store>, p: Published) {
    forall i :: 0 <= i < |p.txs| && p.txs[i].tx.state.Active? && p.txs[i].table < |stores| <= |p.stores| ==>
      p.stores[p.txs[i].table] == stores[p.txs[i].table]
  }

  ghost predicate TxsOk(stores: seq<Store>, txs: seq<TableTx>) {
    forall i :: 0 <= i < |txs| ==> txs[i].table < |stores| && Tx.TxOk(txs[i].tx, stores[txs[i].table].table)
  }

  lemma {:induction false} PublishLeaves(stores: seq<Store>, txs: seq<TableTx>, t: nat)
    requires t < |stores| && forall i :: 0 <= i < |txs| ==> txs[i].table != t
    ensures PublishAll(stores, txs).stores[t] == stores[t]
    decreases |txs|
  {
    if txs != [] && txs[0].table < |stores| {
      var r := Tx.Publish(txs[0].tx, stores[txs[0].table]);
      if r.Ok? { PublishLeaves(stores[txs[0].table := r.value], txs[1..], t); }
    }
  }

  lemma {:induction false} PublishKeeps(stores: seq<Store>, txs: seq<TableTx>)
    requires StoresOk(stores) && EntriesOk(stores, txs)
    ensures var p := PublishAll(stores, txs);
            && StoresOk(p.stores) && Older(stores, p.stores)
            && TxsOk(p.stores, p.txs) && SameEntries(txs, p.txs) && Unreached(stores, p)
    decreases |txs|
  {
    hide StoreOk, Built, Tx.Publish, Tx.TxOk;
    if txs != [] {
      var t := txs[0].table;
      if Tx.Publish(txs[0].tx, stores[t]).Ok? {
        PublishOne(stores, txs);
        var stores1 := stores[t := Tx.Publish(txs[0].tx, stores[t]).value];
        PublishKeeps(stores1, txs[1..]);
        CloseOk(txs[0].tx, stores[t].table);
        var p := PublishAll(stores, txs);
        var rest := PublishAll(stores1, txs[1..]);
        assert p.stores == rest.stores && p.txs[1..] == rest.txs;
        forall i | 0 <= i < |txs|
          ensures SameEntry(txs[i], p.txs[i])
          ensures p.txs[i].table < |p.stores| && Tx.TxOk(p.txs[i].tx, p.stores[p.txs[i].table].table)
          ensures p.txs[i].tx.state.Active? ==> p.stores[p.txs[i].table] == stores[p.txs[i].table]
        {
          if i > 0 {
            assert txs[i] == txs[1..][i - 1] && p.txs[i] == rest.txs[i - 1];
            assert SameEntry(txs[1..][i - 1], rest.txs[i - 1]);
          }
        }
      }
    }
  }

  lemma OthersSurvive(st: State, stores: seq<Store>, s: Session)
    requires Inv(st) && SessionOk(st, s) && Older(st.stores, stores)
    requires s.active ==> FindRetained(st.registry.retained, s.generation).Some?
    ensures SessionOk(st.(stores := stores), s)
    ensures forall n :: n >= st.sequence ==> SessionOk(st.(stores := stores, sequence := n), s)
  {}

  lemma CommitKeeps(st: State, sid: nat)
    requires Inv(st)
    ensures Inv(CommitStep(st, sid).0)
  {
    hide StoreOk, Tx.TxOk, Built, EntriesOk, NumberedAbove, PublishAll, RecordAll, Cells, RegistryOk, RetainedOk;
    var s := SessionOf(st, sid);
    if s.active {
      assert SessionOk(st, s);
      if s.txs == [] {
        EndKeeps(st, sid, Some(st.sequence));
      } else if st.queue.limit != 0 {
        RetainKeeps(st, sid);
        var (reg, failed) := RetainCurrent(st, s);
        if failed.None? { PublishedKeeps(st.(registry := reg), sid); }
      }
    }
  }

  // The state right after the last entry is published, before the handle is released.
  function Advanced(st: State, stores: seq<Store>, overlay: seq<Delta>): State {
    st.(stores := stores, sequence := st.sequence + 1, overlay := overlay,
        queue := st.queue.(lastAssigned := st.sequence + 1))
  }

  // The publishing half of a commit, torn or not.
  lemma PublishedKeeps(st: State, sid: nat)
    requires Inv(st) && sid in st.sessions && st.sessions[sid].active
    requires OthersRetained(st, st.registry, sid)
    ensures var s := st.sessions[sid]; var p := PublishAll(st.stores, s.txs);
            if p.error.Some? then Inv(WithSession(st.(stores := p.stores), sid, s.(txs := p.txs)))
            else Inv(EndSession(Advanced(st, p.stores, RecordAll(st.overlay, st.sequence + 1, Cells(p.stores))),
                                sid, Some(st.sequence + 1)))
  {
    hide StoreOk, Tx.TxOk, Built, PublishAll, RecordAll, Cells;
    var s := st.sessions[sid];
    assert SessionOk(st, s);
    PublishKeeps(st.stores, s.txs);
    var p := PublishAll(st.stores, s.txs);
    forall o | o in st.sessions && o != sid
      ensures SessionOk(st.(stores := p.stores), st.sessions[o])
      ensures SessionOk(st.(stores := p.stores, sequence := st.sequence + 1), st.sessions[o])
    {
      OthersSurvive(st, p.stores, st.sessions[o]);
    }
    if p.error.Some? {
      TornKeeps(st, sid, p);
    } else {
      DoneKeeps(st, sid, p.stores, RecordAll(st.overlay, st.sequence + 1, Cells(p.stores)));
    }
  }

  // The committer's own handle may now point past its generation; it is released
  // in the same step.
  lemma DoneKeeps(st: State, sid: nat, stores: seq<Store>, overlay: seq<Delta>)
    requires Inv(st) && sid in st.sessions && st.sessions[sid].active
    requires StoresOk(stores) && Older(st.stores, stores)
    requires OthersRetained(st, st.registry, sid)
    requires forall o :: o in st.sessions && o != sid ==>
               SessionOk(st.(stores := stores, sequence := st.sequence + 1), st.sessions[o])
    ensures Inv(EndSession(Advanced(st, stores, overlay), sid, Some(st.sequence + 1)))
  {
    hide StoreOk, Tx.TxOk, Built, EntriesOk, NumberedAbove, Release, Holders, RefCount;
    var mid := Advanced(st, stores, overlay);
    var st1 := EndSession(mid, sid, Some(st.sequence + 1));
    ReleaseKeepsRegistry(st, sid, Some(st.sequence + 1));
    assert st1.registry == EndSession(st, sid, Some(st.sequence + 1)).registry;
    assert st1.sessions == EndSession(st, sid, Some(st.sequence + 1)).sessions;
    forall i | 0 <= i < |st1.registry.retained|
      ensures st1.registry.retained[i].generation <= st1.sequence
      ensures StoresOk(st1.registry.retained[i].stores) && Older(st1.registry.retained[i].stores, stores)
    {
      var r := st1.registry.retained[i];
      var j :| 0 <= j < |st.registry.retained| && st.registry.retained[j] == r;
      assert Older(r.stores, st.stores);
    }
    forall o | o in st1.sessions ensures SessionOk(st1, st1.sessions[o]) {
      if o != sid && st.sessions[o].active {
        ReleaseKeepsOther(st, sid, o);
      }
    }
  }

  lemma TornKeeps(st: State, sid: nat, p: Published)
    requires Inv(st) && sid in st.sessions && st.sessions[sid].active
    requires StoresOk(p.stores) && Older(st.stores, p.stores) && TxsOk(p.stores, p.txs) && Unreached(st.stores, p)
    requires SameEntries(st.sessions[sid].txs, p.txs)
    requires OthersRetained(st, st.registry, sid)
    requires forall o :: o in st.sessions && o != sid ==> SessionOk(st.(stores := p.stores), st.sessions[o])
    ensures Inv(WithSession(st.(stores := p.stores), sid, st.sessions[sid].(txs := p.txs)))
  {
    hide StoreOk, Tx.TxOk, Built, FindRetained, RefCount, Holders;
    var s := st.sessions[sid];
    var s1 := s.(txs := p.txs);
    BaseOlder(st, s.generation);
    var st1 := WithSession(st.(stores := p.stores), sid, s1);
    HoldersSame(st.sessions, sid, s1);
    assert SessionOk(st, s);
    assert SessionOk(st1, s1) by {
      assert EntriesOk(p.stores, p.txs);
      forall i | 0 <= i < |p.txs| && p.txs[i].tx.state.Active?
        ensures Base(st1, s.generation)[p.txs[i].table] == Base(st, s.generation)[p.txs[i].table]
      {
        assert SameEntry(s.txs[i], p.txs[i]);
      }
    }
  }

  // ---- Rollback, close and the whole machine --------------------------------

  ghost predicate RolledEntries(a: seq<TableTx>, b: seq<TableTx>) {
    |a| == |b| && forall i :: 0 <= i < |a| ==>
      b[i] == a[i] || b[i] == TableTx(a[i].table, Tx.Close(a[i].tx, Tx.RolledBack))
  }

  lemma {:induction false} RollbackEntries(txs: seq<TableTx>)
    ensures RolledEntries(txs, RollbackAll(txs).0)
  {
    if txs != [] && Tx.EnsureActive(txs[0].tx).Ok? { RollbackEntries(txs[1..]); }
  }

  lemma RolledOk(st: State, s: Session)
    requires SessionOk(st, s) && s.active
    ensures SessionOk(st, s.(txs := RollbackAll(s.txs).0))
  {
    RollbackEntries(s.txs);
    var txs := RollbackAll(s.txs).0;
    hide RollbackAll, Base, FindRetained, CheckRow;
    forall i | 0 <= i < |txs| ensures Tx.TxOk(txs[i].tx, st.stores[txs[i].table].table) {
      assert Tx.TxOk(s.txs[i].tx, st.stores[s.txs[i].table].table);
      CloseOk(s.txs[i].tx, st.stores[s.txs[i].table].table);
    }
  }

  lemma RollbackKeeps(st: State, sid: nat)
    requires Inv(st)
    ensures Inv(RollbackStep(st, sid).0)
  {
    var s := SessionOf(st, sid);
    if s.active {
      var (txs, failed) := RollbackAll(s.txs);
      if failed.Some? {
        RolledOk(st, s);
        hide SessionOk;
        KeepWithSession(st, sid, s.(txs := txs));
      } else {
        EndKeeps(st, sid, s.lastCommit);
      }
    }
  }

  lemma CloseKeeps(st: State, sid: nat)
    requires Inv(st)
    ensures Inv(CloseStep(st, sid).0)
  {
    if SessionOf(st, sid).active {
      EndKeeps(st, sid, None);
    } else {
      hide StoreOk, Tx.TxOk, Built, EntriesOk, NumberedAbove;
      var st1 := WithSession(st, sid, NoSession);
      forall g ensures Holders(st1.sessions, g) == Holders(st.sessions, g) {
        HoldersAfter(st.sessions, sid, NoSession, g);
      }
      forall o | o in st1.sessions ensures SessionOk(st1, st1.sessions[o]) {
        if o != sid { assert SessionOk(st, st.sessions[o]); }
      }
    }
  }

  /** Every step of the engine keeps the invariant, refused or torn commits included. */
  lemma StepKeeps(st: State, c: Command)
    requires Inv(st)
    ensures Inv(Step(st, c).0)
  {
    hide StoreOk, Tx.TxOk, Built, EntriesOk, NumberedAbove, RegistryOk, RetainedOk,
      BeginStep, StageStep, CommitStep, RollbackStep, CloseStep, OpKeeps, ReadTable;
    match c {
      case Begin(sid) => BeginKeeps(st, sid);
      case Touch(sid, t) =>
        OpsKeep(ReadTable(st, sid, t), [], 0);
        StageKeeps(st, sid, t, TouchOp(ReadTable(st, sid, t)));
      case StageInsert(sid, t, vs) =>
        OpsKeep(ReadTable(st, sid, t), vs, 0);
        StageKeeps(st, sid, t, InsertOp(vs));
      case StageUpdate(sid, t, id, vs) =>
        OpsKeep(ReadTable(st, sid, t), vs, id);
        StageKeeps(st, sid, t, UpdateOp(ReadTable(st, sid, t), id, vs));
      case StageDelete(sid, t, id) =>
        OpsKeep(ReadTable(st, sid, t), [], id);
        StageKeeps(st, sid, t, DeleteOp(ReadTable(st, sid, t), id));
      case Commit(sid) => CommitKeeps(st, sid);
      case Rollback(sid) => RollbackKeeps(st, sid);
      case CloseSession(sid) => CloseKeeps(st, sid);
      case _ =>
        ShadowKeeps(st, c);
    }
  }

  // Reads, checkpoints and drains do not touch what sessions depend on.
  lemma ShadowKeeps(st: State, c: Command)
    requires Inv(st)
    requires c.Read? || c.CheckpointBegin? || c.CheckpointComplete? || c.CheckpointFail? || c.Drain?
    ensures Inv(Step(st, c).0)
    ensures var st1 := Step(st, c).0;
            st1.stores == st.stores && st1.sequence == st.sequence && st1.queue == st.queue
            && st1.registry == st.registry && st1.sessions == st.sessions
  {
    hide StoreOk, Tx.TxOk, Built, EntriesOk, NumberedAbove, RegistryOk;
    var st1 := Step(st, c).0;
    forall o | o in st1.sessions ensures SessionOk(st1, st1.sessions[o]) {
      assert SessionOk(st, st.sessions[o]);
    }
  }

  lemma OpenInv(stores: seq<Store>, queueLimit: nat, retentionLimit: nat)
    requires StoresOk(stores)
    ensures Inv(Open(stores, queueLimit, retentionLimit))
  {}

  /** The invariant holds in every reachable state. */
  lemma {:induction false} RunKeeps(st: State, commands: seq<Command>)
    requires Inv(st)
    ensures Inv(Run(st, commands))
    decreases |commands|
  {
    if commands != [] {
      StepKeeps(st, commands[0]);
      RunKeeps(Step(st, commands[0]).0, commands[1..]);
    }
  }

  lemma {:induction false} RunLast(st: State, commands: seq<Command>)
    requires commands != []
    ensures var n := |commands| - 1; Run(st, commands) == Step(Run(st, commands[..n]), commands[n]).0
    decreases |commands|
  {
    hide Step;
    var n := |commands| - 1;
    if n == 0 {
      assert commands[..0] == [] && commands[1..] == [];
    } else {
      assert commands[1..][..n - 1] == commands[..n][1..];
      RunLast(Step(st, commands[0]).0, commands[1..]);
    }
  }
}
