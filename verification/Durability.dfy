/** Checkpoints over whole runs, torn commits included: the file always holds, complete,
    the committed stores of one moment, that moment's generation never goes back, and
    reopening yields those stores if and only if the file is within the reader's bound. */
module Durability {
  import opened Values
  import opened Catalog
  import opened Rows
  import Tx = Transactions
  import opened Engine
  import opened EngineInvariant
  import opened Replay
  import opened Generations
  import File = SnapshotFile
  import Header = SnapshotHeader
  import opened AtomicWrite

  // ---- Export and import ----------------------------------------------------

  function RegisterViews(db: File.Database, views: seq<File.Named>): Result<File.Database>
    decreases |views|
  {
    if views == [] then Ok(db)
    else
      var next :- File.RegisterView(db, views[0]);
      RegisterViews(next, views[1..])
  }

  function RegisterProcedures(db: File.Database, procedures: seq<File.Named>): Result<File.Database>
    decreases |procedures|
  {
    if procedures == [] then Ok(db)
    else
      var next :- File.RegisterProcedure(db, procedures[0]);
      RegisterProcedures(next, procedures[1..])
  }

  /** A database rebuilt object by object: what a checkpoint exports from the running
      database and what opening a file makes of the decoded one. */
  function Rebuild(db: File.Database): Result<File.Database> {
    var tables :- Capture(db.tables);
    var views :- RegisterViews(File.Database(tables, [], []), db.views);
    RegisterProcedures(views, db.procedures)
  }

  lemma {:induction false} ViewsRegister(db: File.Database, k: nat)
    requires File.NamesApart(db) && k <= |db.views|
    ensures RegisterViews(File.Database(db.tables, db.views[..k], []), db.views[k..]) ==
            Ok(File.Database(db.tables, db.views, []))
    decreases |db.views| - k
  {
    if k == |db.views| {
      assert db.views[..k] == db.views;
    } else {
      var v := db.views[k];
      assert db.views[k..][1..] == db.views[k + 1..] && db.views[..k] + [v] == db.views[..k + 1];
      assert !File.Listed(db.views[..k], v.name) && !File.TableNamed(db.tables, v.name);
      hide File.NamesApart;
      ViewsRegister(db, k + 1);
    }
  }

  lemma {:induction false} ProceduresRegister(db: File.Database, k: nat)
    requires File.NamesApart(db) && k <= |db.procedures|
    ensures RegisterProcedures(db.(procedures := db.procedures[..k]), db.procedures[k..]) == Ok(db)
    decreases |db.procedures| - k
  {
    if k == |db.procedures| {
      assert db.procedures[..k] == db.procedures;
    } else {
      var p := db.procedures[k];
      assert db.procedures[k..][1..] == db.procedures[k + 1..];
      assert db.procedures[..k] + [p] == db.procedures[..k + 1];
      assert !File.Listed(db.procedures[..k], p.name);
      assert !File.TableNamed(db.tables, p.name) && !File.Listed(db.views, p.name);
      hide File.NamesApart;
      ProceduresRegister(db, k + 1);
    }
  }

  /** Rebuilding is exact, or refused because some table cannot be rebuilt. */
  lemma RebuildExact(db: File.Database)
    requires File.NamesApart(db) && StoresOk(db.tables)
    ensures Rebuild(db) == Ok(db) <==> AllRebuildable(db.tables)
    ensures Rebuild(db).Ok? <==> AllRebuildable(db.tables)
  {
    hide StoresOk, File.NamesApart, AllRebuildable, Capture;
    CaptureExact(db.tables);
    assert db.views[0..] == db.views && db.views[..0] == [];
    assert db.procedures[0..] == db.procedures && db.procedures[..0] == [];
    assert db.(procedures := []) == File.Database(db.tables, db.views, []);
    ViewsRegister(db, 0);
    ProceduresRegister(db, 0);
  }

  // ---- The running database and its file ------------------------------------

  datatype Procedure = Procedure(name: Bytes, params: seq<Bytes>, body: Bytes)

  /** A running database. The file keeps a procedure's name and body only. */
  datatype Running = Running(tables: seq<Store>, views: seq<File.Named>, procedures: seq<Procedure>)

  function Written(procedures: seq<Procedure>): (r: seq<File.Named>)
    ensures |r| == |procedures|
  {
    seq(|procedures|, i requires 0 <= i < |procedures| => File.Named(procedures[i].name, procedures[i].body))
  }

  function Reloaded(entries: seq<File.Named>): (r: seq<Procedure>)
    ensures |r| == |entries|
  {
    seq(|entries|, i requires 0 <= i < |entries| => Procedure(entries[i].name, [], entries[i].body))
  }

  function OnFile(r: Running): File.Database {
    File.Database(r.tables, r.views, Written(r.procedures))
  }

  predicate Parameterless(procedures: seq<Procedure>) {
    forall i :: 0 <= i < |procedures| ==> procedures[i].params == []
  }

  // Procedures come back as they were exactly when none of them has a parameter.
  lemma ReloadedExactly(procedures: seq<Procedure>)
    ensures Reloaded(Written(procedures)) == procedures <==> Parameterless(procedures)
  {
    var back := Reloaded(Written(procedures));
    forall i | 0 <= i < |procedures| ensures back[i] == procedures[i] <==> procedures[i].params == [] {
      assert procedures[i] == Procedure(procedures[i].name, procedures[i].params, procedures[i].body);
    }
    if Parameterless(procedures) { assert back == procedures; }
  }

  const MAX_SNAPSHOT_BYTES: nat := 128 * 1024 * 1024

  /** Opening a file: read it whole, up to the bound, decode it, rebuild what it holds. */
  function Reopen(file: Bytes): Result<Running> {
    if |file| > MAX_SNAPSHOT_BYTES then Err(FileTooBig)
    else
      var decoded :- Header.Decode(file);
      var db :- Rebuild(decoded);
      Ok(Running(db.tables, db.views, Reloaded(db.procedures)))
  }

  // ---- The machine with its file --------------------------------------------

  // What was committed when the file was written, and under which generation.
  datatype Saved = Saved(generation: nat, stores: seq<Store>)

  datatype Machine = Machine(
    h: History, views: seq<File.Named>, procedures: seq<Procedure>,
    file: Option<Bytes>, saved: Option<Saved>)

  // A checkpoint either gets as far as the rename or leaves the file alone.
  datatype Event = Db(c: Command) | Save(installed: bool)

  function With(m: Machine, stores: seq<Store>): Running {
    Running(stores, m.views, m.procedures)
  }

  function SaveBytes(m: Machine): Result<Bytes> {
    var exported :- Rebuild(OnFile(With(m, m.h.st.stores)));
    Header.Encode(exported)
  }

  function Next(m: Machine, e: Event): Machine {
    match e
    case Db(c) => m.(h := Follow(m.h, c))
    case Save(installed) =>
      if SaveBytes(m).Ok? && installed
      then m.(file := Some(SaveBytes(m).value), saved := Some(Saved(m.h.st.sequence, m.h.st.stores)))
      else m
  }

  function After(m: Machine, events: seq<Event>): Machine
    decreases |events|
  {
    if events == [] then m else After(Next(m, events[0]), events[1..])
  }

  function Commands(events: seq<Event>): seq<Command> {
    if events == [] then []
    else if events[0].Db? then [events[0].c] + Commands(events[1..])
    else Commands(events[1..])
  }

  // A checkpoint that is refused or does not get to its rename changes nothing, and no
  // checkpoint touches the engine.
  lemma CheckpointsDisturbNobody(m: Machine, installed: bool)
    ensures Next(m, Save(installed)).h == m.h
    ensures !installed || SaveBytes(m).Err? ==> Next(m, Save(installed)) == m
  {}

  /** Whatever checkpoints were started, refused, failed or completed in between, the
      engine is where its own commands take it: same stores, same sequence, same
      sessions, same view for every reader. */
  lemma {:induction false} CheckpointsAreInvisible(m: Machine, events: seq<Event>)
    ensures After(m, events).h == FollowAll(m.h, Commands(events))
    decreases |events|
  {
    hide SaveBytes, Follow;
    if events != [] {
      CheckpointsAreInvisible(Next(m, events[0]), events[1..]);
      if events[0].Db? {
        assert ([events[0].c] + Commands(events[1..]))[1..] == Commands(events[1..]);
      } else {
        CheckpointsDisturbNobody(m, events[0].installed);
      }
    }
  }

  // ---- The file over every run ----------------------------------------------

  ghost predicate FileOk(m: Machine, s: Saved) {
    && s.generation < |m.h.states| && m.file.Some?
    && StoresOk(s.stores) && AllRebuildable(s.stores) && SameTables(s.stores, m.h.st.stores)
    && Header.Encode(OnFile(With(m, s.stores))) == Ok(m.file.value)
  }

  ghost predicate Kept(m: Machine) {
    && HistoryOk(m.h)
    && File.NamesApart(OnFile(With(m, m.h.st.stores)))
    && (m.file.Some? <==> m.saved.Some?)
    && (m.saved.Some? ==> FileOk(m, m.saved.value))
  }

  lemma SameNamesApart(a: seq<Store>, b: seq<Store>, views: seq<File.Named>, procedures: seq<File.Named>)
    requires SameTables(a, b) && File.NamesApart(File.Database(a, views, procedures))
    ensures File.NamesApart(File.Database(b, views, procedures))
  {
    hide NamesEqual;
    forall name: Bytes ensures File.TableNamed(a, name) == File.TableNamed(b, name) {
      if File.TableNamed(a, name) {
        var i :| 0 <= i < |a| && NamesEqual(a[i].table.name, name);
        assert NamesEqual(b[i].table.name, name);
      }
      if File.TableNamed(b, name) {
        var i :| 0 <= i < |b| && NamesEqual(b[i].table.name, name);
        assert NamesEqual(a[i].table.name, name);
      }
    }
  }

  lemma DbKeeps(m: Machine, c: Command)
    requires Kept(m)
    ensures Kept(Next(m, Db(c)))
  {
    hide Inv, Step, StoresOk, AllRebuildable, File.NamesApart, Header.Encode, Written;
    var m1 := Next(m, Db(c));
    FollowKeeps(m.h, c);
    StepSameTables(m.h.st, c);
    SameNamesApart(m.h.st.stores, m1.h.st.stores, m.views, Written(m.procedures));
  }

  lemma SaveKeeps(m: Machine, installed: bool)
    requires Kept(m)
    ensures Kept(Next(m, Save(installed)))
  {
    hide Inv, Rebuild, Header.Encode, AllRebuildable, File.NamesApart, StoresOk, Written;
    if SaveBytes(m).Ok? && installed {
      InvStores(m.h.st);
      RebuildExact(OnFile(With(m, m.h.st.stores)));
    }
  }

  /** In every run, torn commits included, the file holds the complete committed stores
      of one moment, and that moment's generation never goes back. */
  lemma {:induction false} FileIsACommittedState(m: Machine, events: seq<Event>)
    requires Kept(m)
    ensures var m1 := After(m, events);
            && Kept(m1)
            && (m.saved.Some? ==> m1.saved.Some? && m.saved.value.generation <= m1.saved.value.generation)
    decreases |events|
  {
    hide Kept, SaveBytes, Follow;
    if events != [] {
      match events[0] {
        case Db(c) => DbKeeps(m, c);
        case Save(installed) => SaveKeeps(m, installed);
      }
      SavedGrows(m, events[0]);
      hide Next;
      FileIsACommittedState(Next(m, events[0]), events[1..]);
    }
  }

  lemma SavedGrows(m: Machine, e: Event)
    requires Kept(m)
    ensures m.saved.Some? ==> Next(m, e).saved.Some? && m.saved.value.generation <= Next(m, e).saved.value.generation
  {
    hide Inv, Follow, SaveBytes, Header.Encode, StoresOk, AllRebuildable, File.NamesApart, Written;
  }

  // Row ids are 64-bit words in the code.
  ghost predicate IdsFit(stores: seq<Store>) {
    forall t :: 0 <= t < |stores| ==> stores[t].nextId < WORD
  }

  // What comes back: the stores and views, and the procedures without parameters.
  function Reopened(m: Machine, stores: seq<Store>): Running {
    Running(stores, m.views, Reloaded(Written(m.procedures)))
  }

  lemma SavedReads(m: Machine)
    requires Kept(m) && m.saved.Some? && IdsFit(m.saved.value.stores) && |m.file.value| <= MAX_SNAPSHOT_BYTES
    ensures Header.Decode(m.file.value) == Ok(OnFile(With(m, m.saved.value.stores)))
    ensures Rebuild(OnFile(With(m, m.saved.value.stores))) == Ok(OnFile(With(m, m.saved.value.stores)))
  {
    hide HistoryOk, File.NamesApart, Rebuildable, StoreOk, Built, Written;
    var stores := m.saved.value.stores;
    var db := OnFile(With(m, stores));
    SameTablesBack(stores, m.h.st.stores);
    SameNamesApart(m.h.st.stores, stores, m.views, Written(m.procedures));
    assert File.DatabaseOk(db);
    RebuildExact(db);
    assert |File.EncodePayload(db).value| < WORD by { PayloadWithin(db); }
    hide File.DatabaseOk, AllRebuildable, StoresOk, Rebuild, Header.Decode, File.EncodePayload;
    Header.FileRoundTrip(db);
  }

  lemma SameTablesBack(a: seq<Store>, b: seq<Store>)
    requires SameTables(a, b)
    ensures SameTables(b, a)
  {}

  lemma PayloadWithin(db: File.Database)
    requires Header.Encode(db).Ok?
    ensures File.EncodePayload(db).Ok? && |File.EncodePayload(db).value| <= |Header.Encode(db).value|
  {
    hide File.EncodePayload, Header.Header;
  }

  /** Reopening a saved file, after any run: it yields the stores committed when it was
      saved if and only if the file is within the reader's bound, and is refused as too
      big otherwise; what it yields is the database that was saved, procedures included,
      if and only if none of them has a parameter. */
  lemma ReopenExactly(m: Machine)
    requires Kept(m) && m.saved.Some? && IdsFit(m.saved.value.stores)
    ensures m.file.Some?
    ensures Reopen(m.file.value) ==
            if |m.file.value| <= 134_217_728 then Ok(Reopened(m, m.saved.value.stores)) else Err(FileTooBig)
    ensures Reopen(m.file.value) == Ok(With(m, m.saved.value.stores)) <==>
            |m.file.value| <= 134_217_728 && Parameterless(m.procedures)
  {
    ReloadedExactly(m.procedures);
    hide Kept, Header.Decode, Rebuild, IdsFit, Parameterless, Reloaded, Written;
    SavedHasFile(m);
    if |m.file.value| <= MAX_SNAPSHOT_BYTES { SavedReads(m); }
  }

  lemma SavedHasFile(m: Machine)
    requires Kept(m) && m.saved.Some?
    ensures m.file.Some? && m.saved.value.generation < |m.h.states|
  {}

  // ---- Past generations -----------------------------------------------------

  /** The file holds the state its generation was published with. */
  predicate HoldsGeneration(m: Machine) {
    m.saved.Some? ==>
      m.saved.value.generation < |m.h.states| && m.saved.value.stores == m.h.states[m.saved.value.generation]
  }

  /** Every checkpoint of the run that was installed found the stores intact. */
  predicate SavesIntact(m: Machine, events: seq<Event>)
    decreases |events|
  {
    events == [] ||
    ((events[0].Save? && events[0].installed && SaveBytes(m).Ok? ==> Intact(m.h))
     && SavesIntact(Next(m, events[0]), events[1..]))
  }

  // An installed checkpoint holds the stores as they are.
  lemma InstalledHolds(m: Machine)
    requires Kept(m) && SaveBytes(m).Ok?
    ensures HoldsGeneration(Next(m, Save(true))) <==> Intact(m.h)
  {
    hide Inv, SaveBytes, StoresOk, FileOk, File.NamesApart;
  }

  lemma StepHolds(m: Machine, e: Event)
    requires Kept(m) && HoldsGeneration(m)
    ensures HoldsGeneration(Next(m, e)) <==> (e.Save? && e.installed && SaveBytes(m).Ok? ==> Intact(m.h))
  {
    hide Kept, SaveBytes, Intact, Follow;
    match e {
      case Db(c) =>
        KeptHistory(m);
        FollowKeeps(m.h, c);
      case Save(installed) =>
        if SaveBytes(m).Ok? && installed { InstalledHolds(m); }
    }
  }

  lemma KeptHistory(m: Machine)
    requires Kept(m)
    ensures HistoryOk(m.h)
  {}

  lemma NextKeeps(m: Machine, e: Event)
    requires Kept(m)
    ensures Kept(Next(m, e))
  {
    hide Kept, Next;
    match e {
      case Db(c) => DbKeeps(m, c);
      case Save(installed) => SaveKeeps(m, installed);
    }
  }

  /** The file holds the state of one past generation at every point of the run. */
  predicate HoldsThroughout(m: Machine, events: seq<Event>)
    decreases |events|
  {
    HoldsGeneration(m) && (events != [] ==> HoldsThroughout(Next(m, events[0]), events[1..]))
  }

  /** At every point of a run the file holds the state of exactly one past generation if
      and only if every checkpoint installed in it found the stores intact. */
  lemma {:induction false} FileIsOnePastGeneration(m: Machine, events: seq<Event>)
    requires Kept(m) && HoldsGeneration(m)
    ensures HoldsThroughout(m, events) <==> SavesIntact(m, events)
    ensures SavesIntact(m, events) ==> HoldsGeneration(After(m, events))
    decreases |events|
  {
    hide Kept, SaveBytes, Intact, HoldsGeneration, Next;
    if events != [] {
      StepHolds(m, events[0]);
      NextKeeps(m, events[0]);
      if HoldsGeneration(Next(m, events[0])) {
        FileIsOnePastGeneration(Next(m, events[0]), events[1..]);
      } else {
        assert !HoldsThroughout(Next(m, events[0]), events[1..]);
      }
    }
  }

  // ---- Wherever the checkpoints are placed ----------------------------------

  /** The commands of the run, with a checkpoint installed before and after each. */
  function Placed(commands: seq<Command>): seq<Event> {
    if commands == [] then [Save(true)] else [Save(true), Db(commands[0])] + Placed(commands[1..])
  }

  lemma {:induction false} PlacedCommands(commands: seq<Command>)
    ensures Commands(Placed(commands)) == commands
  {
    if commands != [] {
      var events := Placed(commands);
      PlacedCommands(commands[1..]);
      assert events[1..] == [Db(commands[0])] + Placed(commands[1..]);
      assert events[1..][1..] == Placed(commands[1..]);
      assert Commands(events[1..]) == [commands[0]] + Commands(Placed(commands[1..]));
    }
  }

  /** Wherever checkpoints are installed among the commands, the file holds the state of
      one past generation throughout. */
  ghost predicate EverySaveHolds(m: Machine, commands: seq<Command>) {
    forall events :: Commands(events) == commands ==> HoldsThroughout(m, events)
  }

  /** At every point of the run a checkpoint would get as far as writing the file. */
  predicate Savable(m: Machine, commands: seq<Command>)
    decreases |commands|
  {
    SaveBytes(m).Ok? && (commands != [] ==> Savable(m.(h := Follow(m.h, commands[0])), commands[1..]))
  }

  // At intact points any checkpoint finds the stores intact.
  lemma {:induction false} IntactSaves(m: Machine, events: seq<Event>)
    requires IntactThroughout(m.h, Commands(events))
    ensures SavesIntact(m, events)
    decreases |events|
  {
    hide SaveBytes, Follow, Intact;
    if events != [] {
      if events[0].Db? { assert Commands(events)[1..] == Commands(events[1..]); }
      IntactSaves(Next(m, events[0]), events[1..]);
    }
  }

  lemma SameBytes(m: Machine, m1: Machine)
    requires m1.h == m.h && m1.views == m.views && m1.procedures == m.procedures
    ensures SaveBytes(m1) == SaveBytes(m)
  {}

  lemma {:induction false} SavableAlike(m: Machine, m1: Machine, commands: seq<Command>)
    requires m1.h == m.h && m1.views == m.views && m1.procedures == m.procedures
    ensures Savable(m1, commands) == Savable(m, commands)
    decreases |commands|
  {
    hide SaveBytes, Follow;
    SameBytes(m, m1);
    if commands != [] {
      SavableAlike(m.(h := Follow(m.h, commands[0])), m1.(h := Follow(m1.h, commands[0])), commands[1..]);
    }
  }

  // A checkpoint at every point finds out whether the stores are intact there.
  lemma {:induction false} PlacedSaves(m: Machine, commands: seq<Command>)
    requires Savable(m, commands) && SavesIntact(m, Placed(commands))
    ensures IntactThroughout(m.h, commands)
    decreases |commands|
  {
    hide SaveBytes, Follow, Intact;
    var events := Placed(commands);
    assert events[0] == Save(true);
    var m1 := Next(m, events[0]);
    if commands != [] {
      assert events[1..] == [Db(commands[0])] + Placed(commands[1..]);
      assert events[1..][1..] == Placed(commands[1..]);
      var m2 := Next(m1, events[1..][0]);
      assert SavesIntact(m2, Placed(commands[1..]));
      SavableAlike(m.(h := Follow(m.h, commands[0])), m2, commands[1..]);
      PlacedSaves(m2, commands[1..]);
    }
  }

  /** From intact stores: when every step of a run is harmless, the file holds the state of
      one past generation throughout, wherever checkpoints are installed; and as long as a
      checkpoint can be written at all, only then. */
  lemma EverySaveHoldsExactly(m: Machine, commands: seq<Command>)
    requires Kept(m) && HoldsGeneration(m) && Intact(m.h)
    ensures AllHarmless(m.h.st, commands) ==> EverySaveHolds(m, commands)
    ensures Savable(m, commands) ==> (EverySaveHolds(m, commands) <==> AllHarmless(m.h.st, commands))
  {
    hide Kept, HoldsGeneration, Intact, HoldsThroughout, SavesIntact, IntactThroughout, AllHarmless, Savable, HistoryOk;
    KeptHistory(m);
    IntactRunsExactly(m.h, commands);
    if AllHarmless(m.h.st, commands) {
      forall events | Commands(events) == commands ensures HoldsThroughout(m, events) {
        IntactSaves(m, events);
        FileIsOnePastGeneration(m, events);
      }
    }
    if Savable(m, commands) && EverySaveHolds(m, commands) {
      PlacedCommands(commands);
      FileIsOnePastGeneration(m, Placed(commands));
      PlacedSaves(m, commands);
    }
  }

  // ---- From the start -------------------------------------------------------

  function Launch(r: Running, queueLimit: nat, retentionLimit: nat): Machine {
    Machine(Opened(r.tables, queueLimit, retentionLimit), r.views, r.procedures, None, None)
  }

  lemma LaunchKept(r: Running, q: nat, l: nat)
    requires StoresOk(r.tables) && File.NamesApart(OnFile(r))
    ensures Kept(Launch(r, q, l)) && HoldsGeneration(Launch(r, q, l))
  {
    hide File.NamesApart, StoresOk, Inv, Written;
    OpenedOk(r.tables, q, l);
  }

  /** From opening a database to any point of any run: a saved file reopens, to the stores
      committed when it was saved, if and only if it is within the reader's bound. */
  lemma EverySavedFileReopens(r: Running, q: nat, l: nat, events: seq<Event>)
    requires StoresOk(r.tables) && File.NamesApart(OnFile(r))
    ensures var m := After(Launch(r, q, l), events);
            m.saved.Some? && IdsFit(m.saved.value.stores) ==>
              && m.file.Some?
              && Reopen(m.file.value) ==
                 if |m.file.value| <= 134_217_728 then Ok(Reopened(m, m.saved.value.stores)) else Err(FileTooBig)
  {
    hide StoresOk, File.NamesApart, After, Launch, Reopen, IdsFit, OnFile, Kept, Reopened;
    LaunchKept(r, q, l);
    FileIsACommittedState(Launch(r, q, l), events);
    var m := After(Launch(r, q, l), events);
    if m.saved.Some? && IdsFit(m.saved.value.stores) { ReopenExactly(m); }
  }

  /** From opening a database to any point of any run of harmless steps: the file holds the serial
      replay of the batches published before the generation it was saved at, nothing
      staged and nothing later. */
  lemma HarmlessFileIsReplay(r: Running, q: nat, l: nat, events: seq<Event>)
    requires StoresOk(r.tables) && File.NamesApart(OnFile(r)) && AllHarmless(Open(r.tables, q, l), Commands(events))
    ensures var m := After(Launch(r, q, l), events);
            var log := Play(Start(r.tables, q, l), Commands(events)).log;
            m.saved.Some? ==>
              m.saved.value.generation <= |log|
                && m.saved.value.stores == Serial(r.tables, log[..m.saved.value.generation])
  {
    hide StoresOk, File.NamesApart, After, SaveBytes, Follow, Kept, AllHarmless, Serializable, OnFile, Advance, Serial,
      Intact, IntactThroughout, SavesIntact, HoldsThroughout, HistoryOk;
    var h, w := Opened(r.tables, q, l), Start(r.tables, q, l);
    LaunchKept(r, q, l);
    OpenedReplays(r.tables, q, l);
    StartIsSerializable(r.tables, q, l);
    OpenedOk(r.tables, q, l);
    IntactRunsExactly(h, Commands(events));
    IntactSaves(Launch(r, q, l), events);
    FileIsOnePastGeneration(Launch(r, q, l), events);
    CheckpointsAreInvisible(Launch(r, q, l), events);
    StatesAreReplays(h, w, Commands(events));
    RunsAreSerializable(w, Commands(events));
  }

  // ---- The checkpoint as it is written --------------------------------------

  /** A checkpoint through the directory: export, encode, replace the file. Whatever
      fails, and wherever the machine stops, the directory holds the file of the state
      before or of the state after, and the call reports which. */
  method Checkpoint(dir: Directory, m: Machine) returns (r: Result<()>, m1: Machine)
    requires dir.Valid() && dir.main == m.file
    modifies dir
    ensures dir.Valid() && dir.main == m1.file
    ensures m1 == Next(m, Save(r.Ok?)) && (r.Ok? ==> SaveBytes(m).Ok?)
    ensures |old(dir.history)| <= |dir.history|
    ensures forall i :: |old(dir.history)| <= i < |dir.history| ==>
              dir.history[i] == m.file || dir.history[i] == Next(m, Save(true)).file
  {
    var bytes := SaveBytes(m);
    if bytes.Err? { return Err(bytes.error), m; }
    r := dir.WriteSnapshot(bytes.value);
    m1 := Next(m, Save(r.Ok?));
  }

  // ---- The checkpoint ticket ------------------------------------------------

  /** The worker's completed generation never goes back and never passes the commit
      sequence; only completing the one running ticket moves it, to the generation
      that was committed when the ticket was taken. */
  lemma {:induction false} CompletedNeverGoesBack(st: State, commands: seq<Command>)
    requires Inv(st)
    ensures var st1 := Run(st, commands);
            st.worker.lastCompleted <= st1.worker.lastCompleted <= st1.sequence
    decreases |commands|
  {
    hide Inv, Step;
    if commands == [] {
      InvWorker(st);
    } else {
      StepKeeps(st, commands[0]);
      WorkerStep(st, commands[0]);
      CompletedNeverGoesBack(Step(st, commands[0]).0, commands[1..]);
    }
  }

  lemma InvWorker(st: State)
    requires Inv(st)
    ensures st.worker.lastCompleted <= st.sequence
    ensures st.worker.running.Some? ==> st.worker.lastCompleted <= st.worker.running.value <= st.sequence
  {}

  lemma WorkerStep(st: State, c: Command)
    requires Inv(st)
    ensures var (st1, outcome) := Step(st, c);
            && st.worker.lastCompleted <= st1.worker.lastCompleted
            && (st1.worker.lastCompleted != st.worker.lastCompleted ==>
                  c.CheckpointComplete? && st.worker.running == Some(st1.worker.lastCompleted))
            && (st1.worker.running.Some? && st1.worker.running != st.worker.running ==>
                  c.CheckpointBegin? && st.worker.running.None? && st1.worker.running == Some(st.sequence))
            && (c.CheckpointBegin? && st.worker.running.Some? ==>
                  outcome == Refused(CheckpointAlreadyRunning) && st1 == st)
  {
    hide Inv, BeginStep, StageStep, CommitStep, RollbackStep, CloseStep, ReadTable, DrainReady;
    InvWorker(st);
    if !c.CheckpointBegin? && !c.CheckpointComplete? && !c.CheckpointFail? { OthersKeepWorker(st, c); }
  }

  lemma OthersKeepWorker(st: State, c: Command)
    requires !c.CheckpointBegin? && !c.CheckpointComplete? && !c.CheckpointFail?
    ensures Step(st, c).0.worker == st.worker
  {
    hide RetainCurrent, PublishAll, RollbackAll, EntryFor, Release, ReadTable, RecordAll, Cells, DrainReady,
      Tx.Insert, Tx.Update, Tx.Delete, WithEntry;
    match c {
      case Commit(sid) => assert CommitStep(st, sid).0.worker == st.worker;
      case _ =>
    }
  }
}
