/** Replacing the snapshot file: write a temporary file, force it to the disk, rename
    it over the old one. Every call into the directory may fail, and the machine may
    stop after any of them. */
module AtomicWrite {
  import opened Values

  /** A directory holding the snapshot file and its temporary file. `faults` and
      `sizes` are what the operating system decides: which calls fail and how many
      bytes one write call takes. */
  class Directory {
    const faults: nat -> bool
    const sizes: nat -> nat
    var main: Option<Bytes>     // what a restart finds under the snapshot's name
    var tmp: Option<Bytes>
    var forced: nat             // how much of the temporary file is on the disk
    var clock: nat
    ghost var history: seq<Option<Bytes>>  // `main` after every call so far

    ghost predicate Valid() reads this {
      tmp.Some? ==> forced <= |tmp.value|
    }

    constructor (main: Option<Bytes>, faults: nat -> bool, sizes: nat -> nat)
      ensures Valid() && this.main == main && history == []
    {
      this.main, this.tmp, this.forced, this.clock := main, None, 0, 0;
      this.faults, this.sizes := faults, sizes;
      this.history := [];
    }

    // Whether the next call fails.
    method Tick() returns (failed: bool)
      modifies `clock, `history
      ensures history == old(history) + [main]
    {
      failed := faults(clock);
      clock := clock + 1;
      history := history + [main];
    }

    method DeleteTmp() returns (failed: bool)
      requires Valid()
      modifies `tmp, `clock, `history
      ensures Valid() && history == old(history) + [main]
      ensures tmp == if failed then old(tmp) else None
    {
      failed := Tick();
      if !failed { tmp := None; }
    }

    method CreateTmp() returns (failed: bool)
      requires Valid()
      modifies `tmp, `forced, `clock, `history
      ensures Valid() && history == old(history) + [main]
      ensures !failed ==> tmp == Some([]) && forced == 0
    {
      failed := Tick();
      if !failed { tmp, forced := Some([]), 0; }
    }

    // One write call appends at least one byte and at most all of them.
    method WriteSome(bytes: Bytes) returns (failed: bool, n: nat)
      requires Valid() && bytes != [] && tmp.Some?
      modifies `tmp, `clock, `history
      ensures Valid() && history == old(history) + [main]
      ensures tmp.Some? && 0 < n <= |bytes|
      ensures tmp.value == if failed then old(tmp.value) else old(tmp.value) + bytes[..n]
    {
      n := 1 + sizes(clock) % |bytes|;
      failed := Tick();
      if !failed { tmp := Some(tmp.value + bytes[..n]); }
    }

    method SyncTmp() returns (failed: bool)
      requires Valid() && tmp.Some?
      modifies `forced, `clock, `history
      ensures Valid() && history == old(history) + [main]
      ensures !failed ==> forced == |tmp.value|
    {
      failed := Tick();
      if !failed { forced := |tmp.value|; }
    }

    // A rename is atomic. A restart after it finds what had been forced to the disk.
    method RenameTmp() returns (failed: bool)
      requires Valid() && tmp.Some?
      modifies `main, `tmp, `clock, `history
      ensures Valid()
      ensures failed ==> main == old(main) && tmp == old(tmp) && history == old(history) + [old(main)]
      ensures !failed ==> main == Some(old(tmp).value[..forced]) && tmp == None
                          && history == old(history) + [old(main), main]
    {
      failed := Tick();
      if !failed {
        main, tmp := Some(tmp.value[..forced]), None;
        history := history + [main];
      }
    }

    /** On success the file is the new one and no temporary file is left; on any
        failure the file is the old one. Whenever the machine stops in between, a
        restart finds the complete old file or the complete new one, and never the
        old one again once the new one was there. */
    method WriteSnapshot(bytes: Bytes) returns (r: Result<()>)
      requires Valid()
      modifies this
      ensures Valid()
      ensures if r.Ok? then main == Some(bytes) && tmp == None else main == old(main)
      ensures |old(history)| <= |history| && history[..|old(history)|] == old(history)
      ensures forall i :: |old(history)| <= i < |history| ==> history[i] == old(main) || history[i] == Some(bytes)
      ensures forall i, j :: |old(history)| <= i < j < |history| && history[i] == Some(bytes) ==>
              history[j] == Some(bytes) || old(main) == Some(bytes)
    {
      var failed := DeleteTmp();
      if failed { return Err(WriteFailed); }
      failed := CreateTmp();
      if failed { return Err(WriteFailed); }
      var written := 0;
      while written < |bytes|
        invariant Valid() && 0 <= written <= |bytes| && tmp == Some(bytes[..written]) && main == old(main)
        invariant |old(history)| <= |history| && history[..|old(history)|] == old(history)
        invariant forall i :: |old(history)| <= i < |history| ==> history[i] == main
      {
        var n;
        failed, n := WriteSome(bytes[written..]);
        if failed {
          var _ := DeleteTmp();
          return Err(WriteFailed);
        }
        assert bytes[..written] + bytes[written..][..n] == bytes[..written + n];
        written := written + n;
      }
      assert bytes[..written] == bytes;
      failed := SyncTmp();
      if failed {
        var _ := DeleteTmp();
        return Err(WriteFailed);
      }
      assert tmp.value[..forced] == bytes;
      failed := RenameTmp();
      if failed {
        var _ := DeleteTmp();
        return Err(WriteFailed);
      }
      return Ok(());
    }
  }
}
