/**
 * Best-effort purge of the scratch downloads directory, and the guard that runs it at
 * most once per file response however many `finish` and `close` events arrive.
 */
module Cleanup {

  /** What `fs.statSync(path)` reports for an entry (links followed). */
  datatype EntryKind = RegularFile | Directory | OtherKind

  /** `fs.existsSync` is false, `fs.readdirSync` throws, or the directory can be listed. */
  datatype DirStatus = Missing | Unreadable | Listable

  /** An entry the loop unlinks: a regular file whose `statSync` and `unlinkSync` both succeed. */
  predicate Removable(entries: map<string, EntryKind>, failing: set<string>, name: string)
    requires name in entries
  {
    entries[name] == RegularFile && name !in failing
  }

  /** The entries left once the names in `visited` have been handled. */
  function PurgedAfter(entries: map<string, EntryKind>, failing: set<string>, visited: set<string>): map<string, EntryKind>
  {
    map name | name in entries && !(name in visited && Removable(entries, failing, name)) :: entries[name]
  }

  /**
   * The directory after a full purge: every regular file whose stat and unlink succeed is
   * gone; directories, other kinds and entries whose calls fail stay, unchanged.
   */
  function Purged(entries: map<string, EntryKind>, failing: set<string>): (r: map<string, EntryKind>)
    ensures r.Keys <= entries.Keys
    ensures forall name :: name in r ==> r[name] == entries[name]
    ensures forall name :: name in entries ==> (name !in r <==> entries[name] == RegularFile && name !in failing)
  {
    PurgedAfter(entries, failing, entries.Keys)
  }

  /** Purging a purged directory changes nothing. */
  lemma PurgeIdempotent(entries: map<string, EntryKind>, failing: set<string>)
    ensures Purged(Purged(entries, failing), failing) == Purged(entries, failing)
  {
    var once := Purged(entries, failing);
    assert forall name :: name in once ==> !(once[name] == RegularFile && name !in failing);
  }

  /** The scratch directory: its entries by name, and the names whose `statSync` or `unlinkSync` throws. */
  class DownloadsDir {
    var status: DirStatus
    var entries: map<string, EntryKind>
    var failing: set<string>

    constructor (status: DirStatus, entries: map<string, EntryKind>, failing: set<string>)
      ensures this.status == status && this.entries == entries && this.failing == failing
    {
      this.status := status;
      this.entries := entries;
      this.failing := failing;
    }

    /** `cleanupDownloadsDir()`: a missing or unreadable directory is left alone; a failing entry is skipped. */
    method Purge()
      modifies this
      ensures status == old(status) && failing == old(failing)
      ensures entries == if status == Listable then Purged(old(entries), failing) else old(entries)
    {
      if status != Listable {
        return;
      }
      var pending := entries.Keys;
      while pending != {}
        invariant status == old(status) && failing == old(failing)
        invariant pending <= old(entries).Keys
        invariant entries == PurgedAfter(old(entries), failing, old(entries).Keys - pending)
        decreases pending
      {
        var name :| name in pending;
        if entries[name] == RegularFile && name !in failing {
          entries := map n | n in entries && n != name :: entries[n];
        }
        pending := pending - {name};
      }
    }
  }

  /** The events a response emits. */
  datatype ResponseEvent = Finish | Close | OtherEvent

  /**
   * The per-request cleanup wiring: the `cleaned` flag, and the two `res.once` listeners,
   * each detached after it first fires. `seen` and `purges` are the history the invariant
   * speaks about: the events emitted so far and the number of purges run.
   */
  class CleanupGuard {
    const dir: DownloadsDir
    var cleaned: bool
    var finishListener: bool
    var closeListener: bool
    ghost var seen: set<ResponseEvent>
    ghost var purges: nat

    /** At most one purge ever, and one as soon as either `finish` or `close` has been emitted. */
    ghost predicate Valid()
      reads this
    {
      && purges == (if cleaned then 1 else 0)
      && (cleaned <==> Finish in seen || Close in seen)
      && (finishListener <==> Finish !in seen)
      && (closeListener <==> Close !in seen)
    }

    constructor (dir: DownloadsDir)
      ensures Valid() && this.dir == dir && seen == {} && !cleaned
    {
      this.dir := dir;
      cleaned := false;
      finishListener := true;
      closeListener := true;
      seen := {};
      purges := 0;
    }

    /**
     * `finalizeCleanup()`: purge unless already done. It is only the body of the two
     * listeners: `Emit` calls it after recording the event, and `Valid()` holds again once it
     * returns; called on its own it would leave `seen` behind `cleaned`.
     */
    method FinalizeCleanup()
      modifies this, dir
      ensures cleaned
      ensures seen == old(seen) && finishListener == old(finishListener) && closeListener == old(closeListener)
      ensures purges == if old(cleaned) then old(purges) else old(purges) + 1
      ensures old(cleaned) ==> unchanged(dir)
      ensures !old(cleaned) ==> dir.status == old(dir.status) && dir.failing == old(dir.failing)
      ensures !old(cleaned) ==> dir.entries == if dir.status == Listable then Purged(old(dir.entries), dir.failing) else old(dir.entries)
    {
      if cleaned {
        return;
      }
      cleaned := true;
      purges := purges + 1;
      dir.Purge();
    }

    /** The response emits `e`; an attached listener for it fires once and detaches. */
    method Emit(e: ResponseEvent)
      requires Valid()
      modifies this, dir
      ensures Valid()
      ensures seen == old(seen) + {e}
      ensures purges == if !old(cleaned) && (e == Finish || e == Close) then 1 else old(purges)
      ensures old(cleaned) || e == OtherEvent ==> unchanged(dir)
      ensures !old(cleaned) && e != OtherEvent ==> dir.status == old(dir.status) && dir.failing == old(dir.failing)
      ensures !old(cleaned) && e != OtherEvent ==>
        dir.entries == if dir.status == Listable then Purged(old(dir.entries), dir.failing) else old(dir.entries)
    {
      if e == Finish && finishListener {
        finishListener := false;
        seen := seen + {e};
        FinalizeCleanup();
      } else if e == Close && closeListener {
        closeListener := false;
        seen := seen + {e};
        FinalizeCleanup();
      } else {
        seen := seen + {e};
      }
    }

    /**
     * The response emits `events` in order: one purge in all if any of them is `finish` or
     * `close`, none otherwise; the directory is purged once by then, or left as it was.
     */
    method EmitAll(events: seq<ResponseEvent>)
      requires Valid()
      modifies this, dir
      ensures Valid()
      ensures seen == old(seen) + set e | e in events
      ensures purges <= 1
      ensures purges == 1 <==> old(cleaned) || Finish in events || Close in events
      ensures dir.status == old(dir.status) && dir.failing == old(dir.failing)
      ensures old(cleaned) || (Finish !in events && Close !in events) ==> dir.entries == old(dir.entries)
      ensures !old(cleaned) && (Finish in events || Close in events) ==>
        dir.entries == if dir.status == Listable then Purged(old(dir.entries), dir.failing) else old(dir.entries)
    {
      var i := 0;
      while i < |events|
        invariant 0 <= i <= |events|
        invariant Valid()
        invariant seen == old(seen) + set e | e in events[..i]
        invariant old(cleaned) ==> cleaned
        invariant dir.status == old(dir.status) && dir.failing == old(dir.failing)
        invariant old(cleaned) || !cleaned ==> dir.entries == old(dir.entries)
        invariant !old(cleaned) && cleaned ==>
          dir.entries == if dir.status == Listable then Purged(old(dir.entries), dir.failing) else old(dir.entries)
      {
        Emit(events[i]);
        assert events[..i + 1] == events[..i] + [events[i]];
        i := i + 1;
      }
      assert events[..i] == events;
    }
  }
}
