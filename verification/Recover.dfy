/** `RocksdbStore::check_point` and `RocksdbStore::recover`: a directory swap with rollback guards. */
module Recover {
  import opened Types
  import SortedDb
  import ScopeExit

  type Path = string

  /** A directory holds a complete database, or something that is not one. */
  datatype Dir = Whole(db: SortedDb.Db) | Partial

  type Disk = map<Path, Dir>

  /** The outcome of every step that can fail; a failing recursive delete may leave part of the directory. */
  datatype Outcomes = Outcomes(
    close: bool,
    deleteStaleBak: bool,
    renameAway: bool,
    openSource: bool,
    createCheckpointObject: bool,
    createCheckpoint: bool,
    checkpointLeavesRubbish: bool,
    renameBack: bool,
    deleteBak: bool,
    deleteLeavesPart: bool,
    reopen: bool)

  datatype Rollback = ReopenData | RestoreData

  function BakPath(data: Path): Path {
    data + ".bak"
  }

  ghost predicate Holds(disk: Disk, path: Path, db: SortedDb.Db) {
    path in disk && disk[path] == Whole(db)
  }

  ghost predicate SameExcept(a: Disk, b: Disk, path: Path) {
    forall p :: p != path ==> (p in a <==> p in b) && (p in a ==> a[p] == b[p])
  }

  /** Only the data and the backup directory differ. */
  ghost predicate OthersKept(a: Disk, b: Disk, data: Path) {
    forall p :: p != data && p != BakPath(data) ==> (p in a <==> p in b) && (p in a ==> a[p] == b[p])
  }

  /** A directory that was there is as it was, or what a failing recursive delete left of it. */
  ghost predicate LeftOver(disk: Disk, path: Path, dir: Dir) {
    path in disk && (disk[path] == dir || disk[path] == Partial)
  }

  /** The given contents exist whole in the data or the backup directory. */
  ghost predicate KeptSomewhere(disk: Disk, data: Path, db: SortedDb.Db) {
    Holds(disk, data, db) || Holds(disk, BakPath(data), db)
  }

  /** The data directory can be moved aside: a stale backup goes, and the rename works. */
  predicate CanMove(disk: Disk, data: Path, outcomes: Outcomes) {
    (BakPath(data) in disk ==> outcomes.deleteStaleBak) && outcomes.renameAway
  }

  /** What becomes of a backup when the data directory was not moved: it is gone unless it could not be deleted. */
  ghost predicate BackupIfUnmoved(disk: Disk, before: Disk, data: Path, outcomes: Outcomes) {
    if BakPath(data) in before && !outcomes.deleteStaleBak then LeftOver(disk, BakPath(data), before[BakPath(data)])
    else BakPath(data) !in disk
  }

  /** The source can be opened, holds a complete database and is copied. */
  predicate CanFetch(present: bool, outcomes: Outcomes) {
    present && outcomes.openSource && outcomes.createCheckpointObject && outcomes.createCheckpoint
  }

  /** A complete database is there to recover from once the data directory has been moved aside. */
  predicate HasSource(disk: Disk, data: Path, from: Path) {
    from == BakPath(data) || (from != data && from in disk && disk[from].Whole?)
  }

  /** Released guards do nothing when the scope ends. */
  lemma NothingToUnwind(a: ScopeExit.Guard<Rollback>, b: ScopeExit.Guard<Rollback>)
    requires !a.run && !b.run
    ensures ScopeExit.Destroyed([a, b]) == []
  {
    assert ScopeExit.Destroyed([a]) == [] + ScopeExit.Destroyed([]);
    assert [a, b][..1] == [a];
  }

  class Store {
    const dataPath: Path
    var disk: Disk
    var live: Option<SortedDb.Db>
    var aborted: bool
    /** Every state the disk went through since the last call of `StartTrace`. */
    ghost var trace: seq<Disk>

    /** The data directory is in place; an open database may hold more than its directory does. */
    ghost predicate Ready()
      reads this
    {
      !aborted && dataPath in disk && disk[dataPath].Whole?
    }

    /** What the store contains: the open database, or else the directory. */
    ghost function Contents(): SortedDb.Db
      requires Ready()
      reads this
    {
      if live.Some? then live.value else disk[dataPath].db
    }

    constructor (dataPath: Path, db: SortedDb.Db, others: Disk)
      ensures Ready() && live == Some(db) && Contents() == db && this.dataPath == dataPath
      ensures disk == others[dataPath := Whole(db)]
    {
      this.dataPath := dataPath;
      disk := others[dataPath := Whole(db)];
      live := Some(db);
      aborted := false;
      trace := [];
    }

    method Change(next: Disk)
      modifies this`disk, this`trace
      ensures disk == next && trace == old(trace) + [next]
    {
      disk := next;
      trace := trace + [next];
    }

    /** Closing flushes what is only in memory; a failing close leaves the database as it is. */
    method Close(ok: bool) returns (status: Status)
      requires Ready()
      modifies this`disk, this`live, this`trace
      ensures Ready() && Contents() == old(Contents())
      ensures status == OK <==> old(live).None? || ok
      ensures status == OK ==> live.None? && Holds(disk, dataPath, old(Contents()))
      ensures status == OK ==> disk == old(disk)[dataPath := Whole(old(Contents()))]
      ensures status == OK ==> trace == old(trace) + [disk]
      ensures status != OK ==>
                status == Error(EIO) && live == old(live) && disk == old(disk) && trace == old(trace)
    {
      if live.None? {
        assert disk == disk[dataPath := Whole(Contents())];
        Change(disk);
        return OK;
      }
      if !ok {
        return Error(EIO);
      }
      Change(disk[dataPath := Whole(live.value)]);
      live := None;
      return OK;
    }

    /** rename(2) of a directory: fails if there is none, or if a complete one is in the way. */
    method Rename(src: Path, dst: Path, ok: bool) returns (done: bool)
      requires src != dst
      modifies this`disk, this`trace
      ensures done <==> ok && src in old(disk) && (dst in old(disk) ==> old(disk)[dst] == Partial)
      ensures done ==> disk == (old(disk) - {src})[dst := old(disk)[src]] && trace == old(trace) + [disk]
      ensures !done ==> disk == old(disk) && trace == old(trace)
    {
      done := ok && src in disk && (dst in disk ==> disk[dst] == Partial);
      if done {
        Change((disk - {src})[dst := disk[src]]);
      }
    }

    method DeleteTree(path: Path, ok: bool, leavesPart: bool) returns (done: bool)
      modifies this`disk, this`trace
      ensures done <==> ok
      ensures SameExcept(disk, old(disk), path)
      ensures done ==> path !in disk
      ensures !done && path in old(disk) ==> LeftOver(disk, path, old(disk)[path])
      ensures !done && path !in old(disk) ==> path !in disk
      ensures trace == old(trace) || trace == old(trace) + [disk]
      ensures trace == old(trace) ==> disk == old(disk)
    {
      done := ok;
      if ok {
        Change(disk - {path});
      } else if leavesPart && path in disk {
        Change(disk[path := Partial]);
      }
    }

    method OpenOrDie(ok: bool)
      modifies this`live, this`aborted
      ensures aborted == (old(aborted) || !ok || dataPath !in disk || disk[dataPath] == Partial)
      ensures !aborted ==> dataPath in disk && live == Some(disk[dataPath].db)
      ensures aborted ==> live == old(live)
    {
      if aborted || !ok || dataPath !in disk || disk[dataPath].Partial? {
        aborted := true;
      } else {
        live := Some(disk[dataPath].db);
      }
    }

    /** Every disk state recorded since a point holds the given contents whole. */
    ghost predicate KeptSince(n: nat, db: SortedDb.Db)
      reads this
    {
      forall i :: n <= i < |trace| ==> KeptSomewhere(trace[i], dataPath, db)
    }

    /** The data directory is moved aside. */
    ghost predicate Aside(db: SortedDb.Db)
      reads this
    {
      Holds(disk, BakPath(dataPath), db) && (dataPath in disk ==> disk[dataPath].Partial?)
    }

    /** Destroys the guards of the scope, last constructed first; an abort ends the process. */
    method Unwind(guards: seq<ScopeExit.Guard<Rollback>>, outcomes: Outcomes, ghost db: SortedDb.Db)
      requires !aborted && live.None?
      requires guards == [ScopeExit.Make(ReopenData)] ||
               guards == [ScopeExit.Make(ReopenData), ScopeExit.Make(RestoreData)]
      requires if |guards| == 1 then Holds(disk, dataPath, db) else Aside(db)
      modifies this
      ensures aborted <==> !outcomes.reopen || (|guards| == 2 && !outcomes.renameBack)
      ensures !aborted ==> Ready() && live == Some(db) && Holds(disk, dataPath, db)
      ensures !aborted && |guards| == 1 ==> disk == old(disk)
      ensures !aborted && |guards| == 2 ==> BakPath(dataPath) !in disk
      ensures OthersKept(disk, old(disk), dataPath)
      ensures old(trace) <= trace && KeptSince(|old(trace)|, db)
    {
      for i := |guards| downto 0
        invariant !aborted && OthersKept(disk, old(disk), dataPath)
        invariant |guards| == 1 ==> disk == old(disk)
        invariant |guards| == 2 && i <= 1 ==> BakPath(dataPath) !in disk
        invariant i <= 1 && |guards| == 2 ==> outcomes.renameBack
        invariant i == 0 ==> outcomes.reopen
        invariant i == 2 ==> live.None? && Aside(db)
        invariant i == 1 ==> live.None? && Holds(disk, dataPath, db)
        invariant i == 0 ==> live == Some(db) && Holds(disk, dataPath, db)
        invariant old(trace) <= trace && KeptSince(|old(trace)|, db)
      {
        if guards[i].run {
          match guards[i].action {
            case RestoreData =>
              var back := Rename(BakPath(dataPath), dataPath, outcomes.renameBack);
              aborted := !back;
            case ReopenData =>
              OpenOrDie(outcomes.reopen);
          }
          if aborted {
            return;
          }
        }
      }
    }

    /** Removes a stale backup and renames the data directory to it. */
    method MoveAside(outcomes: Outcomes, ghost db: SortedDb.Db) returns (done: bool)
      requires !aborted && live.None? && Holds(disk, dataPath, db)
      modifies this`disk, this`trace
      ensures done <==> CanMove(old(disk), dataPath, outcomes)
      ensures done ==> Aside(db) && dataPath !in disk
      ensures !done ==> Holds(disk, dataPath, db) && BackupIfUnmoved(disk, old(disk), dataPath, outcomes)
      ensures OthersKept(disk, old(disk), dataPath)
      ensures old(trace) <= trace && KeptSince(|old(trace)|, db)
    {
      var bak := BakPath(dataPath);
      if bak in disk {
        done := DeleteTree(bak, outcomes.deleteStaleBak, outcomes.deleteLeavesPart);
        if !done {
          return;
        }
      }
      done := Rename(dataPath, bak, outcomes.renameAway);
    }

    /** Opens the source read-only and checkpoints it into the data directory. */
    method Fetch(from: Path, outcomes: Outcomes, ghost db: SortedDb.Db) returns (done: bool)
      requires Aside(db) && dataPath !in disk
      modifies this`disk, this`trace
      ensures done <==> CanFetch(from in old(disk) && old(disk)[from].Whole?, outcomes)
      ensures done ==> from in old(disk) && old(disk)[from].Whole? && disk == old(disk)[dataPath := old(disk)[from]]
      ensures !done ==> Aside(db) && SameExcept(disk, old(disk), dataPath)
      ensures old(trace) <= trace && KeptSince(|old(trace)|, db)
    {
      if !outcomes.openSource || from !in disk || disk[from].Partial? {
        return false;
      }
      if !outcomes.createCheckpointObject {
        return false;
      }
      if !outcomes.createCheckpoint {
        if outcomes.checkpointLeavesRubbish {
          Change(disk[dataPath := Partial]);
        }
        return false;
      }
      Change(disk[dataPath := disk[from]]);
      return true;
    }

    /** The part of a recovery after the close, on a data directory that holds everything. */
    method SwapIn(from: Path, outcomes: Outcomes, ghost db: SortedDb.Db) returns (status: Status)
      requires !aborted && live.None? && Holds(disk, dataPath, db)
      modifies this
      ensures status == OK <==>
                CanMove(old(disk), dataPath, outcomes) && CanFetch(HasSource(old(disk), dataPath, from), outcomes)
      ensures aborted <==>
                || !outcomes.reopen
                || (status != OK && CanMove(old(disk), dataPath, outcomes) && !outcomes.renameBack)
      ensures !aborted && status != OK ==> live == Some(db) && Holds(disk, dataPath, db)
      ensures !aborted && status == OK ==>
                && live.Some? && Holds(disk, dataPath, live.value)
                && (if from == BakPath(dataPath) then live.value == db
                    else from != dataPath && Holds(old(disk), from, live.value))
      ensures status != OK ==> status == Error(EIO)
      ensures OthersKept(disk, old(disk), dataPath)
      ensures status == OK ==>
                if outcomes.deleteBak then BakPath(dataPath) !in disk else LeftOver(disk, BakPath(dataPath), Whole(db))
      ensures !aborted && status != OK ==>
                if CanMove(old(disk), dataPath, outcomes) then BakPath(dataPath) !in disk
                else BackupIfUnmoved(disk, old(disk), dataPath, outcomes)
      ensures old(trace) <= trace
      ensures forall i :: |old(trace)| <= i < |trace| ==>
                || KeptSomewhere(trace[i], dataPath, db)
                || (from in old(disk) && old(disk)[from].Whole? && Holds(trace[i], dataPath, old(disk)[from].db))
    {
      var rollbackOpen := ScopeExit.Make(ReopenData);

      var moved := MoveAside(outcomes, db);
      if !moved {
        Unwind([rollbackOpen], outcomes, db);
        return Error(EIO);
      }
      var rollbackDir := ScopeExit.Make(RestoreData);

      var fetched := Fetch(from, outcomes, db);
      if !fetched {
        Unwind([rollbackOpen, rollbackDir], outcomes, db);
        return Error(EIO);
      }
      rollbackDir := ScopeExit.Release(rollbackDir);
      rollbackOpen := ScopeExit.Release(rollbackOpen);

      var _ := DeleteTree(BakPath(dataPath), outcomes.deleteBak, outcomes.deleteLeavesPart);
      OpenOrDie(outcomes.reopen);
      NothingToUnwind(rollbackOpen, rollbackDir);
      return OK;
    }

    /**
     All or nothing, for every combination of outcomes short of an abort: on an error the store has
     its old contents, on success those of the checkpoint. And whatever happens, abort included,
     every state of the disk after the close holds the old contents whole in the data or backup
     directory, or else the new ones whole in the data directory.

     It succeeds exactly when the close, the move and the fetch do, and then aborts only if the new
     data cannot be opened; a failed one aborts only if the rollback or the reopening fails.

     A successful recovery returns the checkpoint's contents exactly when the source is not the
     backup path itself: that directory is deleted first and then refilled with the old contents.
     */
    method Recover(from: Path, outcomes: Outcomes) returns (status: Status)
      requires Ready()
      modifies this
      ensures status == OK <==>
                && (old(live).None? || outcomes.close)
                && CanMove(old(disk), dataPath, outcomes)
                && CanFetch(HasSource(old(disk), dataPath, from), outcomes)
      ensures aborted <==>
                && (old(live).None? || outcomes.close)
                && (!outcomes.reopen ||
                    (status != OK && CanMove(old(disk), dataPath, outcomes) && !outcomes.renameBack))
      ensures !aborted ==> Ready()
      ensures !aborted && status != OK ==> Contents() == old(Contents())
      ensures !aborted && status != OK && (old(live).None? || outcomes.close) ==>
                live == Some(old(Contents())) && Holds(disk, dataPath, old(Contents()))
      ensures !aborted && status == OK ==> live == Some(Contents()) && Holds(disk, dataPath, Contents())
      ensures !aborted && status == OK ==>
                if from == BakPath(dataPath) then Contents() == old(Contents())
                else from != dataPath && Holds(old(disk), from, Contents())
      ensures status != OK ==> status == Error(EIO)
      ensures OthersKept(disk, old(disk), dataPath)
      ensures status == OK ==>
                if outcomes.deleteBak then BakPath(dataPath) !in disk
                else LeftOver(disk, BakPath(dataPath), Whole(old(Contents())))
      ensures !aborted && status != OK && (old(live).None? || outcomes.close) ==>
                if CanMove(old(disk), dataPath, outcomes) then BakPath(dataPath) !in disk
                else BackupIfUnmoved(disk, old(disk), dataPath, outcomes)
      ensures status != OK && old(live).Some? && !outcomes.close ==> disk == old(disk)
      ensures old(trace) <= trace
      ensures forall i :: |old(trace)| <= i < |trace| ==>
                || KeptSomewhere(trace[i], dataPath, old(Contents()))
                || (from in old(disk) && old(disk)[from].Whole? && Holds(trace[i], dataPath, old(disk)[from].db))
    {
      ghost var db := Contents();
      status := Close(outcomes.close);
      if status != OK {
        return;
      }
      status := SwapIn(from, outcomes, db);
    }

    /** A flushed copy of the live contents in a new directory; the store itself is unaffected. */
    method CheckPoint(to: Path, flush: bool, create: bool) returns (status: Status)
      requires Ready() && live.Some?
      modifies this`disk, this`trace
      ensures Ready() && live == old(live) && Contents() == old(Contents())
      ensures status == OK <==> flush && create && to !in old(disk)
      ensures status != OK ==> status == Error(EIO) && disk == old(disk)
      ensures status == OK ==> Holds(disk, to, Contents())
      ensures SameExcept(disk, old(disk), to)
    {
      if !flush || !create || to in disk {
        return Error(EIO);
      }
      Change(disk[to := Whole(live.value)]);
      return OK;
    }

    /**
     A checkpoint brings back the contents it was taken from, whatever was written in between,
     exactly when it was not taken at the backup path.
     */
    method RestoreCheckpoint(to: Path, later: SortedDb.Db, flush: bool, create: bool, outcomes: Outcomes)
      returns (taken: Status, recovered: Status)
      requires Ready() && live.Some?
      modifies this
      ensures taken == OK <==> flush && create && to !in old(disk)
      ensures taken == OK ==>
                (recovered == OK <==>
                   && outcomes.close && CanFetch(true, outcomes)
                   && CanMove(old(disk)[to := Whole(old(Contents()))], dataPath, outcomes))
      ensures taken == OK && recovered == OK ==> (aborted <==> !outcomes.reopen)
      ensures taken == OK && to != BakPath(dataPath) ==> Holds(disk, to, old(Contents()))
      ensures taken == OK && !aborted ==>
                Ready() && Contents() == if recovered == OK && to != BakPath(dataPath) then old(Contents()) else later
    {
      taken := CheckPoint(to, flush, create);
      recovered := Error(EIO);
      if taken == OK {
        live := Some(later);
        recovered := Recover(to, outcomes);
      }
    }
  }
}
