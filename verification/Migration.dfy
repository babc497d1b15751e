/** The fail-safe database migration (api/datastore/migrate_data.go and backup.go): back up, mark as
    updating, migrate, unmark; on any error or panic, restore. Unless `healthy`, every call may fail
    and the process may die at any point; `restoring` is the same assumption for the restore. */
module Migration {
  import opened Bytes
  import opened FileCopy

  /** How the updating flag sits in a database file, and which files need migrating. */
  datatype Schema = Schema(flagged: bytes -> bool, mark: (bytes, bool) -> bytes, needs: bytes -> bool) {
    ghost predicate Lawful() {
      forall c, b :: flagged(mark(c, b)) == b
    }
  }

  /** The transactions of a migration, version bookkeeping first; none clears the flag. */
  ghost predicate KeepFlag(schema: Schema, writes: seq<bytes -> bytes>) {
    forall i, c :: 0 <= i < |writes| && schema.flagged(c) ==> schema.flagged(writes[i](c))
  }

  function WriteAll(writes: seq<bytes -> bytes>, c: bytes): bytes {
    if writes == [] then c else writes[|writes| - 1](WriteAll(writes[..|writes| - 1], c))
  }

  /** The fully migrated content. */
  function Migrated(schema: Schema, writes: seq<bytes -> bytes>, c: bytes): bytes {
    schema.mark(WriteAll(writes, schema.mark(c, true)), false)
  }

  datatype Fate = Fine | Fails | Panics | Dies

  datatype Answer =
    | Done
    | NothingToDo
    | IsUpdating
    | NotStarted           // an error before the flag was set
    | RolledBack           // the migration failed, and the old database was restored
    | RestoreNotStarted    // the migration failed, and so did the restore before its copy
    | RestoreCopyFailed
    | RestoredButUnopened  // restored, but the database could not be opened again
    | Died                 // the process died outside the restore copy
    | DiedInRestoreCopy

  const DB := "portainer.db"
  const BACKUP := "backups/portainer.db.bak"

  /** One transaction: it takes effect or not, as a whole. */
  method Transact(disk: Disk, write: bytes -> bytes, healthy: bool) returns (fate: Fate)
    requires DB in disk.files
    modifies disk
    ensures healthy ==> fate.Fine?
    ensures fate.Fine? ==> disk.files == old(disk.files)[DB := write(old(disk.files)[DB])]
    ensures fate.Fails? || fate.Panics? ==> disk.files == old(disk.files)
    ensures disk.files == old(disk.files) || disk.files == old(disk.files)[DB := write(old(disk.files)[DB])]
  {
    var fails, dies := Trouble(healthy);
    if !fails {
      disk.files := disk.files[DB := write(disk.files[DB])];
      fate := if dies then Dies else Fine;
    } else {
      var panics := *;
      fate := if dies then Dies else if panics then Panics else Fails;
    }
  }

  /** Calls that do not write: reading a flag or version, closing, opening. */
  method Call(healthy: bool) returns (fate: Fate)
    ensures !fate.Panics?
    ensures healthy ==> fate.Fine?
  {
    var fails, dies := Trouble(healthy);
    fate := if dies then Dies else if fails then Fails else Fine;
  }

  /** The contents that the steps lead through. */
  lemma {:induction false} EveryStep(writes: seq<bytes -> bytes>, c: bytes) returns (met: seq<bytes>)
    ensures |met| == |writes| + 1 && met[0] == c && met[|writes|] == WriteAll(writes, c)
    ensures forall i :: 0 <= i < |writes| ==> met[i + 1] == writes[i](met[i])
  {
    if writes == [] {
      met := [c];
    } else {
      var last := |writes| - 1;
      met := EveryStep(writes[..last], c);
      met := met + [writes[last](met[last])];
    }
  }

  method Backup(disk: Disk, healthy: bool) returns (fate: Fate)
    requires DB in disk.files
    modifies disk
    ensures healthy ==> fate.Fine?
    ensures fate.Fine? ==> disk.files == old(disk.files)[BACKUP := old(disk.files)[DB]]
    ensures !fate.Panics?
    ensures DB in disk.files && disk.files[DB] == old(disk.files)[DB]
    ensures disk.files - {BACKUP} == old(disk.files) - {BACKUP}
  {
    fate := Call(healthy);
    if !fate.Fine? { return; }
    var copied := disk.Copy(DB, BACKUP, true, healthy);
    KeepsOther(old(disk.files), disk.files, BACKUP, DB);
    if !copied.Success? {
      return if copied.Failed? then Fails else Dies;
    }
    assert disk.files - {BACKUP} == old(disk.files) - {BACKUP};
    fate := Call(healthy);
  }

  lemma KeepsOther(before: map<string, bytes>, now: map<string, bytes>, path: string, other: string)
    requires now - {path} == before - {path} && other != path
    ensures other in now <==> other in before
    ensures other in now ==> now[other] == before[other]
  {
    assert other in now <==> other in now - {path};
    assert other in before <==> other in before - {path};
    if other in now {
      assert now[other] == (now - {path})[other];
    }
  }

  /** FailSafeMigrate; a panic becomes an error. */
  method FailSafeMigrate(disk: Disk, schema: Schema, writes: seq<bytes -> bytes>, testFailure: bool, healthy: bool)
    returns (fate: Fate)
    requires DB in disk.files && schema.Lawful() && KeepFlag(schema, writes)
    modifies disk
    ensures !fate.Panics?
    ensures healthy ==> (if testFailure then fate.Fails? else fate.Fine?)
    ensures fate.Fine? ==> !testFailure && disk.files == old(disk.files)[DB := Migrated(schema, writes, old(disk.files)[DB])]
    // the contents met on the way: marked, then every step in its order, then unmarked
    ensures fate.Fine? ==>
              exists met: seq<bytes> :: |met| == |writes| + 1 && met[0] == schema.mark(old(disk.files)[DB], true)
                                     && (forall i :: 0 <= i < |writes| ==> met[i + 1] == writes[i](met[i]))
                                     && disk.files[DB] == schema.mark(met[|writes|], false)
    ensures DB in disk.files && disk.files == old(disk.files)[DB := disk.files[DB]]
    ensures disk.files[DB] == old(disk.files)[DB] || schema.flagged(disk.files[DB])
            || disk.files[DB] == Migrated(schema, writes, old(disk.files)[DB])
  {
    fate := Transact(disk, c => schema.mark(c, true), healthy);
    if !fate.Fine? {
      return if fate.Dies? then Dies else Fails;
    }
    ghost var marked := schema.mark(old(disk.files)[DB], true);
    assert writes[..0] == [];
    for i := 0 to |writes|
      invariant disk.files == old(disk.files)[DB := WriteAll(writes[..i], marked)]
      invariant schema.flagged(disk.files[DB])
    {
      assert writes[..i + 1][..i] == writes[..i];
      fate := Transact(disk, writes[i], healthy);
      if !fate.Fine? {
        return if fate.Dies? then Dies else Fails;
      }
    }
    assert writes[..|writes|] == writes;
    if testFailure {
      return Fails;
    }
    fate := Transact(disk, c => schema.mark(c, false), healthy);
    if fate.Panics? {
      fate := Fails;
    }
    ghost var met := EveryStep(writes, marked);
    assert |met| == |writes| + 1;
  }

  /** Restore. */
  method Restore(disk: Disk, restoring: bool) returns (r: Answer)
    requires BACKUP in disk.files && DB in disk.files
    modifies disk
    ensures restoring ==> r.RolledBack?
    ensures r in {RolledBack, RestoreNotStarted, RestoreCopyFailed, RestoredButUnopened, Died, DiedInRestoreCopy}
    ensures BACKUP in disk.files && disk.files[BACKUP] == old(disk.files)[BACKUP]
    ensures r.RolledBack? || r.RestoredButUnopened? ==> disk.files == old(disk.files)[DB := old(disk.files)[BACKUP]]
    ensures r.RestoreNotStarted? ==> disk.files == old(disk.files)
    ensures r.Died? ==> disk.files == old(disk.files) || disk.files == old(disk.files)[DB := old(disk.files)[BACKUP]]
    ensures r.RestoreCopyFailed? || r.DiedInRestoreCopy? ==> Disk.Partial(old(disk.files), disk.files, DB, old(disk.files)[BACKUP])
  {
    var fate := Call(restoring);
    if !fate.Fine? {
      return if fate.Dies? then Died else RestoreNotStarted;
    }
    var copied := disk.Copy(BACKUP, DB, true, restoring);
    KeepsOther(old(disk.files), disk.files, DB, BACKUP);
    if !copied.Success? {
      return if copied.Failed? then RestoreCopyFailed else DiedInRestoreCopy;
    }
    fate := Call(restoring);
    r := if fate.Fine? then RolledBack else if fate.Dies? then Died else RestoredButUnopened;
  }

  method MigrateData(disk: Disk, schema: Schema, writes: seq<bytes -> bytes>, testFailure: bool, healthy: bool, restoring: bool)
    returns (r: Answer)
    requires DB in disk.files && schema.Lawful() && KeepFlag(schema, writes)
    modifies disk
    // a database marked as updating is refused, untouched
    ensures schema.flagged(old(disk.files)[DB]) ==> r in {IsUpdating, NotStarted, Died} && disk.files == old(disk.files)
    ensures r.IsUpdating? ==> schema.flagged(old(disk.files)[DB])
    // a run in which nothing goes wrong, and one in which nothing goes wrong while restoring
    ensures healthy ==> if schema.flagged(old(disk.files)[DB]) then r.IsUpdating?
                        else if !schema.needs(old(disk.files)[DB]) then r.NothingToDo?
                        else if !testFailure then r.Done?
                        else r !in {IsUpdating, NothingToDo, Done, NotStarted} && (restoring ==> r.RolledBack?)
    ensures restoring ==> r !in {RestoreNotStarted, RestoreCopyFailed, RestoredButUnopened, DiedInRestoreCopy}
    // a finished migration has been through every step, in order
    ensures r.Done? ==>
              exists met: seq<bytes> :: |met| == |writes| + 1 && met[0] == schema.mark(old(disk.files)[DB], true)
                                     && (forall i :: 0 <= i < |writes| ==> met[i + 1] == writes[i](met[i]))
                                     && DB in disk.files && disk.files[DB] == schema.mark(met[|writes|], false)
    // how each run ends
    ensures r.Done? ==> disk.files == old(disk.files)[BACKUP := old(disk.files)[DB]][DB := Migrated(schema, writes, old(disk.files)[DB])]
    ensures r.NothingToDo? ==> !schema.needs(old(disk.files)[DB]) && disk.files == old(disk.files)
    ensures r.NothingToDo? || r.NotStarted? || r.IsUpdating? ==> DB in disk.files && disk.files[DB] == old(disk.files)[DB]
    ensures r.RolledBack? || r.RestoredButUnopened? ==> DB in disk.files && disk.files[DB] == old(disk.files)[DB]
    // whatever happened, the old content is not lost
    ensures Safe(schema, writes, old(disk.files)[DB], disk.files)
    ensures !r.RestoreCopyFailed? && !r.DiedInRestoreCopy? ==> Intact(schema, writes, old(disk.files)[DB], disk.files)
  {
    var fate := Call(healthy);
    if !fate.Fine? {
      return if fate.Dies? then Died else NotStarted;
    }
    if schema.flagged(disk.files[DB]) {
      return IsUpdating;
    }
    fate := Call(healthy);
    if !fate.Fine? {
      return if fate.Dies? then Died else NotStarted;
    }
    if !schema.needs(disk.files[DB]) {
      return NothingToDo;
    }
    fate := Backup(disk, healthy);
    if !fate.Fine? {
      return if fate.Dies? then Died else NotStarted;
    }
    fate := FailSafeMigrate(disk, schema, writes, testFailure, healthy);
    if fate.Fine? {
      return Done;
    }
    if fate.Dies? {
      return Died;
    }
    r := Restore(disk, restoring);
  }

  /** The stored database is the old one, or the migrated one, or marked as updating, in which case
      the backup is the old one. */
  ghost predicate Intact(schema: Schema, writes: seq<bytes -> bytes>, old': bytes, files: map<string, bytes>) {
    DB in files
    && (|| files[DB] == old'
        || files[DB] == Migrated(schema, writes, old')
        || (schema.flagged(files[DB]) && BACKUP in files && files[BACKUP] == old'))
  }

  /** Intact, or the backup holds exactly the old content and the database is a part of it. */
  ghost predicate Safe(schema: Schema, writes: seq<bytes -> bytes>, old': bytes, files: map<string, bytes>) {
    || Intact(schema, writes, old', files)
    || (BACKUP in files && files[BACKUP] == old' && (DB !in files || files[DB] <= old'))
  }

  // ----- what a reader of the stored database can tell

  lemma {:induction false} WritesKeepFlag(schema: Schema, writes: seq<bytes -> bytes>, c: bytes)
    requires KeepFlag(schema, writes) && schema.flagged(c)
    ensures schema.flagged(WriteAll(writes, c))
  {
    if writes != [] {
      var last := |writes| - 1;
      forall i, d | 0 <= i < last && schema.flagged(d) ensures schema.flagged(writes[..last][i](d)) {
        assert schema.flagged(writes[i](d));
      }
      WritesKeepFlag(schema, writes[..last], c);
    }
  }

  /** After a run that did not stop inside the restore copy, a database that is not marked is
      complete, old or new; one that is marked still has its old content beside it; and no state in
      between is ever stored unmarked. */
  lemma UnmarkedIsComplete(schema: Schema, writes: seq<bytes -> bytes>, old': bytes, files: map<string, bytes>, k: nat)
    requires schema.Lawful() && KeepFlag(schema, writes) && !schema.flagged(old')
    requires Intact(schema, writes, old', files) && k <= |writes|
    ensures schema.flagged(files[DB]) <==> files[DB] != old' && files[DB] != Migrated(schema, writes, old')
    ensures schema.flagged(files[DB]) ==> files[BACKUP] == old'
    ensures WriteAll(writes[..k], schema.mark(old', true)) == files[DB] ==> schema.flagged(files[DB])
  {
    forall i, d | 0 <= i < k && schema.flagged(d) ensures schema.flagged(writes[..k][i](d)) {
      assert schema.flagged(writes[i](d));
    }
    WritesKeepFlag(schema, writes[..k], schema.mark(old', true));
  }
}
