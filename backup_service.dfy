/**
 * `ApplicationBackUpServiceImpl`: snapshots of a deployed job's artifacts and
 * the rollback to one of them, over four stores kept as fields of one object:
 * the artifact file store, the backup table, the effective pointers (with the
 * "latest config" marker beside them) and the applications' launch states.
 *
 * Every operation runs to completion in one call: rollback's asynchronous
 * submission and the tracking lock around its body are not part of this model.
 */
module BackUpService {
  import opened ArtifactFs
  import opened BackupRecords

  datatype RollbackOutcome =
    | NoBackupFiles   // the snapshot's directory is missing: nothing is done
    | RolledBack      // every step completed
    | RestoreFailed   // copying the snapshot into the app home failed; earlier steps stay applied

  datatype RevokeOutcome =
    | NothingToRevoke   // the application has no snapshot
    | Revoked(id: Id)   // the newest snapshot was moved away and its row removed
    | MoveFailed(id: Id) // moving the newest snapshot's directory failed; nothing changed

  /** What `selectOne` on (appId, sqlId) gives: no row, the one row, or an error for several. */
  datatype SqlLookup = NoRow | OneRow(row: BackUp) | ManyRows

  datatype SqlRollbackOutcome =
    | PointersRestored(id: Id)  // both effective pointers now come from snapshot `id`
    | NoSnapshot                // no snapshot with that SQL: the failure is logged, nothing changes
    | TooManySnapshots          // several snapshots with that SQL: the lookup throws

  /** The store after `backup` captured `src` into `dst`: mkdirs, then copyDir. */
  function CapturedFs(fs: Fs, src: Path, dst: Path): (fs': Fs)
    requires Exists(fs, src) && Disjoint(src, dst)
    ensures Subtree(fs', dst) == Subtree(fs, src) && Exists(fs', dst)
    ensures forall q :: Disjoint(q, dst) ==> Subtree(fs', q) == Subtree(fs, q)
  {
    var made := Mkdirs(fs, dst);
    MkdirsCreates(fs, dst, src);
    SameContentSameExistence(fs, src, made, src);
    CopyDirCopies(made, src, dst);
    forall q | Disjoint(q, dst) ensures Subtree(CopyDir(made, src, dst).fs, q) == Subtree(fs, q) {
      MkdirsCreates(fs, dst, q);
      CopyDirFrame(made, src, dst, q);
    }
    CopyDir(made, src, dst).fs
  }

  /** The mkdirs-then-copyDir of a backup cannot fail once its source exists. */
  lemma CaptureSucceeds(fs: Fs, src: Path, dst: Path)
    requires Exists(fs, src) && Disjoint(src, dst)
    ensures CopyDir(Mkdirs(fs, dst), src, dst).Ok?
    ensures CopyDir(Mkdirs(fs, dst), src, dst).fs == CapturedFs(fs, src, dst)
  {
    MkdirsCreates(fs, dst, src);
    SameContentSameExistence(fs, src, Mkdirs(fs, dst), src);
    CopyDirCopies(Mkdirs(fs, dst), src, dst);
  }

  /** The store as rollback finds it once its optional pre-rollback backup is done. */
  function PreRollbackFs(fs: Fs, app: Application, isBackup: bool, newPath: Path): Fs
    requires isBackup ==> Disjoint(BackupSource(app), newPath)
  {
    if isBackup && Exists(fs, BackupSource(app)) then CapturedFs(fs, BackupSource(app), newPath) else fs
  }

  /**
   * Rollback restores the snapshot's content into the app home whenever the two
   * directories are apart and a pre-rollback backup lands away from the snapshot.
   */
  lemma RestoreRecoversSnapshot(fs: Fs, app: Application, isBackup: bool, newPath: Path, path: Path)
    requires isBackup ==> Disjoint(BackupSource(app), newPath) && Disjoint(newPath, path)
    requires Exists(fs, path) && Disjoint(app.appHome, path)
    ensures CopyDir(DeleteTree(PreRollbackFs(fs, app, isBackup, newPath), app.appHome), path, app.appHome).Ok?
    ensures Subtree(CopyDir(DeleteTree(PreRollbackFs(fs, app, isBackup, newPath), app.appHome), path, app.appHome).fs,
                    app.appHome) == Subtree(fs, path)
  {
    var pre := PreRollbackFs(fs, app, isBackup, newPath);
    var mid := DeleteTree(pre, app.appHome);
    DeleteRemoves(pre, app.appHome, path);
    assert Subtree(pre, path) == Subtree(fs, path);
    SameContentSameExistence(fs, path, mid, path);
    CopyDirCopies(mid, path, app.appHome);
  }

  /**
   * Backup and rollback are inverse on content: once a backup has captured
   * `src` into `dst`, a later rollback from `dst` (left intact meanwhile) gives
   * the app home the content `src` had when the backup was taken, whatever the
   * store looks like in between.
   */
  lemma RollbackReturnsToBackup(fs0: Fs, src: Path, dst: Path, fs1: Fs, home: Path)
    requires Exists(fs0, src) && Disjoint(src, dst) && Disjoint(home, dst)
    requires Subtree(fs1, dst) == Subtree(CapturedFs(fs0, src, dst), dst)
    ensures CopyDir(DeleteTree(fs1, home), dst, home).Ok?
    ensures Subtree(CopyDir(DeleteTree(fs1, home), dst, home).fs, home) == Subtree(fs0, src)
  {
    var mid := DeleteTree(fs1, home);
    DeleteRemoves(fs1, home, dst);
    SameContentSameExistence(fs0, src, mid, dst);
    CopyDirCopies(mid, dst, home);
  }

  /**
   * `removeApp` deletes `APP_BACKUPS/<id>` only: the backup directory of every
   * other application under the same root keeps its content.
   */
  lemma RemoveAppKeepsOtherApps(fs: Fs, root: Path, id: Id, other: Id)
    requires id != other
    ensures Subtree(DeleteTree(fs, root + [IdText(id)]), root + [IdText(other)]) == Subtree(fs, root + [IdText(other)])
  {
    AppBackupsDirsApart(root, id, other);
    DeleteRemoves(fs, root + [IdText(id)], root + [IdText(other)]);
  }

  class ApplicationBackUpService {
    /** The artifact file store. */
    var fs: Fs
    /** The backup table, by snapshot id. */
    var backups: Table
    /** The effective-pointer table; a pointer may be set to a null id. */
    var effective: map<EffectiveKey, Option<Id>>
    /** The config marked "latest" per application (`setLatestOrEffective(true, …)`). */
    var latestConfig: map<Id, Id>
    /** The launch state per application. */
    var launch: map<Id, LaunchState>

    ghost predicate Valid()
      reads this
    {
      WellKeyed(backups)
    }

    constructor (fs: Fs)
      ensures Valid()
      ensures this.fs == fs && backups == map[] && effective == map[]
      ensures latestConfig == map[] && launch == map[]
    {
      this.fs := fs;
      backups, effective, latestConfig, launch := map[], map[], map[], map[];
    }

    /**
     * What a new snapshot needs of the values the row constructor would derive:
     * an unused id and a path where nothing exists yet, apart from its source.
     */
    predicate CanCapture(newId: Id, newPath: Path, src: Path)
      reads this
    {
      newId !in backups && !Exists(fs, newPath) && Disjoint(src, newPath)
    }

    /**
     * `backup(application, flinkSql)`. `config` is what `configService.getEffective`
     * returns; `newId`, `newPath` and `now` are the id, path and createTime of
     * the row the constructor builds.
     */
    method Backup(app: Application, flinkSql: Option<FlinkSql>, config: Option<Config>,
                  newId: Id, newPath: Path, now: int) returns (taken: bool)
      requires Valid()
      requires CanCapture(newId, newPath, BackupSource(app))
      modifies this`fs, this`backups, app`configId, app`sqlId
      ensures Valid()
      ensures taken == Exists(old(fs), BackupSource(app))
      ensures !taken ==> fs == old(fs) && backups == old(backups)
      ensures !taken ==> app.configId == old(app.configId) && app.sqlId == old(app.sqlId)
      ensures taken ==> app.configId == (if config.Some? then Some(config.value.id) else old(app.configId))
      ensures taken ==> app.sqlId == (if flinkSql.Some? then Some(flinkSql.value.id) else old(app.sqlId))
      ensures taken ==> backups == old(backups)[newId := BackUp(newId, app.id, newPath,
                                    BackupVersion(flinkSql, config), app.configId, app.sqlId,
                                    app.backUpDescription, now)]
      ensures taken ==> AppRows(backups, app.id) == AppRows(old(backups), app.id) + {newId}
      ensures taken ==> fs == CapturedFs(old(fs), BackupSource(app), newPath)
      ensures taken ==> Exists(fs, newPath) && Subtree(fs, newPath) == Subtree(old(fs), BackupSource(app))
    {
      var src := BackupSource(app);
      taken := Exists(fs, src);
      if taken {
        if config.Some? {
          app.configId := Some(config.value.id);
        }
        var version := 1;
        if flinkSql.Some? {
          app.sqlId := Some(flinkSql.value.id);
          version := flinkSql.value.version;
        } else if config.Some? {
          version := config.value.version;
        }
        var row := BackUp(newId, app.id, newPath, version, app.configId, app.sqlId, app.backUpDescription, now);
        InsertAddsOneRow(backups, row, app.id);
        backups := backups[newId := row];
        Capture(src, newPath);
      }
    }

    /** The file half of `backup`: `mkdirs(dst)`, then `copyDir(src, dst)`. */
    method Capture(src: Path, dst: Path)
      requires Exists(fs, src) && Disjoint(src, dst)
      modifies this`fs
      ensures fs == CapturedFs(old(fs), src, dst)
    {
      CaptureSucceeds(fs, src, dst);
      ghost var captured := CapturedFs(fs, src, dst);
      fs := Mkdirs(fs, dst);
      match CopyDir(fs, src, dst)
      case Ok(copied) =>
        fs := copied;
        assert fs == captured;
      case IoError =>
        assert false;
    }

    /**
     * `rollback(backParam)`, its submitted body run in place. `isBackup` is
     * `backParam.isBackup()`; `effectiveSql` is what `flinkSqlService.getEffective`
     * returns; `config`, `newId`, `newPath` and `now` feed the pre-rollback backup.
     */
    method Rollback(app: Application, back: BackUp, isBackup: bool,
                    effectiveSql: Option<FlinkSql>, config: Option<Config>,
                    newId: Id, newPath: Path, now: int) returns (outcome: RollbackOutcome)
      requires Valid()
      requires app.id == back.appId
      requires isBackup ==> CanCapture(newId, newPath, BackupSource(app))
                            && Disjoint(newPath, back.path) && Disjoint(newPath, app.appHome)
      modifies this, app
      ensures Valid()
      ensures outcome == NoBackupFiles <==> !Exists(old(fs), back.path)
      ensures outcome == NoBackupFiles ==>
        && fs == old(fs) && backups == old(backups) && effective == old(effective)
        && latestConfig == old(latestConfig) && launch == old(launch)
        && app.configId == old(app.configId) && app.sqlId == old(app.sqlId)
        && app.backUpDescription == old(app.backUpDescription)
      // 1) the optional backup of the state being replaced
      ensures outcome != NoBackupFiles ==>
        app.backUpDescription == if isBackup then back.description else old(app.backUpDescription)
      ensures outcome != NoBackupFiles && isBackup && Exists(old(fs), BackupSource(app)) ==>
        && app.configId == (if config.Some? then Some(config.value.id) else old(app.configId))
        && app.sqlId == (if app.IsFlinkSqlJob() && effectiveSql.Some? then Some(effectiveSql.value.id) else old(app.sqlId))
      ensures outcome != NoBackupFiles && !(isBackup && Exists(old(fs), BackupSource(app))) ==>
        app.configId == old(app.configId) && app.sqlId == old(app.sqlId)
      ensures outcome != NoBackupFiles ==>
        backups == if isBackup && Exists(old(fs), BackupSource(app))
                   then old(backups)[newId := BackUp(newId, app.id, newPath,
                          BackupVersion(if app.IsFlinkSqlJob() then effectiveSql else None, config),
                          app.configId, app.sqlId, back.description, now)]
                   else old(backups)
      ensures outcome != NoBackupFiles && isBackup && Exists(old(fs), BackupSource(app)) ==>
        Subtree(fs, newPath) == Subtree(old(fs), BackupSource(app))
      // 2) the pointers: the latest config of a running job, the effective ones of a stopped job
      ensures outcome != NoBackupFiles && app.running ==>
        latestConfig == old(latestConfig)[back.appId := back.id] && effective == old(effective)
      ensures outcome != NoBackupFiles && !app.running ==>
        && latestConfig == old(latestConfig)
        && effective == if app.IsFlinkSqlJob()
                        then old(effective)[EffectiveKey(back.appId, CONFIG) := Some(back.id)]
                                           [EffectiveKey(back.appId, FLINKSQL) := back.sqlId]
                        else old(effective)[EffectiveKey(back.appId, CONFIG) := Some(back.id)]
      // 3) - 5) delete the app home, copy the snapshot into it, flag the restart
      ensures outcome != NoBackupFiles ==>
        var mid := DeleteTree(PreRollbackFs(old(fs), app, isBackup, newPath), app.appHome);
        && (outcome == RolledBack <==> Exists(mid, back.path))
        && (outcome == RolledBack ==>
              fs == CopyDir(mid, back.path, app.appHome).fs && launch == old(launch)[app.id := NeedRestart])
        && (outcome == RestoreFailed ==> fs == mid && launch == old(launch))
      ensures outcome == RestoreFailed ==> !Exists(fs, app.appHome)
      ensures Exists(old(fs), back.path) && Disjoint(app.appHome, back.path) ==>
        outcome == RolledBack && Subtree(fs, app.appHome) == Subtree(old(fs), back.path)
    {
      if !Exists(fs, back.path) {
        return NoBackupFiles;
      }
      ghost var fs0 := fs;
      BackupBeforeRollback(app, back, isBackup, effectiveSql, config, newId, newPath, now);
      ghost var pre, table, cfg, sq := fs, backups, app.configId, app.sqlId;
      RestorePointers(app, back);
      var restored := Restore(back.path, app.appHome);
      assert backups == table && app.configId == cfg && app.sqlId == sq;
      ghost var mid := DeleteTree(pre, app.appHome);
      if isBackup && Exists(fs0, BackupSource(app)) {
        DeleteRemoves(pre, app.appHome, newPath);
        if restored {
          CopyDirFrame(mid, back.path, app.appHome, newPath);
        }
      }
      if Disjoint(app.appHome, back.path) {
        RestoreRecoversSnapshot(fs0, app, isBackup, newPath, back.path);
      }
      if !restored {
        return RestoreFailed;
      }
      launch := launch[app.id := NeedRestart];
      outcome := RolledBack;
    }

    /**
     * Step 1 of rollback: when `isBackup` is set, the state about to be replaced
     * is backed up first under the request's description, with the effective
     * FlinkSQL for a FlinkSQL job and no FlinkSQL otherwise.
     */
    method BackupBeforeRollback(app: Application, back: BackUp, isBackup: bool,
                                effectiveSql: Option<FlinkSql>, config: Option<Config>,
                                newId: Id, newPath: Path, now: int)
      requires Valid()
      requires isBackup ==> CanCapture(newId, newPath, BackupSource(app))
      modifies this`fs, this`backups, app`configId, app`sqlId, app`backUpDescription
      ensures Valid()
      ensures app.backUpDescription == if isBackup then back.description else old(app.backUpDescription)
      ensures isBackup && Exists(old(fs), BackupSource(app)) ==>
        && app.configId == (if config.Some? then Some(config.value.id) else old(app.configId))
        && app.sqlId == (if app.IsFlinkSqlJob() && effectiveSql.Some? then Some(effectiveSql.value.id) else old(app.sqlId))
      ensures !(isBackup && Exists(old(fs), BackupSource(app))) ==>
        app.configId == old(app.configId) && app.sqlId == old(app.sqlId)
      ensures fs == PreRollbackFs(old(fs), app, isBackup, newPath)
      ensures isBackup && Exists(old(fs), BackupSource(app)) ==>
        Subtree(fs, newPath) == Subtree(old(fs), BackupSource(app))
      ensures backups == if isBackup && Exists(old(fs), BackupSource(app))
                         then old(backups)[newId := BackUp(newId, app.id, newPath,
                                BackupVersion(if app.IsFlinkSqlJob() then effectiveSql else None, config),
                                app.configId, app.sqlId, back.description, now)]
                         else old(backups)
    {
      if isBackup {
        app.backUpDescription := back.description;
        var taken;
        if app.IsFlinkSqlJob() {
          taken := Backup(app, effectiveSql, config, newId, newPath, now);
        } else {
          taken := Backup(app, None, config, newId, newPath, now);
        }
      }
    }

    /**
     * Step 2 of rollback: a running job gets the snapshot as its latest config;
     * a stopped job gets it as its effective config and, for a FlinkSQL job,
     * the snapshot's SQL as its effective SQL.
     */
    method RestorePointers(app: Application, back: BackUp)
      modifies this`effective, this`latestConfig
      ensures app.running ==> latestConfig == old(latestConfig)[back.appId := back.id] && effective == old(effective)
      ensures !app.running ==>
        && latestConfig == old(latestConfig)
        && effective == if app.IsFlinkSqlJob()
                        then old(effective)[EffectiveKey(back.appId, CONFIG) := Some(back.id)]
                                           [EffectiveKey(back.appId, FLINKSQL) := back.sqlId]
                        else old(effective)[EffectiveKey(back.appId, CONFIG) := Some(back.id)]
    {
      if app.running {
        latestConfig := latestConfig[back.appId := back.id];
      } else {
        effective := effective[EffectiveKey(back.appId, CONFIG) := Some(back.id)];
        if app.IsFlinkSqlJob() {
          effective := effective[EffectiveKey(back.appId, FLINKSQL) := back.sqlId];
        }
      }
    }

    /**
     * Steps 3 and 4 of rollback: delete the app home, then copy the snapshot
     * into it. The copy fails when the snapshot is gone by then.
     */
    method Restore(path: Path, home: Path) returns (ok: bool)
      modifies this`fs
      ensures ok == Exists(DeleteTree(old(fs), home), path)
      ensures ok ==> fs == CopyDir(DeleteTree(old(fs), home), path, home).fs
      ensures !ok ==> fs == DeleteTree(old(fs), home) && !Exists(fs, home)
    {
      DeleteRemoves(fs, home, home);
      fs := DeleteTree(fs, home);
      CopyDirCopies(fs, path, home);
      match CopyDir(fs, path, home)
      case IoError =>
        return false;
      case Ok(copied) =>
        fs := copied;
      ok := true;
    }

    /**
     * The snapshot `revoke` picks: one with the greatest createTime among the
     * application's snapshots (the first row of a createTime-descending page).
     */
    method NewestBackup(appId: Id) returns (r: Option<Id>)
      ensures r.None? <==> AppRows(backups, appId) == {}
      ensures r.Some? ==> IsNewest(backups, appId, r.value)
    {
      NewestExists(backups, appId);
      if AppRows(backups, appId) == {} {
        return None;
      }
      var id :| IsNewest(backups, appId, id);
      return Some(id);
    }

    /** `revoke(application)`: move the newest snapshot into the app workspace and drop its row. */
    method Revoke(app: Application) returns (outcome: RevokeOutcome)
      requires Valid()
      modifies this`fs, this`backups
      ensures Valid()
      ensures outcome == NothingToRevoke <==> AppRows(old(backups), app.id) == {}
      ensures !outcome.Revoked? ==> fs == old(fs) && backups == old(backups)
      ensures outcome.Revoked? || outcome.MoveFailed? ==> IsNewest(old(backups), app.id, outcome.id)
      ensures outcome.MoveFailed? ==> !Exists(old(fs), old(backups)[outcome.id].path)
      ensures outcome.Revoked? ==>
        && backups == old(backups) - {outcome.id}
        && Move(old(fs), old(backups)[outcome.id].path, app.appWorkspace) == Ok(fs)
        && Subtree(fs, MoveTarget(old(backups)[outcome.id].path, app.appWorkspace))
           == Subtree(old(fs), old(backups)[outcome.id].path)
    {
      var newest := NewestBackup(app.id);
      if newest.None? {
        return NothingToRevoke;
      }
      var id := newest.value;
      var path := backups[id].path;
      MoveMoves(fs, path, app.appWorkspace, path);
      match Move(fs, path, app.appWorkspace)
      case IoError =>
        return MoveFailed(id);
      case Ok(moved) =>
        fs := moved;
      backups := backups - {id};
      outcome := Revoked(id);
    }

    /** `removeApp(application)`: drop all its rows, then its whole `APP_BACKUPS/<id>` directory. */
    method RemoveApp(app: Application)
      requires Valid()
      modifies this`fs, this`backups
      ensures Valid()
      ensures backups == WithoutApp(old(backups), app.id)
      ensures AppRows(backups, app.id) == {}
      ensures forall id :: id in old(backups) && old(backups)[id].appId != app.id ==>
                id in backups && backups[id] == old(backups)[id]
      ensures fs == DeleteTree(old(fs), AppBackupsDir(app))
      ensures !Exists(fs, AppBackupsDir(app))
    {
      WithoutAppRemovesAll(backups, app.id);
      backups := WithoutApp(backups, app.id);
      DeleteRemoves(fs, AppBackupsDir(app), AppBackupsDir(app));
      fs := DeleteTree(fs, AppBackupsDir(app));
    }

    /**
     * `delete(id)`: remove one snapshot's directory, then its row. A missing row
     * fails (the lookup's null is wrapped in an `InternalException`).
     */
    method Delete(id: Id) returns (ok: bool)
      requires Valid()
      modifies this`fs, this`backups
      ensures Valid()
      ensures ok <==> id in old(backups)
      ensures !ok ==> fs == old(fs) && backups == old(backups)
      ensures ok ==> backups == old(backups) - {id} && id !in backups
      ensures ok ==> fs == DeleteTree(old(fs), old(backups)[id].path)
      ensures ok ==> !Exists(fs, old(backups)[id].path)
    {
      if id !in backups {
        return false;
      }
      var path := backups[id].path;
      DeleteRemoves(fs, path, path);
      fs := DeleteTree(fs, path);
      backups := backups - {id};
      ok := true;
    }

    /** `isFlinkSqlBacked(appId, sqlId)`: a count of matching rows above zero. */
    function IsFlinkSqlBacked(appId: Id, sqlId: Id): (b: bool)
      reads this
      ensures b <==> exists id :: id in backups && backups[id].appId == appId && backups[id].sqlId == Some(sqlId)
    {
      |SqlRows(backups, appId, sqlId)| > 0
    }

    /** `getFlinkSqlBackup(appId, sqlId)`: `selectOne` on the rows of that application and SQL. */
    method GetFlinkSqlBackup(appId: Id, sqlId: Id) returns (r: SqlLookup)
      requires Valid()
      ensures r.NoRow? <==> SqlRows(backups, appId, sqlId) == {}
      ensures r.ManyRows? <==> |SqlRows(backups, appId, sqlId)| > 1
      ensures r.OneRow? ==> SqlRows(backups, appId, sqlId) == {r.row.id} && backups[r.row.id] == r.row
    {
      var matching := SqlRows(backups, appId, sqlId);
      if matching == {} {
        return NoRow;
      }
      var id :| id in matching;
      if matching != {id} {
        assert |matching| == |matching - {id}| + 1;
        return ManyRows;
      }
      return OneRow(backups[id]);
    }

    /**
     * `rollbackFlinkSql(application, sql)`: point both effective pointers at the
     * snapshot taken with that SQL. Files are not touched.
     */
    method RollbackFlinkSql(app: Application, sql: FlinkSql) returns (outcome: SqlRollbackOutcome)
      requires Valid()
      modifies this`effective
      ensures Valid()
      ensures outcome == NoSnapshot <==> SqlRows(backups, app.id, sql.id) == {}
      ensures outcome == TooManySnapshots <==> |SqlRows(backups, app.id, sql.id)| > 1
      ensures !outcome.PointersRestored? ==> effective == old(effective)
      ensures outcome.PointersRestored? ==>
        && SqlRows(backups, app.id, sql.id) == {outcome.id}
        && effective == old(effective)[EffectiveKey(app.id, CONFIG) := Some(outcome.id)]
                                      [EffectiveKey(app.id, FLINKSQL) := Some(sql.id)]
    {
      var found := GetFlinkSqlBackup(app.id, sql.id);
      match found
      case ManyRows =>
        return TooManySnapshots;
      case NoRow =>
        return NoSnapshot;
      case OneRow(backUp) =>
        effective := effective[EffectiveKey(backUp.appId, CONFIG) := Some(backUp.id)];
        effective := effective[EffectiveKey(backUp.appId, FLINKSQL) := backUp.sqlId];
        return PointersRestored(backUp.id);
    }
  }
}
