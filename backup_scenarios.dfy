/**
 * A client of the backup service: the capture-redeploy-rollback cycle the
 * service exists for, proved from the operations' contracts alone.
 */
module BackUpScenarios {
  import opened ArtifactFs
  import opened BackupRecords
  import opened BackUpService

  /**
   * A stopped FlinkSQL job is backed up, redeployed with other artifacts and
   * rolled back to that backup: its app home has the content it had at the
   * backup, its CONFIG pointer is the snapshot's id, its FLINKSQL pointer is
   * the SQL backed up, and it waits for a restart.
   */
  method StoppedFlinkSqlRoundTrip(svc: ApplicationBackUpService, app: Application, sql: FlinkSql,
                                  config: Option<Config>, newId: Id, newPath: Path, now: int,
                                  redeployed: Tree)
      returns (outcome: RollbackOutcome)
    requires svc.Valid()
    requires app.IsFlinkSqlJob() && !app.running
    requires Exists(svc.fs, app.appHome)
    requires svc.CanCapture(newId, newPath, app.appHome)
    modifies svc, app
    ensures outcome == RolledBack
    ensures newId in svc.backups && svc.backups[newId].version == sql.version
    ensures svc.backups[newId].sqlId == Some(sql.id)
    ensures Subtree(svc.fs, app.appHome) == old(Subtree(svc.fs, app.appHome))
    ensures svc.effective == old(svc.effective)[EffectiveKey(app.id, CONFIG) := Some(newId)]
                                               [EffectiveKey(app.id, FLINKSQL) := Some(sql.id)]
    ensures svc.launch == old(svc.launch)[app.id := NeedRestart]
  {
    ghost var original := svc.fs;
    assert BackupSource(app) == app.appHome;
    var taken := svc.Backup(app, Some(sql), config, newId, newPath, now);
    var snapshot := svc.backups[newId];
    assert snapshot.id == newId && snapshot.path == newPath && snapshot.appId == app.id;
    assert snapshot.sqlId == Some(sql.id);
    // a redeploy replaces the app home with other artifacts
    ghost var captured := svc.fs;
    svc.fs := Graft(Prune(svc.fs, app.appHome), app.appHome, redeployed);
    PruneFrame(captured, app.appHome, newPath);
    GraftFrame(Prune(captured, app.appHome), app.appHome, redeployed, newPath);
    SameContentSameExistence(captured, newPath, svc.fs, newPath);
    assert Subtree(svc.fs, newPath) == Subtree(original, app.appHome);
    assert Exists(svc.fs, snapshot.path) && Disjoint(app.appHome, snapshot.path);
    assert svc.effective == old(svc.effective) && svc.launch == old(svc.launch);
    outcome := svc.Rollback(app, snapshot, false, None, None, 0, [], 0);
    assert outcome == RolledBack;
  }
}
