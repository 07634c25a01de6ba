# Verified model of StreamPark's application backup service

StreamPark's console keeps snapshots of a deployed Flink job's artifacts so that
an operator can roll the job back to one of them. `ApplicationBackUpServiceImpl`
is that service: `backup` captures the job's current artifact directory together
with the ids of its effective config and FlinkSQL, `rollback` restores a snapshot
(effective pointers, artifact directory, launch state), `revoke` discards the
newest snapshot, `removeApp` and `delete` remove snapshots, and `rollbackFlinkSql`
and `isFlinkSqlBacked` move or query the FlinkSQL association only.

This project models that service as a state machine over four stores, held as
fields of one Dafny object, and proves what each operation does to them.

- `artifact_fs.dfy` (module `ArtifactFs`): the artifact file store (`FsOperator`)
  as a finite map from paths (sequences of segments) to nodes. A path exists when
  some node lies at or below it; the content of a directory is its subtree.
  `exists`, `mkdirs`, `copyDir`, `move` and `delete` are functions on the map,
  with lemmas on what each changes and what it leaves alone.
- `backup_records.dfy` (module `BackupRecords`): the backup table's rows, the
  config and FlinkSQL records a snapshot reads, effective-pointer keys, launch
  states, and the `Application` (a class, because `backup` and `rollback` set its
  config id, SQL id and backup description in place). It also holds the pure parts
  of `backup`: the choice of source directory and the version precedence. The
  table lemmas cover the newest snapshot, insertion, and removal by application.
- `backup_service.dfy` (module `BackUpService`): the class
  `ApplicationBackUpService`. Its fields are the file store, the backup table, the
  effective-pointer table, the "latest config" marker, and the launch states. It
  has one method per operation of the service. Each method states the complete
  new state in terms of the old one.
- `backup_scenarios.dfy` (module `BackUpScenarios`): a client that backs up a
  stopped FlinkSQL job, redeploys it and rolls it back. It is proved from the
  contracts alone.

Values the code obtains from collaborators that are not part of this model are
parameters of the methods. These are the effective config
(`configService.getEffective`), the effective FlinkSQL
(`flinkSqlService.getEffective`), and the id, path and createTime of a new
snapshot row, which the `ApplicationBackUp(application)` constructor and the
database derive. The new row is taken to copy the application's id, config id,
SQL id and backup description, as the constructor's argument suggests. The
fresh id is unused, and the fresh path does not exist and lies apart from the
directory being captured. These are preconditions of `Backup`
(`CanCapture`).

In these places the code behaves as follows, and so does the model:
- A stopped job's CONFIG pointer is set to the snapshot's own id
  (`backParam.getId()`), not to the snapshot's config id.
- A running job only gets the "latest" config marker, set to that same id. Its
  FLINKSQL pointer is left alone.
- `revoke` takes the first row of a createTime-descending query. Among rows with
  equal createTime the database picks one, so the model promises only that the
  row taken has the greatest createTime.
- `delete` of a missing row fails, because the null lookup ends in an
  `InternalException`.

## Model

| member | source | states |
|---|---|---|
| `BackupRecords.BackupSource` | streampark-console/streampark-console-service/src/main/java/org/apache/streampark/console/core/service/impl/ApplicationBackUpServiceImpl.java:254 | the directory backed up is the dist home exactly when the job is both a custom-code job and a CI/CD job, and the app home otherwise |
| `BackupRecords.BackupVersion` | streampark-console/streampark-console-service/src/main/java/org/apache/streampark/console/core/service/impl/ApplicationBackUpServiceImpl.java:263-269 | the recorded version is the FlinkSQL's version when one is given, else the effective config's version when there is one, else 1 |
| `BackUpService.ApplicationBackUpService.Backup` | streampark-console/streampark-console-service/src/main/java/org/apache/streampark/console/core/service/impl/ApplicationBackUpServiceImpl.java:252-278 | when the source directory is missing, nothing changes. Otherwise: the application gets the effective config's id and the FlinkSQL's id when given. Exactly one row is added for the application, under the fresh id, with that version, those ids, the description and the createTime. The fresh path then exists and holds the source's content. No other row changes |
| `BackUpService.ApplicationBackUpService.Capture` | streampark-console/streampark-console-service/src/main/java/org/apache/streampark/console/core/service/impl/ApplicationBackUpServiceImpl.java:275-276 | mkdirs followed by copyDir leaves the store as `CapturedFs` describes |
| `BackUpService.CapturedFs` | streampark-console/streampark-console-service/src/main/java/org/apache/streampark/console/core/service/impl/ApplicationBackUpServiceImpl.java:275-276 | after a backup's mkdirs and copyDir, the new directory exists and has the source's content, and every directory apart from it keeps its content |
| `BackUpService.CaptureSucceeds` | streampark-console/streampark-console-service/src/main/java/org/apache/streampark/console/core/service/impl/ApplicationBackUpServiceImpl.java:275-276 | once the source exists, the backup's copyDir cannot fail |
| `BackupRecords.InsertAddsOneRow` | streampark-console/streampark-console-service/src/main/java/org/apache/streampark/console/core/service/impl/ApplicationBackUpServiceImpl.java:274 | saving a row under a fresh id gives its application exactly one more snapshot, and every other application's snapshots stay the same |
| `BackUpService.ApplicationBackUpService.Rollback` | streampark-console/streampark-console-service/src/main/java/org/apache/streampark/console/core/service/impl/ApplicationBackUpServiceImpl.java:94-173 | when the snapshot's directory is missing, nothing changes. Otherwise: the optional backup of the state being replaced is taken first, with the request's description. It sets the application's config id and SQL id from the effective config and FlinkSQL, as `Backup` does, and the new row carries them. A running job gets only the latest-config marker; a stopped job gets its CONFIG pointer and, for FlinkSQL, its FLINKSQL pointer. The app home is deleted and the snapshot copied into it. When the copy succeeds the launch state becomes NEED_RESTART; when it fails, the app home is left missing. When the app home and the snapshot do not overlap, the rollback succeeds and the app home ends with the snapshot's content |
| `BackUpService.ApplicationBackUpService.BackupBeforeRollback` | streampark-console/streampark-console-service/src/main/java/org/apache/streampark/console/core/service/impl/ApplicationBackUpServiceImpl.java:110-118 | only when `isBackup` is set: the description is copied onto the application, and a backup is taken with the effective FlinkSQL for a FlinkSQL job and with none otherwise. When that backup is taken, the application's config id becomes the effective config's id (if any), and its SQL id becomes the effective FlinkSQL's id (if a FlinkSQL job has one). Otherwise both stay as they were. The new row carries those ids |
| `BackUpService.ApplicationBackUpService.RestorePointers` | streampark-console/streampark-console-service/src/main/java/org/apache/streampark/console/core/service/impl/ApplicationBackUpServiceImpl.java:123-139 | a running job's latest-config marker becomes the snapshot's id and the effective pointers are untouched; a stopped job's CONFIG pointer becomes the snapshot's id, and its FLINKSQL pointer becomes the snapshot's SQL id exactly when it is a FlinkSQL job |
| `BackUpService.ApplicationBackUpService.Restore` | streampark-console/streampark-console-service/src/main/java/org/apache/streampark/console/core/service/impl/ApplicationBackUpServiceImpl.java:141-152 | the app home is deleted, and the copy from the snapshot succeeds exactly when the snapshot still exists afterwards. On success the store is the copy of the snapshot over the emptied app home; on failure it is the store with the app home deleted, so the app home no longer exists |
| `BackUpService.RestoreRecoversSnapshot` | streampark-console/streampark-console-service/src/main/java/org/apache/streampark/console/core/service/impl/ApplicationBackUpServiceImpl.java:142-146 | when the app home and the snapshot do not overlap, and any pre-rollback backup lands away from the snapshot, the delete-then-copy succeeds and the app home gets exactly the snapshot's content |
| `BackUpService.RollbackReturnsToBackup` | streampark-console/streampark-console-service/src/main/java/org/apache/streampark/console/core/service/impl/ApplicationBackUpServiceImpl.java:142-146 | rollback undoes everything done to the app home since a backup: restoring from an intact snapshot gives back the content the source had at capture time |
| `BackUpService.ApplicationBackUpService.NewestBackup` | streampark-console/streampark-console-service/src/main/java/org/apache/streampark/console/core/service/impl/ApplicationBackUpServiceImpl.java:177-185 | the query finds no row exactly when the application has no snapshot, and otherwise a snapshot of that application with the greatest createTime |
| `BackupRecords.NewestExists` | streampark-console/streampark-console-service/src/main/java/org/apache/streampark/console/core/service/impl/ApplicationBackUpServiceImpl.java:183-184 | an application has a snapshot with the greatest createTime exactly when it has any snapshot |
| `BackUpService.ApplicationBackUpService.Revoke` | streampark-console/streampark-console-service/src/main/java/org/apache/streampark/console/core/service/impl/ApplicationBackUpServiceImpl.java:176-190 | with no snapshot, nothing changes. Otherwise a newest snapshot is picked, and its directory is moved into the app workspace, arriving there intact. Exactly that one row is removed and every other row is kept. If the move fails because the directory is missing, nothing changes |
| `BackupRecords.RevokeUndoesBackup` | streampark-console/streampark-console-service/src/main/java/org/apache/streampark/console/core/service/impl/ApplicationBackUpServiceImpl.java:176-190 | a snapshot newer than all others of its application is the only one revoke can pick, and removing it gives back the table as it was before that backup |
| `BackUpService.ApplicationBackUpService.RemoveApp` | streampark-console/streampark-console-service/src/main/java/org/apache/streampark/console/core/service/impl/ApplicationBackUpServiceImpl.java:193-204 | no row of the application remains, every other application's rows are untouched, and `APP_BACKUPS/<id>` no longer exists |
| `BackupRecords.WithoutAppRemovesAll` | streampark-console/streampark-console-service/src/main/java/org/apache/streampark/console/core/service/impl/ApplicationBackUpServiceImpl.java:195-197 | deleting an application's rows leaves none of them and keeps every row of other applications unchanged |
| `BackUpService.RemoveAppKeepsOtherApps` | streampark-console/streampark-console-service/src/main/java/org/apache/streampark/console/core/service/impl/ApplicationBackUpServiceImpl.java:198-200 | deleting `APP_BACKUPS/<id>` leaves the backup directory of every other application id under the same root with its content |
| `BackupRecords.IdText` | streampark-console/streampark-console-service/src/main/java/org/apache/streampark/console/core/service/impl/ApplicationBackUpServiceImpl.java:199 | the id's text is non-empty and reads back as the id in decimal, so distinct ids give distinct texts |
| `BackupRecords.AppBackupsDirsApart` | streampark-console/streampark-console-service/src/main/java/org/apache/streampark/console/core/service/impl/ApplicationBackUpServiceImpl.java:199 | the backup directories of two distinct ids lie apart: neither is inside the other |
| `BackUpService.ApplicationBackUpService.Delete` | streampark-console/streampark-console-service/src/main/java/org/apache/streampark/console/core/service/impl/ApplicationBackUpServiceImpl.java:238-248 | a missing row fails and changes nothing; otherwise exactly that row is removed and its directory no longer exists |
| `BackUpService.ApplicationBackUpService.IsFlinkSqlBacked` | streampark-console/streampark-console-service/src/main/java/org/apache/streampark/console/core/service/impl/ApplicationBackUpServiceImpl.java:223-228 | true exactly when some row has that application id and that SQL id |
| `BackUpService.ApplicationBackUpService.GetFlinkSqlBackup` | streampark-console/streampark-console-service/src/main/java/org/apache/streampark/console/core/service/impl/ApplicationBackUpServiceImpl.java:230-235 | the lookup finds nothing exactly when no row matches, errors exactly when several rows match, and otherwise returns the only matching row |
| `BackUpService.ApplicationBackUpService.RollbackFlinkSql` | streampark-console/streampark-console-service/src/main/java/org/apache/streampark/console/core/service/impl/ApplicationBackUpServiceImpl.java:207-220 | with exactly one snapshot for that SQL, the CONFIG pointer becomes the snapshot's id and the FLINKSQL pointer its SQL id. With none or several, the pointers are untouched. The files are never touched |
| `ArtifactFs.ExistsIffContent` | streampark-console/streampark-console-service/src/main/java/org/apache/streampark/console/core/service/impl/ApplicationBackUpServiceImpl.java:256 | a path exists exactly when its directory has some content |
| `ArtifactFs.CopyDirCopies` | streampark-console/streampark-console-service/src/main/java/org/apache/streampark/console/core/service/impl/ApplicationBackUpServiceImpl.java:146 | copyDir fails exactly when the source is missing, and otherwise the destination exists with the source's content |
| `ArtifactFs.CopyDirFrame` | streampark-console/streampark-console-service/src/main/java/org/apache/streampark/console/core/service/impl/ApplicationBackUpServiceImpl.java:276 | copyDir leaves every directory apart from its destination as it was |
| `ArtifactFs.DeleteRemoves` | streampark-console/streampark-console-service/src/main/java/org/apache/streampark/console/core/service/impl/ApplicationBackUpServiceImpl.java:142 | after delete nothing exists at or below the path, and every directory apart from it is untouched |
| `ArtifactFs.MkdirsCreates` | streampark-console/streampark-console-service/src/main/java/org/apache/streampark/console/core/service/impl/ApplicationBackUpServiceImpl.java:275 | after mkdirs the path exists, and every directory apart from it is untouched |
| `ArtifactFs.MoveMoves` | streampark-console/streampark-console-service/src/main/java/org/apache/streampark/console/core/service/impl/ApplicationBackUpServiceImpl.java:187 | move fails exactly when the source is missing. Otherwise the tree arrives intact inside the target directory, and the source is gone when the two places do not overlap. Directories apart from both are untouched |
| `BackUpScenarios.StoppedFlinkSqlRoundTrip` | streampark-console/streampark-console-service/src/main/java/org/apache/streampark/console/core/service/impl/ApplicationBackUpServiceImpl.java:94-173 | backing up a stopped FlinkSQL job, redeploying it and rolling back to that backup has three effects. The app home regains its content from the time of the backup. The CONFIG pointer becomes the snapshot's id and the FLINKSQL pointer the backed-up SQL's id. The launch state becomes NEED_RESTART |

## Left out

- `page` (lines 85-90): pagination is a query of the persistence layer, with nothing of the service's own in it.
- The rollback executor (lines 74-82, 105) is left out: the thread pool, the asynchronous submission and its rejection when the queue is full. The rollback body runs in place, and its outcome is returned rather than logged.
- `FlinkTrackingTask.refreshTracking` (lines 107, 211): the per-job lock of the monitoring subsystem is taken to simply run its body. Mutual exclusion between rollbacks is not modelled.
- Spring transactions and the catch-and-log blocks (lines 169-171, 201-203, 217-219) become plain outcomes. The metadata store and the pointer service never fail here, so the failures of `removeApp` and the NEED_RESTART update are not modelled. The same goes for a failed backup copy leaving a dangling row.
- The internals of `FsOperator` are not part of this model. `copyDir` replaces the destination tree with a copy of the source, `move` puts the tree inside the target directory under its own name, and both fail only when the source is missing. `mkdirs` and `delete` never fail. Local and HDFS stores are one store.
- `applicationService.getById` in `rollback` and `delete`: the application is a parameter and is taken to exist.
- The `LaunchState` enum is not part of this model; only NEED_RESTART is named.
- `configService.setLatestOrEffective(true, …)` is modelled as setting the "latest config" marker of the application, which is what its first argument selects.
- `rollbackFlinkSql`'s `assert backUp != null` is taken to run with Java assertions disabled, their default. A missing snapshot then fails inside the `try` and is logged.
- The TODO compensation steps (lines 148-151, 162-165) and the commented-out SQL rollback of a running job (lines 128-129) are not behaviour of the code and are not modelled.
- The invariant that every row's directory exists is not proved as an object invariant. Rollback's delete and `removeApp` can break it whenever a snapshot lies inside the deleted directory.
- BackUpService.ApplicationBackUpService.Rollback: the app home is stated to end with the snapshot's content only when the two directories do not overlap. When they overlap, only the outcome and the exact new store are stated.
- BackUpService.ApplicationBackUpService.Revoke: the moved directory is stated to be gone from its old place only through `ArtifactFs.MoveMoves`, and only when the old place and the target do not overlap.
