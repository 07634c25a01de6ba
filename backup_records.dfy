/**
 * The records the backup service reads and writes: snapshot rows of the
 * backup table, the config and FlinkSQL versions a snapshot is taken from,
 * effective-pointer keys, launch states, and the application being backed up.
 */
module BackupRecords {
  import opened ArtifactFs

  /** Database ids (Java `Long`, never null where used here). */
  type Id = nat

  datatype Option<T> = None | Some(value: T)

  /** A row of the backup table (`ApplicationBackUp`). */
  datatype BackUp = BackUp(
    id: Id,
    appId: Id,
    path: Path,
    version: int,
    configId: Option<Id>,
    sqlId: Option<Id>,
    description: string,
    createTime: int)

  /** The effective `ApplicationConfig`, as far as a backup reads it. */
  datatype Config = Config(id: Id, version: int)

  /** A `FlinkSql` record, as far as a backup reads it. */
  datatype FlinkSql = FlinkSql(id: Id, version: int)

  /** `EffectiveType`: which effective pointer of an application. */
  datatype EffectiveType = CONFIG | FLINKSQL

  datatype EffectiveKey = EffectiveKey(appId: Id, kind: EffectiveType)

  /** The launch flag of an application; rollback only ever writes NEED_RESTART. */
  datatype LaunchState = NeedRestart | OtherLaunchState(code: int)

  datatype JobType = CustomCode | FlinkSqlJob

  /** Where `backup` takes its version number from: the FlinkSQL, the effective config, or the default 1. */
  datatype VersionSource = ScriptVersion(v: int) | ConfigVersion(v: int) | DefaultVersion

  /**
   * The application whose artifacts are backed up. Its job kind, running flag
   * and directories are fixed here; `backup` and `rollback` set the config id,
   * the SQL id and the backup description on the object in place.
   */
  class Application {
    const id: Id
    const jobType: JobType
    /** The job's resources come from a CI/CD build (`isCICDJob`). */
    const fromCicd: bool
    const running: bool
    const appHome: Path
    const distHome: Path
    /** `getWorkspace().APP_WORKSPACE()` */
    const appWorkspace: Path
    /** `getWorkspace().APP_BACKUPS()` */
    const appBackups: Path
    var configId: Option<Id>
    var sqlId: Option<Id>
    var backUpDescription: string

    constructor (id: Id, jobType: JobType, fromCicd: bool, running: bool,
                 appHome: Path, distHome: Path, appWorkspace: Path, appBackups: Path)
      ensures this.id == id && this.jobType == jobType && this.fromCicd == fromCicd
      ensures this.running == running && this.appHome == appHome && this.distHome == distHome
      ensures this.appWorkspace == appWorkspace && this.appBackups == appBackups
      ensures configId == None && sqlId == None && backUpDescription == ""
    {
      this.id, this.jobType, this.fromCicd, this.running := id, jobType, fromCicd, running;
      this.appHome, this.distHome := appHome, distHome;
      this.appWorkspace, this.appBackups := appWorkspace, appBackups;
      configId, sqlId, backUpDescription := None, None, "";
    }

    predicate IsCustomCodeJob() { jobType == CustomCode }

    predicate IsFlinkSqlJob() { jobType == FlinkSqlJob }
  }

  /**
   * The directory `backup` snapshots: the dist home for a custom-code job
   * built by CI/CD, the app home for every other job.
   */
  function BackupSource(app: Application): (p: Path)
    ensures p == app.distHome || p == app.appHome
    ensures app.IsCustomCodeJob() && app.fromCicd ==> p == app.distHome
    ensures !(app.IsCustomCodeJob() && app.fromCicd) ==> p == app.appHome
  {
    if app.IsCustomCodeJob() && app.fromCicd then app.distHome else app.appHome
  }

  /** The per-application backup directory `APP_BACKUPS/<id>` that `removeApp` deletes. */
  function AppBackupsDir(app: Application): Path {
    app.appBackups + [IdText(app.id)]
  }

  /** The number a string of decimal digits denotes, most significant digit first. */
  function DecimalValue(s: string): int {
    if s == [] then 0 else DecimalValue(s[..|s| - 1]) * 10 + (s[|s| - 1] as int - 48)
  }

  /**
   * `Long.toString` of an id: its decimal digits, which read back as the id,
   * so distinct ids name distinct directories.
   */
  function IdText(n: nat): (s: string)
    ensures |s| > 0
    ensures DecimalValue(s) == n
  {
    if n < 10 then [(48 + n) as char]
    else
      var s := IdText(n / 10) + [(48 + n % 10) as char];
      assert s[..|s| - 1] == IdText(n / 10);
      s
  }

  /** Two applications' backup directories `APP_BACKUPS/<id>` lie apart whenever their ids differ. */
  lemma AppBackupsDirsApart(root: Path, id: Id, other: Id)
    requires id != other
    ensures Disjoint(root + [IdText(id)], root + [IdText(other)])
  {
    var p, q := root + [IdText(id)], root + [IdText(other)];
    assert p[|root|] != q[|root|];
  }

  /** The precedence of version sources: a given FlinkSQL first, then an effective config. */
  function VersionSourceOf(flinkSql: Option<FlinkSql>, config: Option<Config>): VersionSource {
    if flinkSql.Some? then ScriptVersion(flinkSql.value.version)
    else if config.Some? then ConfigVersion(config.value.version)
    else DefaultVersion
  }

  function VersionNumber(s: VersionSource): int {
    match s
    case ScriptVersion(v) => v
    case ConfigVersion(v) => v
    case DefaultVersion => 1
  }

  /** The version recorded on a new snapshot. */
  function BackupVersion(flinkSql: Option<FlinkSql>, config: Option<Config>): (v: int)
    ensures flinkSql.Some? ==> v == flinkSql.value.version
    ensures flinkSql.None? && config.Some? ==> v == config.value.version
    ensures flinkSql.None? && config.None? ==> v == 1
  {
    VersionNumber(VersionSourceOf(flinkSql, config))
  }

  // ---------------------------------------------------------------------------
  // The backup table

  type Table = map<Id, BackUp>

  /** Every row is stored under its own id. */
  predicate WellKeyed(t: Table) {
    forall id :: id in t ==> t[id].id == id
  }

  /** The ids of an application's snapshots. */
  function AppRows(t: Table, appId: Id): (ids: set<Id>)
    ensures forall id :: id in ids <==> id in t && t[id].appId == appId
  {
    set id | id in t && t[id].appId == appId
  }

  /** The ids of an application's snapshots taken with a given FlinkSQL. */
  function SqlRows(t: Table, appId: Id, sqlId: Id): (ids: set<Id>)
    ensures forall id :: id in ids <==> id in t && t[id].appId == appId && t[id].sqlId == Some(sqlId)
  {
    set id | id in t && t[id].appId == appId && t[id].sqlId == Some(sqlId)
  }

  /** `id` is a snapshot of the application with the greatest createTime among them. */
  predicate IsNewest(t: Table, appId: Id, id: Id) {
    && id in t && t[id].appId == appId
    && forall o :: o in t && t[o].appId == appId ==> t[o].createTime <= t[id].createTime
  }

  /** The table after `removeApp`: every row of the application gone. */
  function WithoutApp(t: Table, appId: Id): Table {
    map id | id in t && t[id].appId != appId :: t[id]
  }

  /** A finite non-empty set of rows has one with the greatest createTime. */
  lemma {:induction false} LatestAmong(t: Table, ids: set<Id>)
    requires ids != {} && ids <= t.Keys
    ensures exists m :: m in ids && forall o :: o in ids ==> t[o].createTime <= t[m].createTime
  {
    var x :| x in ids;
    if ids != {x} {
      LatestAmong(t, ids - {x});
      var m :| m in ids - {x} && forall o :: o in ids - {x} ==> t[o].createTime <= t[m].createTime;
      if t[x].createTime <= t[m].createTime {
        assert forall o :: o in ids ==> t[o].createTime <= t[m].createTime;
      } else {
        assert forall o :: o in ids ==> t[o].createTime <= t[x].createTime;
      }
    } else {
      assert forall o :: o in ids ==> o == x;
    }
  }

  /** An application has a newest snapshot exactly when it has any. */
  lemma NewestExists(t: Table, appId: Id)
    ensures AppRows(t, appId) != {} <==> exists id :: IsNewest(t, appId, id)
  {
    if AppRows(t, appId) != {} {
      LatestAmong(t, AppRows(t, appId));
      var m :| m in AppRows(t, appId) && forall o :: o in AppRows(t, appId) ==> t[o].createTime <= t[m].createTime;
      assert IsNewest(t, appId, m);
    }
  }

  /**
   * Inserting a row under a fresh id gives its application exactly one more
   * snapshot and leaves every other application's snapshots as they were.
   */
  lemma InsertAddsOneRow(t: Table, row: BackUp, appId: Id)
    requires row.id !in t
    ensures AppRows(t[row.id := row], row.appId) == AppRows(t, row.appId) + {row.id}
    ensures |AppRows(t[row.id := row], row.appId)| == |AppRows(t, row.appId)| + 1
    ensures appId != row.appId ==> AppRows(t[row.id := row], appId) == AppRows(t, appId)
  {
    assert row.id !in AppRows(t, row.appId);
  }

  /** After removing an application's rows none of them is left, and every other row is untouched. */
  lemma WithoutAppRemovesAll(t: Table, appId: Id)
    ensures AppRows(WithoutApp(t, appId), appId) == {}
    ensures forall id :: id in t && t[id].appId != appId ==> id in WithoutApp(t, appId) && WithoutApp(t, appId)[id] == t[id]
    ensures forall id :: id in WithoutApp(t, appId) ==> id in t
    ensures forall a :: a != appId ==> AppRows(WithoutApp(t, appId), a) == AppRows(t, a)
  {
  }

  /**
   * A snapshot newer than every earlier one of its application is what
   * `revoke` removes next, and removing it gives back the table as it was:
   * revoke undoes that backup's row.
   */
  lemma RevokeUndoesBackup(t: Table, row: BackUp, id: Id)
    requires row.id !in t
    requires forall o :: o in AppRows(t, row.appId) ==> t[o].createTime < row.createTime
    ensures IsNewest(t[row.id := row], row.appId, row.id)
    ensures IsNewest(t[row.id := row], row.appId, id) ==> id == row.id
    ensures t[row.id := row] - {row.id} == t
  {
    var t' := t[row.id := row];
    forall o | o in t' && t'[o].appId == row.appId ensures t'[o].createTime <= t'[row.id].createTime {
      if o != row.id {
        assert o in AppRows(t, row.appId);
      }
    }
  }
}
