/**
  The SQLite backend: `run_migrations` and the pool provisioning that calls it before
  handing a pool out.
 */
module SqliteDb {
  import opened Results
  import opened Sqlx
  import opened SkipToggle
  import opened Reconciliation

  /**
    How `run_migrations` reports each way the loop can give up, as a `sqlx::Error`: an
    unrepairable mismatch and any other migrator error are wrapped as migration errors;
    a failed checksum UPDATE is passed on as the driver reported it.
   */
  function SqliteError(f: Failure): (e: SqlxError)
    ensures f.RepairFailed? ==> e == f.writeError
    ensures (f.Repeated? || f.NotInManifest?) ==> e == Migrate(VersionMismatch(f.version))
    ensures f.RunnerFailed? ==> e == Migrate(f.runError)
  {
    match f
    case Repeated(v) => Migrate(VersionMismatch(v))
    case NotInManifest(v) => Migrate(VersionMismatch(v))
    case RunnerFailed(e) => Migrate(e)
    case RepairFailed(e) => e
  }

  /**
    `run_migrations`: nothing happens when the toggle asks to skip; otherwise the
    reconciliation loop runs and its failure is reported as a `sqlx::Error`.
   */
  method RunMigrations(toggle: Option<string>, m: Manifest, h0: History, run: Runner, write: RepairWrite)
    returns (r: Result<(), SqlxError>, h: History)
    ensures SkipRequested(toggle) ==> r == Ok(()) && h == h0
    ensures !SkipRequested(toggle) ==>
      var loop := Reconcile(m, h0, {}, run, write);
      && h == loop.history
      && (r.Ok? <==> loop.result.Ok?)
      && (loop.result.Err? ==> r == Err(SqliteError(loop.result.error)))
  {
    if SkipRequested(toggle) {
      return Ok(()), h0;
    }
    var result;
    result, h := ReconcileLoop(m, h0, run, write);
    match result {
      case Ok(_) => r := Ok(());
      case Err(f) => r := Err(SqliteError(f));
    }
  }

  /**
    `create_pool`: connect (the connection options and the per-connection hook are part of
    `connected`), then run the migrations; a pool is handed out only when both succeed.
   */
  method CreatePool<Pool>(
    connected: Result<Pool, SqlxError>, toggle: Option<string>,
    m: Manifest, h0: History, run: Runner, write: RepairWrite)
    returns (r: Result<Pool, SqlxError>, h: History)
    ensures connected.Err? ==> r == Err(connected.error) && h == h0
    ensures r.Ok? ==> connected == Ok(r.value)
    ensures r.Ok? ==> SkipRequested(toggle) || Reconcile(m, h0, {}, run, write).result.Ok?
    ensures connected.Ok? ==>
      (r.Ok? <==> SkipRequested(toggle) || Reconcile(m, h0, {}, run, write).result.Ok?)
    ensures connected.Ok? ==>
      h == (if SkipRequested(toggle) then h0 else Reconcile(m, h0, {}, run, write).history)
    ensures connected.Ok? && r.Err? ==>
      r.error == SqliteError(Reconcile(m, h0, {}, run, write).result.error)
  {
    match connected {
      case Err(e) =>
        return Err(e), h0;
      case Ok(pool) =>
        var migrated;
        migrated, h := RunMigrations(toggle, m, h0, run, write);
        if migrated.Err? {
          return Err(migrated.error), h;
        }
        return Ok(pool), h;
    }
  }

  /** `DBService`: the service object holding the pool. */
  datatype DbService<Pool> = DbService(pool: Pool)

  /** `DBService::new`: a service exists only over a pool whose migrations succeeded. */
  method DbServiceNew<Pool>(
    connected: Result<Pool, SqlxError>, toggle: Option<string>,
    m: Manifest, h0: History, run: Runner, write: RepairWrite)
    returns (r: Result<DbService<Pool>, SqlxError>, h: History)
    ensures connected.Err? ==> r == Err(connected.error) && h == h0
    ensures r.Ok? ==> connected == Ok(r.value.pool)
    ensures r.Ok? ==> SkipRequested(toggle) || Reconcile(m, h0, {}, run, write).result.Ok?
    ensures connected.Ok? ==>
      (r.Ok? <==> SkipRequested(toggle) || Reconcile(m, h0, {}, run, write).result.Ok?)
    ensures connected.Ok? ==>
      h == (if SkipRequested(toggle) then h0 else Reconcile(m, h0, {}, run, write).history)
    ensures connected.Ok? && r.Err? ==>
      r.error == SqliteError(Reconcile(m, h0, {}, run, write).result.error)
  {
    var pool;
    pool, h := CreatePool(connected, toggle, m, h0, run, write);
    match pool {
      case Err(e) => r := Err(e);
      case Ok(p) => r := Ok(DbService(p));
    }
  }
}
