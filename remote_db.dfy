/**
  The Postgres backend: `migrate` and `ensure_electric_role_password`.
 */
module RemoteDb {
  import opened Results
  import opened Sqlx
  import opened SkipToggle
  import opened Reconciliation
  import opened PgStringLiteral
  import opened SqliteDb

  /**
    How `migrate` reports each way the loop can give up, as a `MigrateError`: an unrepairable
    mismatch as `VersionMismatch`, another migrator error unchanged, a failed checksum
    UPDATE wrapped as `Execute`.
   */
  function PostgresError(f: Failure): (e: MigrateError)
    ensures f.RepairFailed? ==> e == Execute(f.writeError)
    ensures (f.Repeated? || f.NotInManifest?) ==> e == VersionMismatch(f.version)
    ensures f.RunnerFailed? ==> e == f.runError
  {
    match f
    case Repeated(v) => VersionMismatch(v)
    case NotInManifest(v) => VersionMismatch(v)
    case RunnerFailed(e) => e
    case RepairFailed(e) => Execute(e)
  }

  /**
    The two backends report the same failures: a migration error on SQLite is the Postgres
    error wrapped as `sqlx::Error::Migrate`, and the failed UPDATE that SQLite passes on as it
    is comes out on Postgres wrapped as `Execute`.
   */
  lemma BackendsAgree(f: Failure)
    ensures !f.RepairFailed? ==> SqliteError(f) == SqlxError.Migrate(PostgresError(f))
    ensures f.RepairFailed? ==> PostgresError(f) == Execute(SqliteError(f))
  {
  }

  /**
    `migrate`: nothing happens when the toggle asks to skip; otherwise the reconciliation
    loop runs and its failure is reported as a `MigrateError`.
   */
  method Migrate(toggle: Option<string>, m: Manifest, h0: History, run: Runner, write: RepairWrite)
    returns (r: Result<(), MigrateError>, h: History)
    ensures SkipRequested(toggle) ==> r == Ok(()) && h == h0
    ensures !SkipRequested(toggle) ==>
      var loop := Reconcile(m, h0, {}, run, write);
      && h == loop.history
      && (r.Ok? <==> loop.result.Ok?)
      && (loop.result.Err? ==> r == Err(PostgresError(loop.result.error)))
  {
    if SkipRequested(toggle) {
      return Ok(()), h0;
    }
    var result;
    result, h := ReconcileLoop(m, h0, run, write);
    match result {
      case Ok(_) => r := Ok(());
      case Err(f) => r := Err(PostgresError(f));
    }
  }

  const AlterRolePrefix: string := "ALTER ROLE electric_sync WITH PASSWORD '"

  /**
    The statement that sets the role's password. Its string constant starts right after the
    prefix, reads back as exactly `password`, and ends at the last character of the statement.
   */
  function AlterRoleStatement(password: string): (sql: string)
    ensures |AlterRolePrefix| < |sql| && sql[..|AlterRolePrefix|] == AlterRolePrefix
    ensures ReadLiteral(sql[|AlterRolePrefix|..]) == Some(Literal(password, ""))
  {
    var sql := AlterRolePrefix + Escape(password) + [Quote];
    assert sql[|AlterRolePrefix|..] == Escape(password) + [Quote] + [];
    ReadEscaped(password, []);
    sql
  }

  /** The statements issued and the result of one call. */
  datatype RoleUpdate = RoleUpdate(statements: seq<string>, result: Result<(), SqlxError>)

  /**
    `ensure_electric_role_password`: an empty password issues nothing and succeeds; any
    other password issues the one ALTER ROLE statement, whose failure is the result.
    `execute` stands for running a statement on the pool.
   */
  function EnsureElectricRolePassword(password: string, execute: string -> Option<SqlxError>)
    : (r: RoleUpdate)
    ensures password == "" <==> r.statements == []
    ensures password == "" ==> r.result == Ok(())
    ensures password != "" ==>
      && r.statements == [AlterRoleStatement(password)]
      && (r.result.Ok? <==> execute(r.statements[0]).None?)
      && (r.result.Err? ==> r.result.error == execute(r.statements[0]).value)
  {
    if password == "" then RoleUpdate([], Ok(()))
    else
      var sql := AlterRoleStatement(password);
      match execute(sql)
      case None => RoleUpdate([sql], Ok(()))
      case Some(e) => RoleUpdate([sql], Err(e))
  }

  /** A password with a quote in it is set to exactly that value, not cut at the quote. */
  lemma QuotedPasswordExample()
    ensures AlterRoleStatement("O'Brien") == AlterRolePrefix + "O''Brien'"
  {
    assert Escape("O'Brien") == "O''Brien";
  }
}
