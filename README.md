# Migration reconciliation for the SQLite and Postgres databases

This project models how the application backend brings its database schemas up to date.
The SQLite database is handled by `run_migrations` in `crates/db/src/lib.rs` and the
Postgres database by `migrate` in `crates/remote/src/db/mod.rs`. Both run the sqlx
migrator in a loop. When the migrator reports a checksum mismatch for a version it has
not yet repaired in the current call, the loop looks the version up in the compiled
migration manifest. It overwrites the checksum stored in `_sqlx_migrations` with the
manifest's checksum and runs the migrator again. A second mismatch of the same version,
a version missing from the manifest, a failed checksum UPDATE and any other migrator
error all end the loop with an error. Both functions first read the `SKIP_MIGRATIONS`
toggle and return at once when it is set. The project also models the Postgres
`ensure_electric_role_password`, which embeds a password in an
`ALTER ROLE ... PASSWORD '...'` statement by doubling its quotes.

Layout:

- `results.dfy`: `Option` and `Result`.
- `sqlx.dfy` (module `Sqlx`): what the loop sees of sqlx.
  - The manifest is a sequence of `(version, checksum)`.
  - The history table is a map from version to checksum.
  - The error types are `sqlx::Error` and `MigrateError`.
  - The migrator is a `Runner`, a function from the history to a new history and an outcome.
  - `Apply` is a concrete runner that behaves like sqlx's `Migrator::run`: it goes through the
    manifest in ascending order, applies each pending migration, and reports the first applied
    version whose stored checksum differs from the manifest's.
- `reconcile.dfy` (module `Reconciliation`): the loop that both backends share.
  - `Step` is one pass of the loop body, and `Reconcile`, the specification function, repeats it.
  - `ReconcileLoop` is the imperative loop. It grows a `processed` set of versions and
    rewrites the history. It is proved equal to `Reconcile`.
  - The lemmas prove termination and at most one repair per version, for any runner at all.
- `convergence.dfy` (module `Convergence`): with the concrete runner, an UPDATE that does not
  fail and a manifest with distinct versions, the loop succeeds and leaves the history agreeing
  with the manifest. With a failing UPDATE the loop ends in `RepairFailed` instead.
- `skip_toggle.dfy` (module `SkipToggle`): the `SKIP_MIGRATIONS` predicate.
- `pg_string_literal.dfy` (module `PgStringLiteral`): quote doubling, and a reader for
  PostgreSQL single-quoted string constants as section 4.1.2.1 ("String Constants") of the
  PostgreSQL documentation defines them.
- `sqlite_db.dfy` (module `SqliteDb`), `remote_db.dfy` (module `RemoteDb`): the two backends.
  They differ only in how they wrap the loop's errors.

Inputs that the source reads from its surroundings become parameters:

- the value of `SKIP_MIGRATIONS`: `None` when it is unset or not valid Unicode;
- the history table before the call; the loop returns the history it leaves behind;
- the migrator, as a `Runner`;
- whether the checksum UPDATE fails, as a `RepairWrite`. A failed UPDATE leaves the history unchanged;
- whether connecting succeeds;
- the result of executing the ALTER ROLE statement.

An UPDATE of a version that has no row changes nothing, as in SQL.

## Model

| member | source | states |
|---|---|---|
| Sqlx.Expected | crates/db/src/lib.rs:24 | the manifest as a history: every manifest version is a key, and with distinct versions each version maps to its own checksum |
| Sqlx.ExpectedKeys | crates/db/src/lib.rs:24 | the keys of the manifest's history are exactly the manifest's versions |
| Sqlx.Find | crates/db/src/lib.rs:61 | the manifest lookup finds an entry exactly when the version is in the manifest, and then returns that version with its manifest checksum |
| Sqlx.Apply | crates/db/src/lib.rs:28 | the concrete migrator keeps every recorded row unchanged, adds only manifest rows, and fails only with `VersionMismatch` |
| Sqlx.ApplyCorrect | crates/db/src/lib.rs:28 | the concrete migrator succeeds exactly when no recorded row has drifted; on success the history is the old history with every manifest row laid over it; on failure it names a drifted version |
| Sqlx.ApplyStopsAtFirstDrift | crates/db/src/lib.rs:28-30 | when the concrete migrator fails, the version it names is that of the first manifest entry recorded with a different checksum; every earlier entry is unrecorded or recorded with its own checksum |
| Reconciliation.Repair | crates/db/src/lib.rs:63-67 | the checksum UPDATE changes only the row of the mismatched version, which gets the manifest checksum; no row is added or removed |
| Reconciliation.Step | crates/db/src/lib.rs:28-75 | one pass of the loop body: it goes round again only after a first mismatch of a manifest version not yet repaired in this call; a `Repeated` stop names a version already repaired, a `NotInManifest` stop a version missing from the manifest |
| Reconciliation.Reconcile | crates/db/src/lib.rs:25-77 | the loop: the migrator runs once more than the number of repairs, and every repaired version is a manifest version that was not repaired before in this call |
| Reconciliation.RepairThenRetry | crates/db/src/lib.rs:40-67 | after a first mismatch of a manifest version whose UPDATE succeeds, the pass writes the manifest checksum into that version's row and the loop runs again from the repaired history |
| Reconciliation.StopsWithoutRepair | crates/db/src/lib.rs:28-75 | every way through the loop body other than a repair ends the loop after one run, with no repair and the migrator's history. The migrator's success is a success. A repeated mismatch is `Repeated(v)`. A mismatch of a version missing from the manifest is `NotInManifest(v)`. A failed UPDATE carries the UPDATE's own error, and any other migrator error is carried as it is |
| Reconciliation.RepairsOncePerVersion | crates/db/src/lib.rs:40-48 | no version is repaired twice in one call |
| Reconciliation.FailureNamesVersion | crates/db/src/lib.rs:40-73 | a `Repeated` failure names a version already repaired in this call; a `NotInManifest` failure names a version that is not in the manifest |
| Reconciliation.RepairsBounded | crates/db/src/lib.rs:25-40 | the number of repairs is at most the number of manifest versions not yet repaired |
| Reconciliation.ReconcileLoop | crates/db/src/lib.rs:25-77 | the loop with its in-place `processed` set returns the result and the history of `Reconcile` |
| Reconciliation.RunsBounded | crates/db/src/lib.rs:25-61 | whatever the migrator does, the loop ends after at most the manifest's length plus one runs |
| Reconciliation.StuckRunnerFails | crates/db/src/lib.rs:40-73 | a migrator that keeps reporting one version makes the loop end with an error. For a manifest version it first performs one repair and then fails with `Repeated`. For any other version it fails with `NotInManifest` and writes nothing |
| Convergence.RepairClearsDrift | crates/db/src/lib.rs:61-67 | repairing a drifted row removes exactly that version from the drifted set and does not change the history once the manifest is laid over it |
| Convergence.ConcreteRepairStep | crates/db/src/lib.rs:40-67 | with the concrete migrator, a mismatch names a drifted version not yet repaired; its repair leaves one drifted row less and the same history once the manifest is laid over it |
| Convergence.ConcreteConverges | crates/db/src/lib.rs:27-77 | with the concrete migrator and a working UPDATE, the loop succeeds. Its history is the old history with the manifest laid over it. It repairs exactly the drifted versions |
| Convergence.MigrationsConverge | crates/db/src/lib.rs:12-78 | for an ascending manifest, the loop succeeds. Every manifest version ends up recorded with its manifest checksum. Each drifted version is repaired exactly once |
| Convergence.OneDriftedRowOneRepair | crates/db/src/lib.rs:30-67 | one corrupted row is repaired exactly once, over two migrator runs, and ends up with the manifest checksum |
| Convergence.FreshDatabase | crates/db/src/lib.rs:27-29 | an empty history reconciles in one run, with no repair, to exactly the manifest's rows |
| Convergence.SecondRunIsNoOp | crates/db/src/lib.rs:28-29 | reconciling a second time succeeds in one run and writes nothing |
| SkipToggle.SkipRequestedExactly | crates/db/src/lib.rs:14-16 | migrations are skipped exactly when the toggle is set to "1" or to "true" in any letter case; an unset toggle never skips |
| SkipToggle.SkipExamples | crates/remote/src/db/mod.rs:54-56 | "1", "TRUE", "True" and "true" skip; unset, "false", "no", "TRUE1", "0", "", " true" and "01" do not |
| SkipToggle.SkipRequested | crates/db/src/lib.rs:14-16 | the `SKIP_MIGRATIONS` predicate: an unset toggle never skips, and only a value of one or four characters can skip |
| SqliteDb.RunMigrations | crates/db/src/lib.rs:12-78 | a set toggle returns Ok and leaves the history untouched. Otherwise the loop runs. Repeated and missing versions come out as `Migrate(VersionMismatch(v))`, other migrator errors as `Migrate(e)`, and a failed UPDATE as its own driver error |
| SqliteDb.SqliteError | crates/db/src/lib.rs:40-75 | a repeated or missing version becomes `Migrate(VersionMismatch(v))`, another migrator error `e` becomes `Migrate(e)`, and a failed UPDATE is passed on as its own driver error |
| SqliteDb.CreatePool | crates/db/src/lib.rs:113-148 | a connection error is returned before any migration runs, with the history untouched. After a successful connection, the pool is returned exactly when the migrations were skipped or succeeded. The history is the loop's, or untouched when skipped, and a failed migration returns `run_migrations`' own error |
| SqliteDb.DbServiceNew | crates/db/src/lib.rs:86-97 | a `DBService` exists only over a pool whose migrations were skipped or succeeded. After a successful connection, the history is the loop's, or untouched when skipped, and a failed migration returns `run_migrations`' own error |
| RemoteDb.Migrate | crates/remote/src/db/mod.rs:50-122 | a set toggle returns Ok and leaves the history untouched. Otherwise the loop runs. Repeated and missing versions come out as `VersionMismatch(v)`, a failed UPDATE as `Execute(e)`, and other migrator errors unchanged |
| RemoteDb.PostgresError | crates/remote/src/db/mod.rs:70-119 | a repeated or missing version becomes `VersionMismatch(v)`, a failed UPDATE `e` becomes `Execute(e)`, and another migrator error is passed on unchanged |
| RemoteDb.BackendsAgree | crates/remote/src/db/mod.rs:66-119 | both backends report the same failures: every SQLite error other than a failed UPDATE is the Postgres error wrapped as `Migrate`, and a failed UPDATE is the SQLite error wrapped as `Execute` |
| RemoteDb.AlterRoleStatement | crates/remote/src/db/mod.rs:139-142 | the statement starts with the ALTER ROLE prefix. Its string constant reads back as exactly the password and ends at the statement's last character |
| RemoteDb.EnsureElectricRolePassword | crates/remote/src/db/mod.rs:131-147 | an empty password issues no statement and returns Ok; any other password issues exactly the ALTER ROLE statement, and the statement's failure is the result |
| RemoteDb.QuotedPasswordExample | crates/remote/src/db/mod.rs:141-142 | the password `O'Brien` is embedded as `'O''Brien'` |
| PgStringLiteral.EscapeLength | crates/remote/src/db/mod.rs:141 | the escaped password is longer by exactly its number of quotes |
| PgStringLiteral.EscapeConcat | crates/remote/src/db/mod.rs:141 | escaping works piece by piece, so each character is replaced independently of the rest |
| PgStringLiteral.EscapeQuoteFree | crates/remote/src/db/mod.rs:141 | a password without quotes is embedded unchanged |
| PgStringLiteral.CollapseEscape | crates/remote/src/db/mod.rs:141 | turning each `''` back into `'` recovers the password |
| PgStringLiteral.EscapePairsQuotes | crates/remote/src/db/mod.rs:141 | every quote in the escaped password is followed by a second quote |
| PgStringLiteral.ReadLiteralInverse | crates/remote/src/db/mod.rs:142 | the only text that reads as a string constant with value `v` and remainder `rest` is the escaped `v`, a closing quote and `rest`. The remainder never starts with a quote |
| PgStringLiteral.ReadEscaped | crates/remote/src/db/mod.rs:141-142 | the escaped password plus a closing quote reads back as exactly the password, and the constant ends at that quote |
| PgStringLiteral.Escape | crates/remote/src/db/mod.rs:141 | `replace("'", "''")`: the escaped password is at least as long as the password and at most twice as long |

## Left out

- The internals of the sqlx migrator and of `sqlx::migrate!` are left out. The loop works
  with any `Runner`. `Sqlx.Apply` models only the part of `Migrator::run` that the convergence
  proof needs. Its checks for dirty and missing migrations are not modelled.
- Connection and pool options are left out because they are I/O and configuration:
  `SqliteConnectOptions`, the journal mode, `asset_dir()`, the URL formatting, and the Postgres
  `create_pool` with `max_connections(10)`. Whether connecting succeeds is the `connected`
  parameter of `SqliteDb.CreatePool`.
- The `after_connect` hook of `new_with_after_connect` and `create_pool` is left out. It is an
  asynchronous callback run on each connection. Its failure is part of `connected`.
  `new_with_after_connect` behaves like `SqliteDb.DbServiceNew`.
- `get_txid` is left out. It is one SQL query whose meaning is defined by the Postgres server.
- The `tracing` calls and the `cfg!(debug_assertions)` branch are left out. They only log.
- The SQL statements are not executed. The checksum UPDATE is a map update, and ALTER ROLE is the
  statement text that would be executed.
- The history table is a value passed into the loop and returned from it. Concurrent access to
  the table by other processes is left out.
- Versions are unbounded integers. sqlx uses `i64`, but the loop only compares versions and
  never computes with them.
- `SkipToggle.EqIgnoreAsciiCase` compares characters, whereas Rust compares UTF-8 bytes. The
  result is the same, because "true" is ASCII and a non-ASCII character never matches an ASCII
  byte.
- `PgStringLiteral.ReadLiteral` reads a literal with `standard_conforming_strings` on, the
  PostgreSQL default. With that setting off, backslashes in the password would also need escaping.
