/**
  The migration reconciliation loop shared by the SQLite `run_migrations` and the
  Postgres `migrate`: run the migrator; on a checksum mismatch for a manifest version
  seen for the first time in this call, overwrite that version's stored checksum with
  the manifest's and run again; stop on anything else.
 */
module Reconciliation {
  import opened Results
  import opened Sqlx

  /**
    The UPDATE of the repair step: `(History, Version) -> error if the write failed`.
    A write that fails leaves the history as it was.
   */
  type RepairWrite = (History, Version) -> Option<SqlxError>

  /** Why the loop gave up, before the error is wrapped for one backend. */
  datatype Failure =
    | Repeated(version: Version)       // a version already repaired in this call mismatched again
    | NotInManifest(version: Version)  // the mismatched version is not in the manifest
    | RepairFailed(writeError: SqlxError) // the checksum UPDATE failed
    | RunnerFailed(runError: MigrateError) // the migrator failed with something other than a mismatch

  /**
    What one call of the loop amounts to: its result, the history it leaves, the versions
    whose checksum it overwrote (in order), and how many times it ran the migrator.
   */
  datatype LoopRun = LoopRun(
    result: Result<(), Failure>, history: History, repairs: seq<Version>, runs: nat)

  /** `UPDATE _sqlx_migrations SET checksum = c WHERE version = v`. */
  function Repair(h: History, v: Version, c: Checksum): (h2: History)
    ensures h2.Keys == h.Keys
    ensures v in h ==> h2[v] == c
    ensures forall k :: k in h && k != v ==> h2[k] == h[k]
  {
    if v in h then h[v := c] else h
  }

  /** How one pass of the loop body ends: the loop stops, or it repaired `version` and runs again. */
  datatype Next =
    | Stop(result: Result<(), Failure>, history: History)
    | Retry(version: Version, history: History)

  /**
    One pass of the loop body, with the versions `done` already repaired in this call:
    only a first mismatch of a manifest version whose UPDATE succeeds leads to another pass;
    a repeated mismatch names a repaired version, a missing one a version not in the manifest.
   */
  function Step(m: Manifest, h: History, done: set<Version>, run: Runner, write: RepairWrite)
    : (n: Next)
    ensures n.Retry? ==> n.version in Expected(m) && n.version !in done
    ensures n.Stop? && n.result.Err? && n.result.error.Repeated? ==> n.result.error.version in done
    ensures n.Stop? && n.result.Err? && n.result.error.NotInManifest? ==>
              n.result.error.version !in Expected(m)
  {
    var step := run(h);
    match step.outcome
    case Ok(_) => Stop(Ok(()), step.history)
    case Err(VersionMismatch(v)) =>
      if v in done then Stop(Err(Repeated(v)), step.history)
      else (
        match Find(m, v)
        case None => Stop(Err(NotInManifest(v)), step.history)
        case Some(mig) => (
          match write(step.history, v)
          case Some(e) => Stop(Err(RepairFailed(e)), step.history)
          case None => Retry(v, Repair(step.history, v, mig.checksum))))
    case Err(e) => Stop(Err(RunnerFailed(e)), step.history)
  }

  /**
    The loop, from a history `h` with the versions `done` already repaired in this call.
    It ends because every repair adds a manifest version that was not yet in `done`.
   */
  function Reconcile(m: Manifest, h: History, done: set<Version>, run: Runner, write: RepairWrite)
    : (r: LoopRun)
    ensures r.runs == |r.repairs| + 1
    ensures forall v :: v in r.repairs ==> v in Expected(m) && v !in done
    decreases |Expected(m).Keys - done|
  {
    match Step(m, h, done, run, write)
    case Stop(result, h2) => LoopRun(result, h2, [], 1)
    case Retry(v, h2) =>
      assert Expected(m).Keys - (done + {v}) == (Expected(m).Keys - done) - {v};
      var rest := Reconcile(m, h2, done + {v}, run, write);
      LoopRun(rest.result, rest.history, [v] + rest.repairs, rest.runs + 1)
  }

  /**
    After a first mismatch of manifest version `v` whose UPDATE succeeds, the pass overwrites
    the stored checksum of `v` with the manifest's and the loop runs again.
   */
  lemma RepairThenRetry(m: Manifest, h: History, done: set<Version>, run: Runner, write: RepairWrite)
    requires run(h).outcome.Err? && run(h).outcome.error.VersionMismatch?
    requires run(h).outcome.error.version !in done
    requires run(h).outcome.error.version in Expected(m)
    requires write(run(h).history, run(h).outcome.error.version).None?
    ensures var v := run(h).outcome.error.version;
      Step(m, h, done, run, write) == Retry(v, Repair(run(h).history, v, Expected(m)[v]))
  {
  }

  /**
    Every other way through the loop body ends the loop after that one run, without a write:
    the history is the one the migrator left, and the result says why it stopped. A success
    of the migrator is a success; a repeated mismatch is `Repeated`; a mismatch of a version
    missing from the manifest is `NotInManifest`; a failed UPDATE carries the UPDATE's own
    error; any other migrator error is carried as it is.
   */
  lemma StopsWithoutRepair(m: Manifest, h: History, done: set<Version>, run: Runner, write: RepairWrite)
    requires !(run(h).outcome.Err? && run(h).outcome.error.VersionMismatch?
               && run(h).outcome.error.version !in done
               && run(h).outcome.error.version in Expected(m)
               && write(run(h).history, run(h).outcome.error.version).None?)
    ensures var n := Step(m, h, done, run, write);
      n.Stop? && n.history == run(h).history && (n.result.Ok? <==> run(h).outcome.Ok?)
    ensures var s, r := run(h), Reconcile(m, h, done, run, write);
      && r.history == s.history && r.repairs == [] && r.runs == 1
      && (s.outcome.Ok? ==> r.result == Ok(()))
      && (s.outcome.Err? && !s.outcome.error.VersionMismatch? ==>
            r.result == Err(RunnerFailed(s.outcome.error)))
      && (s.outcome.Err? && s.outcome.error.VersionMismatch? && s.outcome.error.version in done ==>
            r.result == Err(Repeated(s.outcome.error.version)))
      && (s.outcome.Err? && s.outcome.error.VersionMismatch? && s.outcome.error.version !in done
          && s.outcome.error.version !in Expected(m) ==>
            r.result == Err(NotInManifest(s.outcome.error.version)))
      && (s.outcome.Err? && s.outcome.error.VersionMismatch? && s.outcome.error.version !in done
          && s.outcome.error.version in Expected(m) ==>
            r.result == Err(RepairFailed(write(s.history, s.outcome.error.version).value)))
  {
  }

  /** No version occurs twice. */
  predicate NoRepeats(s: seq<Version>) {
    forall i, j :: 0 <= i < j < |s| ==> s[i] != s[j]
  }

  /** Putting a new version in front of versions without repeats keeps them without repeats. */
  lemma NoRepeatsCons(v: Version, s: seq<Version>)
    requires v !in s && NoRepeats(s)
    ensures NoRepeats([v] + s)
  {
    forall i, j | 0 <= i < j < |[v] + s|
      ensures ([v] + s)[i] != ([v] + s)[j]
    {
      if i == 0 {
        assert s[j - 1] in s;
      }
    }
  }

  /** Each version is repaired at most once per call. */
  lemma {:induction false} RepairsOncePerVersion(
    m: Manifest, h: History, done: set<Version>, run: Runner, write: RepairWrite)
    ensures NoRepeats(Reconcile(m, h, done, run, write).repairs)
    decreases |Expected(m).Keys - done|
  {
    match Step(m, h, done, run, write)
    case Stop(_, _) =>
    case Retry(v, h2) =>
      assert Expected(m).Keys - (done + {v}) == (Expected(m).Keys - done) - {v};
      RepairsOncePerVersion(m, h2, done + {v}, run, write);
      var rest := Reconcile(m, h2, done + {v}, run, write);
      assert v !in rest.repairs;
      NoRepeatsCons(v, rest.repairs);
  }

  /**
    A repeated mismatch names a version already repaired in this call, and a version
    reported as missing is not in the manifest.
   */
  lemma {:induction false} FailureNamesVersion(
    m: Manifest, h: History, done: set<Version>, run: Runner, write: RepairWrite)
    ensures var r := Reconcile(m, h, done, run, write);
      && (r.result.Err? && r.result.error.Repeated? ==>
            r.result.error.version in done || r.result.error.version in r.repairs)
      && (r.result.Err? && r.result.error.NotInManifest? ==> r.result.error.version !in Expected(m))
    decreases |Expected(m).Keys - done|
  {
    match Step(m, h, done, run, write)
    case Stop(_, _) =>
    case Retry(v, h2) =>
      assert Expected(m).Keys - (done + {v}) == (Expected(m).Keys - done) - {v};
      FailureNamesVersion(m, h2, done + {v}, run, write);
      var rest := Reconcile(m, h2, done + {v}, run, write);
      var r := Reconcile(m, h, done, run, write);
      assert r.result == rest.result && r.repairs == [v] + rest.repairs;
  }

  /** There are no more repairs than manifest versions not yet repaired when the loop starts. */
  lemma {:induction false} RepairsBounded(
    m: Manifest, h: History, done: set<Version>, run: Runner, write: RepairWrite)
    ensures |Reconcile(m, h, done, run, write).repairs| <= |Expected(m).Keys - done|
    decreases |Expected(m).Keys - done|
  {
    match Step(m, h, done, run, write)
    case Stop(_, _) =>
    case Retry(v, h2) =>
      var pending := Expected(m).Keys - done;
      assert Expected(m).Keys - (done + {v}) == pending - {v};
      RepairsBounded(m, h2, done + {v}, run, write);
  }

  /** The loop is one pass of its body, then either the end or the rest of the loop. */
  lemma ReconcileUnfold(m: Manifest, h: History, done: set<Version>, run: Runner, write: RepairWrite)
    ensures var n, r := Step(m, h, done, run, write), Reconcile(m, h, done, run, write);
      && (n.Stop? ==> r.result == n.result && r.history == n.history)
      && (n.Retry? ==>
            && r.result == Reconcile(m, n.history, done + {n.version}, run, write).result
            && r.history == Reconcile(m, n.history, done + {n.version}, run, write).history
            && Expected(m).Keys - (done + {n.version}) == (Expected(m).Keys - done) - {n.version})
  {
  }

  /**
    The loop as the source runs it: a `processed` set of repaired versions grown in
    place, and the history table rewritten by the migrator and by each repair.
   */
  method ReconcileLoop(m: Manifest, h0: History, run: Runner, write: RepairWrite)
    returns (result: Result<(), Failure>, h: History)
    ensures result == Reconcile(m, h0, {}, run, write).result
    ensures h == Reconcile(m, h0, {}, run, write).history
  {
    ghost var final := Reconcile(m, h0, {}, run, write);
    var processed: set<Version> := {};
    h := h0;
    while true
      invariant Reconcile(m, h, processed, run, write).result == final.result
      invariant Reconcile(m, h, processed, run, write).history == final.history
      decreases |Expected(m).Keys - processed|
    {
      ghost var before, done := h, processed;
      ReconcileUnfold(m, h, processed, run, write);
      var step := run(h);
      h := step.history;
      match step.outcome {
        case Ok(_) =>
          assert Step(m, before, done, run, write) == Stop(Ok(()), h);
          return Ok(()), h;
        case Err(e) =>
          if !e.VersionMismatch? {
            assert Step(m, before, done, run, write) == Stop(Err(RunnerFailed(e)), h);
            return Err(RunnerFailed(e)), h;
          }
          var v := e.version;
          if v in processed {
            assert Step(m, before, done, run, write) == Stop(Err(Repeated(v)), h);
            return Err(Repeated(v)), h;
          }
          processed := processed + {v};
          var found := Find(m, v);
          if found.None? {
            assert Step(m, before, done, run, write) == Stop(Err(NotInManifest(v)), h);
            return Err(NotInManifest(v)), h;
          }
          var fault := write(h, v);
          if fault.Some? {
            assert Step(m, before, done, run, write) == Stop(Err(RepairFailed(fault.value)), h);
            return Err(RepairFailed(fault.value)), h;
          }
          h := Repair(h, v, found.value.checksum);
          assert Step(m, before, done, run, write) == Retry(v, h);
      }
    }
  }

  /** Whatever the migrator does, the loop runs it at most once per manifest entry, plus once. */
  lemma RunsBounded(m: Manifest, h: History, run: Runner, write: RepairWrite)
    ensures Reconcile(m, h, {}, run, write).runs <= |m| + 1
  {
    RepairsBounded(m, h, {}, run, write);
    ExpectedSize(m);
    assert Expected(m).Keys - {} == Expected(m).Keys;
  }

  /** A migrator that reports the same mismatch every time it runs. */
  function StuckRunner(v: Version): Runner {
    h => RunStep(h, Err(VersionMismatch(v)))
  }

  /**
    Against a migrator that keeps reporting one version, the loop still ends in an error:
    after one repair if the version is in the manifest, or at once if it is not.
   */
  lemma StuckRunnerFails(m: Manifest, h: History, v: Version, write: RepairWrite)
    ensures var r := Reconcile(m, h, {}, StuckRunner(v), write);
      && r.result.Err?
      && (v !in Expected(m) ==> r.result == Err(NotInManifest(v)) && r.history == h && r.repairs == [])
      && (v in Expected(m) && write(h, v).Some? ==>
            r.result == Err(RepairFailed(write(h, v).value)) && r.history == h && r.repairs == [])
      && (v in Expected(m) && write(h, v).None? ==>
            r.result == Err(Repeated(v)) && r.history == Repair(h, v, Expected(m)[v]) && r.repairs == [v])
  {
    var run := StuckRunner(v);
    if v in Expected(m) && write(h, v).None? {
      RepairThenRetry(m, h, {}, run, write);
      StopsWithoutRepair(m, Repair(h, v, Expected(m)[v]), {v}, run, write);
    } else {
      StopsWithoutRepair(m, h, {}, run, write);
    }
  }
}
