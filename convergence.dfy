/**
  What the reconciliation loop achieves against the concrete migrator of `Sqlx.Apply`, with an
  UPDATE that does not fail and a manifest with distinct versions: it succeeds, repairs exactly
  the drifted rows once each, and leaves the history agreeing with the manifest.
 */
module Convergence {
  import opened Results
  import opened Sqlx
  import opened Reconciliation

  /** A checksum UPDATE that always succeeds. */
  function NeverFails(): RepairWrite {
    (h, v) => None
  }

  /** Repairing a drifted row removes exactly that row from the drifted set and adds nothing new. */
  lemma RepairClearsDrift(m: Manifest, h: History, v: Version)
    requires v in Stale(m, h)
    ensures Stale(m, Repair(h, v, Expected(m)[v])) == Stale(m, h) - {v}
    ensures Repair(h, v, Expected(m)[v]) + Expected(m) == h + Expected(m)
  {
  }

  /**
    When the concrete migrator fails, the loop body repairs one drifted version that was not
    repaired before, and the repaired history has one drifted row less and the same merge.
   */
  lemma ConcreteRepairStep(m: Manifest, h: History, done: set<Version>)
    requires DistinctVersions(m)
    requires done !! Stale(m, h)
    requires Apply(m, h).outcome.Err?
    ensures var s := Apply(m, h);
      var v := s.outcome.error.version;
      && v in Stale(m, h) && v !in done && v in Expected(m)
      && var h2 := Repair(s.history, v, Expected(m)[v]);
        && Step(m, h, done, ConcreteRunner(m), NeverFails()) == Retry(v, h2)
        && Stale(m, h2) == Stale(m, h) - {v}
        && h2 + Expected(m) == h + Expected(m)
  {
    var run, write := ConcreteRunner(m), NeverFails();
    var s := run(h);
    ApplyCorrect(m, h);
    var v := s.outcome.error.version;
    StaleUnderExtends(m, h, s.history);
    ExtendsMerge(h, s.history, Expected(m));
    RepairThenRetry(m, h, done, run, write);
    RepairClearsDrift(m, s.history, v);
  }

  /**
    From any history in which the versions already repaired are not drifted, the loop with
    the concrete migrator succeeds, repairs exactly the drifted versions, and ends with every
    manifest row recorded with its manifest checksum and every other row untouched.
   */
  lemma {:induction false} ConcreteConverges(m: Manifest, h: History, done: set<Version>)
    requires DistinctVersions(m)
    requires done !! Stale(m, h)
    ensures var r := Reconcile(m, h, done, ConcreteRunner(m), NeverFails());
      && r.result == Ok(())
      && r.history == h + Expected(m)
      && (forall v :: v in r.repairs <==> v in Stale(m, h))
    decreases |Expected(m).Keys - done|
  {
    var run, write := ConcreteRunner(m), NeverFails();
    ApplyCorrect(m, h);
    if Apply(m, h).outcome.Ok? {
      StopsWithoutRepair(m, h, done, run, write);
    } else {
      var s := Apply(m, h);
      var v := s.outcome.error.version;
      var h2 := Repair(s.history, v, Expected(m)[v]);
      ConcreteRepairStep(m, h, done);
      assert Expected(m).Keys - (done + {v}) == (Expected(m).Keys - done) - {v};
      ConcreteConverges(m, h2, done + {v});
      var rest := Reconcile(m, h2, done + {v}, run, write);
      var r := Reconcile(m, h, done, run, write);
      assert r.result == rest.result && r.history == rest.history && r.repairs == [v] + rest.repairs;
      forall x ensures x in r.repairs <==> x in Stale(m, h) {
        assert x in r.repairs <==> x == v || x in rest.repairs;
      }
    }
  }

  /**
    The migrations of an ascending manifest always converge: the loop succeeds, each drifted
    row is repaired once, and every manifest version ends up recorded with its checksum.
   */
  lemma MigrationsConverge(m: Manifest, h: History)
    requires Ascending(m)
    ensures var r := Reconcile(m, h, {}, ConcreteRunner(m), NeverFails());
      && r.result == Ok(())
      && r.history == h + Expected(m)
      && (forall i :: 0 <= i < |m| ==> r.history[m[i].version] == m[i].checksum)
      && (forall v :: v in r.repairs <==> v in Stale(m, h))
      && (forall i, j :: 0 <= i < j < |r.repairs| ==> r.repairs[i] != r.repairs[j])
  {
    AscendingIsDistinct(m);
    ConcreteConverges(m, h, {});
    RepairsOncePerVersion(m, h, {}, ConcreteRunner(m), NeverFails());
  }

  /** One out-of-band corrupted row is repaired exactly once, and the loop then succeeds. */
  lemma OneDriftedRowOneRepair(m: Manifest, h: History, v: Version)
    requires Ascending(m)
    requires Stale(m, h) == {v}
    ensures var r := Reconcile(m, h, {}, ConcreteRunner(m), NeverFails());
      && r.result == Ok(()) && r.repairs == [v] && r.runs == 2
      && v in r.history && v in Expected(m) && r.history[v] == Expected(m)[v]
  {
    AscendingIsDistinct(m);
    var run, write := ConcreteRunner(m), NeverFails();
    ConcreteConverges(m, h, {});
    RepairsOncePerVersion(m, h, {}, run, write);
    var r := Reconcile(m, h, {}, run, write);
    var repairs := r.repairs;
    assert r.history[v] == Expected(m)[v] by {
      assert v in Stale(m, h);
      assert v in Expected(m) && r.history == h + Expected(m);
    }
    RepairsCounted(repairs);
    assert (set x | x in repairs) == {v} by {
      forall x ensures x in repairs <==> x == v {
        assert x in repairs <==> x in Stale(m, h);
      }
    }
  }

  /** A sequence without repeats has as many elements as its set of elements. */
  lemma {:induction false} RepairsCounted(s: seq<Version>)
    requires forall i, j :: 0 <= i < j < |s| ==> s[i] != s[j]
    ensures |set x | x in s| == |s|
  {
    if s != [] {
      var tail := s[1..];
      assert forall i, j :: 0 <= i < j < |tail| ==> tail[i] != tail[j] by {
        assert forall i :: 0 <= i < |tail| ==> tail[i] == s[i + 1];
      }
      RepairsCounted(tail);
      assert (set x | x in s) == (set x | x in tail) + {s[0]};
      assert s[0] !in tail by {
        assert forall i :: 0 <= i < |tail| ==> tail[i] == s[i + 1];
      }
    }
  }

  /** A fresh database reconciles in one pass, with no repair, to exactly the manifest rows. */
  lemma FreshDatabase(m: Manifest)
    requires Ascending(m)
    ensures Reconcile(m, map[], {}, ConcreteRunner(m), NeverFails())
            == LoopRun(Ok(()), Expected(m), [], 1)
  {
    MigrationsConverge(m, map[]);
    assert Stale(m, map[]) == {};
    assert map[] + Expected(m) == Expected(m);
  }

  /** Reconciling a second time succeeds at once and writes nothing. */
  lemma SecondRunIsNoOp(m: Manifest, h: History)
    requires Ascending(m)
    ensures var h1 := Reconcile(m, h, {}, ConcreteRunner(m), NeverFails()).history;
      Reconcile(m, h1, {}, ConcreteRunner(m), NeverFails()) == LoopRun(Ok(()), h1, [], 1)
  {
    MigrationsConverge(m, h);
    var h1 := h + Expected(m);
    assert Stale(m, h1) == {};
    MigrationsConverge(m, h1);
    assert h1 + Expected(m) == h1;
  }
}
