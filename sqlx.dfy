/**
  The part of the sqlx migration library that the reconciliation loop talks to:
  the compiled migration manifest, the `_sqlx_migrations` history table, the
  error types, and a concrete runner that behaves like sqlx's `Migrator::run`.
 */
module Sqlx {
  import opened Results

  /** A migration version (an `i64` in sqlx; versions are only compared, never computed with). */
  type Version = int
  /** The content checksum of a migration (a byte string). */
  type Checksum = seq<bv8>

  datatype Migration = Migration(version: Version, checksum: Checksum)

  /** The migrations compiled into the binary, in ascending version order. */
  type Manifest = seq<Migration>

  /** The `_sqlx_migrations` table: the checksum recorded for each applied version. */
  type History = map<Version, Checksum>

  /** `sqlx::Error`: a migration error, or any other error from the database driver. */
  datatype SqlxError =
    | Migrate(migrateError: MigrateError)
    | Database(message: string)

  /** `sqlx::migrate::MigrateError`, with the variants the loop distinguishes or produces. */
  datatype MigrateError =
    | VersionMismatch(version: Version)
    | VersionMissing(version: Version)
    | Dirty(version: Version)
    | Execute(cause: SqlxError)

  /** What one call of the migrator does: the history it leaves behind and what it reports. */
  datatype RunStep = RunStep(history: History, outcome: Result<(), MigrateError>)

  /** `migrator.run(pool)`, as a step over the history table. */
  type Runner = History -> RunStep

  predicate DistinctVersions(m: Manifest) {
    forall i, j :: 0 <= i < j < |m| ==> m[i].version != m[j].version
  }

  /** The order sqlx keeps its manifest in: strictly ascending versions. */
  predicate Ascending(m: Manifest) {
    forall i, j :: 0 <= i < j < |m| ==> m[i].version < m[j].version
  }

  lemma AscendingIsDistinct(m: Manifest)
    requires Ascending(m)
    ensures DistinctVersions(m)
  {
  }

  /** The history the manifest asks for: each version with its manifest checksum (the first entry wins). */
  function Expected(m: Manifest): (e: History)
    ensures forall i :: 0 <= i < |m| ==> m[i].version in e
    ensures DistinctVersions(m) ==> forall i :: 0 <= i < |m| ==> e[m[i].version] == m[i].checksum
  {
    if m == [] then map[]
    else
      var rest := Expected(m[1..]);
      assert forall i :: 1 <= i < |m| ==> m[i] == m[1..][i - 1];
      rest[m[0].version := m[0].checksum]
  }

  /** A version that no manifest entry carries is not expected. */
  lemma {:induction false} NotExpected(m: Manifest, v: Version)
    requires forall i :: 0 <= i < |m| ==> m[i].version != v
    ensures v !in Expected(m)
  {
    if m != [] {
      assert forall i :: 0 <= i < |m[1..]| ==> m[1..][i] == m[i + 1];
      NotExpected(m[1..], v);
    }
  }

  /** The versions the manifest asks for are exactly the versions of its entries. */
  lemma ExpectedKeys(m: Manifest)
    ensures Expected(m).Keys == set mig | mig in m :: mig.version
  {
    forall v ensures v in Expected(m) <==> exists mig :: mig in m && mig.version == v {
      if forall i :: 0 <= i < |m| ==> m[i].version != v {
        NotExpected(m, v);
      }
    }
  }

  lemma {:induction false} ExpectedSize(m: Manifest)
    ensures |Expected(m).Keys| <= |m|
  {
    if m != [] {
      ExpectedSize(m[1..]);
      assert Expected(m).Keys == Expected(m[1..]).Keys + {m[0].version};
    }
  }

  /** `migrator.iter().find(|m| m.version == version)`: the first manifest entry with that version. */
  function Find(m: Manifest, v: Version): (r: Option<Migration>)
    ensures r.Some? <==> v in Expected(m)
    ensures r.Some? ==> r.value == Migration(v, Expected(m)[v])
  {
    if m == [] then None
    else if m[0].version == v then Some(m[0])
    else Find(m[1..], v)
  }

  /**
    `h2` keeps every row of `h` unchanged, and every row it adds is the one `e` asks for:
    what applying pending migrations does to the history table.
   */
  ghost predicate Extends(h: History, h2: History, e: History) {
    && (forall k :: k in h ==> k in h2 && h2[k] == h[k])
    && (forall k :: k in h2 && k !in h ==> k in e && h2[k] == e[k])
  }

  /** The versions recorded in `h` whose stored checksum differs from the manifest's. */
  ghost function Stale(m: Manifest, h: History): set<Version> {
    set v | v in h && v in Expected(m) && h[v] != Expected(m)[v]
  }

  /**
    A well-behaved `Migrator::run`: go through the pending manifest entries in order;
    an applied entry whose stored checksum differs stops the run with `VersionMismatch`,
    an entry not yet applied is applied (its row is inserted with the manifest checksum).
   */
  function Apply(pending: Manifest, h: History): (s: RunStep)
    ensures Extends(h, s.history, Expected(pending))
    ensures s.outcome.Err? ==> s.outcome.error.VersionMismatch?
  {
    if pending == [] then RunStep(h, Ok(()))
    else
      var mig := pending[0];
      if mig.version in h then
        if h[mig.version] != mig.checksum then RunStep(h, Err(VersionMismatch(mig.version)))
        else Apply(pending[1..], h)
      else Apply(pending[1..], h[mig.version := mig.checksum])
  }

  /** The concrete runner for a manifest. */
  function ConcreteRunner(m: Manifest): Runner {
    h => Apply(m, h)
  }

  /** The first manifest entry does not reappear later, and `Expected` adds it on top of the rest. */
  lemma ExpectedCons(p: Manifest)
    requires p != [] && DistinctVersions(p)
    ensures DistinctVersions(p[1..])
    ensures p[0].version !in Expected(p[1..])
    ensures Expected(p) == Expected(p[1..])[p[0].version := p[0].checksum]
  {
    assert forall j :: 0 <= j < |p[1..]| ==> p[1..][j] == p[j + 1];
    NotExpected(p[1..], p[0].version);
  }

  /** Skipping a first entry that is already recorded with its checksum changes nothing drifted. */
  lemma StaleSkip(p: Manifest, h: History)
    requires p != [] && DistinctVersions(p)
    requires p[0].version in h && h[p[0].version] == p[0].checksum
    ensures Stale(p, h) == Stale(p[1..], h)
    ensures h + Expected(p) == h + Expected(p[1..])
  {
    ExpectedCons(p);
    var mig, e, e1 := p[0], Expected(p), Expected(p[1..]);
    forall v ensures v in Stale(p, h) <==> v in Stale(p[1..], h) {
      if v != mig.version {
        assert (v in e <==> v in e1) && (v in e ==> e[v] == e1[v]);
      }
    }
    assert h + e == h + e1 by {
      forall v | v in h + e ensures v in h + e1 && (h + e)[v] == (h + e1)[v] {
        if v != mig.version {
          assert (v in e <==> v in e1) && (v in e ==> e[v] == e1[v]);
        }
      }
    }
  }

  /** Recording a first entry that was not yet applied changes nothing drifted. */
  lemma StaleInsert(p: Manifest, h: History)
    requires p != [] && DistinctVersions(p)
    requires p[0].version !in h
    ensures Stale(p, h) == Stale(p[1..], h[p[0].version := p[0].checksum])
  {
    ExpectedCons(p);
    var mig, h1, e, e1 := p[0], h[p[0].version := p[0].checksum], Expected(p), Expected(p[1..]);
    forall v ensures v in Stale(p, h) <==> v in Stale(p[1..], h1) {
      if v == mig.version {
        assert v !in Stale(p, h) && v !in Stale(p[1..], h1);
      } else {
        assert (v in h <==> v in h1) && (v in e <==> v in e1);
      }
    }
  }

  /** Inserting the first entry, then the rest, yields the same history as inserting them all. */
  lemma MergeInsert(p: Manifest, h: History)
    requires p != [] && DistinctVersions(p)
    ensures h + Expected(p) == h[p[0].version := p[0].checksum] + Expected(p[1..])
  {
    ExpectedCons(p);
  }

  /**
    The concrete runner succeeds exactly when no recorded row has drifted, and then leaves
    the history holding every manifest row; otherwise it reports a drifted version.
   */
  lemma {:induction false} ApplyCorrect(p: Manifest, h: History)
    requires DistinctVersions(p)
    ensures var s := Apply(p, h);
      && (s.outcome.Ok? <==> Stale(p, h) == {})
      && (s.outcome.Ok? ==> s.history == h + Expected(p))
      && (s.outcome.Err? ==> s.outcome.error.version in Stale(p, h))
  {
    if p == [] {
      assert h + Expected(p) == h;
    } else {
      var mig := p[0];
      ExpectedCons(p);
      if mig.version in h {
        if h[mig.version] != mig.checksum {
          assert mig.version in Stale(p, h);
        } else {
          ApplyCorrect(p[1..], h);
          StaleSkip(p, h);
        }
      } else {
        ApplyCorrect(p[1..], h[mig.version := mig.checksum]);
        StaleInsert(p, h);
        MergeInsert(p, h);
      }
    }
  }

  /**
    The concrete runner reports the first drifted entry in manifest order: the version it
    names is that of an entry recorded with a different checksum, and every entry before it
    is either not yet recorded or recorded with its own checksum.
   */
  lemma {:induction false} ApplyStopsAtFirstDrift(p: Manifest, h: History)
    requires DistinctVersions(p)
    requires Apply(p, h).outcome.Err?
    ensures exists i :: 0 <= i < |p| && FirstDrift(p, h, i)
                        && p[i].version == Apply(p, h).outcome.error.version
  {
    var mig := p[0];
    if mig.version in h && h[mig.version] != mig.checksum {
      assert FirstDrift(p, h, 0);
    } else {
      var h1 := if mig.version in h then h else h[mig.version := mig.checksum];
      ExpectedCons(p);
      ApplyStopsAtFirstDrift(p[1..], h1);
      var i :| 0 <= i < |p[1..]| && FirstDrift(p[1..], h1, i)
               && p[1..][i].version == Apply(p[1..], h1).outcome.error.version;
      assert p[1..][i] == p[i + 1];
      forall j | 0 <= j < i + 1
        ensures p[j].version in h ==> h[p[j].version] == p[j].checksum
      {
        if j > 0 {
          assert p[1..][j - 1] == p[j];
          assert p[j].version != mig.version;
        }
      }
      assert p[i + 1].version != mig.version;
      assert FirstDrift(p, h, i + 1);
    }
  }

  /** Entry `i` is recorded with a different checksum, and no entry before it is. */
  ghost predicate FirstDrift(p: Manifest, h: History, i: int)
    requires 0 <= i < |p|
  {
    && p[i].version in h && h[p[i].version] != p[i].checksum
    && forall j :: 0 <= j < i ==> (p[j].version in h ==> h[p[j].version] == p[j].checksum)
  }

  /** Once every manifest row is laid over it, a history and its extension look the same. */
  lemma ExtendsMerge(h: History, h2: History, e: History)
    requires Extends(h, h2, e)
    ensures h2 + e == h + e
  {
    forall k ensures k in h2 + e <==> k in h + e {
      if k in h2 && k !in h {
        assert k in e;
      }
    }
    forall k | k in h2 + e ensures (h2 + e)[k] == (h + e)[k] {
      if k !in e {
        assert k in h;
      }
    }
  }

  /** Applying pending migrations never changes which recorded rows have drifted. */
  lemma StaleUnderExtends(m: Manifest, h: History, h2: History)
    requires Extends(h, h2, Expected(m))
    ensures Stale(m, h2) == Stale(m, h)
  {
    var e := Expected(m);
    forall v ensures v in Stale(m, h2) <==> v in Stale(m, h) {
      if v in h2 && v !in h {
        assert v in e && h2[v] == e[v];
      }
    }
  }
}
