/** What the readiness count of core/cmd/server/health.go says about a database the migration runners share. */
module ReadyAfterMigrate {
  import opened Common
  import Migrate
  import Readiness

  /** While "up" runners interleave, readiness turns "ok" exactly when the whole pending list has been recorded. */
  lemma ReadyExactlyWhenAllApplied(c: Migrate.Config, init: seq<string>, created: bool, steps: seq<Migrate.Step>)
    requires c.up && Distinct(c.files) && c.files != []
    requires Migrate.Run(c, Migrate.Initial(init, created), steps).Some?
    ensures var s := Migrate.Run(c, Migrate.Initial(init, created), steps).value;
      Readiness.Compute(Readiness.Probe(true, true, false, true), Elements(s.recorded), c.files).code == Readiness.OK
      <==> s.recorded == init + Migrate.Pending(c.files, init)
  {
    Migrate.RunKeepsUpInv(c, init, created, steps);
    var s := Migrate.Run(c, Migrate.Initial(init, created), steps).value;
    Readiness.OkExactly(Readiness.Probe(true, true, false, true), Elements(s.recorded), c.files);
    Migrate.PendingMembers(c.files, init);
    assert c.files[..|c.files|] == c.files;
    var n :| 0 <= n <= |c.files| && s.recorded == init + Migrate.Pending(c.files[..n], init);
    if forall v :: v in c.files ==> v in s.recorded {
      forall j | 0 <= j < |c.files| ensures Migrate.Settled(c, s.recorded, c.files[j]) {
        assert c.files[j] in c.files;
      }
      Migrate.PendingStretch(c, init, n, |c.files|);
    }
  }

  /** Once any runner returned success the database is ready for the binary that shipped its files. */
  lemma SuccessMeansReady(c: Migrate.Config, init: seq<string>, created: bool, steps: seq<Migrate.Step>, r: Migrate.RunnerId)
    requires c.up && Distinct(c.files) && c.files != []
    requires Migrate.Run(c, Migrate.Initial(init, created), steps).Some?
    requires var s := Migrate.Run(c, Migrate.Initial(init, created), steps).value;
      r in s.phase && s.phase[r] == Migrate.Returned(true)
    ensures var s := Migrate.Run(c, Migrate.Initial(init, created), steps).value;
      Readiness.Compute(Readiness.Probe(true, true, false, true), Elements(s.recorded), c.files).code == Readiness.OK
  {
    Migrate.SuccessSettlesAll(c, init, created, steps, r);
    var s := Migrate.Run(c, Migrate.Initial(init, created), steps).value;
    Readiness.OkExactly(Readiness.Probe(true, true, false, true), Elements(s.recorded), c.files);
  }
}
